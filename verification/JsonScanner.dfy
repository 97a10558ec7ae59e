/**
 The scanner json.Unmarshal runs over a document before it decodes it. Scanning
 and printing are inverse to each other: what ScanDoc consumes is the text of
 the tree it returns (ScanDocSound), and the text of every well-formed tree is
 scanned back to that tree (ScanDocComplete). So every accepted text has exactly
 one tree, and the grammar is unambiguous.
 */
module JsonScanner {
  import opened Runes
  import opened Wrappers
  import opened JsonGrammar

  function SkipWs(t: Text): (r: (Text, Text))
    ensures t == r.0 + r.1 && AllWs(r.0) && (r.1 != [] ==> !IsWs(r.1[0]))
  {
    var n := Span(IsWs, t);
    (t[..n], t[n..])
  }

  function TakeDigits(t: Text): (r: (Text, Text))
    ensures t == r.0 + r.1 && AllDigits(r.0) && (r.1 != [] ==> !IsDigit(r.1[0]))
  {
    var n := Span(IsDigit, t);
    (t[..n], t[n..])
  }

  function ScanWhole(t: Text): Option<(Text, Text)> {
    if t == [] || !IsDigit(t[0]) then None
    else if t[0] == '0' as int then Some((t[..1], t[1..]))
    else Some(TakeDigits(t))
  }

  function ScanFrac(t: Text): Option<(Option<Text>, Text)> {
    if t == [] || t[0] != '.' as int then Some((None, t))
    else
      var (digits, rest) := TakeDigits(t[1..]);
      if digits == [] then None else Some((Some(digits), rest))
  }

  function ScanSign(t: Text): (r: (Text, Text))
    ensures t == r.0 + r.1 && (r.0 == [] || (|r.0| == 1 && IsSign(r.0[0])))
  {
    if t != [] && IsSign(t[0]) then (t[..1], t[1..]) else ([], t)
  }

  function ScanExp(t: Text): Option<(Option<Exponent>, Text)> {
    if t == [] || !IsMarker(t[0]) then Option.Some((None, t))
    else
      var (sign, t1) := ScanSign(t[1..]);
      var (digits, rest) := TakeDigits(t1);
      if digits == [] then None else Some((Some(Exponent(t[0], sign, digits)), rest))
  }

  function ScanNumber(t: Text): Option<(Number, Text)> {
    var negative := t != [] && t[0] == '-' as int;
    var (whole, t1) :- ScanWhole(if negative then t[1..] else t);
    var (frac, t2) :- ScanFrac(t1);
    var (exp, rest) :- ScanExp(t2);
    Some((Number(negative, whole, frac, exp), rest))
  }

  function ScanChunk(t: Text): (r: Option<(Chunk, Text)>)
    ensures r.Some? ==> WfChunk(r.value.0) && t == ChunkText(r.value.0) + r.value.1
  {
    if t == [] || t[0] < 0x20 || t[0] == '"' as int then None
    else if t[0] != '\\' as int then Some((Plain(t[0]), t[1..]))
    else if |t| >= 2 && IsEscapeLetter(t[1]) then Some((Short(t[1]), t[2..]))
    else if |t| >= 6 && t[1] == 'u' as int && IsHex(t[2]) && IsHex(t[3]) && IsHex(t[4]) && IsHex(t[5]) then
      Some((Hex(t[2], t[3], t[4], t[5]), t[6..]))
    else None
  }

  /** Scans a string after its opening quotation mark, and the closing one. */
  function ScanChunks(t: Text): (r: Option<(seq<Chunk>, Text)>)
    ensures r.Some? ==> |r.value.1| < |t|
  {
    if t != [] && t[0] == '"' as int then Some(([], t[1..]))
    else
      var (c, t1) :- ScanChunk(t);
      assert |t1| < |t|;
      var (more, rest) :- ScanChunks(t1);
      Some(([c] + more, rest))
  }

  function ScanKeyword(word: Text, doc: Doc, t: Text): (r: Option<(Doc, Text)>)
    ensures r.Some? ==> r.value.0 == doc && t == word + r.value.1
  {
    if word <= t then Some((doc, t[|word|..])) else None
  }

  /** Scans one value that starts at the front of t. */
  function ScanDoc(t: Text, depth: nat): (r: Option<(Doc, Text)>)
    ensures r.Some? ==> |r.value.1| < |t|
    decreases depth, |t|, 1
  {
    if t == [] then None
    else if t[0] == '{' as int then
      if depth == 0 then None else ScanObject(t[1..], depth - 1)
    else if t[0] == '[' as int then
      if depth == 0 then None else ScanArray(t[1..], depth - 1)
    else if t[0] == '"' as int then
      var (chunks, rest) :- ScanChunks(t[1..]);
      Some((DString(chunks), rest))
    else if t[0] == 'n' as int then ScanKeyword(NULL, DNull, t)
    else if t[0] == 't' as int then ScanKeyword(TRUE, DTrue, t)
    else if t[0] == 'f' as int then ScanKeyword(FALSE, DFalse, t)
    else
      var (n, rest) :- ScanNumber(t);
      ScanNumberSound(t);
      Some((DNumber(n), rest))
  }

  function ScanArray(t: Text, depth: nat): (r: Option<(Doc, Text)>)
    ensures r.Some? ==> |r.value.1| <= |t|
    decreases depth, |t|, 4
  {
    var (pad, t1) := SkipWs(t);
    if t1 != [] && t1[0] == ']' as int then Some((DArray(pad, []), t1[1..]))
    else
      var (items, rest) :- ScanItems(t, depth);
      Some((DArray([], items), rest))
  }

  function ScanItem(t: Text, depth: nat): (r: Option<(Item, Text)>)
    ensures r.Some? ==> |r.value.1| < |t|
    decreases depth, |t|, 2
  {
    var (before, t1) := SkipWs(t);
    var (doc, t2) :- ScanDoc(t1, depth);
    var (after, rest) := SkipWs(t2);
    Some((Item(before, doc, after), rest))
  }

  function ScanItems(t: Text, depth: nat): (r: Option<(seq<Item>, Text)>)
    ensures r.Some? ==> r.value.0 != [] && |r.value.1| < |t|
    decreases depth, |t|, 3
  {
    var (item, t1) :- ScanItem(t, depth);
    if t1 == [] then None
    else if t1[0] == ']' as int then Some(([item], t1[1..]))
    else if t1[0] == ',' as int then
      var (more, rest) :- ScanItems(t1[1..], depth);
      Some(([item] + more, rest))
    else None
  }

  function ScanObject(t: Text, depth: nat): (r: Option<(Doc, Text)>)
    ensures r.Some? ==> |r.value.1| <= |t|
    decreases depth, |t|, 4
  {
    var (gap, t1) := SkipWs(t);
    if t1 != [] && t1[0] == '}' as int then Some((DObject(gap, []), t1[1..]))
    else
      var (members, rest) :- ScanMembers(t, depth);
      Some((DObject([], members), rest))
  }

  /** Scans a member name with the whitespace around it and the colon after it. */
  function ScanKey(t: Text): (r: Option<(Text, seq<Chunk>, Text, Text)>)
    ensures r.Some? ==> |r.value.3| < |t|
  {
    var (before, t1) := SkipWs(t);
    if t1 == [] || t1[0] != '"' as int then None
    else
      var (key, t2) :- ScanChunks(t1[1..]);
      var (mid, t3) := SkipWs(t2);
      if t3 == [] || t3[0] != ':' as int then None else Some((before, key, mid, t3[1..]))
  }

  function ScanMember(t: Text, depth: nat): (r: Option<(Member, Text)>)
    ensures r.Some? ==> |r.value.1| < |t|
    decreases depth, |t|, 2
  {
    var (before, key, mid, t1) :- ScanKey(t);
    var (gap, t2) := SkipWs(t1);
    var (doc, t3) :- ScanDoc(t2, depth);
    var (after, rest) := SkipWs(t3);
    Some((Member(before, key, mid, gap, doc, after), rest))
  }

  function ScanMembers(t: Text, depth: nat): (r: Option<(seq<Member>, Text)>)
    ensures r.Some? ==> r.value.0 != [] && |r.value.1| < |t|
    decreases depth, |t|, 3
  {
    var (member, t1) :- ScanMember(t, depth);
    if t1 == [] then None
    else if t1[0] == '}' as int then Some(([member], t1[1..]))
    else if t1[0] == ',' as int then
      var (more, rest) :- ScanMembers(t1[1..], depth);
      Some(([member] + more, rest))
    else None
  }

  // ---------- Soundness: what is consumed is the text of the tree ----------

  lemma Front(t: Text)
    requires t != []
    ensures t == [t[0]] + t[1..]
  {
  }

  lemma ScanNumberSound(t: Text)
    requires ScanNumber(t).Some?
    ensures var (n, rest) := ScanNumber(t).value;
            WfNumber(n) && t == NumberText(n, rest) && |rest| < |t|
  {
    var negative := t != [] && t[0] == '-' as int;
    var t0 := if negative then t[1..] else t;
    assert t == (if negative then ['-' as int] else []) + t0;
    ScanWholeSound(t0);
    var (whole, t1) := ScanWhole(t0).value;
    ScanFracSound(t1);
    ScanExpSound(ScanFrac(t1).value.1);
  }

  lemma ScanWholeSound(t: Text)
    requires ScanWhole(t).Some?
    ensures var (whole, rest) := ScanWhole(t).value;
            && t == whole + rest && whole != [] && AllDigits(whole)
            && (whole[0] == '0' as int ==> |whole| == 1)
  {
  }

  lemma ScanFracSound(t: Text)
    requires ScanFrac(t).Some?
    ensures var (frac, rest) := ScanFrac(t).value;
            && t == FracText(frac, rest) && |rest| <= |t|
            && (frac.Some? ==> frac.value != [] && AllDigits(frac.value))
  {
    if t != [] {
      Front(t);
    }
  }

  lemma ScanExpSound(t: Text)
    requires ScanExp(t).Some?
    ensures var (exp, rest) := ScanExp(t).value;
            && t == ExpText(exp, rest) && |rest| <= |t|
            && (exp.Some? ==> WfExponent(exp.value))
  {
    if t != [] && IsMarker(t[0]) {
      Front(t);
      var (sign, t1) := ScanSign(t[1..]);
      var (digits, rest) := TakeDigits(t1);
      assert ScanExp(t).value == (Some(Exponent(t[0], sign, digits)), rest);
    }
  }

  lemma {:induction false} ScanChunksSound(t: Text)
    requires ScanChunks(t).Some?
    ensures var (chunks, rest) := ScanChunks(t).value;
            WfChunks(chunks) && t == ChunksText(chunks, rest)
    decreases |t|
  {
    if t != [] && t[0] == '"' as int {
      assert t == QUOTE + t[1..];
    } else {
      var (c, t1) := ScanChunk(t).value;
      ScanChunksSound(t1);
      var (more, rest) := ScanChunks(t1).value;
      assert ([c] + more)[1..] == more;
    }
  }

  lemma {:induction false} ScanDocSound(t: Text, depth: nat)
    requires ScanDoc(t, depth).Some?
    ensures var (d, rest) := ScanDoc(t, depth).value;
            Wf(d, depth) && t == DocText(d, rest)
    decreases depth, |t|, 1
  {
    assert t == t[..1] + t[1..];
    if t[0] == '{' as int {
      ScanObjectSound(t[1..], depth - 1);
    } else if t[0] == '[' as int {
      ScanArraySound(t[1..], depth - 1);
    } else if t[0] == '"' as int {
      ScanChunksSound(t[1..]);
    } else if t[0] == 'n' as int || t[0] == 't' as int || t[0] == 'f' as int {
    } else {
      ScanNumberSound(t);
    }
  }

  lemma {:induction false} ScanArraySound(t: Text, depth: nat)
    requires ScanArray(t, depth).Some?
    ensures var (d, rest) := ScanArray(t, depth).value;
            Wf(d, depth + 1) && ['[' as int] + t == DocText(d, rest)
    decreases depth, |t|, 4
  {
    var (pad, t1) := SkipWs(t);
    if t1 != [] && t1[0] == ']' as int {
      assert t1 == [']' as int] + t1[1..];
    } else {
      ScanItemsSound(t, depth);
    }
  }

  lemma {:induction false} ScanItemSound(t: Text, depth: nat)
    requires ScanItem(t, depth).Some?
    ensures var (item, rest) := ScanItem(t, depth).value;
            WfItem(item, depth) && t == ItemText(item, rest)
    decreases depth, |t|, 2
  {
    ScanDocSound(SkipWs(t).1, depth);
  }

  lemma {:induction false} ScanItemsSound(t: Text, depth: nat)
    requires ScanItems(t, depth).Some?
    ensures var (items, rest) := ScanItems(t, depth).value;
            WfItems(items, depth) && t == ItemsText(items, rest)
    decreases depth, |t|, 3
  {
    ScanItemSound(t, depth);
    var (item, t1) := ScanItem(t, depth).value;
    Front(t1);
    if t1[0] == ',' as int {
      ScanItemsSound(t1[1..], depth);
      var (more, _) := ScanItems(t1[1..], depth).value;
      assert ([item] + more)[1..] == more;
    }
  }

  lemma {:induction false} ScanObjectSound(t: Text, depth: nat)
    requires ScanObject(t, depth).Some?
    ensures var (d, rest) := ScanObject(t, depth).value;
            Wf(d, depth + 1) && ['{' as int] + t == DocText(d, rest)
    decreases depth, |t|, 4
  {
    var (gap, t1) := SkipWs(t);
    if t1 != [] && t1[0] == '}' as int {
      assert t1 == ['}' as int] + t1[1..];
    } else {
      ScanMembersSound(t, depth);
    }
  }

  lemma ScanKeySound(t: Text)
    requires ScanKey(t).Some?
    ensures var (before, key, mid, rest) := ScanKey(t).value;
            && AllWs(before) && AllWs(mid) && WfChunks(key)
            && t == KeyText(before, key, mid, rest)
  {
    var (before, t1) := SkipWs(t);
    Front(t1);
    ScanChunksSound(t1[1..]);
    var (key, t2) := ScanChunks(t1[1..]).value;
    var (mid, t3) := SkipWs(t2);
    Front(t3);
  }

  lemma {:induction false} ScanMemberSound(t: Text, depth: nat)
    requires ScanMember(t, depth).Some?
    ensures var (member, rest) := ScanMember(t, depth).value;
            WfMember(member, depth) && t == MemberText(member, rest)
    decreases depth, |t|, 2
  {
    ScanKeySound(t);
    ScanDocSound(SkipWs(ScanKey(t).value.3).1, depth);
  }

  lemma {:induction false} ScanMembersSound(t: Text, depth: nat)
    requires ScanMembers(t, depth).Some?
    ensures var (members, rest) := ScanMembers(t, depth).value;
            WfMembers(members, depth) && t == MembersText(members, rest)
    decreases depth, |t|, 3
  {
    ScanMemberSound(t, depth);
    var (member, t1) := ScanMember(t, depth).value;
    Front(t1);
    if t1[0] == ',' as int {
      ScanMembersSound(t1[1..], depth);
      var (more, _) := ScanMembers(t1[1..], depth).value;
      assert ([member] + more)[1..] == more;
    }
  }

  // ---------- Completeness: the text of every tree is scanned back ----------

  /** rest cannot continue a value: it is empty or starts with whitespace or , ] }. */
  predicate Ends(rest: Text) {
    rest == [] || IsWs(rest[0]) || rest[0] == ',' as int || rest[0] == ']' as int || rest[0] == '}' as int
  }

  lemma SkipWsExact(ws: Text, rest: Text)
    requires AllWs(ws) && (rest == [] || !IsWs(rest[0]))
    ensures SkipWs(ws + rest) == (ws, rest)
  {
    var t := ws + rest;
    assert forall i :: 0 <= i < |ws| ==> t[i] == ws[i];
    assert rest != [] ==> t[|ws|] == rest[0];
    assert Span(IsWs, t) == |ws|;
  }

  lemma TakeDigitsExact(digits: Text, rest: Text)
    requires AllDigits(digits) && (rest == [] || !IsDigit(rest[0]))
    ensures TakeDigits(digits + rest) == (digits, rest)
  {
    var t := digits + rest;
    assert forall i :: 0 <= i < |digits| ==> t[i] == digits[i];
    assert rest != [] ==> t[|digits|] == rest[0];
    assert Span(IsDigit, t) == |digits|;
  }

  lemma Behind(head: Text, tail: Text)
    ensures (head + tail)[|head|..] == tail && (head + tail)[..|head|] == head
    ensures forall i :: 0 <= i < |head| ==> (head + tail)[i] == head[i]
  {
  }

  lemma ScanExpComplete(exp: Option<Exponent>, rest: Text)
    requires exp.Some? ==> WfExponent(exp.value)
    requires rest == [] || (!IsDigit(rest[0]) && !IsMarker(rest[0]))
    ensures ScanExp(ExpText(exp, rest)) == Some((exp, rest))
  {
    if exp.Some? {
      var e := exp.value;
      TakeDigitsExact(e.digits, rest);
      ScanSignComplete(e.sign, e.digits + rest);
      Behind([e.marker], e.sign + (e.digits + rest));
    }
  }

  lemma ScanSignComplete(sign: Text, rest: Text)
    requires sign == [] || (|sign| == 1 && IsSign(sign[0]))
    requires rest != [] && !IsSign(rest[0])
    ensures ScanSign(sign + rest) == (sign, rest)
  {
    Behind(sign, rest);
    assert [] + rest == rest;
  }

  lemma ScanFracComplete(frac: Option<Text>, rest: Text)
    requires frac.Some? ==> frac.value != [] && AllDigits(frac.value)
    requires rest == [] || (!IsDigit(rest[0]) && rest[0] != '.' as int)
    ensures ScanFrac(FracText(frac, rest)) == Some((frac, rest))
  {
    if frac.Some? {
      TakeDigitsExact(frac.value, rest);
      Behind(['.' as int], frac.value + rest);
    }
  }

  lemma ScanWholeComplete(whole: Text, rest: Text)
    requires whole != [] && AllDigits(whole) && (whole[0] == '0' as int ==> |whole| == 1)
    requires rest == [] || !IsDigit(rest[0])
    ensures ScanWhole(whole + rest) == Some((whole, rest))
  {
    Behind(whole, rest);
    if whole[0] != '0' as int {
      TakeDigitsExact(whole, rest);
    }
  }

  lemma ScanNumberComplete(n: Number, rest: Text)
    requires WfNumber(n) && Ends(rest)
    ensures ScanNumber(NumberText(n, rest)) == Some((n, rest))
  {
    var t2 := ExpText(n.exp, rest);
    ScanExpComplete(n.exp, rest);
    var t1 := FracText(n.frac, t2);
    ScanFracComplete(n.frac, t2);
    ScanWholeComplete(n.whole, t1);
    SignStep(n.negative, n.whole + t1);
  }

  lemma SignStep(negative: bool, t0: Text)
    requires t0 != [] && IsDigit(t0[0])
    ensures var t := (if negative then ['-' as int] else []) + t0;
            (t[0] == '-' as int) == negative && (if negative then t[1..] else t) == t0
  {
  }

  lemma ScanChunkComplete(c: Chunk, rest: Text)
    requires WfChunk(c)
    ensures ScanChunk(ChunkText(c) + rest) == Some((c, rest))
  {
    Behind(ChunkText(c), rest);
  }

  lemma {:induction false} ScanChunksComplete(chunks: seq<Chunk>, rest: Text)
    requires WfChunks(chunks)
    ensures ScanChunks(ChunksText(chunks, rest)) == Some((chunks, rest))
  {
    if chunks == [] {
      Behind(QUOTE, rest);
    } else {
      var t1 := ChunksText(chunks[1..], rest);
      ScanChunkComplete(chunks[0], t1);
      ScanChunksComplete(chunks[1..], rest);
      Behind(ChunkText(chunks[0]), t1);
      assert [chunks[0]] + chunks[1..] == chunks;
    }
  }

  /** A value starts with a printing ASCII character other than a closing bracket. */
  predicate Starts(t: Text) {
    t != [] && 0x21 <= t[0] <= 0x7E && t[0] != ']' as int && t[0] != '}' as int
  }

  lemma DocStarts(d: Doc, depth: nat, rest: Text)
    requires Wf(d, depth)
    ensures Starts(DocText(d, rest))
  {
  }

  lemma {:induction false} ScanDocComplete(d: Doc, depth: nat, rest: Text)
    requires Wf(d, depth) && Ends(rest)
    ensures ScanDoc(DocText(d, rest), depth) == Some((d, rest))
    decreases d, 1
  {
    match d {
      case DNull => Behind(NULL, rest);
      case DTrue => Behind(TRUE, rest);
      case DFalse => Behind(FALSE, rest);
      case DNumber(n) => ScanNumberComplete(n, rest);
      case DString(chunks) =>
        Behind(QUOTE, ChunksText(chunks, rest));
        ScanChunksComplete(chunks, rest);
      case DArray(pad, items) => ScanArrayComplete(d, depth, rest);
      case DObject(gap, members) => ScanObjectComplete(d, depth, rest);
    }
  }

  lemma EnterArray(t: Text, depth: nat)
    requires depth > 0
    ensures ScanDoc(['[' as int] + t, depth) == ScanArray(t, depth - 1)
  {
    Behind(['[' as int], t);
  }

  lemma EmptyArray(pad: Text, depth: nat, rest: Text)
    requires AllWs(pad)
    ensures ScanArray(pad + ([']' as int] + rest), depth) == Some((DArray(pad, []), rest))
  {
    SkipWsExact(pad, [']' as int] + rest);
    Behind([']' as int], rest);
  }

  lemma {:induction false} ScanArrayComplete(d: Doc, depth: nat, rest: Text)
    requires d.DArray? && Wf(d, depth)
    ensures ScanDoc(DocText(d, rest), depth) == Some((d, rest))
    decreases d, 0, 1
  {
    if d.items == [] {
      EmptyArray(d.pad, depth - 1, rest);
      EnterArray(d.pad + ([']' as int] + rest), depth);
    } else {
      var t := ItemsText(d.items, rest);
      ScanItemsComplete(d.items, depth - 1, rest);
      ItemsStart(d.items, depth - 1, rest);
      assert ScanArray(t, depth - 1) == Some((DArray([], d.items), rest));
      EnterArray(t, depth);
    }
  }

  lemma ItemsStart(items: seq<Item>, depth: nat, rest: Text)
    requires items != [] && WfItems(items, depth)
    ensures Starts(SkipWs(ItemsText(items, rest)).1)
  {
    var i := items[0];
    var tail := if |items| == 1 then [']' as int] + rest else COMMA + ItemsText(items[1..], rest);
    DocStarts(i.doc, depth, i.after + tail);
    SkipWsExact(i.before, DocText(i.doc, i.after + tail));
  }

  lemma {:induction false} ScanItemComplete(i: Item, depth: nat, rest: Text)
    requires WfItem(i, depth) && rest != [] && (rest[0] == ',' as int || rest[0] == ']' as int)
    ensures ScanItem(ItemText(i, rest), depth) == Some((i, rest))
    decreases i, 2
  {
    DocStarts(i.doc, depth, i.after + rest);
    SkipWsExact(i.before, DocText(i.doc, i.after + rest));
    ScanDocComplete(i.doc, depth, i.after + rest);
    SkipWsExact(i.after, rest);
  }

  lemma {:induction false} ScanItemsComplete(items: seq<Item>, depth: nat, rest: Text)
    requires items != [] && WfItems(items, depth)
    ensures ScanItems(ItemsText(items, rest), depth) == Some((items, rest))
    decreases items, 0
  {
    if |items| == 1 {
      assert items == [items[0]];
      Behind([']' as int], rest);
      ScanItemComplete(items[0], depth, [']' as int] + rest);
    } else {
      var more := ItemsText(items[1..], rest);
      assert items == [items[0]] + items[1..];
      Behind(COMMA, more);
      ScanItemComplete(items[0], depth, COMMA + more);
      ScanItemsComplete(items[1..], depth, rest);
    }
  }

  lemma EnterObject(t: Text, depth: nat)
    requires depth > 0
    ensures ScanDoc(['{' as int] + t, depth) == ScanObject(t, depth - 1)
  {
    Behind(['{' as int], t);
  }

  lemma EmptyObject(gap: Text, depth: nat, rest: Text)
    requires AllWs(gap)
    ensures ScanObject(gap + (['}' as int] + rest), depth) == Some((DObject(gap, []), rest))
  {
    SkipWsExact(gap, ['}' as int] + rest);
    Behind(['}' as int], rest);
  }

  lemma {:induction false} ScanObjectComplete(d: Doc, depth: nat, rest: Text)
    requires d.DObject? && Wf(d, depth)
    ensures ScanDoc(DocText(d, rest), depth) == Some((d, rest))
    decreases d, 0, 1
  {
    if d.members == [] {
      EmptyObject(d.gap, depth - 1, rest);
      EnterObject(d.gap + (['}' as int] + rest), depth);
    } else {
      var t := MembersText(d.members, rest);
      ScanMembersComplete(d.members, depth - 1, rest);
      MembersStart(d.members, depth - 1, rest);
      assert ScanObject(t, depth - 1) == Some((DObject([], d.members), rest));
      EnterObject(t, depth);
    }
  }

  lemma MembersStart(members: seq<Member>, depth: nat, rest: Text)
    requires members != [] && WfMembers(members, depth)
    ensures Starts(SkipWs(MembersText(members, rest)).1)
  {
    var m := members[0];
    var tail := if |members| == 1 then ['}' as int] + rest else COMMA + MembersText(members[1..], rest);
    SkipWsExact(m.before, QUOTE + ChunksText(m.key, m.mid + (COLON + (m.gap + DocText(m.doc, m.after + tail)))));
  }

  lemma ScanKeyComplete(before: Text, key: seq<Chunk>, mid: Text, tail: Text)
    requires AllWs(before) && WfChunks(key) && AllWs(mid)
    ensures ScanKey(KeyText(before, key, mid, tail)) == Some((before, key, mid, tail))
  {
    var t3 := COLON + tail;
    var t1 := ChunksText(key, mid + t3);
    SkipWsExact(before, QUOTE + t1);
    Behind(QUOTE, t1);
    ScanChunksComplete(key, mid + t3);
    SkipWsExact(mid, t3);
    Behind(COLON, tail);
  }

  /** Behind a scanned key, a member is whitespace, a value and whitespace. */
  lemma MemberFromParts(t: Text, m: Member, t1: Text, t2: Text, t3: Text, rest: Text, depth: nat)
    requires ScanKey(t) == Some((m.before, m.key, m.mid, t1)) && SkipWs(t1) == (m.gap, t2)
    requires ScanDoc(t2, depth) == Some((m.doc, t3)) && SkipWs(t3) == (m.after, rest)
    ensures ScanMember(t, depth) == Some((m, rest))
  {
  }

  lemma {:induction false} ScanMemberComplete(m: Member, depth: nat, rest: Text)
    requires WfMember(m, depth) && rest != [] && (rest[0] == ',' as int || rest[0] == '}' as int)
    ensures ScanMember(MemberText(m, rest), depth) == Some((m, rest))
    decreases m, 2
  {
    var t3 := m.after + rest;
    var t2 := DocText(m.doc, t3);
    ScanKeyComplete(m.before, m.key, m.mid, m.gap + t2);
    DocStarts(m.doc, depth, t3);
    SkipWsExact(m.gap, t2);
    SkipWsExact(m.after, rest);
    ScanDocComplete(m.doc, depth, t3);
    MemberFromParts(MemberText(m, rest), m, m.gap + t2, t2, t3, rest, depth);
  }

  lemma {:induction false} ScanMembersComplete(members: seq<Member>, depth: nat, rest: Text)
    requires members != [] && WfMembers(members, depth)
    ensures ScanMembers(MembersText(members, rest), depth) == Some((members, rest))
    decreases members, 0
  {
    if |members| == 1 {
      assert members == [members[0]];
      Behind(['}' as int], rest);
      ScanMemberComplete(members[0], depth, ['}' as int] + rest);
    } else {
      var more := MembersText(members[1..], rest);
      assert members == [members[0]] + members[1..];
      Behind(COMMA, more);
      ScanMemberComplete(members[0], depth, COMMA + more);
      ScanMembersComplete(members[1..], depth, rest);
    }
  }
}
