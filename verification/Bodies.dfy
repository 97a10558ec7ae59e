/**
 What a request body means and the canonical bytes that stand for it. The main
 results: canonical bytes are equal exactly when two bodies mean the same
 (CanonicalSeparates), formatting does not change the meaning (LayoutIrrelevant,
 ReorderedMembers), and canonicalising twice changes nothing (CanonicalIdempotent).
 */
module Bodies {
  import opened Runes
  import opened Wrappers
  import opened JsonGrammar
  import opened JsonScanner
  import opened Json

  /** json.Unmarshal into an empty interface. */
  function Decode(norm: Rounding, t: Text): Option<JSON> {
    var (d, t1) :- ScanDoc(SkipWs(t).1, MAX_NESTING);
    if SkipWs(t1).1 != [] then None else Value(norm, d)
  }

  datatype Meaning = Blank | Document(value: JSON) | Verbatim(text: Text)

  /** Blank, a JSON value, or anything else taken byte for byte. */
  function Read(norm: Rounding, body: Text): Meaning {
    var trimmed := TrimSpace(body);
    if trimmed == [] then Blank
    else
      var v := Decode(norm, trimmed);
      if v.None? then Verbatim(trimmed) else Document(v.value)
  }

  /** canonicalJSON. */
  ghost function CanonicalJson(norm: Rounding, body: Text): Text {
    match Read(norm, body)
    case Blank => []
    case Document(v) => Canonical(v)
    case Verbatim(t) => t
  }

  // ---------- The text of a tree with a longer tail ----------

  lemma Assoc(a: Text, b: Text, c: Text)
    ensures (a + b) + c == a + (b + c)
  {
  }

  lemma NumberAppend(n: Number, tail: Text, more: Text)
    ensures NumberText(n, tail) + more == NumberText(n, tail + more)
  {
    var t2 := ExpText(n.exp, tail);
    assert t2 + more == ExpText(n.exp, tail + more);
    var t1 := FracText(n.frac, t2);
    assert t1 + more == FracText(n.frac, t2 + more);
    Assoc(n.whole, t1, more);
    Assoc(if n.negative then ['-' as int] else [], n.whole + t1, more);
  }

  lemma {:induction false} ChunksAppend(chunks: seq<Chunk>, tail: Text, more: Text)
    ensures ChunksText(chunks, tail) + more == ChunksText(chunks, tail + more)
  {
    if chunks == [] {
      Assoc(QUOTE, tail, more);
    } else {
      ChunksAppend(chunks[1..], tail, more);
      Assoc(ChunkText(chunks[0]), ChunksText(chunks[1..], tail), more);
    }
  }

  lemma {:induction false} DocAppend(d: Doc, tail: Text, more: Text)
    ensures DocText(d, tail) + more == DocText(d, tail + more)
    decreases d, 1
  {
    match d {
      case DNull => Assoc(NULL, tail, more);
      case DTrue => Assoc(TRUE, tail, more);
      case DFalse => Assoc(FALSE, tail, more);
      case DNumber(n) => NumberAppend(n, tail, more);
      case DString(chunks) =>
        ChunksAppend(chunks, tail, more);
        Assoc(QUOTE, ChunksText(chunks, tail), more);
      case DArray(pad, items) =>
        if items == [] {
          ClosedAppend(pad, [']' as int], tail, more);
        } else {
          ItemsAppend(items, tail, more);
        }
        Assoc(['[' as int], if items == [] then pad + ([']' as int] + tail) else ItemsText(items, tail), more);
      case DObject(gap, members) =>
        if members == [] {
          ClosedAppend(gap, ['}' as int], tail, more);
        } else {
          MembersAppend(members, tail, more);
        }
        Assoc(['{' as int], if members == [] then gap + (['}' as int] + tail) else MembersText(members, tail), more);
    }
  }

  lemma ClosedAppend(pad: Text, close: Text, tail: Text, more: Text)
    ensures (pad + (close + tail)) + more == pad + (close + (tail + more))
  {
    Assoc(pad, close + tail, more);
    Assoc(close, tail, more);
  }

  lemma {:induction false} ItemsAppend(items: seq<Item>, tail: Text, more: Text)
    requires items != []
    ensures ItemsText(items, tail) + more == ItemsText(items, tail + more)
    decreases items, 0
  {
    var i := items[0];
    var close: Text := if |items| == 1 then [']' as int] else COMMA;
    var t := if |items| == 1 then tail else ItemsText(items[1..], tail);
    if |items| > 1 {
      ItemsAppend(items[1..], tail, more);
    }
    Assoc(close, t, more);
    Assoc(i.after, close + t, more);
    DocAppend(i.doc, i.after + (close + t), more);
    Assoc(i.before, DocText(i.doc, i.after + (close + t)), more);
  }

  lemma {:induction false} MembersAppend(members: seq<Member>, tail: Text, more: Text)
    requires members != []
    ensures MembersText(members, tail) + more == MembersText(members, tail + more)
    decreases members, 0
  {
    var m := members[0];
    var close: Text := if |members| == 1 then ['}' as int] else COMMA;
    var t := if |members| == 1 then tail else MembersText(members[1..], tail);
    if |members| > 1 {
      MembersAppend(members[1..], tail, more);
    }
    Assoc(close, t, more);
    Assoc(m.after, close + t, more);
    DocAppend(m.doc, m.after + (close + t), more);
    Assoc(m.gap, DocText(m.doc, m.after + (close + t)), more);
    KeyAppend(m, m.gap + DocText(m.doc, m.after + (close + t)), more);
  }

  lemma KeyAppend(m: Member, tail: Text, more: Text)
    ensures KeyText(m.before, m.key, m.mid, tail) + more == KeyText(m.before, m.key, m.mid, tail + more)
  {
    Assoc(COLON, tail, more);
    Assoc(m.mid, COLON + tail, more);
    ChunksAppend(m.key, m.mid + (COLON + tail), more);
    Assoc(QUOTE, ChunksText(m.key, m.mid + (COLON + tail)), more);
    Assoc(m.before, QUOTE + ChunksText(m.key, m.mid + (COLON + tail)), more);
  }

  // ---------- Documents are tight ----------

  predicate Visible(t: Text) {
    t != [] && 0x21 <= t[|t| - 1] <= 0x7E
  }

  lemma VisibleTail(d: Doc, tail: Text)
    requires Visible(tail)
    ensures Visible(DocText(d, tail))
  {
    DocAppend(d, [], tail);
    assert [] + tail == tail;
    BeforeVisible(DocText(d, []), tail);
  }

  lemma NumberVisible(n: Number)
    requires WfNumber(n)
    ensures Visible(NumberText(n, []))
  {
    var t2 := ExpText(n.exp, []);
    assert n.exp.Some? ==> Visible(t2);
    var t1 := FracText(n.frac, t2);
    assert n.frac.Some? || n.exp.Some? ==> Visible(t1);
    assert Visible(n.whole + t1);
  }

  lemma {:induction false} ChunksVisible(chunks: seq<Chunk>)
    ensures Visible(ChunksText(chunks, []))
  {
    if chunks != [] {
      ChunksVisible(chunks[1..]);
    }
  }

  lemma {:induction false} ItemsVisible(items: seq<Item>)
    requires items != []
    ensures Visible(ItemsText(items, []))
  {
    if |items| > 1 {
      ItemsVisible(items[1..]);
    }
    var i := items[0];
    var t := if |items| == 1 then [']' as int] + [] else COMMA + ItemsText(items[1..], []);
    VisibleTail(i.doc, i.after + t);
  }

  lemma {:induction false} MembersVisible(members: seq<Member>)
    requires members != []
    ensures Visible(MembersText(members, []))
  {
    if |members| > 1 {
      MembersVisible(members[1..]);
    }
    var t := if |members| == 1 then ['}' as int] + [] else COMMA + MembersText(members[1..], []);
    assert Visible(t);
    MemberVisible(members[0], t);
  }

  lemma MemberVisible(m: Member, tail: Text)
    requires Visible(tail)
    ensures Visible(MemberText(m, tail))
  {
    BeforeVisible(m.after, tail);
    VisibleTail(m.doc, m.after + tail);
    BeforeVisible(m.gap, DocText(m.doc, m.after + tail));
    KeyVisible(m, m.gap + DocText(m.doc, m.after + tail));
  }

  lemma BeforeVisible(before: Text, tail: Text)
    requires Visible(tail)
    ensures Visible(before + tail)
  {
  }

  lemma KeyVisible(m: Member, tail: Text)
    requires Visible(tail)
    ensures Visible(KeyText(m.before, m.key, m.mid, tail))
  {
    KeyAppend(m, [], tail);
    assert [] + tail == tail;
    BeforeVisible(KeyText(m.before, m.key, m.mid, []), tail);
  }

  lemma DocTight(d: Doc, depth: nat)
    requires Wf(d, depth)
    ensures DocText(d, []) != [] && Tight(DocText(d, [])) && Visible(DocText(d, []))
  {
    DocStarts(d, depth, []);
    match d {
      case DNumber(n) => NumberVisible(n);
      case DString(chunks) => ChunksVisible(chunks);
      case DArray(_, items) => if items != [] { ItemsVisible(items); }
      case DObject(_, members) => if members != [] { MembersVisible(members); }
      case _ =>
    }
    assert Visible(DocText(d, []));
  }

  // ---------- What is decoded ----------

  lemma DecodeDocument(norm: Rounding, d: Doc, before: Text, after: Text)
    requires Wf(d, MAX_NESTING) && AllWs(before) && AllWs(after)
    ensures Decode(norm, before + DocText(d, after)) == Value(norm, d)
  {
    DocStarts(d, MAX_NESTING, after);
    SkipWsExact(before, DocText(d, after));
    ScanDocComplete(d, MAX_NESTING, after);
    SkipWsExact(after, []);
    assert after + [] == after;
  }

  /** Only texts of well-formed documents are decoded. */
  lemma DecodedIsDocument(norm: Rounding, t: Text) returns (d: Doc, before: Text, after: Text)
    requires Decode(norm, t).Some?
    ensures Wf(d, MAX_NESTING) && AllWs(before) && AllWs(after)
    ensures t == before + DocText(d, after) && Value(norm, d) == Decode(norm, t)
  {
    var t1: Text;
    before, t1 := SkipWs(t).0, SkipWs(t).1;
    ScanDocSound(t1, MAX_NESTING);
    var r := ScanDoc(t1, MAX_NESTING).value;
    d, after := r.0, r.1;
    assert after == SkipWs(after).0 + SkipWs(after).1;
  }

  /** Whatever the whitespace around and inside it, a document means its value. */
  lemma LayoutIrrelevant(norm: Rounding, d: Doc, before: Text, after: Text)
    requires Wf(d, MAX_NESTING) && Value(norm, d).Some? && AllSpace(before) && AllSpace(after)
    ensures Read(norm, before + DocText(d, []) + after) == Document(Value(norm, d).value)
  {
    DocTight(d, MAX_NESTING);
    TrimSpaceCore(before, DocText(d, []), after);
    DecodeDocument(norm, d, [], []);
    assert [] + DocText(d, []) == DocText(d, []);
  }

  /** The member names and values a list of members binds, in no order. */
  ghost function Bindings(norm: Rounding, members: seq<Member>): set<(Text, Option<JSON>)> {
    set i | 0 <= i < |members| :: (Unquote(members[i].key), Value(norm, members[i].doc))
  }

  predicate DistinctNames(members: seq<Member>) {
    forall i, j :: 0 <= i < j < |members| ==> Unquote(members[i].key) != Unquote(members[j].key)
  }

  /** Member i is the last one of its name. */
  predicate LastOfName(members: seq<Member>, i: nat)
    requires i < |members|
  {
    forall j :: i < j < |members| ==> Unquote(members[j].key) != Unquote(members[i].key)
  }

  /** An object has exactly the names of its members, and of equal names the last member's value. */
  lemma {:induction false} LastMemberWins(norm: Rounding, members: seq<Member>, i: nat)
    requires MemberValues(norm, members).Some? && i < |members| && LastOfName(members, i)
    ensures var vs, name := MemberValues(norm, members).value, Unquote(members[i].key);
      name in vs && Value(norm, members[i].doc) == Some(vs[name])
    ensures forall k :: k in MemberValues(norm, members).value ==>
              exists j :: 0 <= j < |members| && Unquote(members[j].key) == k
  {
    NamesOnly(norm, members);
    if i == 0 {
      var more := members[1..];
      NamesOnly(norm, more);
      assert forall j :: 0 <= j < |more| ==> more[j] == members[j + 1];
    } else {
      assert LastOfName(members[1..], i - 1);
      LastMemberWins(norm, members[1..], i - 1);
    }
  }

  lemma {:induction false} NamesOnly(norm: Rounding, members: seq<Member>)
    requires MemberValues(norm, members).Some?
    ensures forall k :: k in MemberValues(norm, members).value ==>
              exists j :: 0 <= j < |members| && Unquote(members[j].key) == k
  {
    if members != [] {
      var more := members[1..];
      NamesOnly(norm, more);
      forall k | k in MemberValues(norm, members).value
        ensures exists j :: 0 <= j < |members| && Unquote(members[j].key) == k
      {
        if k != Unquote(members[0].key) {
          var j :| 0 <= j < |more| && Unquote(more[j].key) == k;
          assert members[j + 1] == more[j];
        }
      }
    }
  }

  /** The order of members does not change the value of an object. */
  lemma ReorderedMembers(norm: Rounding, a: seq<Member>, b: seq<Member>)
    requires DistinctNames(a) && DistinctNames(b) && Bindings(norm, a) == Bindings(norm, b)
    ensures MemberValues(norm, a) == MemberValues(norm, b)
  {
    MembersBind(norm, a);
    MembersBind(norm, b);
    if MemberValues(norm, a).Some? && MemberValues(norm, b).Some? {
      var x, y := MemberValues(norm, a).value, MemberValues(norm, b).value;
      forall k ensures (k in x <==> k in y) && (k in x && k in y ==> x[k] == y[k]) {
        assert k in x ==> (k, Some(x[k])) in Bindings(norm, b);
        assert k in y ==> (k, Some(y[k])) in Bindings(norm, a);
      }
      assert x == y;
    }
  }

  lemma {:induction false} MembersBind(norm: Rounding, members: seq<Member>)
    requires DistinctNames(members)
    ensures MemberValues(norm, members).Some? <==> forall b :: b in Bindings(norm, members) ==> b.1.Some?
    ensures MemberValues(norm, members).Some? ==>
              var vs := MemberValues(norm, members).value;
              forall k, v :: (k, Some(v)) in Bindings(norm, members) <==> k in vs && vs[k] == v
  {
    if members != [] {
      var m, more := members[0], members[1..];
      MembersBind(norm, more);
      var first := (Unquote(m.key), Value(norm, m.doc));
      forall b ensures b in Bindings(norm, members) <==> b == first || b in Bindings(norm, more) {
        BindingsCons(norm, members, b);
      }
      assert first in Bindings(norm, members);
      forall b | b in Bindings(norm, more) ensures b.0 != first.0 && b in Bindings(norm, members) {
        FreshName(norm, members, b);
      }
      if first.1.Some? && MemberValues(norm, more).Some? {
        BindStep(first.0, first.1.value, MemberValues(norm, more).value,
                 Bindings(norm, more), Bindings(norm, members));
      }
    }
  }

  lemma FreshName(norm: Rounding, members: seq<Member>, b: (Text, Option<JSON>))
    requires members != [] && DistinctNames(members) && b in Bindings(norm, members[1..])
    ensures b.0 != Unquote(members[0].key)
  {
    var i :| 0 <= i < |members[1..]| && b == (Unquote(members[1..][i].key), Value(norm, members[1..][i].doc));
    assert members[1..][i] == members[i + 1];
  }

  lemma BindStep(name: Text, v: JSON, more: map<Text, JSON>,
                 others: set<(Text, Option<JSON>)>, all: set<(Text, Option<JSON>)>)
    requires forall b :: b in all <==> b == (name, Some(v)) || b in others
    requires forall b :: b in others ==> b.0 != name
    requires forall x, y :: (x, Some(y)) in others <==> x in more && more[x] == y
    ensures var m := map[name := v] + more;
            forall x, y :: (x, Some(y)) in all <==> x in m && m[x] == y
  {
    assert forall x :: x in more ==> (x, Some(more[x])) in others;
  }

  lemma BindingsCons(norm: Rounding, members: seq<Member>, b: (Text, Option<JSON>))
    requires members != []
    ensures b in Bindings(norm, members) <==>
            b == (Unquote(members[0].key), Value(norm, members[0].doc)) || b in Bindings(norm, members[1..])
  {
    var more := members[1..];
    if b in Bindings(norm, members) {
      var i :| 0 <= i < |members| && b == (Unquote(members[i].key), Value(norm, members[i].doc));
      assert i > 0 ==> members[i] == more[i - 1];
    }
    if b in Bindings(norm, more) {
      var i :| 0 <= i < |more| && b == (Unquote(more[i].key), Value(norm, more[i].doc));
      assert members[i + 1] == more[i];
    }
  }

  // ---------- Canonical bytes decide the meaning ----------

  /** Reading the canonical bytes of a value gives the value back, whatever JSON follows. */
  lemma CanonicalRoundTrip(norm: Rounding, v: JSON, depth: nat, rest: Text)
    requires Printable(norm, v, depth) && Ends(rest)
    ensures ScanDoc(Canonical(v) + rest, depth) == Some((CanonDoc(v), rest))
    ensures Value(norm, CanonDoc(v)) == Some(v)
  {
    CanonWf(norm, v, depth);
    DocAppend(CanonDoc(v), [], rest);
    assert [] + rest == rest;
    ScanDocComplete(CanonDoc(v), depth, rest);
  }

  lemma CanonicalInjective(norm: Rounding, v: JSON, w: JSON, depth: nat)
    requires Printable(norm, v, depth) && Printable(norm, w, depth) && Canonical(v) == Canonical(w)
    ensures v == w
  {
    CanonicalRoundTrip(norm, v, depth, []);
    CanonicalRoundTrip(norm, w, depth, []);
  }

  lemma ReadPrintable(norm: Rounding, body: Text)
    requires RoundTrips(norm) && Read(norm, body).Document?
    ensures Printable(norm, Read(norm, body).value, MAX_NESTING)
  {
    var d, _, _ := DecodedIsDocument(norm, TrimSpace(body));
    ValuePrintable(norm, d, MAX_NESTING);
  }

  /** The canonical bytes of a body are themselves a body with the same meaning. */
  lemma CanonicalMeansTheSame(norm: Rounding, body: Text)
    requires RoundTrips(norm)
    ensures Read(norm, CanonicalJson(norm, body)) == Read(norm, body)
  {
    match Read(norm, body) {
      case Blank =>
      case Document(v) => DocumentMeansTheSame(norm, body);
      case Verbatim(t) => TrimmedMeansTheSame(norm, body);
    }
  }

  lemma DocumentMeansTheSame(norm: Rounding, body: Text)
    requires RoundTrips(norm) && Read(norm, body).Document?
    ensures Read(norm, Canonical(Read(norm, body).value)) == Read(norm, body)
  {
    ReadPrintable(norm, body);
    CanonicalReads(norm, Read(norm, body).value);
  }

  lemma CanonicalReads(norm: Rounding, v: JSON)
    requires Printable(norm, v, MAX_NESTING)
    ensures Read(norm, Canonical(v)) == Document(v)
  {
    CanonWf(norm, v, MAX_NESTING);
    LayoutIrrelevant(norm, CanonDoc(v), [], []);
    Unpadded(Canonical(v));
  }

  lemma Unpadded(t: Text)
    ensures [] + t + [] == t
  {
  }

  lemma TrimmedMeansTheSame(norm: Rounding, body: Text)
    ensures Read(norm, TrimSpace(body)) == Read(norm, body)
  {
    var t := TrimSpace(body);
    var before, after := TrimSpaceSplits(body);
    TrimSpaceCore([], t, []);
    assert [] + t + [] == t;
  }

  lemma CanonicalSeparates(norm: Rounding, a: Text, b: Text)
    requires RoundTrips(norm)
    ensures CanonicalJson(norm, a) == CanonicalJson(norm, b) <==> Read(norm, a) == Read(norm, b)
  {
    CanonicalMeansTheSame(norm, a);
    CanonicalMeansTheSame(norm, b);
  }

  lemma CanonicalIdempotent(norm: Rounding, body: Text)
    requires RoundTrips(norm)
    ensures CanonicalJson(norm, CanonicalJson(norm, body)) == CanonicalJson(norm, body)
  {
    CanonicalMeansTheSame(norm, body);
  }

  /** Canonical bytes neither begin nor end with a space. */
  lemma CanonicalTight(norm: Rounding, body: Text)
    requires RoundTrips(norm)
    ensures Tight(CanonicalJson(norm, body))
  {
    match Read(norm, body) {
      case Blank =>
      case Document(v) =>
        ReadPrintable(norm, body);
        CanonWf(norm, v, MAX_NESTING);
        DocTight(CanonDoc(v), MAX_NESTING);
      case Verbatim(_) =>
        var before, after := TrimSpaceSplits(body);
    }
  }

  lemma DocumentThenSpace(d: Doc, depth: nat, after: Text)
    requires Wf(d, depth)
    ensures DocText(d, after) == DocText(d, []) + after && Visible(DocText(d, []))
  {
    DocTight(d, depth);
    DocAppend(d, [], after);
    assert [] + after == after;
  }

  /** A text that ends with a NUL is no JSON document. */
  lemma NulEndNoDocument(norm: Rounding, t: Text)
    requires t != [] && t[|t| - 1] == NUL
    ensures Decode(norm, t) == None
  {
    if Decode(norm, t).Some? {
      var d, before, after := DecodedIsDocument(norm, t);
      DocumentThenSpace(d, MAX_NESTING, after);
      LastOfDocument(before, DocText(d, []), after);
      assert false;
    }
  }

  /** So it is hashed verbatim. */
  lemma NulEndVerbatim(norm: Rounding, t: Text)
    requires Tight(t) && t != [] && t[|t| - 1] == NUL
    ensures CanonicalJson(norm, t) == t
  {
    TrimSpaceCore([], t, []);
    Unpadded(t);
    NulEndNoDocument(norm, t);
  }

  lemma LastOfDocument(before: Text, doc: Text, after: Text)
    requires Visible(doc) && AllWs(after)
    ensures (before + (doc + after))[|before + (doc + after)| - 1] != NUL
  {
    var t := before + (doc + after);
    if after == [] {
      assert t[|t| - 1] == doc[|doc| - 1];
    } else {
      assert t[|t| - 1] == after[|after| - 1];
    }
  }
}
