/**
 What a JSON string denotes, said by how its runes may be spelled and not by how it
 is decoded: as themselves, by a two-character escape, by four hexadecimal digits
 in either case, or by a surrogate pair (sections 7 of RFC 8259 and 2.4 of RFC
 3629). However its runes are spelled, a string is read as its runes.
 */
module JsonSpelling {
  import opened Runes
  import opened Wrappers
  import opened JsonGrammar
  import opened JsonScanner
  import opened Json
  import opened Bodies

  const LOWER := "0123456789abcdef"
  const UPPER := "0123456789ABCDEF"

  /** r is a hexadecimal digit that stands for n. */
  predicate IsDigitFor(r: int, n: int) {
    0 <= n < 16 && (r == LOWER[n] as int || r == UPPER[n] as int)
  }

  /** The chunk is \u and the four digits of u. */
  ghost predicate SpellsUnit(c: Chunk, u: int) {
    c.Hex? && exists d3, d2, d1, d0 ::
      && IsDigitFor(c.h3, d3) && IsDigitFor(c.h2, d2) && IsDigitFor(c.h1, d1) && IsDigitFor(c.h0, d0)
      && u == d3 * 0x1000 + d2 * 0x100 + d1 * 0x10 + d0
  }

  /** The chunks are the surrogate pair of a rune beyond the first plane. */
  ghost predicate SpellsPair(a: Chunk, b: Chunk, r: int) {
    exists u, v ::
      && SpellsUnit(a, u) && SpellsUnit(b, v) && 0xD800 <= u < 0xDC00 <= v < 0xE000
      && r == 0x10000 + (u - 0xD800) * 0x400 + (v - 0xDC00)
  }

  /** The letter of a two-character escape and the rune it stands for. */
  const SHORTS: map<char, int> :=
    map['"' := 0x22, '\\' := 0x5C, '/' := 0x2F, 'b' := 0x08, 'f' := 0x0C, 'n' := 0x0A, 'r' := 0x0D, 't' := 0x09]

  predicate SpelledShort(r: int, c: Chunk) {
    c.Short? && exists letter :: letter in SHORTS && c.letter == letter as int && SHORTS[letter] == r
  }

  /** A Unicode scalar value. */
  predicate IsScalar(r: int) {
    0 <= r < 0xD800 || 0xE000 <= r < 0x110000
  }

  /** One way to write the rune r inside a string. */
  ghost predicate Spells(r: int, chunks: seq<Chunk>) {
    || (chunks == [Plain(r)] && WfChunk(Plain(r)))
    || (|chunks| == 1 && SpelledShort(r, chunks[0]))
    || (|chunks| == 1 && SpellsUnit(chunks[0], r))
    || (|chunks| == 2 && SpellsPair(chunks[0], chunks[1], r))
  }

  /** parts[i] spells t[i]. */
  ghost predicate Spelled(t: Text, parts: seq<seq<Chunk>>) {
    |parts| == |t| && forall i :: 0 <= i < |t| ==> IsScalar(t[i]) && Spells(t[i], parts[i])
  }

  function Flatten(parts: seq<seq<Chunk>>): seq<Chunk> {
    if parts == [] then [] else parts[0] + Flatten(parts[1..])
  }

  lemma DigitReads(r: int, n: int)
    requires IsDigitFor(r, n)
    ensures HexDigit(r) == n && IsHex(r)
  {
  }

  lemma UnitReads(c: Chunk, u: int)
    requires SpellsUnit(c, u)
    ensures CodeUnit(c) == u && WfChunk(c)
  {
    var d3, d2, d1, d0 :|
      && IsDigitFor(c.h3, d3) && IsDigitFor(c.h2, d2) && IsDigitFor(c.h1, d1) && IsDigitFor(c.h0, d0)
      && u == d3 * 0x1000 + d2 * 0x100 + d1 * 0x10 + d0;
    DigitReads(c.h3, d3);
    DigitReads(c.h2, d2);
    DigitReads(c.h1, d1);
    DigitReads(c.h0, d0);
  }

  lemma ShortReads(r: int, c: Chunk)
    requires SpelledShort(r, c)
    ensures WfChunk(c) && ShortRune(c.letter) == r
  {
  }

  lemma OneChunkReads(r: int, c: Chunk, more: seq<Chunk>)
    requires IsScalar(r) && Spells(r, [c])
    ensures WfChunk(c) && Unquote([c] + more) == [r] + Unquote(more)
  {
    assert ([c] + more)[1..] == more;
    if SpelledShort(r, c) {
      ShortReads(r, c);
    } else if SpellsUnit(c, r) {
      UnitReads(c, r);
    } else {
      assert c == Plain(r);
    }
  }

  lemma PairUnits(a: Chunk, b: Chunk, r: int) returns (u: int, v: int)
    requires SpellsPair(a, b, r)
    ensures WfChunk(a) && WfChunk(b) && a.Hex? && b.Hex? && CodeUnit(a) == u && CodeUnit(b) == v
    ensures 0xD800 <= u < 0xDC00 <= v < 0xE000 && r == 0x10000 + (u - 0xD800) * 0x400 + (v - 0xDC00)
  {
    u, v :|
      && SpellsUnit(a, u) && SpellsUnit(b, v) && 0xD800 <= u < 0xDC00 <= v < 0xE000
      && r == 0x10000 + (u - 0xD800) * 0x400 + (v - 0xDC00);
    UnitReads(a, u);
    UnitReads(b, v);
  }

  lemma PairUnquotes(a: Chunk, b: Chunk, u: int, v: int, more: seq<Chunk>)
    requires a.Hex? && b.Hex? && CodeUnit(a) == u && CodeUnit(b) == v && 0xD800 <= u < 0xDC00 <= v < 0xE000
    ensures Unquote([a, b] + more) == [0x10000 + (u - 0xD800) * 0x400 + (v - 0xDC00)] + Unquote(more)
  {
    var chunks := [a, b] + more;
    assert chunks[0] == a && chunks[1] == b && chunks[2..] == more;
  }

  lemma PairReads(r: int, a: Chunk, b: Chunk, more: seq<Chunk>)
    requires SpellsPair(a, b, r)
    ensures WfChunk(a) && WfChunk(b) && Unquote([a, b] + more) == [r] + Unquote(more)
  {
    var u, v := PairUnits(a, b, r);
    PairUnquotes(a, b, u, v, more);
  }

  lemma RuneReads(r: int, chunks: seq<Chunk>, more: seq<Chunk>)
    requires IsScalar(r) && Spells(r, chunks)
    ensures WfChunks(chunks) && Unquote(chunks + more) == [r] + Unquote(more)
  {
    if |chunks| == 1 {
      assert chunks == [chunks[0]];
      OneChunkReads(r, chunks[0], more);
    } else {
      assert chunks == [chunks[0], chunks[1]];
      PairReads(r, chunks[0], chunks[1], more);
    }
  }

  /** However its runes are spelled, a string denotes them. */
  lemma {:induction false} SpelledReads(t: Text, parts: seq<seq<Chunk>>)
    requires Spelled(t, parts)
    ensures WfChunks(Flatten(parts)) && Unquote(Flatten(parts)) == t
  {
    if t != [] {
      SpelledReads(t[1..], parts[1..]);
      RuneReads(t[0], parts[0], Flatten(parts[1..]));
      assert t == [t[0]] + t[1..];
    }
  }

  /** A byte outside any encoding is read as the replacement character. */
  lemma BadByteReads(r: int, more: seq<Chunk>)
    requires r >= FIRST_BAD
    ensures Unquote([Plain(r)] + more) == [REPLACEMENT] + Unquote(more)
  {
    assert ([Plain(r)] + more)[1..] == more;
  }

  /** So is a code unit that belongs to no pair. */
  lemma StrayReads(c: Chunk, u: int, more: seq<Chunk>)
    requires SpellsUnit(c, u) && IsSurrogate(u)
    requires u >= 0xDC00 || more == [] || forall low :: 0xDC00 <= low <= 0xDFFF ==> !SpellsUnit(more[0], low)
    requires WfChunks(more)
    ensures Unquote([c] + more) == [REPLACEMENT] + Unquote(more)
  {
    assert ([c] + more)[1..] == more;
    UnitReads(c, u);
    if more != [] && more[0].Hex? {
      UnitSpelled(more[0]);
    }
  }

  lemma DigitSpelled(r: int)
    requires IsHex(r)
    ensures IsDigitFor(r, HexDigit(r))
  {
  }

  /** Every four digits spell their own code unit. */
  lemma UnitSpelled(c: Chunk)
    requires c.Hex? && WfChunk(c)
    ensures SpellsUnit(c, CodeUnit(c))
  {
    DigitSpelled(c.h3);
    DigitSpelled(c.h2);
    DigitSpelled(c.h1);
    DigitSpelled(c.h0);
  }

  /** The insignificant characters are the four of RFC 8259, section 2. */
  lemma WhitespaceIs(r: int)
    ensures IsWs(r) <==> r in Ascii(" \t\n\r")
  {
    var t := Ascii(" \t\n\r");
    assert t[0] == 0x20 && t[1] == 0x09 && t[2] == 0x0A && t[3] == 0x0D;
  }

  // ---------- What the printer writes ----------

  /** A rune json.Marshal never writes as itself: controls, the two delimiters, and what HTML or scripts could take. */
  predicate Escaped(r: int) {
    r < 0x20 || r in [0x22, 0x5C, 0x26, 0x3C, 0x3E, 0x2028, 0x2029]
  }

  predicate NoneEscaped(t: Text) {
    forall i :: 0 <= i < |t| ==> !Escaped(t[i]) || t[i] == 0x5C || t[i] == 0x22
  }

  /** The canonical text of a string contains such runes only as its own delimiters. */
  lemma {:induction false} PrintedSafe(t: Text, tail: Text)
    requires Scalars(t) && NoneEscaped(tail)
    ensures NoneEscaped(ChunksText(Escape(t), tail))
  {
    if t != [] {
      PrintedSafe(t[1..], tail);
      assert Escape(t)[1..] == Escape(t[1..]);
      RuneSafe(t[0]);
    }
  }

  lemma RuneSafe(r: int)
    requires 0 <= r < FIRST_BAD
    ensures NoneEscaped(ChunkText(EscapeRune(r))) && (EscapeRune(r) == Plain(r) <==> !Escaped(r))
  {
  }

  /** The texts with commas between them. */
  function Joined(texts: seq<Text>): Text {
    if texts == [] then []
    else if |texts| == 1 then texts[0]
    else texts[0] + (COMMA + Joined(texts[1..]))
  }

  function Quoted(t: Text): Text {
    QUOTE + ChunksText(Escape(t), [])
  }

  ghost function PrintedItems(items: seq<JSON>): seq<Text> {
    seq(|items|, i requires 0 <= i < |items| => Canonical(items[i]))
  }

  ghost function PrintedMembers(v: JSON, keys: seq<Text>): seq<Text>
    requires v.Obj? && forall k :: k in keys ==> k in v.members
  {
    seq(|keys|, i requires 0 <= i < |keys| => Quoted(keys[i]) + (COLON + Canonical(v.members[keys[i]])))
  }

  /** A value is printed without any whitespace: words, quoted strings, and lists with commas. */
  lemma PrintedShape(v: JSON)
    ensures match v
            case Null => Canonical(v) == Ascii("null")
            case Bool(b) => Canonical(v) == Ascii(if b then "true" else "false")
            case Num(n) => Canonical(v) == NumberText(n, [])
            case Str(t) => Canonical(v) == Quoted(t)
            case Arr(items) => Canonical(v) == Ascii("[") + (Joined(PrintedItems(items)) + Ascii("]"))
            case Obj(members) =>
              Canonical(v) == Ascii("{") + (Joined(PrintedMembers(v, SortedKeys(members.Keys))) + Ascii("}"))
  {
    match v {
      case Null => assert NULL + [] == Ascii("null");
      case Bool(b) => assert TRUE + [] == Ascii("true") && FALSE + [] == Ascii("false");
      case Num(_) =>
      case Str(_) =>
      case Arr(items) => PrintedArray(v);
      case Obj(_) => PrintedObject(v);
    }
  }

  lemma PrintedArray(v: JSON)
    requires v.Arr?
    ensures Canonical(v) == Ascii("[") + (Joined(PrintedItems(v.items)) + Ascii("]"))
  {
    assert ['[' as int] == Ascii("[") && [']' as int] == Ascii("]");
    if v.items == [] {
      assert [] + ([']' as int] + []) == Joined(PrintedItems(v.items)) + Ascii("]");
    } else {
      ItemsJoined(v.items);
    }
  }

  lemma {:induction false} ItemsJoined(items: seq<JSON>)
    requires items != []
    ensures ItemsText(CanonItems(items), []) == Joined(PrintedItems(items)) + [']' as int]
  {
    var texts := PrintedItems(items);
    assert texts[1..] == PrintedItems(items[1..]);
    var d := CanonDoc(items[0]);
    if |items| == 1 {
      AsTail(d, [']' as int]);
      assert [']' as int] + [] == [']' as int] && [] + [']' as int] == [']' as int];
    } else {
      ItemsJoined(items[1..]);
      var more := Joined(texts[1..]);
      AsTail(d, COMMA + ItemsText(CanonItems(items[1..]), []));
      assert [] + (COMMA + ItemsText(CanonItems(items[1..]), [])) == COMMA + ItemsText(CanonItems(items[1..]), []);
      Assoc(COMMA, more, [']' as int]);
      Assoc(texts[0], COMMA + more, [']' as int]);
    }
  }

  /** A document in front of more text. */
  lemma AsTail(d: Doc, tail: Text)
    ensures DocText(d, tail) == DocText(d, []) + tail && [] + DocText(d, tail) == DocText(d, tail)
  {
    DocAppend(d, [], tail);
    assert [] + tail == tail;
  }

  lemma PrintedObject(v: JSON)
    requires v.Obj?
    ensures Canonical(v) == Ascii("{") + (Joined(PrintedMembers(v, SortedKeys(v.members.Keys))) + Ascii("}"))
  {
    var keys := SortedKeys(v.members.Keys);
    assert ['{' as int] == Ascii("{") && ['}' as int] == Ascii("}");
    if keys == [] {
      assert [] + (['}' as int] + []) == Joined(PrintedMembers(v, keys)) + Ascii("}");
    } else {
      MembersJoined(v, keys);
    }
  }

  lemma {:induction false} MembersJoined(v: JSON, keys: seq<Text>)
    requires v.Obj? && keys != [] && forall k :: k in keys ==> k in v.members
    ensures MembersText(CanonMembers(v, keys), []) == Joined(PrintedMembers(v, keys)) + ['}' as int]
    decreases |keys|
  {
    var texts := PrintedMembers(v, keys);
    assert texts[1..] == PrintedMembers(v, keys[1..]);
    if |keys| == 1 {
      MemberShape(v, keys, ['}' as int]);
      assert ['}' as int] + [] == ['}' as int];
    } else {
      MembersJoined(v, keys[1..]);
      var more := Joined(texts[1..]);
      MemberShape(v, keys, COMMA + MembersText(CanonMembers(v, keys[1..]), []));
      Assoc(COMMA, more, ['}' as int]);
      Assoc(texts[0], COMMA + more, ['}' as int]);
    }
  }

  lemma MemberShape(v: JSON, keys: seq<Text>, tail: Text)
    requires v.Obj? && keys != [] && forall k :: k in keys ==> k in v.members
    ensures MemberText(CanonMembers(v, keys)[0], tail) == PrintedMembers(v, keys)[0] + tail
  {
    assert keys[0] in keys;
    var d := CanonDoc(v.members[keys[0]]);
    var chunks := Escape(keys[0]);
    assert [] + tail == tail;
    AsTail(d, tail);
    var behind := COLON + DocText(d, tail);
    assert [] + behind == behind;
    ChunksAppend(chunks, [], behind);
    assert [] + behind == behind;
    var text := QUOTE + ChunksText(chunks, behind);
    assert [] + text == text;
    Assoc(COLON, DocText(d, []), tail);
    Assoc(QUOTE, ChunksText(chunks, []), behind);
    Assoc(Quoted(keys[0]), COLON + DocText(d, []), tail);
  }

  // ---------- String bodies ----------

  /** A body that is one JSON string means its runes. */
  lemma StringBody(norm: Rounding, t: Text, parts: seq<seq<Chunk>>)
    requires Spelled(t, parts)
    ensures Read(norm, DocText(DString(Flatten(parts)), [])) == Document(Str(t))
  {
    SpelledReads(t, parts);
    var d := DString(Flatten(parts));
    LayoutIrrelevant(norm, d, [], []);
    Unpadded(DocText(d, []));
  }

  /** Two string bodies have the same canonical bytes exactly when they spell the same runes. */
  lemma SpellingsDecide(norm: Rounding, t: Text, parts: seq<seq<Chunk>>, t': Text, parts': seq<seq<Chunk>>)
    requires RoundTrips(norm) && Spelled(t, parts) && Spelled(t', parts')
    ensures CanonicalJson(norm, DocText(DString(Flatten(parts)), []))
         == CanonicalJson(norm, DocText(DString(Flatten(parts')), []))
       <==> t == t'
  {
    var a, b := DocText(DString(Flatten(parts)), []), DocText(DString(Flatten(parts')), []);
    StringBody(norm, t, parts);
    StringBody(norm, t', parts');
    CanonicalSeparates(norm, a, b);
  }

  // ---------- Nesting ----------

  /** n arrays inside one another. */
  function Nested(n: nat): Doc
    requires n > 0
  {
    if n == 1 then DArray([], []) else DArray([], [Item([], Nested(n - 1), [])])
  }

  lemma {:induction false} NestedWf(n: nat)
    requires n > 0
    ensures Wf(Nested(n), n)
  {
    if n > 1 {
      NestedWf(n - 1);
      var i := Item([], Nested(n - 1), []);
      assert WfItem(i, n - 1) && [i][1..] == [];
    }
  }

  lemma {:induction false} DeeperWf(n: nat, depth: nat)
    requires 0 < n <= depth
    ensures Wf(Nested(n), depth)
  {
    if n > 1 {
      DeeperWf(n - 1, depth - 1);
      var i := Item([], Nested(n - 1), []);
      assert WfItem(i, depth - 1) && [i][1..] == [];
    }
  }

  lemma NestedText(n: nat, tail: Text)
    requires n > 1
    ensures DocText(Nested(n), tail) == ['[' as int] + DocText(Nested(n - 1), [']' as int] + tail)
  {
    var i := Item([], Nested(n - 1), []);
    var close := [']' as int] + tail;
    assert [] + close == close && [] + DocText(Nested(n - 1), close) == DocText(Nested(n - 1), close);
    assert ItemsText([i], tail) == ItemText(i, close);
  }

  /** An array whose first element is refused is refused. */
  lemma BadFirstItem(rest: Text, depth: nat)
    requires depth > 0 && rest != [] && rest[0] == '[' as int && ScanDoc(rest, depth - 1) == None
    ensures ScanDoc(['[' as int] + rest, depth) == None
  {
    EnterArray(rest, depth);
    SkipWsExact([], rest);
    assert [] + rest == rest;
    assert ScanItem(rest, depth - 1) == None;
    assert ScanItems(rest, depth - 1) == None;
  }

  /** A text that opens more arrays than the scanner allows is refused. */
  lemma {:induction false} TooDeep(t: Text, n: nat, depth: nat)
    requires depth < n <= |t| && forall i :: 0 <= i < n ==> t[i] == '[' as int
    ensures ScanDoc(t, depth) == None
  {
    if depth > 0 {
      TooDeep(t[1..], n - 1, depth - 1);
      BadFirstItem(t[1..], depth);
      assert t == ['[' as int] + t[1..];
    }
  }

  lemma {:induction false} NestedBrackets(n: nat, tail: Text)
    requires n > 0
    ensures n <= |DocText(Nested(n), tail)| && forall i :: 0 <= i < n ==> DocText(Nested(n), tail)[i] == '[' as int
  {
    if n == 1 {
      assert DocText(Nested(1), tail) == ['[' as int] + ([] + ([']' as int] + tail));
    } else {
      NestedText(n, tail);
      NestedBrackets(n - 1, [']' as int] + tail);
    }
  }

  /** n nested arrays are a JSON value up to 10000 of them, and a verbatim text from there on. */
  lemma NestingLimit(norm: Rounding, n: nat)
    requires n > 0
    ensures Read(norm, DocText(Nested(n), [])).Document? <==> n <= 10000
  {
    var t := DocText(Nested(n), []);
    NestedWf(n);
    DocTight(Nested(n), n);
    TrimSpaceCore([], t, []);
    Unpadded(t);
    SkipWsExact([], t);
    assert [] + t == t;
    if n <= 10000 {
      DeeperWf(n, MAX_NESTING);
      NestedValue(norm, n);
      LayoutIrrelevant(norm, Nested(n), [], []);
    } else {
      NestedBrackets(n, []);
      TooDeep(t, n, MAX_NESTING);
    }
  }

  lemma {:induction false} NestedValue(norm: Rounding, n: nat)
    requires n > 0
    ensures Value(norm, Nested(n)).Some?
  {
    if n > 1 {
      NestedValue(norm, n - 1);
      var items := [Item([], Nested(n - 1), [])];
      assert items[1..] == [] && ItemValues(norm, items[1..]) == Some([]);
      assert ItemValues(norm, items).Some?;
      assert Nested(n) == DArray([], items);
    }
  }
}
