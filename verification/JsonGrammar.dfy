/**
 The grammar of RFC 8259 (sections 2, 4, 5, 6 and 7) as concrete syntax trees
 that keep all insignificant whitespace, and the text of each tree.
 */
module JsonGrammar {
  import opened Runes
  import opened Wrappers

  // ---------- Concrete syntax ----------

  datatype Exponent = Exponent(marker: int, sign: Text, digits: Text)

  datatype Number = Number(negative: bool, whole: Text, frac: Option<Text>, exp: Option<Exponent>)

  /** One source character of a string: itself, a two-character escape, or \uXXXX. */
  datatype Chunk = Plain(rune: int) | Short(letter: int) | Hex(h3: int, h2: int, h1: int, h0: int)

  datatype Doc =
    | DNull
    | DTrue
    | DFalse
    | DNumber(number: Number)
    | DString(chunks: seq<Chunk>)
    | DArray(pad: Text, items: seq<Item>)
    | DObject(gap: Text, members: seq<Member>)

  datatype Item = Item(before: Text, doc: Doc, after: Text)

  datatype Member = Member(before: Text, key: seq<Chunk>, mid: Text, gap: Text, doc: Doc, after: Text)

  const NULL: Text := ['n' as int, 'u' as int, 'l' as int, 'l' as int]
  const TRUE: Text := ['t' as int, 'r' as int, 'u' as int, 'e' as int]
  const FALSE: Text := ['f' as int, 'a' as int, 'l' as int, 's' as int, 'e' as int]
  const COMMA: Text := [',' as int]
  const COLON: Text := [':' as int]
  const QUOTE: Text := ['"' as int]

  predicate IsWs(r: int) {
    r == 0x20 || r == 0x09 || r == 0x0A || r == 0x0D
  }

  predicate AllWs(t: Text) {
    forall i :: 0 <= i < |t| ==> IsWs(t[i])
  }

  predicate IsDigit(r: int) {
    '0' as int <= r <= '9' as int
  }

  predicate AllDigits(t: Text) {
    forall i :: 0 <= i < |t| ==> IsDigit(t[i])
  }

  predicate IsHex(r: int) {
    IsDigit(r) || 'a' as int <= r <= 'f' as int || 'A' as int <= r <= 'F' as int
  }

  predicate IsEscapeLetter(r: int) {
    r in ['"' as int, '\\' as int, '/' as int, 'b' as int, 'f' as int, 'n' as int, 'r' as int, 't' as int]
  }

  predicate IsMarker(r: int) {
    r == 'e' as int || r == 'E' as int
  }

  predicate IsSign(r: int) {
    r == '+' as int || r == '-' as int
  }

  // ---------- Which trees are documents ----------

  predicate WfExponent(e: Exponent) {
    && IsMarker(e.marker)
    && (e.sign == [] || (|e.sign| == 1 && IsSign(e.sign[0])))
    && e.digits != [] && AllDigits(e.digits)
  }

  predicate WfNumber(n: Number) {
    && n.whole != [] && AllDigits(n.whole) && (n.whole[0] == '0' as int ==> |n.whole| == 1)
    && (n.frac.Some? ==> n.frac.value != [] && AllDigits(n.frac.value))
    && (n.exp.Some? ==> WfExponent(n.exp.value))
  }

  predicate WfChunk(c: Chunk) {
    match c
    case Plain(r) => r >= 0x20 && r != '"' as int && r != '\\' as int
    case Short(l) => IsEscapeLetter(l)
    case Hex(a, b, c, d) => IsHex(a) && IsHex(b) && IsHex(c) && IsHex(d)
  }

  predicate WfChunks(chunks: seq<Chunk>) {
    forall i :: 0 <= i < |chunks| ==> WfChunk(chunks[i])
  }

  /** d is a well-formed document whose containers nest at most depth deep. */
  predicate Wf(d: Doc, depth: nat)
    decreases d, 1
  {
    match d
    case DNull => true
    case DTrue => true
    case DFalse => true
    case DNumber(n) => WfNumber(n)
    case DString(chunks) => WfChunks(chunks)
    case DArray(pad, items) => depth > 0 && AllWs(pad) && (items != [] ==> pad == []) && WfItems(items, depth - 1)
    case DObject(gap, members) =>
      depth > 0 && AllWs(gap) && (members != [] ==> gap == []) && WfMembers(members, depth - 1)
  }

  predicate WfItem(i: Item, depth: nat)
    decreases i, 2
  {
    AllWs(i.before) && AllWs(i.after) && Wf(i.doc, depth)
  }

  predicate WfItems(items: seq<Item>, depth: nat)
    decreases items, 0
  {
    items != [] ==> WfItem(items[0], depth) && WfItems(items[1..], depth)
  }

  predicate WfMember(m: Member, depth: nat)
    decreases m, 2
  {
    AllWs(m.before) && WfChunks(m.key) && AllWs(m.mid) && AllWs(m.gap) && Wf(m.doc, depth) && AllWs(m.after)
  }

  predicate WfMembers(members: seq<Member>, depth: nat)
    decreases members, 0
  {
    members != [] ==> WfMember(members[0], depth) && WfMembers(members[1..], depth)
  }

  // ---------- The text of a tree ----------
  // Every function below gives the text of its first argument followed by tail.

  function NumberText(n: Number, tail: Text): Text {
    (if n.negative then ['-' as int] else []) + (n.whole + FracText(n.frac, ExpText(n.exp, tail)))
  }

  function FracText(frac: Option<Text>, tail: Text): Text {
    if frac.Some? then ['.' as int] + (frac.value + tail) else tail
  }

  function ExpText(exp: Option<Exponent>, tail: Text): Text {
    if exp.Some? then [exp.value.marker] + (exp.value.sign + (exp.value.digits + tail)) else tail
  }

  function ChunkText(c: Chunk): Text {
    match c
    case Plain(r) => [r]
    case Short(l) => ['\\' as int, l]
    case Hex(a, b, c, d) => ['\\' as int, 'u' as int, a, b, c, d]
  }

  /** The chunks and the closing quotation mark. */
  function ChunksText(chunks: seq<Chunk>, tail: Text): Text {
    if chunks == [] then QUOTE + tail else ChunkText(chunks[0]) + ChunksText(chunks[1..], tail)
  }

  function DocText(d: Doc, tail: Text): Text
    decreases d, 1
  {
    match d
    case DNull => NULL + tail
    case DTrue => TRUE + tail
    case DFalse => FALSE + tail
    case DNumber(n) => NumberText(n, tail)
    case DString(chunks) => QUOTE + ChunksText(chunks, tail)
    case DArray(pad, items) =>
      ['[' as int] + (if items == [] then pad + ([']' as int] + tail) else ItemsText(items, tail))
    case DObject(gap, members) =>
      ['{' as int] + (if members == [] then gap + (['}' as int] + tail) else MembersText(members, tail))
  }

  function ItemText(i: Item, tail: Text): Text
    decreases i, 2
  {
    i.before + DocText(i.doc, i.after + tail)
  }

  /** The items, the commas between them and the closing bracket. */
  function ItemsText(items: seq<Item>, tail: Text): Text
    requires items != []
    decreases items, 0
  {
    ItemText(items[0], if |items| == 1 then [']' as int] + tail else COMMA + ItemsText(items[1..], tail))
  }

  function MemberText(m: Member, tail: Text): Text
    decreases m, 2
  {
    KeyText(m.before, m.key, m.mid, m.gap + DocText(m.doc, m.after + tail))
  }

  function KeyText(before: Text, key: seq<Chunk>, mid: Text, tail: Text): Text {
    before + (QUOTE + ChunksText(key, mid + (COLON + tail)))
  }

  /** The members, the commas between them and the closing brace. */
  function MembersText(members: seq<Member>, tail: Text): Text
    requires members != []
    decreases members, 0
  {
    MemberText(members[0], if |members| == 1 then ['}' as int] + tail else COMMA + MembersText(members[1..], tail))
  }
}
