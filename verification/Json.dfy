/**
 JSON values as json.Unmarshal delivers them, the canonical document of a value
 with sorted keys. CanonWf says that this document is well formed and has the
 value it was made from; Bodies builds on it.
 */
module Json {
  import opened Runes
  import opened Wrappers
  import opened JsonGrammar

  /** The deepest nesting encoding/json accepts. */
  const MAX_NESTING: nat := 10000

  /** A number is the literal json.Marshal prints for the float64 that was read. */
  datatype JSON =
    | Null
    | Bool(b: bool)
    | Num(literal: Number)
    | Str(text: Text)
    | Arr(items: seq<JSON>)
    | Obj(members: map<Text, JSON>)

  /** Reading a literal as float64 and printing it again; None when out of range. */
  type Rounding = Number -> Option<Number>

  /** What is printed is a literal that reads back as the same float64. */
  ghost predicate RoundTrips(norm: Rounding) {
    forall n :: WfNumber(n) && norm(n).Some? ==> WfNumber(norm(n).value) && norm(norm(n).value) == norm(n)
  }

  // ---------- Strings ----------

  function HexDigit(r: int): int {
    if IsDigit(r) then r - '0' as int
    else if r >= 'a' as int then r - 'a' as int + 10
    else r - 'A' as int + 10
  }

  function CodeUnit(c: Chunk): int
    requires c.Hex?
  {
    HexDigit(c.h3) * 0x1000 + HexDigit(c.h2) * 0x100 + HexDigit(c.h1) * 0x10 + HexDigit(c.h0)
  }

  function ShortRune(letter: int): int {
    if letter == 'b' as int then 0x08
    else if letter == 'f' as int then 0x0C
    else if letter == 'n' as int then 0x0A
    else if letter == 'r' as int then 0x0D
    else if letter == 't' as int then 0x09
    else letter
  }

  predicate IsSurrogate(u: int) {
    0xD800 <= u <= 0xDFFF
  }

  /** The text a string denotes. Bytes that are not UTF-8 and unpaired surrogates become U+FFFD. */
  function Unquote(chunks: seq<Chunk>): Text {
    if chunks == [] then []
    else
      match chunks[0]
      case Plain(r) => [if r >= FIRST_BAD then REPLACEMENT else r] + Unquote(chunks[1..])
      case Short(l) => [ShortRune(l)] + Unquote(chunks[1..])
      case Hex(_, _, _, _) =>
        var u := CodeUnit(chunks[0]);
        if !IsSurrogate(u) then [u] + Unquote(chunks[1..])
        else if u < 0xDC00 && |chunks| > 1 && chunks[1].Hex? && 0xDC00 <= CodeUnit(chunks[1]) <= 0xDFFF then
          [0x10000 + (u - 0xD800) * 0x400 + (CodeUnit(chunks[1]) - 0xDC00)] + Unquote(chunks[2..])
        else [REPLACEMENT] + Unquote(chunks[1..])
  }

  predicate Scalars(t: Text) {
    forall i :: 0 <= i < |t| ==> 0 <= t[i] < FIRST_BAD
  }

  function LowerHex(n: int): int
    requires 0 <= n < 16
  {
    if n < 10 then '0' as int + n else 'a' as int + n - 10
  }

  /** How json.Marshal writes one rune of a string, with HTML escaping on. */
  function EscapeRune(r: int): Chunk {
    if r == '"' as int || r == '\\' as int then Short(r)
    else if r == 0x08 then Short('b' as int)
    else if r == 0x0C then Short('f' as int)
    else if r == 0x0A then Short('n' as int)
    else if r == 0x0D then Short('r' as int)
    else if r == 0x09 then Short('t' as int)
    else if 0 <= r < 0x20 || r == '<' as int || r == '>' as int || r == '&' as int then
      Hex('0' as int, '0' as int, LowerHex(r / 16), LowerHex(r % 16))
    else if r == 0x2028 || r == 0x2029 then
      Hex('2' as int, '0' as int, '2' as int, LowerHex(r % 16))
    else Plain(r)
  }

  function Escape(t: Text): (chunks: seq<Chunk>)
    ensures |chunks| == |t|
    ensures forall i :: 0 <= i < |t| ==> chunks[i] == EscapeRune(t[i])
  {
    if t == [] then [] else [EscapeRune(t[0])] + Escape(t[1..])
  }

  lemma EscapeRuneWf(r: int)
    requires 0 <= r < FIRST_BAD
    ensures WfChunk(EscapeRune(r))
    ensures EscapeRune(r).Hex? ==> CodeUnit(EscapeRune(r)) == r && !IsSurrogate(r)
  {
  }

  lemma UnquoteEscapedRune(r: int, more: seq<Chunk>)
    requires 0 <= r < FIRST_BAD
    ensures Unquote([EscapeRune(r)] + more) == [r] + Unquote(more)
  {
    EscapeRuneWf(r);
    assert ([EscapeRune(r)] + more)[1..] == more;
  }

  lemma {:induction false} UnquoteEscape(t: Text)
    requires Scalars(t)
    ensures WfChunks(Escape(t)) && Unquote(Escape(t)) == t
  {
    var chunks := Escape(t);
    forall i | 0 <= i < |t| ensures WfChunk(chunks[i]) {
      EscapeRuneWf(t[i]);
    }
    if t != [] {
      UnquoteEscape(t[1..]);
      UnquoteEscapedRune(t[0], Escape(t[1..]));
      assert chunks[1..] == Escape(t[1..]);
    }
  }

  lemma CodeUnitRange(c: Chunk)
    requires c.Hex? && WfChunk(c)
    ensures 0 <= CodeUnit(c) <= 0xFFFF
  {
  }

  lemma {:induction false} UnquoteScalars(chunks: seq<Chunk>)
    requires WfChunks(chunks)
    ensures Scalars(Unquote(chunks))
  {
    if chunks != [] {
      assert WfChunk(chunks[0]);
      if chunks[0].Hex? {
        CodeUnitRange(chunks[0]);
      }
      UnquoteScalars(chunks[1..]);
      if |chunks| > 1 {
        UnquoteScalars(chunks[2..]);
      }
    }
  }

  // ---------- The value of a document ----------

  function Value(norm: Rounding, d: Doc): Option<JSON>
    decreases d, 1
  {
    match d
    case DNull => Some(Null)
    case DTrue => Some(Bool(true))
    case DFalse => Some(Bool(false))
    case DNumber(n) =>
      var literal :- norm(n);
      Some(Num(literal))
    case DString(chunks) => Some(Str(Unquote(chunks)))
    case DArray(_, items) =>
      var values :- ItemValues(norm, items);
      Some(Arr(values))
    case DObject(_, members) =>
      var values :- MemberValues(norm, members);
      Some(Obj(values))
  }

  function ItemValues(norm: Rounding, items: seq<Item>): Option<seq<JSON>>
    decreases items, 0
  {
    if items == [] then Some([])
    else
      var v :- Value(norm, items[0].doc);
      var more :- ItemValues(norm, items[1..]);
      Some([v] + more)
  }

  /** The last member of a name wins. */
  function MemberValues(norm: Rounding, members: seq<Member>): Option<map<Text, JSON>>
    decreases members, 0
  {
    if members == [] then Some(map[])
    else
      var v :- Value(norm, members[0].doc);
      var more :- MemberValues(norm, members[1..]);
      Some(map[Unquote(members[0].key) := v] + more)
  }

  /** v can be the value of a document that nests at most depth deep. */
  predicate Printable(norm: Rounding, v: JSON, depth: nat) {
    match v
    case Null => true
    case Bool(_) => true
    case Num(n) => WfNumber(n) && norm(n) == Some(n)
    case Str(t) => Scalars(t)
    case Arr(items) => depth > 0 && forall i :: 0 <= i < |items| ==> Printable(norm, items[i], depth - 1)
    case Obj(members) =>
      depth > 0 && forall k :: k in members ==> Scalars(k) && Printable(norm, members[k], depth - 1)
  }

  lemma {:induction false} ValuePrintable(norm: Rounding, d: Doc, depth: nat)
    requires RoundTrips(norm) && Wf(d, depth) && Value(norm, d).Some?
    ensures Printable(norm, Value(norm, d).value, depth)
    decreases d, 1
  {
    match d {
      case DString(chunks) => UnquoteScalars(chunks);
      case DArray(_, items) => ItemsPrintable(norm, items, depth - 1);
      case DObject(_, members) => MembersPrintable(norm, members, depth - 1);
      case _ =>
    }
  }

  lemma {:induction false} ItemsPrintable(norm: Rounding, items: seq<Item>, depth: nat)
    requires RoundTrips(norm) && WfItems(items, depth) && ItemValues(norm, items).Some?
    ensures var vs := ItemValues(norm, items).value;
            forall i :: 0 <= i < |vs| ==> Printable(norm, vs[i], depth)
    decreases items, 0
  {
    if items != [] {
      ValuePrintable(norm, items[0].doc, depth);
      ItemsPrintable(norm, items[1..], depth);
    }
  }

  lemma {:induction false} MembersPrintable(norm: Rounding, members: seq<Member>, depth: nat)
    requires RoundTrips(norm) && WfMembers(members, depth) && MemberValues(norm, members).Some?
    ensures var vs := MemberValues(norm, members).value;
            forall k :: k in vs ==> Scalars(k) && Printable(norm, vs[k], depth)
    decreases members, 0
  {
    if members != [] {
      ValuePrintable(norm, members[0].doc, depth);
      UnquoteScalars(members[0].key);
      MembersPrintable(norm, members[1..], depth);
    }
  }

  // ---------- Sorted keys ----------

  /** The order of sort.Strings: UTF-8 bytes compare as the code points do. */
  predicate Before(a: Text, b: Text) {
    b != [] && (a == [] || a[0] < b[0] || (a[0] == b[0] && Before(a[1..], b[1..])))
  }

  lemma {:induction false} BeforeTrichotomy(a: Text, b: Text)
    ensures a == b || Before(a, b) || Before(b, a)
    ensures !(Before(a, b) && Before(b, a)) && (a == b ==> !Before(a, b))
  {
    if a != [] && b != [] && a[0] == b[0] {
      BeforeTrichotomy(a[1..], b[1..]);
      assert a == [a[0]] + a[1..] && b == [b[0]] + b[1..];
    }
  }

  lemma {:induction false} BeforeTransitive(a: Text, b: Text, c: Text)
    requires Before(a, b) && Before(b, c)
    ensures Before(a, c)
  {
    if a != [] && a[0] == b[0] == c[0] {
      BeforeTransitive(a[1..], b[1..], c[1..]);
    }
  }

  predicate StrictlySorted(keys: seq<Text>) {
    forall i, j :: 0 <= i < j < |keys| ==> Before(keys[i], keys[j])
  }

  lemma {:induction false} LeastExists(s: set<Text>) returns (least: Text)
    requires s != {}
    ensures least in s && forall k :: k in s && k != least ==> Before(least, k)
  {
    var k :| k in s;
    least := k;
    if s != {k} {
      var other := LeastExists(s - {k});
      BeforeTrichotomy(k, other);
      if Before(other, k) {
        least := other;
      } else {
        forall x | x in s && x != k ensures Before(k, x) {
          if x != other {
            BeforeTransitive(k, other, x);
          }
        }
      }
    }
  }

  ghost function SortedKeys(s: set<Text>): (keys: seq<Text>)
    ensures forall k :: k in keys <==> k in s
    ensures StrictlySorted(keys)
  {
    if s == {} then []
    else
      ghost var least := (LeastWitness(s); var k :| k in s && forall x :: x in s && x != k ==> Before(k, x); k);
      [least] + SortedKeys(s - {least})
  }

  lemma LeastWitness(s: set<Text>)
    requires s != {}
    ensures exists k :: k in s && forall x :: x in s && x != k ==> Before(k, x)
  {
    var k := LeastExists(s);
  }

  /** There is only one way to sort a set of keys. */
  lemma {:induction false} SortedUnique(a: seq<Text>, b: seq<Text>)
    requires StrictlySorted(a) && StrictlySorted(b)
    requires forall k :: k in a <==> k in b
    ensures a == b
  {
    HeadIn(a);
    HeadIn(b);
    if a != [] && b != [] {
      HeadsAgree(a, b);
      forall k ensures k in a[1..] <==> k in b[1..] {
        TailKeys(a, k);
        TailKeys(b, k);
      }
      SortedUnique(a[1..], b[1..]);
      assert a == [a[0]] + a[1..] && b == [b[0]] + b[1..];
    }
  }

  lemma HeadIn(a: seq<Text>)
    ensures a == [] || a[0] in a
  {
  }

  lemma HeadsAgree(a: seq<Text>, b: seq<Text>)
    requires a != [] && b != [] && StrictlySorted(a) && StrictlySorted(b)
    requires a[0] in b && b[0] in a
    ensures a[0] == b[0]
  {
    BeforeTrichotomy(a[0], b[0]);
  }

  lemma TailKeys(a: seq<Text>, k: Text)
    requires a != [] && StrictlySorted(a)
    ensures k in a[1..] <==> k in a && k != a[0]
  {
    BeforeTrichotomy(a[0], k);
  }

  // ---------- The canonical document ----------

  ghost function CanonDoc(v: JSON): Doc
    decreases v, 1
  {
    match v
    case Null => DNull
    case Bool(b) => if b then DTrue else DFalse
    case Num(n) => DNumber(n)
    case Str(t) => DString(Escape(t))
    case Arr(items) => DArray([], CanonItems(items))
    case Obj(members) => DObject([], CanonMembers(v, SortedKeys(members.Keys)))
  }

  ghost function CanonItems(items: seq<JSON>): (r: seq<Item>)
    ensures |r| == |items|
    decreases items, 0
  {
    if items == [] then [] else [Item([], CanonDoc(items[0]), [])] + CanonItems(items[1..])
  }

  ghost function CanonMembers(v: JSON, keys: seq<Text>): (r: seq<Member>)
    requires v.Obj? && forall k :: k in keys ==> k in v.members
    ensures |r| == |keys|
    decreases v, 0, |keys|
  {
    if keys == [] then []
    else
      assert keys[0] in keys;
      [Member([], Escape(keys[0]), [], [], CanonDoc(v.members[keys[0]]), [])] + CanonMembers(v, keys[1..])
  }

  /** What writeCanonical prints for v. */
  ghost function Canonical(v: JSON): Text {
    DocText(CanonDoc(v), [])
  }

  lemma {:induction false} CanonWf(norm: Rounding, v: JSON, depth: nat)
    requires Printable(norm, v, depth)
    ensures Wf(CanonDoc(v), depth)
    ensures Value(norm, CanonDoc(v)) == Some(v)
    decreases v, 1
  {
    match v {
      case Str(t) => UnquoteEscape(t);
      case Arr(items) => CanonItemsWf(norm, items, depth - 1);
      case Obj(members) => CanonObjWf(norm, v, depth);
      case _ =>
    }
  }

  lemma {:induction false} CanonObjWf(norm: Rounding, v: JSON, depth: nat)
    requires v.Obj? && Printable(norm, v, depth)
    ensures Wf(CanonDoc(v), depth)
    ensures Value(norm, CanonDoc(v)) == Some(v)
    decreases v, 0, 1, 0
  {
    var keys := SortedKeys(v.members.Keys);
    CanonMembersWf(norm, v, keys, depth - 1);
    assert v.members == map k | k in keys :: v.members[k];
  }

  lemma {:induction false} CanonItemsWf(norm: Rounding, items: seq<JSON>, depth: nat)
    requires forall i :: 0 <= i < |items| ==> Printable(norm, items[i], depth)
    ensures WfItems(CanonItems(items), depth)
    ensures ItemValues(norm, CanonItems(items)) == Some(items)
    decreases items, 0
  {
    if items != [] {
      CanonWf(norm, items[0], depth);
      CanonItemsWf(norm, items[1..], depth);
      assert CanonItems(items)[1..] == CanonItems(items[1..]);
      assert items == [items[0]] + items[1..];
    }
  }

  lemma MapCons(m: map<Text, JSON>, keys: seq<Text>)
    requires keys != [] && forall k :: k in keys ==> k in m
    ensures keys[0] in m && forall k :: k in keys[1..] ==> k in m
    ensures map[keys[0] := m[keys[0]]] + (map k | k in keys[1..] :: m[k]) == map k | k in keys :: m[k]
  {
    HeadIn(keys);
    assert forall k :: k in keys <==> k == keys[0] || k in keys[1..];
  }

  lemma {:induction false} CanonMembersWf(norm: Rounding, v: JSON, keys: seq<Text>, depth: nat)
    requires v.Obj? && forall k :: k in keys ==> k in v.members
    requires forall k :: k in v.members ==> Scalars(k) && Printable(norm, v.members[k], depth)
    ensures WfMembers(CanonMembers(v, keys), depth)
    ensures MemberValues(norm, CanonMembers(v, keys)) == Some(map k | k in keys :: v.members[k])
    decreases v, 0, 0, |keys|
  {
    if keys != [] {
      var k := keys[0];
      CanonWf(norm, v.members[k], depth);
      UnquoteEscape(k);
      CanonMembersWf(norm, v, keys[1..], depth);
      var all := CanonMembers(v, keys);
      assert all[1..] == CanonMembers(v, keys[1..]);
      MapCons(v.members, keys);
    }
  }
}
