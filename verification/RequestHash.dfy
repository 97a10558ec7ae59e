/**
 The canonical writer and the request digest as the code runs them: a shared
 buffer that writeCanonical appends to, and a hasher fed field by field. The
 methods are proved against Canonical and CanonicalJson; RequestHashDecides says
 what an equal digest means.
 */
module RequestHash {
  import opened Runes
  import opened JsonGrammar
  import opened Json
  import opened Bodies

  class Buffer {
    var bytes: Text

    constructor ()
      ensures bytes == []
    {
      bytes := [];
    }

    method Write(t: Text)
      modifies this
      ensures bytes == old(bytes) + t
    {
      bytes := bytes + t;
    }
  }

  // ---------- sort.Strings ----------

  /** Non-strict order, so that the sort is specified on every input. */
  predicate Sorted(keys: seq<Text>) {
    forall i, j :: 0 <= i < j < |keys| ==> !Before(keys[j], keys[i])
  }

  method SortStrings(keys: seq<Text>) returns (r: seq<Text>)
    ensures Sorted(r) && multiset(r) == multiset(keys)
  {
    r := [];
    for n := 0 to |keys|
      invariant Sorted(r) && multiset(r) == multiset(keys[..n])
    {
      var i := |r|;
      while i > 0 && Before(keys[n], r[i - 1])
        invariant 0 <= i <= |r|
        invariant forall j :: i <= j < |r| ==> Before(keys[n], r[j])
      {
        i := i - 1;
      }
      InsertSorted(r, i, keys[n]);
      r := r[..i] + [keys[n]] + r[i..];
      assert keys[..n + 1] == keys[..n] + [keys[n]];
      assert multiset(r) == multiset(keys[..n]) + multiset{keys[n]};
    }
    assert keys[..|keys|] == keys;
  }

  lemma InsertSorted(r: seq<Text>, i: nat, k: Text)
    requires Sorted(r) && i <= |r|
    requires i > 0 ==> !Before(k, r[i - 1])
    requires forall j :: i <= j < |r| ==> Before(k, r[j])
    ensures multiset(r[..i] + [k] + r[i..]) == multiset(r) + multiset{k}
    ensures Sorted(r[..i] + [k] + r[i..])
  {
    assert r == r[..i] + r[i..];
    forall j | 0 <= j < i ensures !Before(k, r[j]) {
      NotBeforeEarlier(r, i - 1, k, j);
    }
    forall j | i <= j < |r| ensures !Before(r[j], k) {
      BeforeTrichotomy(k, r[j]);
    }
    SortedConcat(r[..i], k, r[i..]);
  }

  lemma NotBeforeEarlier(r: seq<Text>, last: nat, k: Text, j: nat)
    requires Sorted(r) && j <= last < |r| && !Before(k, r[last])
    ensures !Before(k, r[j])
  {
    if j < last && Before(k, r[j]) {
      BeforeTrichotomy(r[j], r[last]);
      if r[j] != r[last] {
        BeforeTransitive(k, r[j], r[last]);
      }
    }
  }

  lemma SortedConcat(a: seq<Text>, k: Text, b: seq<Text>)
    requires Sorted(a + b)
    requires forall j :: 0 <= j < |a| ==> !Before(k, a[j])
    requires forall j :: 0 <= j < |b| ==> !Before(b[j], k)
    ensures Sorted(a + [k] + b)
  {
    var r, s := a + b, a + [k] + b;
    BeforeTrichotomy(k, k);
    assert forall j :: 0 <= j < |a| ==> s[j] == a[j] == r[j];
    assert s[|a|] == k;
    assert forall j :: |a| < j < |s| ==> s[j] == b[j - |a| - 1] == r[j - 1];
  }

  // ---------- writeCanonical ----------

  /** The keys of a map in the order some iteration meets them. */
  method CollectKeys(members: map<Text, JSON>) returns (keys: seq<Text>)
    ensures multiset(keys) == multiset(members.Keys)
  {
    keys := [];
    var left := members.Keys;
    while left != {}
      invariant left <= members.Keys
      invariant multiset(keys) == multiset(members.Keys - left)
      decreases left
    {
      var k :| k in left;
      keys, left := keys + [k], left - {k};
      assert members.Keys - left == (members.Keys - (left + {k})) + {k};
    }
    assert members.Keys - left == members.Keys;
  }

  /** Sorting the keys in any iteration order gives the same list. */
  lemma SortedPermutation(s: set<Text>, keys: seq<Text>)
    requires Sorted(keys) && multiset(keys) == multiset(s)
    ensures keys == SortedKeys(s)
  {
    assert forall k :: k in keys <==> k in multiset(keys);
    forall i, j | 0 <= i < j < |keys| ensures Before(keys[i], keys[j]) {
      if keys[i] == keys[j] {
        OccursTwice(keys, i, j);
      }
      BeforeTrichotomy(keys[i], keys[j]);
    }
    SortedUnique(keys, SortedKeys(s));
  }

  lemma OccursTwice(keys: seq<Text>, i: nat, j: nat)
    requires i < j < |keys| && keys[i] == keys[j]
    ensures multiset(keys)[keys[i]] >= 2
  {
    assert keys == keys[..i] + [keys[i]] + keys[i + 1..j] + [keys[j]] + keys[j + 1..];
  }

  /** json.Marshal of a string. */
  function QuoteString(t: Text): Text {
    QUOTE + ChunksText(Escape(t), [])
  }

  /** json.Marshal of a value that is neither an array nor an object. */
  function Scalar(v: JSON): Text
    requires !v.Arr? && !v.Obj?
  {
    match v
    case Null => NULL
    case Bool(b) => if b then TRUE else FALSE
    case Num(n) => NumberText(n, [])
    case Str(t) => QuoteString(t)
  }

  /** What is still to be written after the first n items: separators, items, bracket. */
  ghost function ItemsLeft(items: seq<JSON>, n: nat): Text
    requires n <= |items|
  {
    if n == |items| then [']' as int]
    else (if n > 0 then COMMA else []) + ItemsText(CanonItems(items[n..]), [])
  }

  ghost function MembersLeft(v: JSON, keys: seq<Text>, n: nat): Text
    requires v.Obj? && n <= |keys| && forall k :: k in keys ==> k in v.members
  {
    if n == |keys| then ['}' as int]
    else (if n > 0 then COMMA else []) + MembersText(CanonMembers(v, keys[n..]), [])
  }

  lemma ItemsLeftStep(items: seq<JSON>, n: nat)
    requires n < |items|
    ensures ItemsLeft(items, n)
         == (if n > 0 then COMMA else []) + (Canonical(items[n]) + ItemsLeft(items, n + 1))
  {
    var rest := items[n..];
    assert rest[1..] == items[n + 1..];
    var all := CanonItems(rest);
    assert all[0] == Item([], CanonDoc(items[n]), []) && all[1..] == CanonItems(rest[1..]);
    var tail := if |rest| == 1 then [']' as int] + [] else COMMA + ItemsText(all[1..], []);
    assert tail == ItemsLeft(items, n + 1);
    ItemPiece(CanonDoc(items[n]), tail);
    assert ItemsText(all, []) == ItemText(all[0], tail);
  }

  lemma ItemPiece(doc: Doc, tail: Text)
    ensures ItemText(Item([], doc, []), tail) == DocText(doc, []) + tail
  {
    DocAppend(doc, [], tail);
    assert [] + tail == tail;
    assert [] + DocText(doc, tail) == DocText(doc, tail);
  }

  lemma MemberPiece(key: seq<Chunk>, doc: Doc, tail: Text)
    ensures MemberText(Member([], key, [], [], doc, []), tail)
         == (QUOTE + ChunksText(key, [])) + (COLON + (DocText(doc, []) + tail))
  {
    ItemPiece(doc, tail);
    var value := COLON + (DocText(doc, []) + tail);
    assert [] + value == value;
    ChunksAppend(key, [], value);
    Assoc(QUOTE, ChunksText(key, []), value);
    assert [] + (QUOTE + ChunksText(key, value)) == QUOTE + ChunksText(key, value);
  }

  lemma MembersLeftStep(v: JSON, keys: seq<Text>, n: nat)
    requires v.Obj? && n < |keys| && forall k :: k in keys ==> k in v.members
    ensures keys[n] in v.members
    ensures MembersLeft(v, keys, n)
         == (if n > 0 then COMMA else [])
            + (QuoteString(keys[n]) + (COLON + (Canonical(v.members[keys[n]]) + MembersLeft(v, keys, n + 1))))
  {
    var rest := keys[n..];
    assert rest[1..] == keys[n + 1..] && rest[0] in keys;
    var all := CanonMembers(v, rest);
    var doc := CanonDoc(v.members[keys[n]]);
    assert all[0] == Member([], Escape(keys[n]), [], [], doc, []) && all[1..] == CanonMembers(v, rest[1..]);
    var tail := if |rest| == 1 then ['}' as int] + [] else COMMA + MembersText(all[1..], []);
    assert tail == MembersLeft(v, keys, n + 1);
    MemberPiece(Escape(keys[n]), doc, tail);
    assert MembersText(all, []) == MemberText(all[0], tail);
  }

  /** Writes one piece of what is left to write. */
  method WritePiece(buf: Buffer, piece: Text, ghost left: Text)
    modifies buf
    ensures buf.bytes == old(buf.bytes) + piece
    ensures buf.bytes + left == old(buf.bytes) + (piece + left)
  {
    Assoc(buf.bytes, piece, left);
    buf.Write(piece);
  }

  method WriteSeparator(buf: Buffer, i: nat, ghost left: Text)
    modifies buf
    ensures buf.bytes + left == old(buf.bytes) + ((if i > 0 then COMMA else []) + left)
  {
    if i > 0 {
      WritePiece(buf, COMMA, left);
    } else {
      assert [] + left == left;
    }
  }

  /**
   The recursive printer. The order in which CollectKeys meets the keys is left
   open, so the postcondition also says that it does not matter.
   */
  method WriteCanonical(buf: Buffer, v: JSON)
    modifies buf
    ensures buf.bytes == old(buf.bytes) + Canonical(v)
    decreases v, 1
  {
    match v {
      case Obj(_) => WriteObject(buf, v);
      case Arr(_) => WriteArray(buf, v);
      case _ =>
        ScalarText(v);
        buf.Write(Scalar(v));
    }
  }

  lemma ScalarText(v: JSON)
    requires !v.Arr? && !v.Obj?
    ensures Scalar(v) == Canonical(v)
  {
    assert NULL + [] == NULL && TRUE + [] == TRUE && FALSE + [] == FALSE;
  }

  method WriteObject(buf: Buffer, v: JSON)
    requires v.Obj?
    modifies buf
    ensures buf.bytes == old(buf.bytes) + Canonical(v)
    decreases v, 0
  {
    var keys := CollectKeys(v.members);
    keys := SortStrings(keys);
    SortedPermutation(v.members.Keys, keys);
    ghost var target := buf.bytes + Canonical(v);
    ObjectLeft(v, keys);
    WritePiece(buf, ['{' as int], MembersLeft(v, keys, 0));
    for i := 0 to |keys|
      invariant buf.bytes + MembersLeft(v, keys, i) == target
    {
      MembersLeftStep(v, keys, i);
      var key, value := QuoteString(keys[i]), v.members[keys[i]];
      ghost var left := MembersLeft(v, keys, i + 1);
      WriteSeparator(buf, i, key + (COLON + (Canonical(value) + left)));
      WritePiece(buf, key, COLON + (Canonical(value) + left));
      WritePiece(buf, COLON, Canonical(value) + left);
      Assoc(buf.bytes, Canonical(value), left);
      WriteCanonical(buf, value);
    }
    buf.Write(['}' as int]);
  }

  lemma ObjectText(members: seq<Member>)
    ensures DocText(DObject([], members), [])
         == ['{' as int] + if members == [] then ['}' as int] else MembersText(members, [])
  {
    if members == [] {
      assert [] + (['}' as int] + []) == ['}' as int];
    } else {
      var t := MembersText(members, []);
      assert [] + t == t;
    }
  }

  lemma CanonicalObject(v: JSON)
    requires v.Obj?
    ensures Canonical(v) == DocText(DObject([], CanonMembers(v, SortedKeys(v.members.Keys))), [])
  {
  }

  lemma AllMembersLeft(v: JSON, keys: seq<Text>)
    requires v.Obj? && forall k :: k in keys ==> k in v.members
    ensures MembersLeft(v, keys, 0)
         == if CanonMembers(v, keys) == [] then ['}' as int] else MembersText(CanonMembers(v, keys), [])
  {
    assert keys[0..] == keys;
    if keys != [] {
      var t := MembersText(CanonMembers(v, keys), []);
      assert [] + t == t;
    }
  }

  lemma ObjectLeft(v: JSON, keys: seq<Text>)
    requires v.Obj? && keys == SortedKeys(v.members.Keys)
    ensures Canonical(v) == ['{' as int] + MembersLeft(v, keys, 0)
  {
    CanonicalObject(v);
    AllMembersLeft(v, keys);
    ObjectText(CanonMembers(v, keys));
  }

  method WriteArray(buf: Buffer, v: JSON)
    requires v.Arr?
    modifies buf
    ensures buf.bytes == old(buf.bytes) + Canonical(v)
    decreases v, 0
  {
    var items := v.items;
    ghost var target := buf.bytes + Canonical(v);
    ArrayLeft(v);
    WritePiece(buf, ['[' as int], ItemsLeft(items, 0));
    for i := 0 to |items|
      invariant buf.bytes + ItemsLeft(items, i) == target
    {
      ItemsLeftStep(items, i);
      ghost var left := ItemsLeft(items, i + 1);
      WriteSeparator(buf, i, Canonical(items[i]) + left);
      Assoc(buf.bytes, Canonical(items[i]), left);
      WriteCanonical(buf, items[i]);
    }
    buf.Write([']' as int]);
  }

  lemma ArrayLeft(v: JSON)
    requires v.Arr?
    ensures Canonical(v) == ['[' as int] + ItemsLeft(v.items, 0)
  {
    assert v.items[0..] == v.items;
    if v.items == [] {
      assert [] + ([']' as int] + []) == [']' as int];
    } else {
      var t := ItemsText(CanonItems(v.items), []);
      assert [] + t == t;
    }
  }

  method WriteCanonicalJson(norm: Rounding, body: Text) returns (bytes: Text)
    ensures bytes == CanonicalJson(norm, body)
  {
    var trimmed := TrimSpace(body);
    if trimmed == [] {
      return [];
    }
    var parsed := Decode(norm, trimmed);
    if parsed.None? {
      return trimmed;
    }
    var buf := new Buffer();
    WriteCanonical(buf, parsed.value);
    return buf.bytes;
  }

  // ---------- RequestHash ----------

  /** The bytes the hasher has received when the digest is taken. */
  ghost function DigestInput(norm: Rounding, scope: Text, route: Text, body: Text): Text {
    scope + [NUL] + (route + [NUL] + CanonicalJson(norm, body))
  }

  ghost function RequestDigest(norm: Rounding, sha: Text -> Text, scope: Text, route: Text, body: Text): Text {
    sha(DigestInput(norm, scope, route, body))
  }

  method ComputeRequestHash(norm: Rounding, sha: Text -> Text, scope: Text, route: Text, body: Text)
    returns (digest: Text)
    ensures digest == RequestDigest(norm, sha, scope, route, body)
  {
    var canonical := WriteCanonicalJson(norm, body);
    var hasher := new Buffer();
    hasher.Write(scope);
    hasher.Write([NUL]);
    hasher.Write(route);
    hasher.Write([NUL]);
    hasher.Write(canonical);
    assert [] + scope == scope;
    Assoc(scope + [NUL], route, [NUL]);
    Assoc(scope + [NUL], route + [NUL], canonical);
    return sha(hasher.bytes);
  }

  /** Without NUL in scope and route, the digested bytes determine all three parts. */
  lemma DigestInputDecides(norm: Rounding, s1: Text, r1: Text, b1: Text, s2: Text, r2: Text, b2: Text)
    requires RoundTrips(norm) && NulFree(s1) && NulFree(r1) && NulFree(s2) && NulFree(r2)
    ensures DigestInput(norm, s1, r1, b1) == DigestInput(norm, s2, r2, b2)
       <==> s1 == s2 && r1 == r2 && Read(norm, b1) == Read(norm, b2)
  {
    CanonicalSeparates(norm, b1, b2);
    var c1, c2 := CanonicalJson(norm, b1), CanonicalJson(norm, b2);
    if DigestInput(norm, s1, r1, b1) == DigestInput(norm, s2, r2, b2) {
      FieldsSplit(s1, r1 + [NUL] + c1, s2, r2 + [NUL] + c2);
      FieldsSplit(r1, c1, r2, c2);
    }
  }

  /** Two requests have the same digest exactly when they are the same request. */
  lemma RequestHashDecides(norm: Rounding, sha: Text -> Text,
                           s1: Text, r1: Text, b1: Text, s2: Text, r2: Text, b2: Text)
    requires RoundTrips(norm) && NulFree(s1) && NulFree(r1) && NulFree(s2) && NulFree(r2)
    requires CollisionFree(sha, {DigestInput(norm, s1, r1, b1), DigestInput(norm, s2, r2, b2)})
    ensures RequestDigest(norm, sha, s1, r1, b1) == RequestDigest(norm, sha, s2, r2, b2)
       <==> s1 == s2 && r1 == r2 && Read(norm, b1) == Read(norm, b2)
  {
    DigestInputDecides(norm, s1, r1, b1, s2, r2, b2);
  }

  /** A NUL inside a field can be taken for the end of the field. */
  lemma NulConfusesFields(norm: Rounding, a: Text, b: Text, c: Text, body: Text)
    ensures DigestInput(norm, a + [NUL] + b, c, body) == DigestInput(norm, a, b + [NUL] + c, body)
  {
    var x := CanonicalJson(norm, body);
    Assoc(a + [NUL], b, [NUL]);
    Assoc(a + [NUL], b + [NUL], c + [NUL] + x);
    Assoc(b + [NUL], c, [NUL]);
    Assoc(b + [NUL], c + [NUL], x);
  }

  /** Another scope and route are digested as the same bytes. */
  ghost predicate Mistakable(norm: Rounding, s: Text, r: Text, body: Text) {
    exists s2, r2 :: Mistaken(norm, s, r, s2, r2, body)
  }

  ghost predicate Mistaken(norm: Rounding, s: Text, r: Text, s2: Text, r2: Text, body: Text) {
    (s2 != s || r2 != r) && DigestInput(norm, s2, r2, body) == DigestInput(norm, s, r, body)
  }

  /** One side free of NUL fixes where the fields end, whatever the other side holds. */
  lemma NulFreeFieldsFixed(s: Text, r: Text, s2: Text, r2: Text, x: Text)
    requires NulFree(s) && NulFree(r) && s2 + [NUL] + (r2 + [NUL] + x) == s + [NUL] + (r + [NUL] + x)
    ensures s2 == s && r2 == r
  {
    var t := s + [NUL] + (r + [NUL] + x);
    assert |s2| + |r2| == |s| + |r|;
    assert t[|s2|] == NUL by { assert t == s2 + [NUL] + (r2 + [NUL] + x); }
    assert forall i :: 0 <= i < |s| ==> t[i] == s[i];
    assert forall i :: 0 <= i < |r| ==> t[|s| + 1 + i] == r[i];
    assert |s2| == |s|;
    assert s2 == t[..|s|] == s;
    assert r2 == t[|s| + 1..|s| + 1 + |r|] == r;
  }

  /** A scope and route can be mistaken for others, with the same body, exactly when one of them contains a NUL. */
  lemma MistakableIffNul(norm: Rounding, s: Text, r: Text, body: Text)
    ensures Mistakable(norm, s, r, body) <==> !NulFree(s) || !NulFree(r)
  {
    var x := CanonicalJson(norm, body);
    if !NulFree(s) {
      var n := IndexOfNul(s);
      var a, b := s[..n], s[n + 1..];
      CutAtNul(s, n);
      NulConfusesFields(norm, a, b, r, body);
      assert Mistaken(norm, s, r, a, b + [NUL] + r, body);
    } else if !NulFree(r) {
      var n := IndexOfNul(r);
      var a, b := r[..n], r[n + 1..];
      CutAtNul(r, n);
      NulConfusesFields(norm, s, a, b, body);
      assert Mistaken(norm, s, r, s + [NUL] + a, b, body);
    } else if Mistakable(norm, s, r, body) {
      var s2, r2 :| Mistaken(norm, s, r, s2, r2, body);
      NulFreeFieldsFixed(s, r, s2, r2, x);
    }
  }

  // ---------- Any two bodies ----------

  /** Scope and route as the hasher receives them, in front of the body. */
  function Framed(s: Text, r: Text): Text {
    s + [NUL] + (r + [NUL])
  }

  /** q goes on after p with something a body can begin with. */
  predicate Continues(p: Text, q: Text) {
    p < q && !IsSpace(q[|p|])
  }

  lemma DigestFrames(norm: Rounding, s: Text, r: Text, body: Text)
    ensures DigestInput(norm, s, r, body) == Framed(s, r) + CanonicalJson(norm, body)
  {
    Assoc(r, [NUL], CanonicalJson(norm, body));
    Assoc(s + [NUL], r + [NUL], CanonicalJson(norm, body));
  }

  lemma FramedEnds(s: Text, r: Text)
    ensures Framed(s, r) != [] && Framed(s, r)[|Framed(s, r)| - 1] == NUL
  {
  }

  /** The shorter frame is followed by what the longer one adds. */
  lemma ShorterContinues(p: Text, c1: Text, q: Text, c2: Text)
    requires p + c1 == q + c2 && |p| < |q| && Tight(c1)
    ensures Continues(p, q)
  {
    var t := p + c1;
    assert p == t[..|p|] && q == t[..|q|] by { assert t == q + c2; }
    assert q[..|p|] == p;
    assert c1[0] == t[|p|] == q[|p|];
  }

  lemma SameFrame(p: Text, c1: Text, q: Text, c2: Text)
    requires p + c1 == q + c2 && |p| == |q|
    ensures p == q
  {
    var t := p + c1;
    assert p == t[..|p|] && q == t[..|q|] by { assert t == q + c2; }
  }

  /** A frame that continues another is that frame followed by a body that is hashed verbatim. */
  lemma ContinuationIsBody(norm: Rounding, p: Text, q: Text) returns (b: Text)
    requires Continues(p, q) && q[|q| - 1] == NUL
    ensures p + CanonicalJson(norm, b) == q + CanonicalJson(norm, [])
  {
    b := q[|p|..];
    assert b[0] == q[|p|] && b[|b| - 1] == NUL;
    NulEndVerbatim(norm, b);
    assert TrimSpace([]) == [];
    assert CanonicalJson(norm, []) == [];
    assert q == p + b && q + [] == q;
  }

  /** With suitable bodies, two pairs of scope and route are digested as the same bytes. */
  ghost predicate Confusable(norm: Rounding, s1: Text, r1: Text, s2: Text, r2: Text) {
    exists b1, b2 :: DigestInput(norm, s1, r1, b1) == DigestInput(norm, s2, r2, b2)
  }

  /**
   Some bodies make two pairs of scope and route look alike exactly when their
   frames are equal or one continues the other with something other than a space.
   */
  lemma ConfusableIff(norm: Rounding, s1: Text, r1: Text, s2: Text, r2: Text)
    requires RoundTrips(norm)
    ensures var p, q := Framed(s1, r1), Framed(s2, r2);
      Confusable(norm, s1, r1, s2, r2) <==> p == q || Continues(p, q) || Continues(q, p)
  {
    var p, q := Framed(s1, r1), Framed(s2, r2);
    FramedEnds(s1, r1);
    FramedEnds(s2, r2);
    if Confusable(norm, s1, r1, s2, r2) {
      var b1, b2 :| DigestInput(norm, s1, r1, b1) == DigestInput(norm, s2, r2, b2);
      ConfusedFrames(norm, s1, r1, b1, s2, r2, b2);
    }
    if p == q {
      Confused(norm, s1, r1, [], s2, r2, []);
    } else if Continues(p, q) {
      var b := ContinuationIsBody(norm, p, q);
      Confused(norm, s1, r1, b, s2, r2, []);
    } else if Continues(q, p) {
      var b := ContinuationIsBody(norm, q, p);
      Confused(norm, s1, r1, [], s2, r2, b);
    }
  }

  lemma Confused(norm: Rounding, s1: Text, r1: Text, b1: Text, s2: Text, r2: Text, b2: Text)
    requires Framed(s1, r1) + CanonicalJson(norm, b1) == Framed(s2, r2) + CanonicalJson(norm, b2)
    ensures Confusable(norm, s1, r1, s2, r2)
  {
    DigestFrames(norm, s1, r1, b1);
    DigestFrames(norm, s2, r2, b2);
    assert DigestInput(norm, s1, r1, b1) == DigestInput(norm, s2, r2, b2);
  }

  lemma ConfusedFrames(norm: Rounding, s1: Text, r1: Text, b1: Text, s2: Text, r2: Text, b2: Text)
    requires RoundTrips(norm) && DigestInput(norm, s1, r1, b1) == DigestInput(norm, s2, r2, b2)
    ensures var p, q := Framed(s1, r1), Framed(s2, r2); p == q || Continues(p, q) || Continues(q, p)
  {
    var p, q, c1, c2 := Framed(s1, r1), Framed(s2, r2), CanonicalJson(norm, b1), CanonicalJson(norm, b2);
    DigestFrames(norm, s1, r1, b1);
    DigestFrames(norm, s2, r2, b2);
    CanonicalTight(norm, b1);
    CanonicalTight(norm, b2);
    if |p| < |q| {
      ShorterContinues(p, c1, q, c2);
    } else if |q| < |p| {
      ShorterContinues(q, c2, p, c1);
    } else {
      SameFrame(p, c1, q, c2);
    }
  }
}
