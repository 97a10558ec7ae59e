/**
 Text as the sequence of runes a UTF-8 decoder reads from a byte string: a
 Unicode scalar value is itself, and a byte b that belongs to no valid encoding
 is FIRST_BAD + b. Distinct byte strings are distinct sequences, so nothing is
 lost, and every character the code inspects by byte is ASCII, hence one rune.
 */
module Runes {

  type Text = seq<int>

  /** The runes of an ASCII literal. */
  function Ascii(s: string): Text {
    seq(|s|, i requires 0 <= i < |s| => s[i] as int)
  }

  const NUL := 0
  const REPLACEMENT := 0xFFFD
  const FIRST_BAD := 0x110000

  /** unicode.IsSpace, as bytes.TrimSpace and strings.TrimSpace apply it. */
  predicate IsSpace(r: int) {
    || 0x09 <= r <= 0x0D || r == 0x20 || r == 0x85 || r == 0xA0 || r == 0x1680
    || 0x2000 <= r <= 0x200A || r == 0x2028 || r == 0x2029 || r == 0x202F
    || r == 0x205F || r == 0x3000
  }

  predicate AllSpace(t: Text) {
    forall i :: 0 <= i < |t| ==> IsSpace(t[i])
  }

  /** The length of the longest prefix of t whose runes all satisfy p. */
  function Span(p: int -> bool, t: Text): (n: nat)
    ensures n <= |t|
    ensures forall i :: 0 <= i < n ==> p(t[i])
    ensures n < |t| ==> !p(t[n])
  {
    if t != [] && p(t[0]) then 1 + Span(p, t[1..]) else 0
  }

  function TrimLeft(t: Text): (r: Text)
    ensures r == [] || !IsSpace(r[0])
  {
    t[Span(IsSpace, t)..]
  }

  function TrimRight(t: Text): (r: Text)
    ensures r <= t
    ensures AllSpace(t[|r|..])
    ensures r == [] || !IsSpace(r[|r| - 1])
  {
    if t != [] && IsSpace(t[|t| - 1]) then TrimRight(t[..|t| - 1]) else t
  }

  function TrimSpace(t: Text): Text {
    TrimRight(TrimLeft(t))
  }

  /** Neither end is a space. */
  predicate Tight(t: Text) {
    t != [] ==> !IsSpace(t[0]) && !IsSpace(t[|t| - 1])
  }

  /** Trimming finds the tight core, whatever spaces surround it. */
  lemma TrimSpaceCore(before: Text, core: Text, after: Text)
    requires AllSpace(before) && AllSpace(after) && Tight(core)
    ensures TrimSpace(before + core + after) == core
  {
    var t := before + core + after;
    var n := Span(IsSpace, t);
    assert forall i :: 0 <= i < |before| ==> t[i] == before[i];
    if core == [] {
      assert forall i :: |before| <= i < |t| ==> t[i] == after[i - |before|];
    } else {
      assert t[|before|] == core[0];
      assert TrimLeft(t) == core + after;
      TrimRightCore(core, after);
    }
  }

  lemma TrimRightCore(core: Text, after: Text)
    requires AllSpace(after) && core != [] && !IsSpace(core[|core| - 1])
    ensures TrimRight(core + after) == core
  {
    var t := core + after;
    if after == [] {
      assert t == core;
    } else {
      assert t[|t| - 1] == after[|after| - 1];
      assert t[..|t| - 1] == core + after[..|after| - 1];
      TrimRightCore(core, after[..|after| - 1]);
    }
  }

  /** Every text is its trimmed core between two runs of spaces. */
  lemma TrimSpaceSplits(t: Text) returns (before: Text, after: Text)
    ensures AllSpace(before) && AllSpace(after) && Tight(TrimSpace(t))
    ensures t == before + TrimSpace(t) + after
  {
    var left := TrimLeft(t);
    var core := TrimRight(left);
    before, after := t[..|t| - |left|], left[|core|..];
    assert core <= left;
    assert left == core + after;
    assert left == t[|before|..];
    assert t == before + left;
    assert core != [] ==> core[0] == left[0];
  }

  predicate NulFree(t: Text) {
    forall i :: 0 <= i < |t| ==> t[i] != NUL
  }

  /** s is t, cut off after limit bytes if it is longer. */
  predicate FirstBytes(s: Text, t: Text, limit: nat) {
    if |t| <= limit then s == t else |s| == limit && s == t[..limit]
  }

  function Truncate(t: Text, limit: nat): Text {
    if |t| <= limit then t else t[..limit]
  }

  /** A NUL-free field followed by NUL can be told apart from what comes after it. */
  lemma FieldsSplit(a: Text, x: Text, b: Text, y: Text)
    requires NulFree(a) && NulFree(b)
    requires a + [NUL] + x == b + [NUL] + y
    ensures a == b && x == y
  {
    var s, t := a + [NUL] + x, b + [NUL] + y;
    assert s[|a|] == NUL && t[|b|] == NUL;
    assert forall i :: 0 <= i < |a| ==> s[i] == a[i];
    assert forall i :: 0 <= i < |b| ==> t[i] == b[i];
    assert |a| == |b|;
    assert a == s[..|a|] && b == t[..|b|];
    assert x == s[|a| + 1..] && y == t[|b| + 1..];
  }

  /** A NUL-free field behind a NUL can be told apart from what comes before it. */
  lemma FieldsSplitBack(x: Text, a: Text, y: Text, b: Text)
    requires NulFree(a) && NulFree(b)
    requires x + [NUL] + a == y + [NUL] + b
    ensures a == b && x == y
  {
    var s, t := x + [NUL] + a, y + [NUL] + b;
    assert s[|x|] == NUL && t[|y|] == NUL;
    assert forall i :: 0 <= i < |a| ==> s[|x| + 1 + i] == a[i];
    assert forall i :: 0 <= i < |b| ==> t[|y| + 1 + i] == b[i];
    assert |x| == |y|;
    assert x == s[..|x|] && y == t[..|y|];
    assert a == s[|x| + 1..] && b == t[|y| + 1..];
  }

  function IndexOfNul(t: Text): (n: nat)
    requires !NulFree(t)
    ensures n < |t| && t[n] == NUL
  {
    if t[0] == NUL then 0 else 1 + IndexOfNul(t[1..])
  }

  lemma CutAtNul(t: Text, n: nat)
    requires n < |t| && t[n] == NUL
    ensures t == t[..n] + [NUL] + t[n + 1..]
  {
  }

  function CountNul(t: Text): nat {
    if t == [] then 0 else CountNul(t[..|t| - 1]) + if t[|t| - 1] == NUL then 1 else 0
  }

  lemma {:induction false} CountNulConcat(a: Text, b: Text)
    ensures CountNul(a + b) == CountNul(a) + CountNul(b)
  {
    if b == [] {
      assert a + b == a;
    } else {
      assert (a + b)[..|a + b| - 1] == a + b[..|b| - 1];
      CountNulConcat(a, b[..|b| - 1]);
    }
  }

  lemma {:induction false} CountNulZero(t: Text)
    ensures CountNul(t) == 0 <==> NulFree(t)
  {
    if t != [] {
      CountNulZero(t[..|t| - 1]);
      assert NulFree(t) <==> NulFree(t[..|t| - 1]) && t[|t| - 1] != NUL by {
        assert forall i :: 0 <= i < |t| - 1 ==> t[..|t| - 1][i] == t[i];
      }
    }
  }

  /** No two of the digested texts collide under sha. */
  ghost predicate CollisionFree(sha: Text -> Text, digested: set<Text>) {
    forall s, t :: s in digested && t in digested && sha(s) == sha(t) ==> s == t
  }
}
