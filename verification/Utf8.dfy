/**
 The bytes behind a text, for what the code does byte by byte: comparing keys,
 measuring a header and looking for something other than spaces.
 */
module Utf8 {
  import opened Runes
  import opened Json
  import AuditAppend
  import Middleware

  /** The UTF-8 encoding of a rune (RFC 3629, section 3); a byte outside any encoding is itself. */
  function RuneBytes(r: int): seq<int> {
    if r >= FIRST_BAD then [r - FIRST_BAD]
    else if r < 0x80 then [r]
    else if r < 0x800 then [0xC0 + r / 0x40, 0x80 + r % 0x40]
    else if r < 0x10000 then [0xE0 + r / 0x1000, 0x80 + r / 0x40 % 0x40, 0x80 + r % 0x40]
    else [0xF0 + r / 0x40000, 0x80 + r / 0x1000 % 0x40, 0x80 + r / 0x40 % 0x40, 0x80 + r % 0x40]
  }

  function Encode(t: Text): seq<int> {
    if t == [] then [] else RuneBytes(t[0]) + Encode(t[1..])
  }

  // ---------- Length ----------

  lemma {:induction false} EncodeConcat(a: Text, b: Text)
    ensures Encode(a + b) == Encode(a) + Encode(b)
  {
    if a == [] {
      assert a + b == b;
    } else {
      assert (a + b)[1..] == a[1..] + b;
      EncodeConcat(a[1..], b);
      assert RuneBytes(a[0]) + (Encode(a[1..]) + Encode(b)) == RuneBytes(a[0]) + Encode(a[1..]) + Encode(b);
    }
  }

  /** The length the middleware bounds is the number of bytes of the header. */
  lemma {:induction false} ByteLengthIsBytes(t: Text)
    ensures Middleware.ByteLength(t) == |Encode(t)|
  {
    if t != [] {
      var n := |t| - 1;
      ByteLengthIsBytes(t[..n]);
      EncodeConcat(t[..n], [t[n]]);
      assert t == t[..n] + [t[n]];
      assert Encode([t[n]]) == RuneBytes(t[n]) + [];
    }
  }

  // ---------- Order ----------

  /** a and b agree before k, and a ends there or has the smaller byte. */
  predicate LessAt(a: seq<int>, b: seq<int>, k: nat) {
    k <= |a| && k < |b| && a[..k] == b[..k] && (k == |a| || a[k] < b[k])
  }

  /** a comes before b byte by byte: it is a proper beginning, or smaller at the first difference. */
  ghost predicate BytesLess(a: seq<int>, b: seq<int>) {
    exists k :: k >= 0 && LessAt(a, b, k)
  }

  lemma Halves(x: int, y: int)
    requires 0 <= x < y
    ensures x / 0x40 < y / 0x40 || (x / 0x40 == y / 0x40 && x % 0x40 < y % 0x40)
    ensures x / 0x40 / 0x40 == x / 0x1000 && x / 0x1000 / 0x40 == x / 0x40000
  {
  }

  lemma TwoBytes(x: int, y: int) returns (k: nat)
    requires 0x80 <= x < y < 0x800
    ensures k < 2 && RuneBytes(x)[..k] == RuneBytes(y)[..k] && RuneBytes(x)[k] < RuneBytes(y)[k]
  {
    Halves(x, y);
    k := if x / 0x40 < y / 0x40 then 0 else 1;
  }

  lemma ThreeBytes(x: int, y: int) returns (k: nat)
    requires 0x800 <= x < y < 0x10000
    ensures k < 3 && RuneBytes(x)[..k] == RuneBytes(y)[..k] && RuneBytes(x)[k] < RuneBytes(y)[k]
  {
    Halves(x, y);
    if x / 0x40 < y / 0x40 {
      Halves(x / 0x40, y / 0x40);
      k := if x / 0x1000 < y / 0x1000 then 0 else 1;
    } else {
      k := 2;
    }
  }

  lemma FourBytes(x: int, y: int) returns (k: nat)
    requires 0x10000 <= x < y < FIRST_BAD
    ensures k < 4 && RuneBytes(x)[..k] == RuneBytes(y)[..k] && RuneBytes(x)[k] < RuneBytes(y)[k]
  {
    Halves(x, y);
    if x / 0x40 < y / 0x40 {
      Halves(x / 0x40, y / 0x40);
      if x / 0x1000 < y / 0x1000 {
        Halves(x / 0x1000, y / 0x1000);
        k := if x / 0x40000 < y / 0x40000 then 0 else 1;
      } else {
        k := 2;
      }
    } else {
      k := 3;
    }
  }

  lemma FirstByte(r: int)
    requires 0 <= r < FIRST_BAD
    ensures var b := RuneBytes(r)[0];
      if r < 0x80 then b < 0x80
      else if r < 0x800 then 0xC0 <= b < 0xE0
      else if r < 0x10000 then 0xE0 <= b < 0xF0
      else 0xF0 <= b
  {
  }

  /** Of two encodings of scalars the smaller one is smaller at a byte both have. */
  lemma RuneOrder(x: int, y: int) returns (k: nat)
    requires 0 <= x < y < FIRST_BAD
    ensures k < |RuneBytes(x)| && k < |RuneBytes(y)|
    ensures RuneBytes(x)[..k] == RuneBytes(y)[..k] && RuneBytes(x)[k] < RuneBytes(y)[k]
  {
    if 0x80 <= x && y < 0x800 {
      k := TwoBytes(x, y);
    } else if 0x800 <= x && y < 0x10000 {
      k := ThreeBytes(x, y);
    } else if 0x10000 <= x {
      k := FourBytes(x, y);
    } else {
      FirstByte(x);
      FirstByte(y);
      k := 0;
    }
  }

  lemma LessWithin(a: seq<int>, b: seq<int>, k: nat, x: seq<int>, y: seq<int>)
    requires k < |a| && k < |b| && a[..k] == b[..k] && a[k] < b[k]
    ensures LessAt(a + x, b + y, k)
  {
    assert (a + x)[..k] == a[..k] && (b + y)[..k] == b[..k];
  }

  lemma LessBehind(p: seq<int>, a: seq<int>, b: seq<int>, k: nat)
    requires LessAt(a, b, k)
    ensures LessAt(p + a, p + b, |p| + k)
  {
    assert (p + a)[..|p| + k] == p + a[..k] && (p + b)[..|p| + k] == p + b[..k];
  }

  /** Keys compare as their bytes do, as sort.Strings compares them. */
  lemma {:induction false} BeforeIsByteLess(a: Text, b: Text) returns (k: nat)
    requires Scalars(a) && Scalars(b) && Before(a, b)
    ensures LessAt(Encode(a), Encode(b), k)
  {
    if a == [] {
      k := 0;
      assert Encode(b) == RuneBytes(b[0]) + Encode(b[1..]);
    } else if a[0] < b[0] {
      k := RuneOrder(a[0], b[0]);
      LessWithin(RuneBytes(a[0]), RuneBytes(b[0]), k, Encode(a[1..]), Encode(b[1..]));
    } else {
      k := BeforeIsByteLess(a[1..], b[1..]);
      LessBehind(RuneBytes(a[0]), Encode(a[1..]), Encode(b[1..]), k);
      k := |RuneBytes(a[0])| + k;
    }
  }

  lemma LessOneWay(a: seq<int>, b: seq<int>, j: nat, k: nat)
    requires LessAt(a, b, j)
    ensures !LessAt(b, a, k)
  {
    assert forall i :: 0 <= i < j ==> a[i] == a[..j][i] == b[..j][i] == b[i];
    assert j < k && k <= |a| && k <= |b| ==> a[..k][j] == a[j] && b[..k][j] == b[j];
  }

  /** The order of the keys is the byte order of their encodings, in both directions. */
  lemma BeforeIffBytesLess(a: Text, b: Text)
    requires Scalars(a) && Scalars(b)
    ensures Before(a, b) <==> BytesLess(Encode(a), Encode(b))
  {
    BeforeTrichotomy(a, b);
    if Before(a, b) {
      var k := BeforeIsByteLess(a, b);
    } else if BytesLess(Encode(a), Encode(b)) {
      var j :| j >= 0 && LessAt(Encode(a), Encode(b), j);
      if a == b {
        LessOneWay(Encode(a), Encode(b), j, j);
      } else {
        var k := BeforeIsByteLess(b, a);
        LessOneWay(Encode(a), Encode(b), j, k);
      }
    }
  }

  // ---------- Spaces ----------

  lemma SpaceBytes(r: int, rest: seq<int>)
    requires 0 <= r < FIRST_BAD
    ensures AuditAppend.SpaceLength(RuneBytes(r) + rest) == if IsSpace(r) then |RuneBytes(r)| else 0
  {
    var t := RuneBytes(r) + rest;
    FirstByte(r);
    if r < 0x80 {
      assert t[0] == r;
    } else if r < 0x800 {
      assert t[0] == 0xC0 + r / 0x40 && t[1] == 0x80 + r % 0x40;
    } else if r < 0x10000 {
      assert t[0] == 0xE0 + r / 0x1000 && t[1] == 0x80 + r / 0x40 % 0x40 && t[2] == 0x80 + r % 0x40;
      Rebuilt(r);
    } else {
      assert t[0] == 0xF0 + r / 0x40000;
    }
  }

  lemma Rebuilt(r: int)
    requires 0 <= r
    ensures r == r / 0x1000 * 0x1000 + r / 0x40 % 0x40 * 0x40 + r % 0x40
  {
  }

  /** An action is refused as blank exactly when all its runes are spaces. */
  lemma {:induction false} BlankIffSpaces(t: Text)
    requires Scalars(t)
    ensures AuditAppend.IsBlank(Encode(t)) <==> AllSpace(t)
  {
    if t != [] {
      var rest := Encode(t[1..]);
      SpaceBytes(t[0], rest);
      BlankIffSpaces(t[1..]);
      assert Encode(t)[|RuneBytes(t[0])|..] == rest;
      assert AllSpace(t) <==> IsSpace(t[0]) && AllSpace(t[1..]) by {
        assert t == [t[0]] + t[1..];
      }
    }
  }

  /** A mutation reaches its key exactly with a visible key of at most 255 bytes, a scope and a readable body. */
  lemma ScreenPasses(q: Middleware.Http)
    ensures var key := TrimSpace(q.header);
      Middleware.Screen(q).None? <==> key != [] && |Encode(key)| <= 255 && q.scope.Ok? && q.body.Some?
  {
    ByteLengthIsBytes(TrimSpace(q.header));
  }
}
