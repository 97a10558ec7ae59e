/**
 The hash-chained audit trail: what an entry digests, what the table stores and
 gives back, and the forward verifier. The main results are about any list of
 rows the verifier accepts: TamperEvident, HashesDistinct, DeletionReported and
 EditReported.

 Texts are byte strings here, one byte an element, because truncate counts bytes.
 */
module Audit {
  import opened Runes
  import opened Wrappers

  // ---------- Identifiers ----------

  const ID_LIMIT := 0x1_0000_0000_0000_0000_0000_0000_0000_0000

  predicate IsId(n: int) {
    0 <= n < ID_LIMIT
  }

  /** One character of Crockford's base 32, which skips I, L, O and U. */
  function Crockford(d: int): int
    requires 0 <= d < 32
  {
    if d < 10 then '0' as int + d
    else if d < 18 then 'A' as int + (d - 10)
    else if d < 20 then 'J' as int + (d - 18)
    else if d < 22 then 'M' as int + (d - 20)
    else if d < 27 then 'P' as int + (d - 22)
    else 'V' as int + (d - 27)
  }

  const ALPHABET := "0123456789ABCDEFGHJKMNPQRSTVWXYZ"

  lemma CrockfordIs(d: int)
    requires 0 <= d < 32
    ensures Crockford(d) == ALPHABET[d] as int
  {
  }

  function Digits(n: int, len: nat): (t: Text)
    ensures |t| == len
    decreases len
  {
    if len == 0 then [] else Digits(n / 32, len - 1) + [Crockford(n % 32)]
  }

  /** The 26-character text of a ULID. */
  function IdText(id: int): Text {
    Digits(id, 26)
  }

  function Pow32(len: nat): (p: nat)
    ensures p > 0
  {
    if len == 0 then 1 else 32 * Pow32(len - 1)
  }

  lemma {:induction false} DigitsInjective(a: int, b: int, len: nat)
    requires 0 <= a < Pow32(len) && 0 <= b < Pow32(len) && Digits(a, len) == Digits(b, len)
    ensures a == b
  {
    if len > 0 {
      var x, y := Digits(a / 32, len - 1), Digits(b / 32, len - 1);
      assert x == Digits(a, len)[..len - 1] && y == Digits(b, len)[..len - 1];
      assert Crockford(a % 32) == Digits(a, len)[len - 1] && Crockford(b % 32) == Digits(b, len)[len - 1];
      DigitsInjective(a / 32, b / 32, len - 1);
    }
  }

  lemma {:induction false} DigitsNulFree(n: int, len: nat)
    ensures NulFree(Digits(n, len))
    decreases len
  {
    if len > 0 {
      DigitsNulFree(n / 32, len - 1);
    }
  }

  lemma IdTextInjective(a: int, b: int)
    requires IsId(a) && IsId(b) && IdText(a) == IdText(b)
    ensures a == b
  {
    assert Pow32(26) == 0x4_0000_0000_0000_0000_0000_0000_0000_0000 by {
      assert Pow32(5) == 0x200_0000;
      assert Pow32(10) == 0x4_0000_0000_0000;
      assert Pow32(15) == 0x800_0000_0000_0000_0000;
      assert Pow32(20) == 0x10_0000_0000_0000_0000_0000_0000;
    }
    DigitsInjective(a, b, 26);
  }

  // ---------- Events, entries and rows ----------

  /** A nullable identifier; valid with id 0 is representable but stores as NULL. */
  datatype Opt = Opt(id: int, valid: bool)

  /** createdAt counts nanoseconds from the zero time. */
  datatype Event = Event(
    id: int, actorType: Text, actor: Opt, role: Text, action: Text, targetType: Text, target: Opt,
    reason: Text, requestId: Text, traceId: Text, beforeHash: Text, afterHash: Text,
    previousHash: Text, entryHash: Text, createdAt: int)

  /** A table row as it is stored, with NULL where the column has none. */
  datatype Row = Row(
    seqNo: nat, id: int, actorType: Text, actor: Option<int>, role: Option<Text>, action: Text,
    targetType: Text, target: Option<int>, reason: Option<Text>, requestId: Option<Text>,
    traceId: Option<Text>, beforeHash: Option<Text>, afterHash: Option<Text>,
    previousHash: Option<Text>, entryHash: Text, createdAt: int)

  /** The RFC 3339 text of a time, and the hexadecimal SHA-256 of a byte string. */
  datatype Codec = Codec(timeText: int -> Text, sha: Text -> Text)

  /** A time the column keeps: whole microseconds. */
  predicate IsStamp(t: int) {
    t >= 0 && t % 1000 == 0
  }

  ghost predicate Sound(c: Codec) {
    && (forall t, u :: IsStamp(t) && IsStamp(u) && c.timeText(t) == c.timeText(u) ==> t == u)
    && (forall t :: NulFree(c.timeText(t)))
    && (forall x :: c.sha(x) != [] && NulFree(c.sha(x)))
  }

  function NullIfEmpty(t: Text): Option<Text> {
    if t == [] then None else Some(t)
  }

  function Coalesce(t: Option<Text>): Text {
    if t.None? then [] else t.value
  }

  function StoreOpt(o: Opt): Option<int> {
    if !o.valid || o.id == 0 then None else Some(o.id)
  }

  function LoadOpt(o: Option<int>): Opt {
    if o.None? then Opt(0, false) else Opt(o.value, true)
  }

  function Store(e: Event, seqNo: nat): Row {
    Row(seqNo, e.id, e.actorType, StoreOpt(e.actor), NullIfEmpty(e.role), e.action, e.targetType,
        StoreOpt(e.target), NullIfEmpty(e.reason), NullIfEmpty(e.requestId), NullIfEmpty(e.traceId),
        NullIfEmpty(e.beforeHash), NullIfEmpty(e.afterHash), NullIfEmpty(e.previousHash),
        e.entryHash, e.createdAt)
  }

  function Load(r: Row): Event {
    Event(r.id, r.actorType, LoadOpt(r.actor), Coalesce(r.role), r.action, r.targetType,
          LoadOpt(r.target), Coalesce(r.reason), Coalesce(r.requestId), Coalesce(r.traceId),
          Coalesce(r.beforeHash), Coalesce(r.afterHash), Coalesce(r.previousHash), r.entryHash, r.createdAt)
  }

  // ---------- The digest ----------

  function OptText(o: Opt): Text {
    if o.valid then IdText(o.id) else []
  }

  function HashedParts(c: Codec, e: Event): seq<Text> {
    [IdText(e.id), e.actorType, OptText(e.actor), e.role, e.action, e.targetType, OptText(e.target),
     e.reason, e.requestId, e.beforeHash, e.afterHash, e.previousHash, c.timeText(e.createdAt)]
  }

  function Terminated(parts: seq<Text>): Text {
    if parts == [] then [] else parts[0] + [NUL] + Terminated(parts[1..])
  }

  /** The bytes that entryHash feeds to the hasher. */
  function Digested(c: Codec, e: Event): Text {
    Terminated(HashedParts(c, e))
  }

  function EntryHash(c: Codec, e: Event): Text {
    c.sha(Digested(c, e))
  }

  predicate AllNulFree(parts: seq<Text>) {
    forall i :: 0 <= i < |parts| ==> NulFree(parts[i])
  }

  /** How many NULs the parts contain themselves. */
  function InnerNuls(parts: seq<Text>): nat {
    if parts == [] then 0 else CountNul(parts[0]) + InnerNuls(parts[1..])
  }

  lemma {:induction false} InnerNulsZero(parts: seq<Text>)
    ensures InnerNuls(parts) == 0 <==> AllNulFree(parts)
  {
    if parts != [] {
      CountNulZero(parts[0]);
      InnerNulsZero(parts[1..]);
      assert parts == [parts[0]] + parts[1..];
    }
  }

  lemma {:induction false} TerminatedNuls(parts: seq<Text>)
    ensures CountNul(Terminated(parts)) == |parts| + InnerNuls(parts)
  {
    if parts != [] {
      TerminatedNuls(parts[1..]);
      CountNulConcat(parts[0] + [NUL], Terminated(parts[1..]));
      CountNulConcat(parts[0], [NUL]);
      assert CountNul([NUL]) == 1 by { assert [NUL][..0] == []; }
    }
  }

  /** Parts without NUL can be read back from their encoding, whatever the other parts hold. */
  lemma TerminatedInjective(a: seq<Text>, b: seq<Text>)
    requires |a| == |b| && Terminated(a) == Terminated(b) && AllNulFree(a)
    ensures a == b
  {
    TerminatedNuls(a);
    TerminatedNuls(b);
    InnerNulsZero(a);
    InnerNulsZero(b);
    CleanPartsEqual(a, b);
  }

  lemma {:induction false} CleanPartsEqual(a: seq<Text>, b: seq<Text>)
    requires |a| == |b| && Terminated(a) == Terminated(b) && AllNulFree(a) && AllNulFree(b)
    ensures a == b
  {
    if a != [] {
      FieldsSplit(a[0], Terminated(a[1..]), b[0], Terminated(b[1..]));
      CleanPartsEqual(a[1..], b[1..]);
      assert a == [a[0]] + a[1..] && b == [b[0]] + b[1..];
    }
  }

  lemma {:induction false} TerminatedConcat(a: seq<Text>, b: seq<Text>)
    ensures Terminated(a + b) == Terminated(a) + Terminated(b)
  {
    if a == [] {
      assert a + b == b;
    } else {
      assert (a + b)[1..] == a[1..] + b;
      TerminatedConcat(a[1..], b);
      assert a[0] + [NUL] + (Terminated(a[1..]) + Terminated(b)) == a[0] + [NUL] + Terminated(a[1..]) + Terminated(b);
    }
  }

  lemma {:induction false} TerminatedLength(parts: seq<Text>)
    ensures |Terminated(parts)| == |parts| + Lengths(parts)
  {
    if parts != [] {
      TerminatedLength(parts[1..]);
    }
  }

  function Lengths(parts: seq<Text>): nat {
    if parts == [] then 0 else |parts[0]| + Lengths(parts[1..])
  }

  /** What the columns enforce: identifiers in range and a time of whole microseconds. */
  predicate Ranged(e: Event) {
    && IsId(e.id) && (e.actor.valid ==> IsId(e.actor.id)) && (e.target.valid ==> IsId(e.target.id))
    && IsStamp(e.createdAt)
  }

  /** In range, and no NUL in any text. */
  predicate Clean(e: Event) {
    && Ranged(e)
    && NulFree(e.actorType) && NulFree(e.role) && NulFree(e.action) && NulFree(e.targetType)
    && NulFree(e.reason) && NulFree(e.requestId) && NulFree(e.beforeHash) && NulFree(e.afterHash)
    && NulFree(e.previousHash)
  }

  /** The two events agree on everything the digest covers. */
  predicate SameHashedFields(a: Event, b: Event) {
    && a.id == b.id && a.actorType == b.actorType && a.role == b.role && a.action == b.action
    && a.actor.valid == b.actor.valid && (a.actor.valid ==> a.actor.id == b.actor.id)
    && a.targetType == b.targetType
    && a.target.valid == b.target.valid && (a.target.valid ==> a.target.id == b.target.id)
    && a.reason == b.reason && a.requestId == b.requestId && a.beforeHash == b.beforeHash
    && a.afterHash == b.afterHash && a.previousHash == b.previousHash && a.createdAt == b.createdAt
  }

  lemma OptTextInjective(a: Opt, b: Opt)
    requires (a.valid ==> IsId(a.id)) && (b.valid ==> IsId(b.id)) && OptText(a) == OptText(b)
    ensures a.valid == b.valid && (a.valid ==> a.id == b.id)
  {
    if a.valid && b.valid {
      IdTextInjective(a.id, b.id);
    }
  }

  lemma PartsNulFree(c: Codec, e: Event)
    requires Sound(c) && Clean(e)
    ensures AllNulFree(HashedParts(c, e))
  {
    var p := HashedParts(c, e);
    OptNulFree(Opt(e.id, true));
    OptNulFree(e.actor);
    OptNulFree(e.target);
    assert NulFree(p[0]) && NulFree(p[1]) && NulFree(p[2]) && NulFree(p[3]) && NulFree(p[4]) && NulFree(p[5]);
    assert NulFree(p[6]) && NulFree(p[7]) && NulFree(p[8]) && NulFree(p[9]) && NulFree(p[10]) && NulFree(p[11]);
    assert NulFree(p[12]);
  }

  lemma OptNulFree(o: Opt)
    ensures NulFree(OptText(o))
  {
    DigitsNulFree(o.id, 26);
  }

  lemma PartsInjective(c: Codec, a: Event, b: Event)
    requires Sound(c) && Ranged(a) && Ranged(b)
    ensures HashedParts(c, a) == HashedParts(c, b) <==> SameHashedFields(a, b)
  {
    var p, q := HashedParts(c, a), HashedParts(c, b);
    if p == q {
      assert p[0] == q[0] && p[1] == q[1] && p[2] == q[2] && p[3] == q[3] && p[4] == q[4] && p[5] == q[5];
      assert p[6] == q[6] && p[7] == q[7] && p[8] == q[8] && p[9] == q[9] && p[10] == q[10];
      assert p[11] == q[11] && p[12] == q[12];
      IdTextInjective(a.id, b.id);
      OptTextInjective(a.actor, b.actor);
      OptTextInjective(a.target, b.target);
    }
  }

  /** The digested bytes of an event without NUL determine every hashed field, against any other event. */
  lemma DigestedInjective(c: Codec, a: Event, b: Event)
    requires Sound(c) && Clean(a) && Ranged(b)
    ensures Digested(c, a) == Digested(c, b) <==> SameHashedFields(a, b)
  {
    PartsInjective(c, a, b);
    if Digested(c, a) == Digested(c, b) {
      PartsNulFree(c, a);
      TerminatedInjective(HashedParts(c, a), HashedParts(c, b));
    }
  }

  /** The digested bytes as what precedes the last two parts, and those. */
  lemma DigestedTail(c: Codec, e: Event) returns (head: Text)
    ensures Digested(c, e) == head + [NUL] + e.previousHash + [NUL] + c.timeText(e.createdAt) + [NUL]
  {
    var p := HashedParts(c, e);
    var first, last := p[..10], p[10..11];
    assert p == (first + last) + [e.previousHash, c.timeText(e.createdAt)];
    TerminatedConcat(first + last, [e.previousHash, c.timeText(e.createdAt)]);
    TerminatedConcat(first, last);
    head := Terminated(first) + last[0];
    TerminatedPair(e.previousHash, c.timeText(e.createdAt));
    assert Terminated(last) == last[0] + [NUL] by { assert last[1..] == []; }
    assert Terminated(first + last) == head + [NUL];
  }

  lemma TerminatedPair(a: Text, b: Text)
    ensures Terminated([a, b]) == a + [NUL] + (b + [NUL])
  {
    assert [a, b][1..] == [b];
    assert Terminated([b]) == b + [NUL] by {
      assert [b][1..] == [];
      Closed(b);
    }
  }

  /** The predecessor's hash can be read off from the end, whatever the other texts hold. */
  lemma PreviousFixed(c: Codec, a: Event, b: Event)
    requires Sound(c) && NulFree(a.previousHash) && NulFree(b.previousHash) && Digested(c, a) == Digested(c, b)
    ensures a.previousHash == b.previousHash
  {
    var x := DigestedTail(c, a);
    var y := DigestedTail(c, b);
    FieldsSplitBack(x + [NUL] + a.previousHash + [NUL] + c.timeText(a.createdAt), [],
                    y + [NUL] + b.previousHash + [NUL] + c.timeText(b.createdAt), []) by {
      Closed(x + [NUL] + a.previousHash + [NUL] + c.timeText(a.createdAt));
      Closed(y + [NUL] + b.previousHash + [NUL] + c.timeText(b.createdAt));
    }
    FieldsSplitBack(x + [NUL] + a.previousHash, c.timeText(a.createdAt),
                    y + [NUL] + b.previousHash, c.timeText(b.createdAt));
    FieldsSplitBack(x, a.previousHash, y, b.previousHash);
  }

  lemma Closed(t: Text)
    ensures t + [NUL] + [] == t + [NUL]
  {
  }

  // ---------- What a re-read reproduces ----------

  /** No identifier is marked present while being zero. */
  predicate NoPhantomId(e: Event) {
    (e.actor.valid ==> e.actor.id != 0) && (e.target.valid ==> e.target.id != 0)
  }

  lemma LoadStore(e: Event, seqNo: nat)
    ensures var r := Load(Store(e, seqNo));
            && r == e.(actor := LoadOpt(StoreOpt(e.actor)), target := LoadOpt(StoreOpt(e.target)))
            && (SameHashedFields(r, e) <==> NoPhantomId(e))
  {
  }

  /** A phantom identifier leaves 26 bytes fewer to digest; without one nothing changes. */
  lemma RereadDigests(c: Codec, e: Event, seqNo: nat)
    ensures Digested(c, Load(Store(e, seqNo))) == Digested(c, e) <==> NoPhantomId(e)
  {
    LoadStore(e, seqNo);
    var p, q := HashedParts(c, e), HashedParts(c, Load(Store(e, seqNo)));
    TerminatedLength(p);
    TerminatedLength(q);
    PartLengths(p);
    PartLengths(q);
    if NoPhantomId(e) {
      assert p == q;
    }
  }

  lemma PartLengths(p: seq<Text>)
    requires |p| == 13
    ensures Lengths(p) == |p[0]| + |p[1]| + |p[2]| + |p[3]| + |p[4]| + |p[5]| + |p[6]| + |p[7]| + |p[8]| + |p[9]|
                          + |p[10]| + |p[11]| + |p[12]|
  {
    FourLengths(p, 0);
    FourLengths(p, 4);
    FourLengths(p, 8);
    LengthsStep(p, 12);
    assert p[13..] == [] && p[0..] == p;
  }

  lemma LengthsStep(p: seq<Text>, i: nat)
    requires i < |p|
    ensures Lengths(p[i..]) == |p[i]| + Lengths(p[i + 1..])
  {
    assert p[i..][1..] == p[i + 1..];
  }

  lemma FourLengths(p: seq<Text>, i: nat)
    requires i + 4 <= |p|
    ensures Lengths(p[i..]) == |p[i]| + |p[i + 1]| + |p[i + 2]| + |p[i + 3]| + Lengths(p[i + 4..])
  {
    LengthsStep(p, i);
    LengthsStep(p, i + 1);
    LengthsStep(p, i + 2);
    LengthsStep(p, i + 3);
  }

  /** A stored entry verifies when read back, exactly when no identifier is present and zero. */
  lemma RereadVerifies(c: Codec, e: Event, seqNo: nat)
    requires e.entryHash == EntryHash(c, e)
    requires CollisionFree(c.sha, {Digested(c, e), Digested(c, Load(Store(e, seqNo)))})
    ensures var r := Load(Store(e, seqNo));
            EntryHash(c, r) == r.entryHash <==> NoPhantomId(e)
  {
    RereadDigests(c, e, seqNo);
  }

  // ---------- The verifier ----------

  /** The hash row i must name as its predecessor. */
  function ExpectedPrevious(rows: seq<Row>, i: nat): Text
    requires i < |rows|
  {
    if i == 0 then [] else rows[i - 1].entryHash
  }

  predicate Linked(c: Codec, rows: seq<Row>, i: nat)
    requires i < |rows|
  {
    && Load(rows[i]).previousHash == ExpectedPrevious(rows, i)
    && EntryHash(c, Load(rows[i])) == rows[i].entryHash
  }

  predicate LinkedUpTo(c: Codec, rows: seq<Row>, n: nat)
    requires n <= |rows|
  {
    forall i :: 0 <= i < n ==> Linked(c, rows, i)
  }

  predicate Accepted(c: Codec, rows: seq<Row>) {
    LinkedUpTo(c, rows, |rows|)
  }

  function Min(a: nat, b: nat): nat {
    if a < b then a else b
  }

  /**
   Among the first limit rows, checked counts those before the first broken one,
   and brokenAt is its sequence number, or 0 if none is broken.
   */
  predicate Verdict(c: Codec, rows: seq<Row>, limit: nat, checked: nat, brokenAt: nat) {
    && checked <= Min(limit, |rows|) && LinkedUpTo(c, rows, checked)
    && (if checked == Min(limit, |rows|) then brokenAt == 0
        else !Linked(c, rows, checked) && brokenAt == rows[checked].seqNo)
  }

  /** There is only one verdict. */
  lemma VerdictUnique(c: Codec, rows: seq<Row>, limit: nat, a: nat, x: nat, b: nat, y: nat)
    requires Verdict(c, rows, limit, a, x) && Verdict(c, rows, limit, b, y)
    ensures a == b && x == y
  {
  }

  method VerifyChain(c: Codec, rows: seq<Row>, limit: nat) returns (checked: nat, brokenAt: nat)
    ensures Verdict(c, rows, limit, checked, brokenAt)
    ensures checked <= limit && checked <= |rows| && forall i :: 0 <= i < checked ==> Linked(c, rows, i)
    ensures checked == limit || checked == |rows| ==> brokenAt == 0
    ensures checked < limit && checked < |rows| ==> !Linked(c, rows, checked) && brokenAt == rows[checked].seqNo
  {
    checked := 0;
    var expectedPrevious: Text := [];
    for i := 0 to Min(limit, |rows|)
      invariant checked == i && LinkedUpTo(c, rows, i)
      invariant i < |rows| ==> expectedPrevious == ExpectedPrevious(rows, i)
    {
      var e := Load(rows[i]);
      if e.previousHash != expectedPrevious {
        return checked, rows[i].seqNo;
      }
      if EntryHash(c, e) != e.entryHash {
        return checked, rows[i].seqNo;
      }
      expectedPrevious := e.entryHash;
      checked := checked + 1;
    }
    return checked, 0;
  }

  /** Rows past the limit do not matter. */
  lemma BeyondLimit(c: Codec, rows: seq<Row>, more: seq<Row>, limit: nat, checked: nat, brokenAt: nat)
    requires |rows| >= limit
    ensures Verdict(c, rows + more, limit, checked, brokenAt) <==> Verdict(c, rows, limit, checked, brokenAt)
  {
    forall i | 0 <= i < |rows| ensures Linked(c, rows + more, i) <==> Linked(c, rows, i) {
      assert (rows + more)[i] == rows[i] && (i > 0 ==> (rows + more)[i - 1] == rows[i - 1]);
    }
  }

  // ---------- Tampering ----------

  predicate CleanRows(rows: seq<Row>) {
    forall i :: 0 <= i < |rows| ==> Clean(Load(rows[i]))
  }

  predicate RangedRows(rows: seq<Row>) {
    forall i :: 0 <= i < |rows| ==> Ranged(Load(rows[i]))
  }

  /** The byte strings that verifying the rows digests. */
  ghost function DigestedRows(c: Codec, rows: seq<Row>): set<Text> {
    set i | 0 <= i < |rows| :: Digested(c, Load(rows[i]))
  }

  /** Equal hashes of linked rows come from equal bytes. */
  lemma EqualHashes(c: Codec, a: seq<Row>, i: nat, b: seq<Row>, j: nat)
    requires CollisionFree(c.sha, DigestedRows(c, a) + DigestedRows(c, b))
    requires i < |a| && j < |b| && Linked(c, a, i) && Linked(c, b, j) && a[i].entryHash == b[j].entryHash
    ensures Digested(c, Load(a[i])) == Digested(c, Load(b[j]))
  {
    var x, y := Digested(c, Load(a[i])), Digested(c, Load(b[j]));
    assert x in DigestedRows(c, a) && y in DigestedRows(c, b);
  }

  /** An accepted row names what it should, and both hashes are free of NUL. */
  lemma AcceptedAt(c: Codec, rows: seq<Row>, i: nat)
    requires Sound(c) && Accepted(c, rows) && i < |rows|
    ensures Load(rows[i]).previousHash == ExpectedPrevious(rows, i)
    ensures rows[i].entryHash != [] && NulFree(ExpectedPrevious(rows, i))
  {
    assert Linked(c, rows, i);
    assert i > 0 ==> Linked(c, rows, i - 1);
  }

  /** Equal hashes name equal predecessors. */
  lemma SamePrevious(c: Codec, a: seq<Row>, i: nat, b: seq<Row>, j: nat)
    requires Sound(c) && Accepted(c, a) && Accepted(c, b)
    requires CollisionFree(c.sha, DigestedRows(c, a) + DigestedRows(c, b))
    requires i < |a| && j < |b| && a[i].entryHash == b[j].entryHash
    ensures ExpectedPrevious(a, i) == ExpectedPrevious(b, j)
  {
    assert Linked(c, a, i) && Linked(c, b, j);
    EqualHashes(c, a, i, b, j);
    AcceptedAt(c, a, i);
    AcceptedAt(c, b, j);
    PreviousFixed(c, Load(a[i]), Load(b[j]));
  }

  /** Only the first row has no predecessor. */
  lemma PreviousEmpty(c: Codec, rows: seq<Row>, i: nat)
    requires Sound(c) && Accepted(c, rows) && i < |rows|
    ensures ExpectedPrevious(rows, i) == [] <==> i == 0
  {
    if i > 0 {
      AcceptedAt(c, rows, i - 1);
    }
  }

  lemma StepBack(c: Codec, a: seq<Row>, i: nat, b: seq<Row>, j: nat)
    requires Sound(c) && Accepted(c, a) && Accepted(c, b)
    requires CollisionFree(c.sha, DigestedRows(c, a) + DigestedRows(c, b))
    requires i < |a| && j < |b|
    ensures Backlink(a, i, b, j)
  {
    if a[i].entryHash == b[j].entryHash {
      SamePrevious(c, a, i, b, j);
      PreviousEmpty(c, a, i);
      PreviousEmpty(c, b, j);
    }
  }

  /** Equal entry hashes stand behind equal predecessors, or both behind none. */
  predicate Backlink(a: seq<Row>, i: nat, b: seq<Row>, j: nat)
    requires i < |a| && j < |b|
  {
    a[i].entryHash == b[j].entryHash ==>
      && (i == 0 <==> j == 0)
      && (i > 0 && j > 0 ==> a[i - 1].entryHash == b[j - 1].entryHash)
  }

  predicate Backlinked(a: seq<Row>, b: seq<Row>) {
    forall i, j :: 0 <= i < |a| && 0 <= j < |b| ==> Backlink(a, i, b, j)
  }

  lemma AcceptedBacklinked(c: Codec, a: seq<Row>, b: seq<Row>)
    requires Sound(c) && Accepted(c, a) && Accepted(c, b)
    requires CollisionFree(c.sha, DigestedRows(c, a) + DigestedRows(c, b))
    ensures Backlinked(a, b)
  {
    forall i, j | 0 <= i < |a| && 0 <= j < |b| ensures Backlink(a, i, b, j) {
      StepBack(c, a, i, b, j);
    }
  }

  /** An entry hash fixes the position and every entry hash before it. */
  lemma {:induction false} ChainsAgree(a: seq<Row>, i: nat, b: seq<Row>, j: nat)
    requires Backlinked(a, b) && i < |a| && j < |b| && a[i].entryHash == b[j].entryHash
    ensures i == j && forall k :: 0 <= k <= i ==> a[k].entryHash == b[k].entryHash
  {
    assert Backlink(a, i, b, j);
    if i > 0 {
      ChainsAgree(a, i - 1, b, j - 1);
    }
  }

  predicate SameHashes(a: seq<Row>, b: seq<Row>) {
    |a| == |b| && forall i :: 0 <= i < |a| ==> a[i].entryHash == b[i].entryHash
  }

  predicate SameContent(a: seq<Row>, b: seq<Row>)
    requires |a| == |b|
  {
    forall i :: 0 <= i < |a| ==> SameHashedFields(Load(a[i]), Load(b[i]))
  }

  lemma HashesBehind(a: seq<Row>, b: seq<Row>)
    requires Backlinked(a, b) && a != [] && b != [] && a[|a| - 1].entryHash == b[|b| - 1].entryHash
    ensures SameHashes(a, b)
  {
    ChainsAgree(a, |a| - 1, b, |b| - 1);
  }

  lemma ContentBehind(c: Codec, a: seq<Row>, b: seq<Row>)
    requires Sound(c) && CleanRows(a) && RangedRows(b) && Accepted(c, a) && Accepted(c, b)
    requires CollisionFree(c.sha, DigestedRows(c, a) + DigestedRows(c, b))
    requires SameHashes(a, b)
    ensures SameContent(a, b)
  {
    forall i | 0 <= i < |a| ensures SameHashedFields(Load(a[i]), Load(b[i])) {
      assert Linked(c, a, i) && Linked(c, b, i);
      EqualHashes(c, a, i, b, i);
      DigestedInjective(c, Load(a[i]), Load(b[i]));
    }
  }

  /** Two accepted lists that end in the same entry hash agree on every entry hash, whatever their texts hold. */
  lemma TailFixesHashes(c: Codec, a: seq<Row>, b: seq<Row>)
    requires Sound(c) && Accepted(c, a) && Accepted(c, b)
    requires CollisionFree(c.sha, DigestedRows(c, a) + DigestedRows(c, b))
    requires a != [] && b != [] && a[|a| - 1].entryHash == b[|b| - 1].entryHash
    ensures SameHashes(a, b)
  {
    AcceptedBacklinked(c, a, b);
    HashesBehind(a, b);
  }

  /**
   A list without NUL and any other accepted list that ends in the same entry hash
   have the same length and agree on every hashed field of every row.
   */
  lemma TamperEvident(c: Codec, a: seq<Row>, b: seq<Row>)
    requires Sound(c) && CleanRows(a) && RangedRows(b) && Accepted(c, a) && Accepted(c, b)
    requires CollisionFree(c.sha, DigestedRows(c, a) + DigestedRows(c, b))
    requires a != [] && b != [] && a[|a| - 1].entryHash == b[|b| - 1].entryHash
    ensures SameHashes(a, b) && SameContent(a, b)
  {
    TailFixesHashes(c, a, b);
    ContentBehind(c, a, b);
  }

  /** Rows cut off at the tail leave an accepted list: only the head row could tell. */
  lemma AcceptedPrefix(c: Codec, rows: seq<Row>, n: nat)
    requires Accepted(c, rows) && n <= |rows|
    ensures Accepted(c, rows[..n])
  {
    forall i | 0 <= i < n ensures Linked(c, rows[..n], i) {
      assert Linked(c, rows, i);
    }
  }

  /** In an accepted list no two entry hashes are equal, whatever the identifiers. */
  lemma HashesDistinct(c: Codec, rows: seq<Row>, i: nat, j: nat)
    requires Sound(c) && Accepted(c, rows)
    requires CollisionFree(c.sha, DigestedRows(c, rows))
    requires i < |rows| && j < |rows|
    ensures rows[i].entryHash == rows[j].entryHash ==> i == j
  {
    if rows[i].entryHash == rows[j].entryHash {
      var texts := DigestedRows(c, rows);
      assert texts + texts == texts;
      AcceptedBacklinked(c, rows, rows);
      ChainsAgree(rows, i, rows, j);
    }
  }

  /** Deleting any interior run is reported at the first row that survives it. */
  lemma DeletionReported(c: Codec, rows: seq<Row>, i: nat, j: nat, limit: nat)
    requires Sound(c) && Accepted(c, rows)
    requires CollisionFree(c.sha, DigestedRows(c, rows))
    requires i < j < |rows| && i < limit
    ensures Verdict(c, rows[..i] + rows[j..], limit, i, rows[j].seqNo)
  {
    var left := rows[..i] + rows[j..];
    assert left[i] == rows[j];
    PrefixLinked(c, rows, left, i);
    PredecessorIsOwn(c, rows, i, j);
    GapBroken(c, rows, i, j);
  }

  lemma PrefixLinked(c: Codec, rows: seq<Row>, left: seq<Row>, i: nat)
    requires Accepted(c, rows) && i <= |rows| && i <= |left| && left[..i] == rows[..i]
    ensures LinkedUpTo(c, left, i)
  {
    assert forall k :: 0 <= k < i ==> left[k] == left[..i][k] == rows[..i][k] == rows[k];
    forall k | 0 <= k < i ensures Linked(c, left, k) {
      assert Linked(c, rows, k);
    }
  }

  /** A row never names the hash of an earlier predecessor than its own. */
  lemma PredecessorIsOwn(c: Codec, rows: seq<Row>, i: nat, j: nat)
    requires Sound(c) && Accepted(c, rows)
    requires CollisionFree(c.sha, DigestedRows(c, rows))
    requires i < j < |rows|
    ensures Load(rows[j]).previousHash != ExpectedPrevious(rows, i)
  {
    AcceptedAt(c, rows, j);
    AcceptedAt(c, rows, j - 1);
    if i > 0 {
      HashesDistinct(c, rows, i - 1, j - 1);
    }
  }

  lemma GapBroken(c: Codec, rows: seq<Row>, i: nat, j: nat)
    requires i < j < |rows| && Load(rows[j]).previousHash != ExpectedPrevious(rows, i)
    ensures !Linked(c, rows[..i] + rows[j..], i)
  {
    assert i > 0 ==> (rows[..i] + rows[j..])[i - 1] == rows[i - 1];
  }

  /** Changing a hashed field of a row without NUL, to anything, under the same entry hash is reported at that row. */
  lemma EditReported(c: Codec, rows: seq<Row>, i: nat, edited: Row, limit: nat)
    requires Sound(c) && Accepted(c, rows) && i < |rows| && i < limit
    requires Clean(Load(rows[i])) && Ranged(Load(edited)) && edited.entryHash == rows[i].entryHash
    requires CollisionFree(c.sha, {Digested(c, Load(rows[i])), Digested(c, Load(edited))})
    requires !SameHashedFields(Load(edited), Load(rows[i]))
    ensures Verdict(c, rows[i := edited], limit, i, edited.seqNo)
  {
    PrefixLinked(c, rows, rows[i := edited], i);
    assert Linked(c, rows, i);
    DigestedInjective(c, Load(rows[i]), Load(edited));
  }
}
