/**
 What a NUL inside a text of an audit entry allows: the entry's encoding ends each
 part with a NUL, so text can be moved over the NUL into the neighbouring field
 without changing a digested byte. EditsReportedIffNoNul is the exact condition
 under which the verifier reports every edit of a row.
 */
module AuditForgery {
  import opened Runes
  import opened Audit

  /** In range, with an actor type and a predecessor's hash as the code writes them. */
  predicate Typed(e: Event) {
    Ranged(e) && NulFree(e.actorType) && NulFree(e.previousHash)
  }

  /** Some text a caller supplies contains a NUL; Append rejects none. */
  predicate HasNul(e: Event) {
    || !NulFree(e.role) || !NulFree(e.action) || !NulFree(e.targetType) || !NulFree(e.reason)
    || !NulFree(e.requestId) || !NulFree(e.beforeHash) || !NulFree(e.afterHash)
  }

  /** What stands before the first NUL, and what stands behind it. */
  function Front(t: Text): Text
    requires !NulFree(t)
  {
    t[..IndexOfNul(t)]
  }

  function Back(t: Text): Text
    requires !NulFree(t)
  {
    t[IndexOfNul(t) + 1..]
  }

  /** The event with the text around its first NUL moved into the neighbouring field. */
  function Forged(e: Event): Event
    requires HasNul(e)
  {
    if !NulFree(e.role) then e.(role := Front(e.role), action := Back(e.role) + [NUL] + e.action)
    else if !NulFree(e.action) then e.(action := Front(e.action), targetType := Back(e.action) + [NUL] + e.targetType)
    else if !NulFree(e.targetType) then
      e.(action := e.action + [NUL] + Front(e.targetType), targetType := Back(e.targetType))
    else if !NulFree(e.reason) then e.(reason := Front(e.reason), requestId := Back(e.reason) + [NUL] + e.requestId)
    else if !NulFree(e.requestId) then
      e.(requestId := Front(e.requestId), beforeHash := Back(e.requestId) + [NUL] + e.beforeHash)
    else if !NulFree(e.beforeHash) then
      e.(beforeHash := Front(e.beforeHash), afterHash := Back(e.beforeHash) + [NUL] + e.afterHash)
    else e.(beforeHash := e.beforeHash + [NUL] + Front(e.afterHash), afterHash := Back(e.afterHash))
  }

  /** A NUL between two parts may belong to either. */
  lemma PairMoves(x: Text, y: Text, r: Text)
    ensures Terminated([x + [NUL] + y, r]) == Terminated([x, y + [NUL] + r])
  {
    TerminatedPair(x + [NUL] + y, r);
    TerminatedPair(x, y + [NUL] + r);
    assert x + [NUL] + y + [NUL] + (r + [NUL]) == x + [NUL] + (y + [NUL] + r + [NUL]);
  }

  lemma Surrounded(before: seq<Text>, a: seq<Text>, b: seq<Text>, after: seq<Text>)
    requires Terminated(a) == Terminated(b)
    ensures Terminated(before + (a + after)) == Terminated(before + (b + after))
  {
    TerminatedConcat(before, a + after);
    TerminatedConcat(before, b + after);
    TerminatedConcat(a, after);
    TerminatedConcat(b, after);
  }

  lemma MoveNul(p: seq<Text>, q: seq<Text>, k: nat, x: Text, y: Text)
    requires k + 1 < |p| == |q| && p[..k] == q[..k] && p[k + 2..] == q[k + 2..]
    requires p[k] == x + [NUL] + y && q[k] == x && q[k + 1] == y + [NUL] + p[k + 1]
    ensures Terminated(p) == Terminated(q)
  {
    var a, b := [p[k], p[k + 1]], [q[k], q[k + 1]];
    assert p == p[..k] + (a + p[k + 2..]);
    assert q == q[..k] + (b + q[k + 2..]);
    PairMoves(x, y, p[k + 1]);
    Surrounded(p[..k], a, b, p[k + 2..]);
  }

  lemma SplitAtNul(t: Text)
    requires !NulFree(t)
    ensures t == Front(t) + [NUL] + Back(t) && Front(t) != t
  {
    CutAtNul(t, IndexOfNul(t));
  }

  lemma MoveRole(c: Codec, e: Event, f: Event, x: Text, y: Text)
    requires e.role == x + [NUL] + y && f == e.(role := x, action := y + [NUL] + e.action)
    ensures Digested(c, f) == Digested(c, e)
  {
    MoveNul(HashedParts(c, e), HashedParts(c, f), 3, x, y);
  }

  lemma MoveAction(c: Codec, e: Event, f: Event, x: Text, y: Text)
    requires e.action == x + [NUL] + y && f == e.(action := x, targetType := y + [NUL] + e.targetType)
    ensures Digested(c, f) == Digested(c, e)
  {
    MoveNul(HashedParts(c, e), HashedParts(c, f), 4, x, y);
  }

  lemma MoveReason(c: Codec, e: Event, f: Event, x: Text, y: Text)
    requires e.reason == x + [NUL] + y && f == e.(reason := x, requestId := y + [NUL] + e.requestId)
    ensures Digested(c, f) == Digested(c, e)
  {
    MoveNul(HashedParts(c, e), HashedParts(c, f), 7, x, y);
  }

  lemma MoveRequestId(c: Codec, e: Event, f: Event, x: Text, y: Text)
    requires e.requestId == x + [NUL] + y && f == e.(requestId := x, beforeHash := y + [NUL] + e.beforeHash)
    ensures Digested(c, f) == Digested(c, e)
  {
    MoveNul(HashedParts(c, e), HashedParts(c, f), 8, x, y);
  }

  lemma MoveBeforeHash(c: Codec, e: Event, f: Event, x: Text, y: Text)
    requires e.beforeHash == x + [NUL] + y && f == e.(beforeHash := x, afterHash := y + [NUL] + e.afterHash)
    ensures Digested(c, f) == Digested(c, e)
  {
    MoveNul(HashedParts(c, e), HashedParts(c, f), 9, x, y);
  }

  lemma ForgedDiffers(e: Event)
    requires HasNul(e)
    ensures !SameHashedFields(Forged(e), e)
  {
  }

  /** The forged event differs, and is digested as the same bytes. */
  lemma ForgedDigest(c: Codec, e: Event)
    requires HasNul(e)
    ensures Digested(c, Forged(e)) == Digested(c, e) && !SameHashedFields(Forged(e), e)
  {
    ForgedDiffers(e);
    var f := Forged(e);
    if !NulFree(e.role) {
      SplitAtNul(e.role);
      MoveRole(c, e, f, Front(e.role), Back(e.role));
    } else if !NulFree(e.action) {
      SplitAtNul(e.action);
      MoveAction(c, e, f, Front(e.action), Back(e.action));
    } else if !NulFree(e.targetType) {
      SplitAtNul(e.targetType);
      MoveAction(c, f, e, e.action, Front(e.targetType));
    } else if !NulFree(e.reason) {
      SplitAtNul(e.reason);
      MoveReason(c, e, f, Front(e.reason), Back(e.reason));
    } else if !NulFree(e.requestId) {
      SplitAtNul(e.requestId);
      MoveRequestId(c, e, f, Front(e.requestId), Back(e.requestId));
    } else if !NulFree(e.beforeHash) {
      SplitAtNul(e.beforeHash);
      MoveBeforeHash(c, e, f, Front(e.beforeHash), Back(e.beforeHash));
    } else {
      SplitAtNul(e.afterHash);
      MoveBeforeHash(c, f, e, e.beforeHash, Front(e.afterHash));
    }
  }

  /** Another event with the same digested bytes. */
  predicate Forges(c: Codec, e: Event, f: Event) {
    Typed(f) && !SameHashedFields(f, e) && Digested(c, f) == Digested(c, e)
  }

  /** Some other event is digested as the same bytes exactly when a text a caller supplies contains a NUL. */
  lemma ForgeableIffNul(c: Codec, e: Event)
    requires Sound(c) && Typed(e)
    ensures (exists f :: Forges(c, e, f)) <==> HasNul(e)
  {
    if HasNul(e) {
      ForgedDigest(c, e);
      assert Forges(c, e, Forged(e));
    } else if exists f :: Forges(c, e, f) {
      var f :| Forges(c, e, f);
      DigestedInjective(c, e, f);
    }
  }

  // ---------- On stored rows ----------

  function ForgedRow(r: Row): Row
    requires HasNul(Load(r))
  {
    var f := Forged(Load(r));
    r.(role := NullIfEmpty(f.role), action := f.action, targetType := f.targetType, reason := NullIfEmpty(f.reason),
       requestId := NullIfEmpty(f.requestId), beforeHash := NullIfEmpty(f.beforeHash),
       afterHash := NullIfEmpty(f.afterHash))
  }

  lemma ForgedRowLoads(r: Row)
    requires HasNul(Load(r))
    ensures Load(ForgedRow(r)) == Forged(Load(r))
  {
  }

  /** An accepted list stays accepted when a row whose text contains a NUL is replaced by its forgery. */
  lemma ForgeryAccepted(c: Codec, rows: seq<Row>, i: nat)
    requires Accepted(c, rows) && i < |rows| && HasNul(Load(rows[i]))
    ensures Accepted(c, rows[i := ForgedRow(rows[i])])
    ensures !SameHashedFields(Load(ForgedRow(rows[i])), Load(rows[i]))
  {
    var forged := rows[i := ForgedRow(rows[i])];
    ForgedRowLoads(rows[i]);
    ForgedDigest(c, Load(rows[i]));
    assert forged[i].entryHash == rows[i].entryHash;
    forall k | 0 <= k < |forged| ensures Linked(c, forged, k) {
      assert Linked(c, rows, k);
    }
  }

  /** An edit of a row under its entry hash, on texts that do not collide. */
  ghost predicate Edit(c: Codec, row: Row, edited: Row) {
    && Typed(Load(edited)) && edited.entryHash == row.entryHash
    && !SameHashedFields(Load(edited), Load(row))
    && CollisionFree(c.sha, {Digested(c, Load(row)), Digested(c, Load(edited))})
  }

  /**
   In an accepted list, every edit of row i under its entry hash is reported at that
   row exactly when no text of the row contains a NUL.
   */
  lemma EditsReportedIffNoNul(c: Codec, rows: seq<Row>, i: nat)
    requires Sound(c) && Accepted(c, rows) && i < |rows| && Typed(Load(rows[i]))
    ensures (forall edited :: Edit(c, rows[i], edited) ==> !Linked(c, rows[i := edited], i)) <==> !HasNul(Load(rows[i]))
  {
    if HasNul(Load(rows[i])) {
      var forged := ForgedRow(rows[i]);
      ForgeryAccepted(c, rows, i);
      ForgedRowLoads(rows[i]);
      ForgedDigest(c, Load(rows[i]));
      assert Edit(c, rows[i], forged) && Linked(c, rows[i := forged], i);
    } else {
      forall edited | Edit(c, rows[i], edited) ensures !Linked(c, rows[i := edited], i) {
        assert Linked(c, rows, i);
        DigestedInjective(c, Load(rows[i]), Load(edited));
      }
    }
  }
}
