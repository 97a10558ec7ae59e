/**
 The idempotency store: the record table, the effect of each statement on it,
 and the store's operations when no other request interferes. Begin's slow path
 is also given as the transaction body it is, with the variables it captures;
 OwnershipReported says when the answer it returns is right.
 */
module Idempotency {
  import opened Runes
  import opened Wrappers
  import Transactions

  datatype State = InProgress | Completed | FailedRetryable

  datatype RowKey = RowKey(scope: Text, key: Text)

  /** An absent status is NULL; an absent body is stored and replayed like an empty one. */
  datatype Row = Row(route: Text, hash: Text, state: State, status: Option<int>, body: Text,
                     resource: Option<int>, createdAt: int, expiresAt: int)

  type Table = map<RowKey, Row>

  /** What a request brings: its key, route and digest, and the time it read when it began. */
  datatype Request = Request(key: RowKey, route: Text, hash: Text, now: int)

  const DAY := 86_400_000_000_000

  // ---------- The effect of each statement ----------

  /** The row a claim writes. */
  function Claimed(r: Request, ttl: int): Row {
    Row(r.route, r.hash, InProgress, None, [], None, r.now, r.now + ttl)
  }

  datatype Verdict = Take | Replay | Conflict | Busy

  /** What a request finds in an existing row. */
  function Decide(row: Row, r: Request): Verdict {
    if row.expiresAt < r.now then Take
    else if row.hash != r.hash then Conflict
    else if row.state == Completed then Replay
    else if row.state == FailedRetryable then Take
    else Busy
  }

  /** The request may claim its key: the row is absent, expired, or failed with the same digest. */
  predicate Takes(r: Request, t: Table) {
    r.key !in t || Decide(t[r.key], r) == Take
  }

  function CompleteRow(t: Table, k: RowKey, status: int, body: Text, resource: Option<int>): Table {
    if k in t then t[k := t[k].(state := Completed, status := Some(status), body := body, resource := resource)] else t
  }

  function FailRow(t: Table, k: RowKey): Table {
    if k in t && t[k].state == InProgress then t[k := t[k].(state := FailedRetryable)] else t
  }

  /** Settling key k leaves the other rows alone, and the claim on k itself: its route, digest and times. */
  predicate Untouched(t: Table, t': Table, k: RowKey) {
    && t'.Keys == t.Keys && (forall other :: other in t && other != k ==> t'[other] == t[other])
    && (k in t ==> t'[k].route == t[k].route && t'[k].hash == t[k].hash
                   && t'[k].createdAt == t[k].createdAt && t'[k].expiresAt == t[k].expiresAt)
  }

  function Expired(t: Table, now: int): set<RowKey> {
    set k | k in t && t[k].expiresAt < now
  }

  // ---------- The store ----------

  /** What Begin returns: ownership, a stored answer, or one of its two errors. */
  datatype Begun = Owned | Stored(row: Row) | ErrConflict | ErrInProgress

  function Answer(row: Row, r: Request): Begun {
    match Decide(row, r)
    case Take => Owned
    case Replay => Stored(row)
    case Conflict => ErrConflict
    case Busy => ErrInProgress
  }

  /** Ownership is granted for an absent, expired or failed row, and then the row is claimed. */
  predicate Begins(t: Table, r: Request, ttl: int, t': Table, b: Begun) {
    if Takes(r, t) then b == Owned && t' == t[r.key := Claimed(r, ttl)]
    else b == Answer(t[r.key], r) && b != Owned && t' == t
  }

  class Store {
    const ttl: int
    var rows: Table

    constructor (ttl: int)
      ensures rows == map[] && this.ttl == if ttl <= 0 then 24 * 60 * 60 * 1_000_000_000 else ttl
    {
      this.ttl := if ttl <= 0 then DAY else ttl;
      rows := map[];
    }

    method Begin(r: Request) returns (b: Begun)
      modifies this
      ensures Begins(old(rows), r, ttl, rows, b)
      ensures r.key !in old(rows) || old(rows)[r.key].expiresAt < r.now ==> b == Owned
      ensures r.key in old(rows) && old(rows)[r.key].expiresAt >= r.now ==>
                var row := old(rows)[r.key];
                if row.hash != r.hash then b == ErrConflict
                else match row.state
                  case Completed => b == Stored(row)
                  case FailedRetryable => b == Owned
                  case InProgress => b == ErrInProgress
      ensures b != Owned ==> rows == old(rows)
      ensures b == Owned ==>
                && r.key in rows && (forall k :: k in rows && k != r.key ==> k in old(rows) && rows[k] == old(rows)[k])
                && var row := rows[r.key];
                   && row.state == InProgress && row.route == r.route && row.hash == r.hash
                   && row.status == None && row.body == [] && row.resource == None
                   && row.createdAt == r.now && row.expiresAt == r.now + ttl
    {
      // The unique index decides the race.
      if r.key !in rows {
        rows := rows[r.key := Claimed(r, ttl)];
        return Owned;
      }
      // The row exists: decide under its lock.
      var row := rows[r.key];
      if row.expiresAt < r.now {
        rows := rows[r.key := Claimed(r, ttl)];
        return Owned;
      }
      if row.hash != r.hash {
        return ErrConflict;
      }
      match row.state {
        case Completed =>
          return Stored(row);
        case FailedRetryable =>
          rows := rows[r.key := Claimed(r, ttl)];
          return Owned;
        case InProgress =>
          return ErrInProgress;
      }
    }

    method Complete(k: RowKey, status: int, body: Text, resource: Option<int>)
      modifies this
      ensures rows == CompleteRow(old(rows), k, status, body, resource)
      ensures Untouched(old(rows), rows, k)
    {
      if k in rows {
        rows := rows[k := rows[k].(state := Completed, status := Some(status), body := body, resource := resource)];
      }
    }

    method Fail(k: RowKey)
      modifies this
      ensures rows == FailRow(old(rows), k)
      ensures Untouched(old(rows), rows, k)
    {
      if k in rows && rows[k].state == InProgress {
        rows := rows[k := rows[k].(state := FailedRetryable)];
      }
    }

    /** Deletes expired rows, in no particular order, until limit of them are gone. */
    method Purge(now: int, limit: nat) returns (deleted: nat)
      modifies this
      ensures rows.Keys <= old(rows).Keys && forall k :: k in rows ==> rows[k] == old(rows)[k]
      ensures old(rows).Keys - rows.Keys <= Expired(old(rows), now)
      ensures deleted == |old(rows).Keys - rows.Keys|
      ensures deleted <= limit && (deleted < limit ==> Expired(rows, now) == {})
    {
      deleted := 0;
      ghost var start := rows;
      ghost var gone: set<RowKey> := {};
      while deleted < limit && Expired(rows, now) != {}
        invariant deleted <= limit && deleted == |gone|
        invariant gone <= Expired(start, now) && rows == start - gone
      {
        var k :| k in Expired(rows, now);
        rows := rows - {k};
        gone := gone + {k};
        deleted := deleted + 1;
      }
      assert start.Keys - rows.Keys == gone;
    }
  }

  /** A row past its expiry is claimed, whatever its state and digest; no other request is turned into an owner. */
  lemma ExpiredIsClaimed(row: Row, r: Request)
    ensures row.expiresAt < r.now ==> Answer(row, r) == Owned
    ensures row.expiresAt >= r.now ==> (Answer(row, r) == Owned <==> row.hash == r.hash && row.state == FailedRetryable)
  {
  }

  // ---------- Begin's slow path as a retried transaction ----------

  /** The variables the transaction body captures; a rollback does not reset them. */
  datatype Captured = Captured(owned: bool, record: Option<Row>)

  const NOTHING := Captured(false, None)
  const CONFLICT_ERROR := Transactions.Error(1, false)
  const BUSY_ERROR := Transactions.Error(2, false)

  /** One run of the body on the table it sees. */
  function SlowBody(r: Request, ttl: int, t: Table, m: Captured): Transactions.Ran<Table, Captured> {
    if Takes(r, t) then
      Transactions.Ran(m.(owned := true), t[r.key := Claimed(r, ttl)], None)
    else
      match Decide(t[r.key], r)
      case Replay => Transactions.Ran(m.(record := Some(t[r.key])), t, None)
      case Conflict => Transactions.Ran(m, t, Some(CONFLICT_ERROR))
      case _ => Transactions.Ran(m, t, Some(BUSY_ERROR))
  }

  function SlowTx(r: Request, ttl: int): Transactions.Body<Table, Captured> {
    (k: nat, t: Table, m: Captured) => SlowBody(r, ttl, t, m)
  }

  /** Some attempt took ownership and was rolled back before attempt last. */
  predicate RolledBackClaim(r: Request, t: Table, ws: seq<Transactions.Weather<Table>>, last: nat)
    requires last <= |ws|
  {
    exists k :: 0 <= k < last && ClaimedAt(r, t, ws, k)
  }

  predicate ClaimedAt(r: Request, t: Table, ws: seq<Transactions.Weather<Table>>, k: nat)
    requires k < |ws|
  {
    ws[k].begin.None? && Takes(r, Transactions.StateBefore(t, ws, k))
  }

  lemma RolledBackStep(r: Request, t: Table, ws: seq<Transactions.Weather<Table>>, k: nat)
    requires 0 < k <= |ws|
    ensures RolledBackClaim(r, t, ws, k) <==> RolledBackClaim(r, t, ws, k - 1) || ClaimedAt(r, t, ws, k - 1)
  {
    if RolledBackClaim(r, t, ws, k) && !ClaimedAt(r, t, ws, k - 1) {
      var j :| 0 <= j < k && ClaimedAt(r, t, ws, j);
      assert 0 <= j < k - 1;
    }
    if RolledBackClaim(r, t, ws, k - 1) {
      var j :| 0 <= j < k - 1 && ClaimedAt(r, t, ws, j);
      assert 0 <= j < k;
    }
  }

  lemma {:induction false} OwnedRemembers(r: Request, ttl: int, t: Table, ws: seq<Transactions.Weather<Table>>, k: nat)
    requires k <= |ws|
    ensures Transactions.MemoryBefore(SlowTx(r, ttl), t, NOTHING, ws, k).owned <==> RolledBackClaim(r, t, ws, k)
  {
    if k > 0 {
      OwnedRemembers(r, ttl, t, ws, k - 1);
      RolledBackStep(r, t, ws, k);
      var s := Transactions.StateBefore(t, ws, k - 1);
      var m := Transactions.MemoryBefore(SlowTx(r, ttl), t, NOTHING, ws, k - 1);
      assert SlowTx(r, ttl)(k - 1, s, m) == SlowBody(r, ttl, s, m);
    }
  }

  /**
   When Begin's transaction succeeds, "owned" is reported exactly when the
   committed attempt took ownership, unless an earlier attempt took it and was
   rolled back: then ownership is reported whatever the committed attempt found.
   */
  lemma OwnershipReported(r: Request, ttl: int, t: Table, ws: seq<Transactions.Weather<Table>>, last: nat,
                          state: Table, m: Captured)
    requires last < |ws| && Transactions.Ends(SlowTx(r, ttl), t, NOTHING, ws, last, None, state, m)
    ensures var began := Transactions.StateBefore(t, ws, last);
            && (m.owned <==> Takes(r, began) || RolledBackClaim(r, t, ws, last))
            && ((m.owned <==> Takes(r, began)) <==> !(RolledBackClaim(r, t, ws, last) && !Takes(r, began)))
            && state == if Takes(r, began) then began[r.key := Claimed(r, ttl)] else began
  {
    OwnedRemembers(r, ttl, t, ws, last);
    OwnedRemembers(r, ttl, t, ws, last + 1);
    var s := Transactions.StateBefore(t, ws, last);
    var mem := Transactions.MemoryBefore(SlowTx(r, ttl), t, NOTHING, ws, last);
    assert SlowTx(r, ttl)(last, s, mem) == SlowBody(r, ttl, s, mem);
  }

  /**
   Such a run exists: a claim is rolled back by a transient commit error, another
   request claims and completes the row, and the retry finds the stored answer but
   still reports ownership.
   */
  lemma StaleOwnership(r: Request, ttl: int, done: Row)
    requires ttl > 0 && done.hash == r.hash && done.state == Completed && done.expiresAt >= r.now
    ensures exists ws: seq<Transactions.Weather<Table>>, state, m ::
              && |ws| == Transactions.MAX_ATTEMPTS && Transactions.Reaches(SlowTx(r, ttl), map[], NOTHING, ws, 1)
              && Transactions.Ends(SlowTx(r, ttl), map[], NOTHING, ws, 1, None, state, m)
              && m.owned && state == map[r.key := done]
  {
    var deadlock := Transactions.Error(1213, true);
    var first := Transactions.Weather(None, Some(deadlock), false, false, (t: Table) => map[r.key := done]);
    var calm := Transactions.Weather(None, None, false, false, (t: Table) => t);
    var ws := [first, calm, calm, calm];
    var tx := SlowTx(r, ttl);
    var t0: Table := map[];
    var t1: Table := map[r.key := done];
    assert Transactions.StateBefore(t0, ws, 0) == t0;
    assert Transactions.StateBefore(t0, ws, 1) == t1;
    assert tx(0, t0, NOTHING) == Transactions.Ran(Captured(true, None), t0[r.key := Claimed(r, ttl)], None);
    assert Transactions.MemoryBefore(tx, t0, NOTHING, ws, 1) == Captured(true, None);
    assert tx(1, t1, Captured(true, None)) == Transactions.Ran(Captured(true, Some(done)), t1, None);
    assert Transactions.MemoryBefore(tx, t0, NOTHING, ws, 2) == Captured(true, Some(done));
    assert Transactions.Ends(tx, t0, NOTHING, ws, 1, None, t1, Captured(true, Some(done)));
  }
}
