/**
 Any number of relays on one outbox: each transaction claims a batch under
 SKIP LOCKED, sends, and commits its updates or rolls back; events are appended
 meanwhile. The log records what was handed out, sent and marked, in order.

 The publishing callback is taken to report only events of its own batch.
 */
module OutboxRuns {
  import opened Runes
  import opened Wrappers
  import opened Outbox

  /** A relay's transaction: the rows it has locked and the results it will write. */
  datatype Claim = Claim(batch: seq<int>, pending: seq<Published>)

  datatype Entry = HandedOut(tx: nat, id: int) | Sent(tx: nat, id: int) | Marked(tx: nat, id: int, at: int)

  datatype System = System(rows: Table, claims: map<nat, Claim>, nextTx: nat, log: seq<Entry>)

  datatype Act =
    | Append(id: int, content: Text, occurredAt: int)
    | Open(limit: nat, batch: seq<int>)
    | Report(tx: nat, result: Published)
    | Commit(tx: nat)
    | Rollback(tx: nat)

  const START := System(map[], map[], 0, [])

  // ---------- Steps ----------

  function Locked(s: System): set<int> {
    set tx, i | tx in s.claims && 0 <= i < |s.claims[tx].batch| :: s.claims[tx].batch[i]
  }

  function HandOut(tx: nat, batch: seq<int>): seq<Entry> {
    seq(|batch|, i requires 0 <= i < |batch| => HandedOut(tx, batch[i]))
  }

  /** One update of a committing transaction. */
  function Mark(s: System, tx: nat, r: Published): System {
    s.(rows := Recorded(s.rows, r),
       log := if r.outcome.Ok? && Unpublished(s.rows, r.eventId) then s.log + [Marked(tx, r.eventId, r.at)] else s.log)
  }

  function MarkAll(s: System, tx: nat, results: seq<Published>): System {
    if results == [] then s else Mark(MarkAll(s, tx, results[..|results| - 1]), tx, results[|results| - 1])
  }

  /** An act that is not possible changes nothing. */
  function Step(s: System, a: Act): System {
    match a
    case Append(id, content, occurredAt) =>
      if id in s.rows then s else s.(rows := s.rows[id := Outbox.Pending(content, occurredAt)])
    case Open(limit, batch) =>
      if !IsBatch(s.rows, Locked(s), limit, batch) then s
      else s.(claims := s.claims[s.nextTx := Claim(batch, [])], nextTx := s.nextTx + 1,
              log := s.log + HandOut(s.nextTx, batch))
    case Report(tx, r) =>
      if tx !in s.claims || r.eventId !in s.claims[tx].batch then s
      else s.(claims := s.claims[tx := s.claims[tx].(pending := s.claims[tx].pending + [r])],
              log := if r.outcome.Ok? then s.log + [Sent(tx, r.eventId)] else s.log)
    case Commit(tx) =>
      if tx !in s.claims then s else MarkAll(s.(claims := s.claims - {tx}), tx, s.claims[tx].pending)
    case Rollback(tx) => s.(claims := s.claims - {tx})
  }

  function After(s: System, acts: seq<Act>): System {
    if acts == [] then s else Step(After(s, acts[..|acts| - 1]), acts[|acts| - 1])
  }

  // ---------- The invariant ----------

  /** A mark follows its send in the same transaction, and the row bears it. */
  predicate EntryOk(s: System, j: nat)
    requires j < |s.log|
  {
    match s.log[j]
    case Marked(tx, id, at) => Sent(tx, id) in s.log[..j] && id in s.rows && s.rows[id].publishedAt == Some(at)
    case _ => true
  }

  /** After its mark, an event is never handed out, sent or marked again. */
  predicate LastWord(log: seq<Entry>, i: nat, j: nat)
    requires i < j < |log|
  {
    log[i].Marked? ==> log[j].id != log[i].id
  }

  predicate LogOk(s: System) {
    && (forall j :: 0 <= j < |s.log| ==> EntryOk(s, j))
    && (forall i, j :: 0 <= i < j < |s.log| ==> LastWord(s.log, i, j))
  }

  /** A published row has a mark in the log. */
  predicate MarkKnown(s: System, id: int)
    requires id in s.rows
  {
    s.rows[id].publishedAt.Some? ==> exists i :: 0 <= i < |s.log| && s.log[i].Marked? && s.log[i].id == id
  }

  predicate ResultOk(s: System, tx: nat, c: Claim, i: nat)
    requires i < |c.pending|
  {
    c.pending[i].eventId in c.batch && (c.pending[i].outcome.Ok? ==> Sent(tx, c.pending[i].eventId) in s.log)
  }

  predicate ClaimOk(s: System, tx: nat, c: Claim) {
    && tx < s.nextTx
    && (forall i :: 0 <= i < |c.batch| ==> Unpublished(s.rows, c.batch[i]))
    && (forall i :: 0 <= i < |c.pending| ==> ResultOk(s, tx, c, i))
  }

  predicate Disjoint(a: seq<int>, b: seq<int>) {
    forall i, j :: 0 <= i < |a| && 0 <= j < |b| ==> a[i] != b[j]
  }

  predicate Inv(s: System) {
    && LogOk(s)
    && (forall id :: id in s.rows ==> MarkKnown(s, id))
    && (forall tx :: tx in s.claims ==> ClaimOk(s, tx, s.claims[tx]))
    && (forall tx, tx' :: tx in s.claims && tx' in s.claims && tx != tx' ==>
          Disjoint(s.claims[tx].batch, s.claims[tx'].batch))
  }

  /** An unpublished event has no mark. */
  lemma UnpublishedUnmarked(s: System, id: int)
    requires LogOk(s) && Unpublished(s.rows, id)
    ensures forall i :: 0 <= i < |s.log| && s.log[i].Marked? ==> s.log[i].id != id
  {
    forall i | 0 <= i < |s.log| && s.log[i].Marked? ensures s.log[i].id != id {
      assert EntryOk(s, i);
    }
  }

  /** New entries about unmarked events, none of them marks, keep the log in order. */
  lemma LogGrows(s: System, t: System, more: seq<Entry>)
    requires LogOk(s) && t.log == s.log + more && t.rows == s.rows
    requires forall j :: 0 <= j < |more| ==> !more[j].Marked? && Unpublished(s.rows, more[j].id)
    ensures LogOk(t)
  {
    forall j | 0 <= j < |t.log| ensures EntryOk(t, j) {
      if j < |s.log| {
        assert EntryOk(s, j) && t.log[..j] == s.log[..j] && t.log[j] == s.log[j];
      } else {
        assert t.log[j] == more[j - |s.log|];
      }
    }
    forall i, j | 0 <= i < j < |t.log| ensures LastWord(t.log, i, j) {
      if j < |s.log| {
        assert LastWord(s.log, i, j);
      } else if i < |s.log| {
        UnpublishedUnmarked(s, more[j - |s.log|].id);
      } else {
        assert t.log[i] == more[i - |s.log|];
      }
    }
  }

  lemma MarksStillKnown(s: System, t: System)
    requires (forall id :: id in s.rows ==> MarkKnown(s, id)) && s.log <= t.log && t.rows == s.rows
    ensures forall id :: id in t.rows ==> MarkKnown(t, id)
  {
    forall id | id in t.rows ensures MarkKnown(t, id) {
      assert MarkKnown(s, id);
      if s.rows[id].publishedAt.Some? {
        var i :| 0 <= i < |s.log| && s.log[i].Marked? && s.log[i].id == id;
        assert t.log[i] == s.log[i];
      }
    }
  }

  /** A claim stays sound while its rows stay unpublished and the log only grows. */
  lemma ClaimStaysOk(s: System, t: System, tx: nat, c: Claim)
    requires ClaimOk(s, tx, c) && s.log <= t.log && s.nextTx <= t.nextTx
    requires forall i :: 0 <= i < |c.batch| ==> Unpublished(t.rows, c.batch[i])
    ensures ClaimOk(t, tx, c)
  {
    forall i | 0 <= i < |c.pending| ensures ResultOk(t, tx, c, i) {
      assert ResultOk(s, tx, c, i);
    }
  }

  lemma AppendKeepsInv(s: System, a: Act)
    requires Inv(s) && a.Append?
    ensures Inv(Step(s, a))
  {
    var t := Step(s, a);
    forall j | 0 <= j < |t.log| ensures EntryOk(t, j) {
      assert EntryOk(s, j);
    }
    forall id | id in t.rows ensures MarkKnown(t, id) {
      assert id in s.rows ==> MarkKnown(s, id);
    }
    forall tx | tx in t.claims ensures ClaimOk(t, tx, t.claims[tx]) {
      ClaimStaysOk(s, t, tx, s.claims[tx]);
    }
  }

  lemma OpenKeepsInv(s: System, limit: nat, batch: seq<int>)
    requires Inv(s) && IsBatch(s.rows, Locked(s), limit, batch)
    ensures Inv(Step(s, Open(limit, batch)))
  {
    var t := Step(s, Open(limit, batch));
    LogGrows(s, t, HandOut(s.nextTx, batch));
    MarksStillKnown(s, t);
    forall tx | tx in t.claims ensures ClaimOk(t, tx, t.claims[tx]) {
      if tx != s.nextTx {
        ClaimStaysOk(s, t, tx, s.claims[tx]);
      }
    }
    forall tx | tx in s.claims ensures Disjoint(s.claims[tx].batch, batch) && Disjoint(batch, s.claims[tx].batch) {
      assert forall i :: 0 <= i < |s.claims[tx].batch| ==> s.claims[tx].batch[i] in Locked(s);
    }
    assert forall tx :: tx in s.claims ==> ClaimOk(s, tx, s.claims[tx]);
  }

  lemma ReportKeepsInv(s: System, tx: nat, r: Published)
    requires Inv(s) && tx in s.claims && r.eventId in s.claims[tx].batch
    ensures Inv(Step(s, Report(tx, r)))
  {
    var t, c := Step(s, Report(tx, r)), s.claims[tx];
    assert ClaimOk(s, tx, c);
    LogGrows(s, t, if r.outcome.Ok? then [Sent(tx, r.eventId)] else []);
    MarksStillKnown(s, t);
    forall tx' | tx' in t.claims ensures ClaimOk(t, tx', t.claims[tx']) {
      ClaimStaysOk(s, t, tx', s.claims[tx']);
      if tx' == tx {
        var c' := t.claims[tx];
        forall i | 0 <= i < |c'.pending| ensures ResultOk(t, tx, c', i) {
          assert i < |c.pending| ==> ResultOk(t, tx, c, i);
        }
      }
    }
  }

  /** The event is claimed by no open transaction. */
  predicate Free(s: System, id: int) {
    forall tx :: tx in s.claims ==> id !in s.claims[tx].batch
  }

  lemma RemoveKeepsInv(s: System, tx: nat)
    requires Inv(s)
    ensures Inv(s.(claims := s.claims - {tx}))
  {
    var t := s.(claims := s.claims - {tx});
    forall j | 0 <= j < |t.log| ensures EntryOk(t, j) {
      assert EntryOk(s, j);
    }
    MarksStillKnown(s, t);
    forall tx' | tx' in t.claims ensures ClaimOk(t, tx', t.claims[tx']) {
      ClaimStaysOk(s, t, tx', s.claims[tx']);
    }
  }

  lemma MarkKeepsLog(s: System, tx: nat, r: Published)
    requires LogOk(s) && r.eventId in s.rows && (r.outcome.Ok? ==> Sent(tx, r.eventId) in s.log)
    ensures LogOk(Mark(s, tx, r))
  {
    var t := Mark(s, tx, r);
    var marks := r.outcome.Ok? && Unpublished(s.rows, r.eventId);
    if marks {
      UnpublishedUnmarked(s, r.eventId);
    }
    forall j | 0 <= j < |t.log| ensures EntryOk(t, j) {
      if j < |s.log| {
        assert EntryOk(s, j) && t.log[j] == s.log[j] && t.log[..j] == s.log[..j];
      } else {
        assert t.log[..j] == s.log;
      }
    }
    forall i, j | 0 <= i < j < |t.log| ensures LastWord(t.log, i, j) {
      assert j < |s.log| ==> LastWord(s.log, i, j);
    }
  }

  lemma MarkKeepsInv(s: System, tx: nat, r: Published)
    requires Inv(s) && r.eventId in s.rows && Free(s, r.eventId)
    requires r.outcome.Ok? ==> Sent(tx, r.eventId) in s.log
    ensures Inv(Mark(s, tx, r))
  {
    var t := Mark(s, tx, r);
    MarkKeepsLog(s, tx, r);
    forall id | id in t.rows ensures MarkKnown(t, id) {
      assert MarkKnown(s, id);
      if s.rows[id].publishedAt.Some? {
        var i :| 0 <= i < |s.log| && s.log[i].Marked? && s.log[i].id == id;
        assert t.log[i] == s.log[i];
      } else if t.rows[id].publishedAt.Some? {
        assert t.log[|s.log|].Marked?;
      }
    }
    forall tx' | tx' in t.claims ensures ClaimOk(t, tx', t.claims[tx']) {
      assert ClaimOk(s, tx', s.claims[tx']);
      ClaimStaysOk(s, t, tx', s.claims[tx']);
    }
  }

  lemma {:induction false} MarkAllKeepsInv(s: System, tx: nat, results: seq<Published>)
    requires Inv(s)
    requires forall i :: 0 <= i < |results| ==> results[i].eventId in s.rows && Free(s, results[i].eventId)
    requires forall i :: 0 <= i < |results| && results[i].outcome.Ok? ==> Sent(tx, results[i].eventId) in s.log
    ensures var t := MarkAll(s, tx, results);
      Inv(t) && t.claims == s.claims && t.rows.Keys == s.rows.Keys && s.log <= t.log
  {
    if results != [] {
      var n := |results| - 1;
      MarkAllKeepsInv(s, tx, results[..n]);
      var t := MarkAll(s, tx, results[..n]);
      assert Free(s, results[n].eventId);
      MarkKeepsInv(t, tx, results[n]);
    }
  }

  lemma CommitKeepsInv(s: System, tx: nat)
    requires Inv(s) && tx in s.claims
    ensures Inv(Step(s, Commit(tx)))
  {
    var t, c := s.(claims := s.claims - {tx}), s.claims[tx];
    RemoveKeepsInv(s, tx);
    assert ClaimOk(s, tx, c);
    forall i | 0 <= i < |c.pending|
      ensures c.pending[i].eventId in t.rows && Free(t, c.pending[i].eventId)
      ensures c.pending[i].outcome.Ok? ==> Sent(tx, c.pending[i].eventId) in t.log
    {
      assert ResultOk(s, tx, c, i);
    }
    MarkAllKeepsInv(t, tx, c.pending);
  }

  lemma StepKeepsInv(s: System, a: Act)
    requires Inv(s)
    ensures Inv(Step(s, a))
  {
    match a
    case Append(_, _, _) => AppendKeepsInv(s, a);
    case Open(limit, batch) => if IsBatch(s.rows, Locked(s), limit, batch) { OpenKeepsInv(s, limit, batch); }
    case Report(tx, r) => if tx in s.claims && r.eventId in s.claims[tx].batch { ReportKeepsInv(s, tx, r); }
    case Commit(tx) => if tx in s.claims { CommitKeepsInv(s, tx); }
    case Rollback(tx) => RemoveKeepsInv(s, tx);
  }

  lemma {:induction false} RunKeepsInv(s: System, acts: seq<Act>)
    requires Inv(s)
    ensures Inv(After(s, acts))
  {
    if acts != [] {
      RunKeepsInv(s, acts[..|acts| - 1]);
      StepKeepsInv(After(s, acts[..|acts| - 1]), acts[|acts| - 1]);
    }
  }

  // ---------- Results over all runs ----------

  /**
   In every interleaving: two open transactions never share an event; an event is
   marked at most once, after a successful send in the transaction that marked it,
   and is never handed out, sent or marked afterwards; exactly the marked events
   are published, at the time of their mark.
   */
  lemma PublishedOnce(acts: seq<Act>)
    ensures var s := After(START, acts);
      && (forall tx, tx' :: tx in s.claims && tx' in s.claims && tx != tx' ==>
            Disjoint(s.claims[tx].batch, s.claims[tx'].batch))
      && (forall i, j | 0 <= i < j < |s.log| :: s.log[i].Marked? ==> s.log[j].id != s.log[i].id)
      && (forall j | 0 <= j < |s.log| :: s.log[j].Marked? ==>
            && Sent(s.log[j].tx, s.log[j].id) in s.log[..j]
            && s.log[j].id in s.rows && s.rows[s.log[j].id].publishedAt == Some(s.log[j].at))
      && (forall id | id in s.rows :: s.rows[id].publishedAt.Some? ==>
            exists i :: 0 <= i < |s.log| && s.log[i].Marked? && s.log[i].id == id)
  {
    RunKeepsInv(START, acts);
    var s := After(START, acts);
    forall i, j | 0 <= i < j < |s.log| ensures s.log[i].Marked? ==> s.log[j].id != s.log[i].id {
      assert LastWord(s.log, i, j);
    }
    forall j | 0 <= j < |s.log| && s.log[j].Marked?
      ensures Sent(s.log[j].tx, s.log[j].id) in s.log[..j]
      ensures s.log[j].id in s.rows && s.rows[s.log[j].id].publishedAt == Some(s.log[j].at)
    {
      assert EntryOk(s, j);
    }
    forall id | id in s.rows && s.rows[id].publishedAt.Some?
      ensures exists i :: 0 <= i < |s.log| && s.log[i].Marked? && s.log[i].id == id
    {
      assert MarkKnown(s, id);
    }
  }

  lemma {:induction false} MarkAllRecords(s: System, tx: nat, results: seq<Published>)
    ensures MarkAll(s, tx, results).rows == RecordedAll(s.rows, results)
  {
    if results != [] {
      MarkAllRecords(s, tx, results[..|results| - 1]);
    }
  }

  lemma StepKeepsPublished(s: System, a: Act, id: int)
    requires Inv(s) && id in s.rows && s.rows[id].publishedAt.Some?
    ensures id in Step(s, a).rows && Step(s, a).rows[id] == s.rows[id]
  {
    if a.Commit? && a.tx in s.claims {
      var c := s.claims[a.tx];
      assert ClaimOk(s, a.tx, c);
      forall i | 0 <= i < |c.pending| ensures c.pending[i].eventId != id {
        assert ResultOk(s, a.tx, c, i);
      }
      MarkAllRecords(s.(claims := s.claims - {a.tx}), a.tx, c.pending);
      OthersUntouched(s.rows, c.pending, id);
    }
  }

  /** Once published, a row never changes in any column. */
  lemma {:induction false} PublishedForGood(s: System, acts: seq<Act>, id: int)
    requires Inv(s) && id in s.rows && s.rows[id].publishedAt.Some?
    ensures id in After(s, acts).rows && After(s, acts).rows[id] == s.rows[id]
  {
    if acts != [] {
      var before := acts[..|acts| - 1];
      PublishedForGood(s, before, id);
      RunKeepsInv(s, before);
      StepKeepsPublished(After(s, before), acts[|acts| - 1], id);
    }
  }
}
