/**
 The outbox: the statements the relay runs, the batch it claims, the loop that
 records publish results, and the count ClaimBatch reports when its transaction
 is retried. OutboxRuns puts any number of relays side by side.
 */
module Outbox {
  import opened Wrappers
  import opened Runes
  import Transactions

  /** One row of outbox_events; content stands for the columns no relay writes. */
  datatype Row = Row(content: Text, occurredAt: int, publishedAt: Option<int>, messageId: Option<Text>,
                     attempts: nat, lastError: Option<Text>)

  type Table = map<int, Row>

  /** An event as it is appended. */
  function Pending(content: Text, occurredAt: int): Row {
    Row(content, occurredAt, None, None, 0, None)
  }

  /** The outcome of one publish attempt and the time its update runs. */
  datatype Published = Published(eventId: int, outcome: Result<Text, Text>, at: int)

  const MAX_ERROR := 380

  // ---------- Statements ----------

  predicate Unpublished(t: Table, id: int) {
    id in t && t[id].publishedAt == None
  }

  /** Rows the claiming SELECT may return: unpublished and not locked by another transaction. */
  function Claimable(t: Table, locked: set<int>): set<int> {
    set id | id in t && id !in locked && t[id].publishedAt == None
  }

  /** The claimed batch: the smallest claimable identifiers in order, as many as the limit allows. */
  predicate IsBatch(t: Table, locked: set<int>, limit: nat, batch: seq<int>) {
    && |batch| <= limit
    && (forall i :: 0 <= i < |batch| ==> batch[i] in Claimable(t, locked))
    && (forall i, j :: 0 <= i < j < |batch| ==> batch[i] < batch[j])
    && (forall id :: id in Claimable(t, locked) && id !in batch ==>
          |batch| == limit && forall i :: 0 <= i < |batch| ==> batch[i] < id)
  }

  /** There is only one such batch. */
  lemma BatchUnique(t: Table, locked: set<int>, limit: nat, a: seq<int>, b: seq<int>)
    requires IsBatch(t, locked, limit, a) && IsBatch(t, locked, limit, b)
    ensures a == b
  {
    if |a| <= |b| {
      BatchesAgree(t, locked, limit, a, b, |a|);
      NoLonger(t, locked, limit, a, b);
    } else {
      BatchesAgree(t, locked, limit, b, a, |b|);
      NoLonger(t, locked, limit, b, a);
    }
  }

  lemma {:induction false} BatchesAgree(t: Table, locked: set<int>, limit: nat, a: seq<int>, b: seq<int>, k: nat)
    requires IsBatch(t, locked, limit, a) && IsBatch(t, locked, limit, b) && k <= |a| <= |b|
    ensures a[..k] == b[..k]
  {
    if k > 0 {
      BatchesAgree(t, locked, limit, a, b, k - 1);
      NotBefore(t, locked, limit, a, b, k - 1);
      NotBefore(t, locked, limit, b, a, k - 1);
      assert a[..k] == a[..k - 1] + [a[k - 1]] && b[..k] == b[..k - 1] + [b[k - 1]];
    }
  }

  lemma NoLonger(t: Table, locked: set<int>, limit: nat, a: seq<int>, b: seq<int>)
    requires IsBatch(t, locked, limit, a) && IsBatch(t, locked, limit, b)
    requires |a| <= |b| && a == b[..|a|]
    ensures a == b
  {
    var next := if |a| < |b| then b[|a|] else 0;
    assert |a| < |b| ==> next in Claimable(t, locked);
    assert |a| < |b| ==> next !in a by {
      assert forall i :: 0 <= i < |a| ==> a[i] == b[..|a|][i] == b[i];
    }
    assert |a| == |b| && b[..|a|] == b;
  }

  /** After a common start, the next of one batch is not before the next of the other. */
  lemma NotBefore(t: Table, locked: set<int>, limit: nat, a: seq<int>, b: seq<int>, k: nat)
    requires IsBatch(t, locked, limit, a) && IsBatch(t, locked, limit, b)
    requires k < |a| && k < |b| && a[..k] == b[..k]
    ensures a[k] >= b[k]
  {
    var next := a[k];
    assert next in Claimable(t, locked);
    assert next < b[k] ==> next !in b by {
      assert forall i :: 0 <= i < k ==> b[i] == b[..k][i] == a[..k][i] == a[i];
    }
  }

  /** The update for one result. */
  function Recorded(t: Table, r: Published): Table {
    match r.outcome
    case Err(message) =>
      if r.eventId in t then
        t[r.eventId := t[r.eventId].(attempts := t[r.eventId].attempts + 1,
                                     lastError := Some(Truncate(message, MAX_ERROR)))]
      else t
    case Ok(messageId) =>
      if Unpublished(t, r.eventId) then
        t[r.eventId := t[r.eventId].(publishedAt := Some(r.at), messageId := Some(messageId),
                                     attempts := t[r.eventId].attempts + 1)]
      else t
  }

  function RecordedAll(t: Table, results: seq<Published>): Table {
    if results == [] then t else Recorded(RecordedAll(t, results[..|results| - 1]), results[|results| - 1])
  }

  /** The identifiers of the successful results, in order. */
  function Successes(results: seq<Published>): seq<int> {
    if results == [] then []
    else Successes(results[..|results| - 1])
         + (if results[|results| - 1].outcome.Ok? then [results[|results| - 1].eventId] else [])
  }

  // ---------- The loop over the results ----------

  class Store {
    var rows: Table

    constructor ()
      ensures rows == map[]
    {
      rows := map[];
    }

    /** Inserts one event, with a fresh identifier and the time where it has none; a reused identifier is an error. */
    method Append(id: int, content: Text, occurredAt: int, freshId: int, now: int) returns (ok: bool, stored: int)
      modifies this
      ensures stored == if id == 0 then freshId else id
      ensures ok <==> stored !in old(rows)
      ensures ok ==> rows == old(rows)[stored := Pending(content, if occurredAt == 0 then now else occurredAt)]
      ensures ok ==> stored in rows && Unpublished(rows, stored) && rows[stored].content == content
                     && rows[stored].attempts == 0 && rows[stored].lastError == None && rows[stored].messageId == None
      ensures !ok ==> rows == old(rows)
    {
      stored := id;
      if stored == 0 {
        stored := freshId;
      }
      var at := occurredAt;
      if at == 0 {
        at := now;
      }
      if stored in rows {
        return false, stored;
      }
      rows := rows[stored := Pending(content, at)];
      return true, stored;
    }

    /** Writes the results one by one; the statement for results[failing] fails and ends the transaction. */
    method Record(results: seq<Published>, processed: nat, failing: nat) returns (processed': nat, failed: bool)
      modifies this
      ensures failed <==> failing < |results|
      ensures rows == RecordedAll(old(rows), results[..Reached(results, failing)])
      ensures processed' == processed + |Successes(results[..Reached(results, failing)])|
    {
      processed' := processed;
      for i := 0 to |results|
        invariant i <= failing && rows == RecordedAll(old(rows), results[..i])
        invariant processed' == processed + |Successes(results[..i])|
      {
        if i == failing {
          return processed', true;
        }
        assert results[..i + 1][..i] == results[..i];
        var r := results[i];
        match r.outcome {
          case Err(message) =>
            if r.eventId in rows {
              rows := rows[r.eventId := rows[r.eventId].(attempts := rows[r.eventId].attempts + 1,
                                                         lastError := Some(Truncate(message, MAX_ERROR)))];
            }
          case Ok(messageId) =>
            if r.eventId in rows && rows[r.eventId].publishedAt == None {
              rows := rows[r.eventId := rows[r.eventId].(publishedAt := Some(r.at), messageId := Some(messageId),
                                                         attempts := rows[r.eventId].attempts + 1)];
            }
            processed' := processed' + 1;
        }
      }
      assert results[..|results|] == results;
      return processed', false;
    }
  }

  /** How many results are written before the failing one. */
  function Reached(results: seq<Published>, failing: nat): nat {
    if failing < |results| then failing else |results|
  }

  // ---------- What the updates amount to ----------

  predicate Distinct(ids: seq<int>) {
    forall i, j :: 0 <= i < j < |ids| ==> ids[i] != ids[j]
  }

  /** The rows a list of results publishes. */
  function Marked(t: Table, t': Table): set<int> {
    set id | id in t && id in t' && t[id].publishedAt == None && t'[id].publishedAt != None
  }

  function Elements(ids: seq<int>): set<int> {
    set i | 0 <= i < |ids| :: ids[i]
  }

  /** No row is added or lost; an event becomes published exactly when some attempt for it succeeded. */
  lemma {:induction false} RecordedMarks(t: Table, results: seq<Published>)
    ensures var t' := RecordedAll(t, results);
      && t'.Keys == t.Keys
      && (forall id :: id in t ==> t'[id].content == t[id].content && t'[id].occurredAt == t[id].occurredAt)
      && (forall id :: id in t ==>
            (t'[id].publishedAt == None <==> t[id].publishedAt == None && id !in Successes(results)))
  {
    if results != [] {
      RecordedMarks(t, results[..|results| - 1]);
    }
  }

  lemma {:induction false} OthersUntouched(t: Table, results: seq<Published>, id: int)
    requires id in t && forall i :: 0 <= i < |results| ==> results[i].eventId != id
    ensures id in RecordedAll(t, results) && RecordedAll(t, results)[id] == t[id]
  {
    if results != [] {
      OthersUntouched(t, results[..|results| - 1], id);
    }
  }

  /** What an unpublished event's row says after its only result. */
  predicate Landed(after: Row, before: Row, r: Published) {
    && after.content == before.content && after.occurredAt == before.occurredAt
    && after.attempts == before.attempts + 1
    && match r.outcome
       case Ok(messageId) =>
         after.publishedAt == Some(r.at) && after.messageId == Some(messageId) && after.lastError == before.lastError
       case Err(message) =>
         after.publishedAt == None && after.messageId == before.messageId
         && after.lastError.Some? && FirstBytes(after.lastError.value, message, 380)
  }

  /** With one result per event, each lands on its own row and every other row stays as it is. */
  lemma {:induction false} ResultsLand(t: Table, results: seq<Published>, i: nat)
    requires i < |results| && Unpublished(t, results[i].eventId)
    requires forall j, k :: 0 <= j < k < |results| ==> results[j].eventId != results[k].eventId
    ensures var t', id := RecordedAll(t, results), results[i].eventId;
      id in t' && Landed(t'[id], t[id], results[i])
  {
    var before := results[..|results| - 1];
    if i < |before| {
      ResultsLand(t, before, i);
      assert results[i].eventId != results[|before|].eventId;
    } else {
      OthersUntouched(t, before, results[i].eventId);
    }
  }

  lemma ElementsOneMore(ids: seq<int>, id: int)
    ensures Elements(ids + [id]) == Elements(ids) + {id}
    ensures id in ids ==> !Distinct(ids + [id])
    ensures id !in ids && Distinct(ids) ==> Distinct(ids + [id])
    ensures !Distinct(ids) ==> !Distinct(ids + [id])
  {
    var more := ids + [id];
    assert forall i :: 0 <= i < |ids| ==> more[i] == ids[i];
    assert more[|ids|] == id;
  }

  lemma {:induction false} ElementCount(ids: seq<int>)
    ensures |Elements(ids)| <= |ids|
    ensures |Elements(ids)| == |ids| <==> Distinct(ids)
  {
    if ids != [] {
      var n := |ids| - 1;
      ElementCount(ids[..n]);
      ElementsOneMore(ids[..n], ids[n]);
      assert ids[..n] + [ids[n]] == ids;
    }
  }

  /** Every success names an event that is there and unpublished. */
  predicate Fresh(t: Table, ids: seq<int>) {
    forall i :: 0 <= i < |ids| ==> Unpublished(t, ids[i])
  }

  lemma SmallerPart(part: set<int>, all: set<int>)
    requires part <= all
    ensures |part| <= |all| && (|part| == |all| <==> part == all)
  {
    assert all == part + (all - part);
  }

  lemma MarkedSuccesses(t: Table, results: seq<Published>)
    ensures var ids := Successes(results);
      var marked := Marked(t, RecordedAll(t, results));
      marked <= Elements(ids) && (marked == Elements(ids) <==> Fresh(t, ids))
  {
    var ids := Successes(results);
    var marked := Marked(t, RecordedAll(t, results));
    RecordedMarks(t, results);
    assert forall id :: id in marked <==> id in ids && Unpublished(t, id);
    assert forall id :: id in ids <==> id in Elements(ids);
    if marked == Elements(ids) {
      forall i | 0 <= i < |ids| ensures Unpublished(t, ids[i]) {
        assert ids[i] in marked;
      }
    }
  }

  /**
   The count of one attempt is the number of events it publishes, unless a success
   names an event twice, or one that is absent or published already.
   */
  lemma CountMatchesMarks(t: Table, results: seq<Published>)
    ensures var ids, marked := Successes(results), Marked(t, RecordedAll(t, results));
      |marked| <= |ids| && (|marked| == |ids| <==> Distinct(ids) && Fresh(t, ids))
  {
    var ids, marked := Successes(results), Marked(t, RecordedAll(t, results));
    MarkedSuccesses(t, results);
    ElementCount(ids);
    SmallerPart(marked, Elements(ids));
  }

  // ---------- ClaimBatch as a retried transaction ----------

  /** What one attempt meets: the batch's results or the callback's error, and the update that fails, if any. */
  datatype Attempt = Attempt(
    results: Result<seq<Published>, Transactions.Error>, failing: nat, failure: Transactions.Error)

  /** The body of ClaimBatch; processed is captured and is not reset by a rollback. */
  function ClaimBody(script: seq<Attempt>): Transactions.Body<Table, nat> {
    (k: nat, t: Table, processed: nat) => Attempted(script, k, t, processed)
  }

  function Attempted(script: seq<Attempt>, k: nat, t: Table, processed: nat): Transactions.Ran<Table, nat> {
    if k >= |script| then Transactions.Ran(processed, t, None)
    else match script[k].results
      case Err(e) => Transactions.Ran(processed, t, Some(e))
      case Ok(results) =>
        var written := results[..Reached(results, script[k].failing)];
        Transactions.Ran(processed + |Successes(written)|, RecordedAll(t, written),
                         if script[k].failing < |results| then Some(script[k].failure) else None)
  }

  /** What attempt k adds to the count. */
  function Counted(script: seq<Attempt>, ws: seq<Transactions.Weather<Table>>, k: nat): nat
    requires k < |ws|
  {
    if ws[k].begin.Some? || k >= |script| || script[k].results.Err? then 0
    else |Successes(script[k].results.value[..Reached(script[k].results.value, script[k].failing)])|
  }

  function CountedBefore(script: seq<Attempt>, ws: seq<Transactions.Weather<Table>>, k: nat): nat
    requires k <= |ws|
  {
    if k == 0 then 0 else CountedBefore(script, ws, k - 1) + Counted(script, ws, k - 1)
  }

  lemma {:induction false} ProcessedAccumulates(script: seq<Attempt>, t: Table,
                                                ws: seq<Transactions.Weather<Table>>, k: nat)
    requires k <= |ws|
    ensures Transactions.MemoryBefore(ClaimBody(script), t, 0, ws, k) == CountedBefore(script, ws, k)
  {
    if k > 0 {
      ProcessedAccumulates(script, t, ws, k - 1);
      var s, m := Transactions.StateBefore(t, ws, k - 1), CountedBefore(script, ws, k - 1);
      assert ClaimBody(script)(k - 1, s, m) == Attempted(script, k - 1, s, m);
    }
  }

  lemma {:induction false} CountedBeforeZero(script: seq<Attempt>, ws: seq<Transactions.Weather<Table>>, k: nat)
    requires k <= |ws|
    ensures CountedBefore(script, ws, k) == 0 <==> forall j :: 0 <= j < k ==> Counted(script, ws, j) == 0
  {
    if k > 0 {
      CountedBeforeZero(script, ws, k - 1);
    }
  }

  /** The reported count is what the last attempt counted plus what every rolled-back one had counted. */
  lemma ProcessedIsSum(script: seq<Attempt>, t: Table, ws: seq<Transactions.Weather<Table>>, last: nat,
                       failure: Option<Transactions.Failure>, state: Table, processed: nat)
    requires last < |ws| && Transactions.Ends(ClaimBody(script), t, 0, ws, last, failure, state, processed)
    ensures processed == CountedBefore(script, ws, last) + Counted(script, ws, last)
  {
    ProcessedAccumulates(script, t, ws, last + 1);
  }

  /** The number of events the call published: none unless it committed. */
  function PublishedBy(began: Table, failure: Option<Transactions.Failure>, state: Table): nat {
    if failure.None? then |Marked(began, state)| else 0
  }

  /** A committed last attempt wrote all its results. */
  lemma CommittedWritesAll(script: seq<Attempt>, t: Table, ws: seq<Transactions.Weather<Table>>, last: nat,
                           state: Table, processed: nat)
    requires last < |ws| && last < |script|
    requires Transactions.Ends(ClaimBody(script), t, 0, ws, last, None, state, processed)
    ensures script[last].results.Ok?
    ensures state == RecordedAll(Transactions.StateBefore(t, ws, last), script[last].results.value)
    ensures Counted(script, ws, last) == |Successes(script[last].results.value)|
  {
    var began := Transactions.StateBefore(t, ws, last);
    var m := Transactions.MemoryBefore(ClaimBody(script), t, 0, ws, last);
    assert ClaimBody(script)(last, began, m) == Attempted(script, last, began, m);
    var results := script[last].results.value;
    assert results[..|results|] == results;
  }

  /**
   The reported count is the number of events the call published exactly when no
   rolled-back attempt had counted anything and, if the call committed, its
   successes name distinct events that were there and unpublished, or, if it
   failed, its last attempt had counted nothing.
   */
  lemma ProcessedReported(script: seq<Attempt>, t: Table, ws: seq<Transactions.Weather<Table>>, last: nat,
                          failure: Option<Transactions.Failure>, state: Table, processed: nat)
    requires last < |ws| && last < |script|
    requires Transactions.Ends(ClaimBody(script), t, 0, ws, last, failure, state, processed)
    ensures var began := Transactions.StateBefore(t, ws, last);
      processed == PublishedBy(began, failure, state)
      <==> (forall j :: 0 <= j < last ==> Counted(script, ws, j) == 0)
           && if failure.None? then
                script[last].results.Ok?
                && var ids := Successes(script[last].results.value);
                   Distinct(ids) && Fresh(began, ids)
              else Counted(script, ws, last) == 0
  {
    ProcessedIsSum(script, t, ws, last, failure, state, processed);
    CountedBeforeZero(script, ws, last);
    if failure.None? {
      CommittedWritesAll(script, t, ws, last, state, processed);
      CountMatchesMarks(Transactions.StateBefore(t, ws, last), script[last].results.value);
    }
  }

  /** A deadlock at the commit of a one-event batch: the retry reports two, and one event is published. */
  lemma ProcessedTooHigh(id: int, content: Text, messageId: Text)
    ensures exists script, ws: seq<Transactions.Weather<Table>>, state ::
              var t: Table := map[id := Pending(content, 0)];
              && |ws| == Transactions.MAX_ATTEMPTS && Transactions.Reaches(ClaimBody(script), t, 0, ws, 1)
              && Transactions.Ends(ClaimBody(script), t, 0, ws, 1, None, state, 2)
              && Marked(t, state) == {id}
  {
    var t: Table := map[id := Pending(content, 0)];
    var sent := Published(id, Ok(messageId), 1);
    var deadlock := Transactions.Error(1213, true);
    var attempt := Attempt(Ok([sent]), 1, deadlock);
    var script := [attempt, attempt];
    var calm := Transactions.Weather(None, None, false, false, (x: Table) => x);
    var ws := [calm.(commit := Some(deadlock)), calm, calm, calm];
    var body := ClaimBody(script);
    assert [sent][..1] == [sent] && [sent][..0] == [];
    assert Successes([sent]) == [id] by { assert Successes([]) == []; }
    assert Transactions.StateBefore(t, ws, 0) == t;
    assert Transactions.StateBefore(t, ws, 1) == t;
    assert body(0, t, 0) == Transactions.Ran(1, RecordedAll(t, [sent]), None);
    assert Transactions.MemoryBefore(body, t, 0, ws, 1) == 1;
    assert body(1, t, 1) == Transactions.Ran(2, RecordedAll(t, [sent]), None);
    assert Transactions.MemoryBefore(body, t, 0, ws, 2) == 2;
    var state := RecordedAll(t, [sent]);
    assert Transactions.Ends(body, t, 0, ws, 1, None, state, 2);
    assert RecordedAll(t, []) == t;
    assert Marked(t, state) == {id};
  }
}
