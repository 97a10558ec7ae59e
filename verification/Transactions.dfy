/**
 The transaction retry loop. A failed attempt is rolled back, but what the body
 captured from outside is not: both are part of the model, because the stores
 that build on InTx return captured variables.
 */
module Transactions {
  import opened Wrappers

  /** An error; a panic in the body behaves like one that is not retryable, except that it is thrown on. */
  datatype Error = Error(code: int, retryable: bool)

  /** What InTx reports. */
  datatype Failure = Plain(error: Error) | Cancelled | Exhausted(last: Error)

  /** What one run of the body leaves: its captured variables, its writes, its error. */
  datatype Ran<S, M> = Ran(memory: M, state: S, error: Option<Error>)

  /** The body of a transaction; attempt distinguishes failures of its statements from run to run. */
  type Body<!S, !M> = (nat, S, M) -> Ran<S, M>

  /**
   What the database and the context do during one attempt and the backoff after
   it, and what other transactions commit before the next attempt.
   */
  datatype Weather<!S> = Weather(
    begin: Option<Error>, commit: Option<Error>, cancelledAfter: bool, cancelledInBackoff: bool, others: S -> S)

  const MAX_ATTEMPTS: nat := 4

  // ---------- Specification ----------

  /** The error of one attempt, if any. */
  function AttemptError<S, M>(body: Body, w: Weather, k: nat, s: S, m: M): Option<Error> {
    if w.begin.Some? then w.begin
    else if body(k, s, m).error.Some? then body(k, s, m).error
    else w.commit
  }

  /** The captured variables after one attempt, committed or not. */
  function AttemptMemory<S, M>(body: Body, w: Weather, k: nat, s: S, m: M): M {
    if w.begin.Some? then m else body(k, s, m).memory
  }

  /** The committed state attempt k begins from, when all before it failed. */
  function StateBefore<S>(s: S, ws: seq<Weather>, k: nat): S
    requires k <= |ws|
  {
    if k == 0 then s else ws[k - 1].others(StateBefore(s, ws, k - 1))
  }

  function MemoryBefore<S, M>(body: Body, s: S, m: M, ws: seq<Weather>, k: nat): M
    requires k <= |ws|
  {
    if k == 0 then m
    else AttemptMemory(body, ws[k - 1], k - 1, StateBefore(s, ws, k - 1), MemoryBefore(body, s, m, ws, k - 1))
  }

  function ErrorAt<S, M>(body: Body, s: S, m: M, ws: seq<Weather>, k: nat): Option<Error>
    requires k < |ws|
  {
    AttemptError(body, ws[k], k, StateBefore(s, ws, k), MemoryBefore(body, s, m, ws, k))
  }

  /** Attempt k failed in a way that leads to another one. */
  predicate Retried<S, M>(body: Body, s: S, m: M, ws: seq<Weather>, k: nat)
    requires k < |ws|
  {
    var e := ErrorAt(body, s, m, ws, k);
    e.Some? && e.value.retryable && !ws[k].cancelledAfter && !ws[k].cancelledInBackoff
  }

  /** The attempts before attempt k were all retried. */
  predicate Reaches<S, M>(body: Body, s: S, m: M, ws: seq<Weather>, k: nat)
    requires k <= |ws|
  {
    forall j :: 0 <= j < k ==> Retried(body, s, m, ws, j)
  }

  /** What the caller of InTx and the database see after the last attempt. */
  predicate Ends<S(==), M(==)>(body: Body, s: S, m: M, ws: seq<Weather>, last: nat,
                               failure: Option<Failure>, state: S, memory: M)
    requires last < |ws|
  {
    var began, e := StateBefore(s, ws, last), ErrorAt(body, s, m, ws, last);
    && memory == MemoryBefore(body, s, m, ws, last + 1)
    && match e
       case None =>
         failure == None && state == body(last, began, MemoryBefore(body, s, m, ws, last)).state
       case Some(error) =>
         if !error.retryable || ws[last].cancelledAfter then failure == Some(Plain(error)) && state == began
         else if ws[last].cancelledInBackoff then failure == Some(Cancelled) && state == began
         else
           last == MAX_ATTEMPTS - 1 && failure == Some(Exhausted(error)) && state == ws[last].others(began)
  }

  lemma ReachesOneMore<S, M>(body: Body, s: S, m: M, ws: seq<Weather>, k: nat)
    requires k < |ws| && Reaches(body, s, m, ws, k) && Retried(body, s, m, ws, k)
    ensures Reaches(body, s, m, ws, k + 1)
  {
  }

  // ---------- The loop ----------

  class Database<!S(==)> {
    var committed: S

    constructor (initial: S)
      ensures committed == initial
    {
      committed := initial;
    }

    /** One attempt: begin, body, commit; any error rolls back. */
    method RunTx<M>(body: Body<S, M>, w: Weather<S>, k: nat, memory: M) returns (e: Option<Error>, memory': M)
      modifies this
      ensures e == AttemptError(body, w, k, old(committed), memory)
      ensures memory' == AttemptMemory(body, w, k, old(committed), memory)
      ensures committed == if e.None? then body(k, old(committed), memory).state else old(committed)
    {
      if w.begin.Some? {
        return w.begin, memory;
      }
      var r := body(k, committed, memory);
      memory' := r.memory;
      if r.error.Some? {
        return r.error, memory';
      }
      if w.commit.Some? {
        return w.commit, memory';
      }
      committed := r.state;
      return None, memory';
    }

    /** Attempt k and what follows it: done, or an error to retry after the backoff. */
    method Attempt<M(==)>(body: Body<S, M>, memory: M, ws: seq<Weather<S>>, k: nat, ghost start: S, ghost first: M)
      returns (done: bool, failure: Option<Failure>, memory': M)
      requires k < |ws| && committed == StateBefore(start, ws, k) && memory == MemoryBefore(body, start, first, ws, k)
      modifies this
      ensures memory' == MemoryBefore(body, start, first, ws, k + 1)
      ensures done ==> Ends(body, start, first, ws, k, failure, committed, memory')
      ensures !done ==> Retried(body, start, first, ws, k) && committed == StateBefore(start, ws, k + 1)
                        && failure == Some(Exhausted(ErrorAt(body, start, first, ws, k).value))
    {
      var e;
      e, memory' := RunTx(body, ws[k], k, memory);
      if e.None? {
        return true, None, memory';
      }
      if !e.value.retryable || ws[k].cancelledAfter {
        return true, Some(Plain(e.value)), memory';
      }
      if ws[k].cancelledInBackoff {
        return true, Some(Cancelled), memory';
      }
      committed := ws[k].others(committed);
      return false, Some(Exhausted(e.value)), memory';
    }

    /** Retries the body; ws[k] is what happens around attempt k. */
    method InTx<M(==)>(body: Body<S, M>, memory: M, ws: seq<Weather<S>>)
      returns (failure: Option<Failure>, memory': M, ghost last: nat)
      requires |ws| == MAX_ATTEMPTS
      modifies this
      ensures last < MAX_ATTEMPTS && Reaches(body, old(committed), memory, ws, last)
      ensures Ends(body, old(committed), memory, ws, last, failure, committed, memory')
    {
      memory', failure, last := memory, None, 0;
      ghost var start := committed;
      for k := 0 to MAX_ATTEMPTS
        invariant committed == StateBefore(start, ws, k) && memory' == MemoryBefore(body, start, memory, ws, k)
        invariant Reaches(body, start, memory, ws, k)
        invariant k > 0 ==> last == k - 1 && Retried(body, start, memory, ws, k - 1)
                            && failure == Some(Exhausted(ErrorAt(body, start, memory, ws, k - 1).value))
      {
        last := k;
        var done;
        done, failure, memory' := Attempt(body, memory', ws, k, start, memory);
        if done {
          return failure, memory', k;
        }
        ReachesOneMore(body, start, memory, ws, k);
      }
    }
  }

  /**
   Without other transactions, an error leaves the state as it was and success
   applies the body exactly once, however many attempts were rolled back.
   */
  lemma AllOrNothing<S, M>(body: Body, s: S, m: M, ws: seq<Weather>, last: nat,
                           failure: Option<Failure>, state: S, memory: M)
    requires last < |ws| && Ends(body, s, m, ws, last, failure, state, memory)
    requires forall k, x :: 0 <= k < |ws| ==> ws[k].others(x) == x
    ensures failure.Some? ==> state == s
    ensures failure.None? ==> state == body(last, s, MemoryBefore(body, s, m, ws, last)).state
  {
    StateUntouched(s, ws, last);
  }

  lemma {:induction false} StateUntouched<S>(s: S, ws: seq<Weather>, k: nat)
    requires k <= |ws| && forall j, x :: 0 <= j < |ws| ==> ws[j].others(x) == x
    ensures StateBefore(s, ws, k) == s
  {
    if k > 0 {
      StateUntouched(s, ws, k - 1);
    }
  }

  /** Attempt k failed in a way that must not be retried, or the caller gave up. */
  predicate GaveUp<S, M>(body: Body, s: S, m: M, ws: seq<Weather>, k: nat)
    requires k < |ws|
  {
    var e := ErrorAt(body, s, m, ws, k);
    e.Some? && (!e.value.retryable || ws[k].cancelledAfter || ws[k].cancelledInBackoff)
  }

  /**
   The last attempt is the first that succeeds or gives up, or else the fourth: an
   attempt is followed by another exactly when it failed with a retryable error
   while nobody cancelled, and three such failures still reach a fourth attempt.
   */
  lemma LastAttempt<S, M>(body: Body, s: S, m: M, ws: seq<Weather>, last: nat,
                          failure: Option<Failure>, state: S, memory: M)
    requires |ws| == 4 && last < 4 && Reaches(body, s, m, ws, last)
    requires Ends(body, s, m, ws, last, failure, state, memory)
    ensures forall j :: 0 <= j < last ==> ErrorAt(body, s, m, ws, j).Some? && !GaveUp(body, s, m, ws, j)
    ensures last == 3 || ErrorAt(body, s, m, ws, last).None? || GaveUp(body, s, m, ws, last)
    ensures failure.None? <==> ErrorAt(body, s, m, ws, last).None?
  {
    forall j | 0 <= j < last ensures ErrorAt(body, s, m, ws, j).Some? && !GaveUp(body, s, m, ws, j) {
      assert Retried(body, s, m, ws, j);
    }
  }

  /** An attempt's error is that of its begin, else of its body, else of its commit. */
  lemma AttemptErrorIs<S, M>(body: Body, w: Weather, k: nat, s: S, m: M)
    ensures AttemptError(body, w, k, s, m).None? <==> w.begin.None? && body(k, s, m).error.None? && w.commit.None?
    ensures w.begin.Some? ==> AttemptMemory(body, w, k, s, m) == m && AttemptError(body, w, k, s, m) == w.begin
  {
  }
}
