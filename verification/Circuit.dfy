/**
 The circuit breaker. The class keeps the failure list in a backing array that
 RecordFailure compacts in place; its methods are proved against the transition
 functions of Breaker, and those against the whole history of calls:
 FailureListIsWindow, ClosedUnlessTripped and ProbeBound.
 Times and durations are integers on one non-decreasing clock.
 */
module Circuit {

  datatype State = Closed | Open | HalfOpen

  datatype Config = Config(threshold: int, window: int, cooldown: int)

  predicate Sensible(c: Config) {
    c.threshold > 0 && c.window > 0 && c.cooldown > 0
  }

  // ---------- Transitions ----------

  datatype Breaker = Breaker(state: State, failures: seq<int>, openedAt: int, halfOpenUse: bool)

  const INITIAL := Breaker(Closed, [], 0, false)

  /** The times later than cutoff, in order. */
  function Later(ts: seq<int>, cutoff: int): seq<int> {
    if ts == [] then []
    else
      var last := ts[|ts| - 1];
      Later(ts[..|ts| - 1], cutoff) + (if last > cutoff then [last] else [])
  }

  function AfterAllow(c: Config, b: Breaker, now: int): (Breaker, bool) {
    match b.state
    case Closed => (b, true)
    case Open =>
      if now - b.openedAt >= c.cooldown then (b.(state := HalfOpen, halfOpenUse := true), true) else (b, false)
    case HalfOpen =>
      if b.halfOpenUse then (b, false) else (b.(halfOpenUse := true), true)
  }

  function AfterSuccess(b: Breaker): Breaker {
    b.(failures := [], state := Closed)
  }

  function AfterFailure(c: Config, b: Breaker, now: int): Breaker {
    var failures := Later(b.failures, now - c.window) + [now];
    if b.state == HalfOpen || |failures| >= c.threshold then Breaker(Open, failures, now, false)
    else b.(failures := failures)
  }

  // ---------- The breaker as it runs ----------

  class CircuitBreaker {
    const config: Config
    var state: State
    var failures: array<int>
    var count: nat
    var openedAt: int
    var halfOpenUse: bool

    ghost predicate Valid()
      reads this
    {
      Sensible(config) && count <= failures.Length
    }

    ghost function View(): Breaker
      requires Valid()
      reads this, failures
    {
      Breaker(state, failures[..count], openedAt, halfOpenUse)
    }

    constructor (threshold: int, window: int, cooldown: int)
      ensures Valid() && fresh(failures) && View() == INITIAL
      ensures config == Config(if threshold <= 0 then 10 else threshold,
                               if window <= 0 then 30_000_000_000 else window,
                               if cooldown <= 0 then 20_000_000_000 else cooldown)
    {
      config := Config(if threshold <= 0 then 10 else threshold,
                       if window <= 0 then 30_000_000_000 else window,
                       if cooldown <= 0 then 20_000_000_000 else cooldown);
      state, openedAt, halfOpenUse := Closed, 0, false;
      failures, count := new int[0], 0;
    }

    method Allow(now: int) returns (allowed: bool)
      requires Valid()
      modifies this
      ensures Valid() && failures == old(failures)
      ensures (View(), allowed) == AfterAllow(config, old(View()), now)
    {
      if state == Closed {
        return true;
      }
      if state == Open {
        if now - openedAt >= config.cooldown {
          state := HalfOpen;
          halfOpenUse := false;
        } else {
          return false;
        }
      }
      if halfOpenUse {
        return false;
      }
      halfOpenUse := true;
      return true;
    }

    method RecordSuccess()
      requires Valid()
      modifies this
      ensures Valid() && fresh(failures)
      ensures View() == AfterSuccess(old(View()))
    {
      failures, count := new int[0], 0;
      if state != Closed {
        state := Closed;
      }
    }

    /** Compacts the failures later than cutoff to the front of the backing array. */
    method Compact(cutoff: int) returns (kept: nat)
      requires Valid()
      modifies failures
      ensures kept <= count
      ensures failures[..kept] == Later(old(failures[..count]), cutoff)
    {
      kept := 0;
      ghost var was := failures[..count];
      for i := 0 to count
        invariant kept <= i
        invariant failures[..kept] == Later(was[..i], cutoff)
        invariant failures[i..count] == was[i..]
      {
        var t := failures[i];
        assert t == failures[i..count][0] == was[i];
        assert was[..i + 1][..i] == was[..i];
        assert failures[i + 1..count] == was[i..][1..];
        if t > cutoff {
          failures[kept] := t;
          kept := kept + 1;
        }
      }
      assert was[..count] == was;
    }

    /** A larger backing array that starts with the kept failures. */
    method Grow(kept: nat) returns (grown: array<int>)
      requires kept <= failures.Length
      ensures fresh(grown) && grown.Length > kept && grown[..kept] == failures[..kept]
    {
      grown := new int[2 * kept + 1];
      for i := 0 to kept
        invariant grown[..i] == failures[..i]
      {
        grown[i] := failures[i];
      }
    }

    /** Puts now behind the kept failures, in a larger array if the old one is full. */
    method Push(kept: nat, now: int)
      requires Valid() && kept <= failures.Length
      modifies this`failures, this`count, failures
      ensures Valid() && (failures == old(failures) || fresh(failures))
      ensures count == kept + 1 && failures[..count] == old(failures[..kept]) + [now]
    {
      if kept == failures.Length {
        failures := Grow(kept);
      }
      failures[kept] := now;
      count := kept + 1;
    }

    method RecordFailure(now: int)
      requires Valid()
      modifies this, failures
      ensures Valid() && (failures == old(failures) || fresh(failures))
      ensures View() == AfterFailure(config, old(View()), now)
    {
      var kept := Compact(now - config.window);
      Push(kept, now);
      if state == HalfOpen || count >= config.threshold {
        state := Open;
        openedAt := now;
        halfOpenUse := false;
      }
    }
  }

  // ---------- Histories ----------

  datatype Event = Asked(at: int) | Succeeded(at: int) | Failed(at: int)

  predicate InOrder(h: seq<Event>) {
    forall i, j :: 0 <= i < j < |h| ==> h[i].at <= h[j].at
  }

  function Step(c: Config, b: Breaker, e: Event): Breaker {
    match e
    case Asked(at) => AfterAllow(c, b, at).0
    case Succeeded(_) => AfterSuccess(b)
    case Failed(at) => AfterFailure(c, b, at)
  }

  function Run(c: Config, b: Breaker, h: seq<Event>): Breaker {
    if h == [] then b else Step(c, Run(c, b, h[..|h| - 1]), h[|h| - 1])
  }

  /** All failures since the last success, oldest first. */
  function FailuresSinceSuccess(h: seq<Event>): seq<int> {
    if h == [] then []
    else
      var before, last := h[..|h| - 1], h[|h| - 1];
      match last
      case Asked(_) => FailuresSinceSuccess(before)
      case Succeeded(_) => []
      case Failed(at) => FailuresSinceSuccess(before) + [at]
  }

  /** The failures since the last success that lie in the window ending at the latest of them. */
  function WindowFailures(c: Config, h: seq<Event>): seq<int> {
    LatestWindow(c, FailuresSinceSuccess(h))
  }

  function LatestWindow(c: Config, ts: seq<int>): seq<int> {
    if ts == [] then [] else Later(ts, Latest(ts) - c.window)
  }

  function Latest(ts: seq<int>): int
    requires ts != []
  {
    ts[|ts| - 1]
  }

  /** Since the last success, some failure completed threshold failures in one window. */
  predicate Tripped(c: Config, h: seq<Event>) {
    h != [] && !h[|h| - 1].Succeeded? && (Tripped(c, h[..|h| - 1]) || |WindowFailures(c, h)| >= c.threshold)
  }

  lemma {:induction false} LaterTwice(ts: seq<int>, early: int, late: int)
    requires early <= late
    ensures Later(Later(ts, early), late) == Later(ts, late)
  {
    if ts != [] {
      var n := |ts| - 1;
      LaterTwice(ts[..n], early, late);
      var r := Later(ts[..n], early);
      if ts[n] > early {
        assert (r + [ts[n]])[..|r|] == r;
      } else {
        assert r + [] == r;
      }
    }
  }

  lemma LaterOneMore(ts: seq<int>, t: int, cutoff: int)
    ensures Later(ts + [t], cutoff) == Later(ts, cutoff) + (if t > cutoff then [t] else [])
  {
    assert (ts + [t])[..|ts|] == ts;
  }

  lemma LatestOneMore(c: Config, ts: seq<int>, t: int)
    ensures LatestWindow(c, ts + [t]) == Later(ts + [t], t - c.window)
  {
    var more := ts + [t];
    assert Latest(more) == t;
    assert LatestWindow(c, more) == Later(more, t - c.window);
  }

  predicate NoneAfter(ts: seq<int>, t: int) {
    forall i :: 0 <= i < |ts| ==> ts[i] <= t
  }

  lemma {:induction false} FailuresInOrder(h: seq<Event>)
    requires InOrder(h)
    ensures h == [] || NoneAfter(FailuresSinceSuccess(h), h[|h| - 1].at)
  {
    if h != [] {
      FailuresInOrder(h[..|h| - 1]);
    }
  }

  /** The pruned list is always the batch filter of the failures since the last success. */
  lemma {:induction false} FailureListIsWindow(c: Config, h: seq<Event>)
    requires Sensible(c) && InOrder(h)
    ensures Run(c, INITIAL, h).failures == WindowFailures(c, h)
  {
    if h != [] {
      var before := h[..|h| - 1];
      InOrderPrefix(h);
      FailureListIsWindow(c, before);
      WindowStep(c, h, Run(c, INITIAL, before));
    }
  }

  lemma InOrderPrefix(h: seq<Event>)
    requires h != [] && InOrder(h)
    ensures InOrder(h[..|h| - 1])
    ensures NoneAfter(FailuresSinceSuccess(h[..|h| - 1]), h[|h| - 1].at)
  {
    FailuresInOrder(h[..|h| - 1]);
  }

  lemma WindowStep(c: Config, h: seq<Event>, b: Breaker)
    requires Sensible(c) && h != [] && b.failures == WindowFailures(c, h[..|h| - 1])
    requires NoneAfter(FailuresSinceSuccess(h[..|h| - 1]), h[|h| - 1].at)
    ensures Step(c, b, h[|h| - 1]).failures == WindowFailures(c, h)
  {
    var fs, last := FailuresSinceSuccess(h[..|h| - 1]), h[|h| - 1];
    match last {
      case Asked(at) => assert WindowFailures(c, h) == WindowFailures(c, h[..|h| - 1]);
      case Succeeded(_) => assert WindowFailures(c, h) == [];
      case Failed(at) =>
        assert FailuresSinceSuccess(h) == fs + [at];
        LaterExtended(c, fs, at);
        assert AfterFailure(c, b, at).failures == Later(b.failures, at - c.window) + [at];
    }
  }

  lemma LaterExtended(c: Config, fs: seq<int>, now: int)
    requires Sensible(c) && NoneAfter(fs, now)
    ensures LatestWindow(c, fs + [now]) == Later(LatestWindow(c, fs), now - c.window) + [now]
  {
    var cutoff := now - c.window;
    LaterOneMore(fs, now, cutoff);
    LatestOneMore(c, fs, now);
    assert Later(LatestWindow(c, fs), cutoff) == Later(fs, cutoff) by {
      if fs != [] {
        LaterTwice(fs, Latest(fs) - c.window, cutoff);
      }
    }
  }

  /** The breaker is closed exactly while the window never filled up since the last success. */
  lemma {:induction false} ClosedUnlessTripped(c: Config, h: seq<Event>)
    requires Sensible(c) && InOrder(h)
    ensures Run(c, INITIAL, h).state == Closed <==> !Tripped(c, h)
    ensures Run(c, INITIAL, h).state == Closed ==> |Run(c, INITIAL, h).failures| < c.threshold
  {
    if h != [] {
      var before := h[..|h| - 1];
      InOrderPrefix(h);
      ClosedUnlessTripped(c, before);
      FailureListIsWindow(c, before);
      FailureListIsWindow(c, h);
      FullWindowIsTripped(c, before);
      assert Run(c, INITIAL, h) == Step(c, Run(c, INITIAL, before), h[|h| - 1]);
      TrippedStep(c, h, Run(c, INITIAL, before));
    }
  }

  /** Whether a breaker and its successor agree with whether the history had tripped before and has now. */
  predicate ClosedMatches(c: Config, next: Breaker, tripped: bool) {
    (next.state == Closed <==> !tripped) && (next.state == Closed ==> |next.failures| < c.threshold)
  }

  /** One event on a breaker that agrees with its history. */
  lemma TrippedEvent(c: Config, b: Breaker, e: Event, tripped: bool)
    requires Sensible(c) && (b.state == Closed <==> !tripped) && (|b.failures| >= c.threshold ==> tripped)
    ensures var next := Step(c, b, e);
            ClosedMatches(c, next, !e.Succeeded? && (tripped || |next.failures| >= c.threshold))
  {
    match e {
      case Asked(_) => assert Step(c, b, e).failures == b.failures;
      case Succeeded(_) =>
      case Failed(at) => assert Step(c, b, e).failures == Later(b.failures, at - c.window) + [at];
    }
  }

  lemma TrippedStep(c: Config, h: seq<Event>, b: Breaker)
    requires Sensible(c) && h != []
    requires var before := h[..|h| - 1];
             (b.state == Closed <==> !Tripped(c, before)) && b.failures == WindowFailures(c, before)
    requires Step(c, b, h[|h| - 1]).failures == WindowFailures(c, h)
    requires |WindowFailures(c, h[..|h| - 1])| >= c.threshold ==> Tripped(c, h[..|h| - 1])
    ensures ClosedMatches(c, Step(c, b, h[|h| - 1]), Tripped(c, h))
  {
    TrippedEvent(c, b, h[|h| - 1], Tripped(c, h[..|h| - 1]));
  }

  lemma {:induction false} FullWindowIsTripped(c: Config, h: seq<Event>)
    requires Sensible(c)
    ensures |WindowFailures(c, h)| >= c.threshold ==> Tripped(c, h)
  {
    if h != [] {
      FullWindowIsTripped(c, h[..|h| - 1]);
    }
  }

  // ---------- Probes ----------

  /** Half-open is entered by admitting the one probe. */
  lemma {:induction false} HalfOpenHasProbe(c: Config, h: seq<Event>)
    ensures Run(c, INITIAL, h).state == HalfOpen ==> Run(c, INITIAL, h).halfOpenUse
  {
    if h != [] {
      HalfOpenHasProbe(c, h[..|h| - 1]);
    }
  }

  /**
   After any history a call is admitted exactly when the window never filled up
   since the last success, or the circuit is open and its cooldown has passed; a
   probe under way admits nothing.
   */
  lemma AdmittedIff(c: Config, h: seq<Event>, now: int)
    requires Sensible(c) && InOrder(h)
    ensures var b := Run(c, INITIAL, h);
      AfterAllow(c, b, now).1 <==> !Tripped(c, h) || (b.state == Open && now - b.openedAt >= c.cooldown)
  {
    HalfOpenHasProbe(c, h);
    ClosedUnlessTripped(c, h);
  }

  /** The times of the admitted calls when h runs from b. */
  function Admitted(c: Config, b: Breaker, h: seq<Event>): seq<int>
    decreases |h|
  {
    if h == [] then []
    else
      (if h[0].Asked? && AfterAllow(c, b, h[0].at).1 then [h[0].at] else [])
      + Admitted(c, Step(c, b, h[0]), h[1..])
  }

  /** Every admitted time is at least gap after the one before it, the first after since. */
  predicate Spaced(ts: seq<int>, since: int, gap: int) {
    ts == [] || (ts[0] >= since + gap && Spaced(ts[1..], ts[0], gap))
  }

  predicate NoSuccess(h: seq<Event>) {
    forall i :: 0 <= i < |h| ==> !h[i].Succeeded?
  }

  predicate NotBefore(h: seq<Event>, t: int) {
    forall i :: 0 <= i < |h| ==> h[i].at >= t
  }

  /** Not closed, opened no earlier than since, and any probe already under way. */
  predicate Tight(b: Breaker, since: int) {
    (b.state == Open && b.openedAt >= since) || (b.state == HalfOpen && b.halfOpenUse)
  }

  lemma {:induction false} ProbesSpaced(c: Config, b: Breaker, h: seq<Event>, since: int)
    requires Sensible(c) && Tight(b, since) && InOrder(h) && NoSuccess(h) && NotBefore(h, since)
    ensures Spaced(Admitted(c, b, h), since, c.cooldown)
    decreases |h|
  {
    if h != [] {
      var next := Step(c, b, h[0]);
      var admitted := h[0].Asked? && AfterAllow(c, b, h[0].at).1;
      ProbesSpaced(c, next, h[1..], if admitted then h[0].at else since);
      var rest := Admitted(c, next, h[1..]);
      if admitted {
        assert ([h[0].at] + rest)[1..] == rest;
      } else {
        assert [] + rest == rest;
      }
    }
  }

  lemma {:induction false} SpacedCount(ts: seq<int>, since: int, gap: int, until: int)
    requires gap > 0 && Spaced(ts, since, gap) && since <= until
    requires forall i :: 0 <= i < |ts| ==> ts[i] <= until
    ensures |ts| * gap <= until - since
  {
    if ts != [] {
      SpacedCount(ts[1..], ts[0], gap, until);
      assert |ts| * gap == |ts[1..]| * gap + gap;
    }
  }

  lemma {:induction false} AdmittedWithin(c: Config, b: Breaker, h: seq<Event>, until: int)
    requires forall i :: 0 <= i < |h| ==> h[i].at <= until
    ensures forall i :: 0 <= i < |Admitted(c, b, h)| ==> Admitted(c, b, h)[i] <= until
    decreases |h|
  {
    if h != [] {
      AdmittedWithin(c, Step(c, b, h[0]), h[1..], until);
    }
  }

  /**
   From the moment the circuit opens, and as long as nothing succeeds, any two
   admitted calls are a cooldown apart, so time T admits at most T / cooldown,
   whatever late failures arrive in between.
   */
  lemma ProbeBound(c: Config, before: seq<Event>, h: seq<Event>, T: nat)
    requires Sensible(c) && Run(c, INITIAL, before).state == Open
    requires InOrder(before + h) && NoSuccess(h)
    requires forall i :: 0 <= i < |h| ==> h[i].at <= Run(c, INITIAL, before).openedAt + T
    ensures var b := Run(c, INITIAL, before);
            Spaced(Admitted(c, b, h), b.openedAt, c.cooldown) && |Admitted(c, b, h)| <= T / c.cooldown
  {
    var b := Run(c, INITIAL, before);
    assert forall i :: 0 <= i < |before| ==> (before + h)[i] == before[i];
    assert forall i :: 0 <= i < |h| ==> (before + h)[|before| + i] == h[i];
    OpenedInHistory(c, before);
    ProbesSpaced(c, b, h, b.openedAt);
    AdmittedWithin(c, b, h, b.openedAt + T);
    SpacedCount(Admitted(c, b, h), b.openedAt, c.cooldown, b.openedAt + T);
    DivideBound(|Admitted(c, b, h)|, c.cooldown, T);
  }

  lemma {:induction false} OpenedInHistory(c: Config, h: seq<Event>)
    requires Run(c, INITIAL, h).state != Closed
    ensures exists i :: 0 <= i < |h| && h[i].at == Run(c, INITIAL, h).openedAt
  {
    var before, last := h[..|h| - 1], h[|h| - 1];
    if Run(c, INITIAL, before).state != Closed {
      OpenedInHistory(c, before);
      var i :| 0 <= i < |before| && before[i].at == Run(c, INITIAL, before).openedAt;
      assert h[i] == before[i];
    }
    assert (last.Failed? && Run(c, INITIAL, h).openedAt == last.at)
        || Run(c, INITIAL, h).openedAt == Run(c, INITIAL, before).openedAt;
  }

  lemma DivideBound(n: nat, gap: int, T: nat)
    requires gap > 0 && n * gap <= T
    ensures n <= T / gap
  {
    MulMonotone(T / gap + 1, n, gap);
    assert T == T / gap * gap + T % gap;
  }

  lemma MulMonotone(a: int, b: int, gap: int)
    requires gap > 0
    ensures a <= b ==> a * gap <= b * gap
  {
  }

  // ---------- Openings and probes, read off the history ----------

  /** The last event is a probe: a call while tripped, a cooldown after the last opening, with no other under way. */
  predicate IsProbe(c: Config, h: seq<Event>)
    decreases |h|, 0
  {
    && h != [] && h[|h| - 1].Asked?
    && var before := h[..|h| - 1];
       Tripped(c, before) && !Probing(c, before) && h[|h| - 1].at - LastOpening(c, before) >= c.cooldown
  }

  /** Since some probe nothing has succeeded or failed. */
  predicate Probing(c: Config, h: seq<Event>)
    decreases |h|, 1
  {
    h != [] && h[|h| - 1].Asked? && (IsProbe(c, h) || Probing(c, h[..|h| - 1]))
  }

  /** The last event opens the circuit: a failure that fills the window, or the first one after a probe. */
  predicate IsOpening(c: Config, h: seq<Event>)
    decreases |h|, 0
  {
    h != [] && h[|h| - 1].Failed? && (|WindowFailures(c, h)| >= c.threshold || Probing(c, h[..|h| - 1]))
  }

  /** The time of the last opening, 0 if there was none. */
  function LastOpening(c: Config, h: seq<Event>): int
    decreases |h|, 2
  {
    if h == [] then 0 else if IsOpening(c, h) then h[|h| - 1].at else LastOpening(c, h[..|h| - 1])
  }

  /** What the history says about the breaker. */
  predicate Reflects(c: Config, b: Breaker, h: seq<Event>) {
    && (b.state == Closed <==> !Tripped(c, h))
    && (b.state == HalfOpen <==> Tripped(c, h) && Probing(c, h))
    && (b.state == HalfOpen ==> b.halfOpenUse)
    && b.failures == WindowFailures(c, h)
    && (Tripped(c, h) ==> b.openedAt == LastOpening(c, h))
  }

  lemma AskedReflects(c: Config, h: seq<Event>, b: Breaker)
    requires Sensible(c) && h != [] && h[|h| - 1].Asked? && Reflects(c, b, h[..|h| - 1])
    requires |WindowFailures(c, h[..|h| - 1])| >= c.threshold ==> Tripped(c, h[..|h| - 1])
    ensures Reflects(c, Step(c, b, h[|h| - 1]), h)
  {
    assert WindowFailures(c, h) == WindowFailures(c, h[..|h| - 1]);
  }

  lemma FailedReflects(c: Config, h: seq<Event>, b: Breaker)
    requires Sensible(c) && h != [] && h[|h| - 1].Failed? && Reflects(c, b, h[..|h| - 1])
    requires Step(c, b, h[|h| - 1]).failures == WindowFailures(c, h)
    ensures Reflects(c, Step(c, b, h[|h| - 1]), h)
  {
    var before, at := h[..|h| - 1], h[|h| - 1].at;
    var full := |WindowFailures(c, h)| >= c.threshold;
    FailureStep(c, b, at, full);
    assert Tripped(c, h) <==> Tripped(c, before) || full;
    assert !Probing(c, h) && (IsOpening(c, h) <==> full || Probing(c, before));
    assert LastOpening(c, h) == if IsOpening(c, h) then at else LastOpening(c, before);
    if Probing(c, before) {
      ProbingIsTripped(c, before);
    }
  }

  lemma {:induction false} ProbingIsTripped(c: Config, h: seq<Event>)
    requires Probing(c, h)
    ensures Tripped(c, h)
  {
    if !IsProbe(c, h) {
      ProbingIsTripped(c, h[..|h| - 1]);
    }
  }

  /** What a failure does to the state, given whether the window is full with it. */
  lemma FailureStep(c: Config, b: Breaker, at: int, full: bool)
    requires full <==> |AfterFailure(c, b, at).failures| >= c.threshold
    ensures var next := AfterFailure(c, b, at);
      if full || b.state == HalfOpen then next.state == Open && next.openedAt == at
      else next.state == b.state && next.openedAt == b.openedAt
  {
  }

  lemma SucceededReflects(c: Config, h: seq<Event>, b: Breaker)
    requires Sensible(c) && h != [] && h[|h| - 1].Succeeded? && Reflects(c, b, h[..|h| - 1])
    ensures Reflects(c, Step(c, b, h[|h| - 1]), h)
  {
    assert WindowFailures(c, h) == [];
  }

  /** After every history the breaker is what the history says. */
  lemma {:induction false} RunReflects(c: Config, h: seq<Event>)
    requires Sensible(c) && InOrder(h)
    ensures Reflects(c, Run(c, INITIAL, h), h)
  {
    if h != [] {
      var before := h[..|h| - 1];
      InOrderPrefix(h);
      RunReflects(c, before);
      FailureListIsWindow(c, h);
      FullWindowIsTripped(c, before);
      match h[|h| - 1] {
        case Asked(_) => AskedReflects(c, h, Run(c, INITIAL, before));
        case Succeeded(_) => SucceededReflects(c, h, Run(c, INITIAL, before));
        case Failed(_) => FailedReflects(c, h, Run(c, INITIAL, before));
      }
    }
  }

  /** Whether a call at now is admitted after h. */
  predicate Admits(c: Config, h: seq<Event>, now: int) {
    AfterAllow(c, Run(c, INITIAL, h), now).1
  }

  /**
   After every history a call is admitted exactly when the window never filled up
   since the last success, or no probe is under way and a cooldown has passed since
   the last failure that filled the window or was the first after a probe.
   */
  lemma AdmitsIff(c: Config, h: seq<Event>, now: int)
    requires Sensible(c) && InOrder(h)
    ensures Admits(c, h, now) <==> !Tripped(c, h) || (!Probing(c, h) && now - LastOpening(c, h) >= c.cooldown)
  {
    RunReflects(c, h);
  }

  predicate AllAsked(h: seq<Event>) {
    forall i :: 0 <= i < |h| ==> h[i].Asked?
  }

  lemma {:induction false} StillTripped(c: Config, h: seq<Event>, more: seq<Event>)
    requires Tripped(c, h) && NoSuccess(more)
    ensures Tripped(c, h + more)
  {
    if more == [] {
      assert h + more == h;
    } else {
      assert (h + more)[..|h + more| - 1] == h + more[..|more| - 1];
      StillTripped(c, h, more[..|more| - 1]);
    }
  }

  lemma {:induction false} StillProbing(c: Config, h: seq<Event>, more: seq<Event>)
    requires Probing(c, h) && AllAsked(more)
    ensures Probing(c, h + more)
  {
    if more == [] {
      assert h + more == h;
    } else {
      assert (h + more)[..|h + more| - 1] == h + more[..|more| - 1];
      StillProbing(c, h, more[..|more| - 1]);
    }
  }

  /** Calls before the cooldown has passed since an opening are no probes. */
  lemma {:induction false} StillWaiting(c: Config, h: seq<Event>, more: seq<Event>)
    requires Tripped(c, h) && !Probing(c, h) && AllAsked(more)
    requires forall i :: 0 <= i < |more| ==> more[i].at < LastOpening(c, h) + c.cooldown
    ensures !Probing(c, h + more) && LastOpening(c, h + more) == LastOpening(c, h)
  {
    if more == [] {
      assert h + more == h;
    } else {
      assert (h + more)[..|h + more| - 1] == h + more[..|more| - 1];
      StillWaiting(c, h, more[..|more| - 1]);
    }
  }

  /**
   A probe that fails reopens the circuit at the time of its failure: after it calls
   are refused until a cooldown has passed, and the first one from then on is admitted.
   */
  lemma FailedProbeReopens(c: Config, h: seq<Event>, probe: int, mid: seq<Event>, failed: int,
                           rest: seq<Event>, now: int)
    requires Sensible(c) && Tripped(c, h) && Admits(c, h, probe) && AllAsked(mid) && AllAsked(rest)
    requires InOrder(h) && InOrder(h + [Asked(probe)] + mid + [Failed(failed)] + rest)
    requires forall i :: 0 <= i < |rest| ==> rest[i].at < failed + c.cooldown
    ensures Admits(c, h + [Asked(probe)] + mid + [Failed(failed)] + rest, now) <==> now >= failed + c.cooldown
  {
    var a := h + [Asked(probe)];
    var b := a + mid;
    var d := b + [Failed(failed)];
    AdmitsIff(c, h, probe);
    assert a[..|a| - 1] == h && IsProbe(c, a);
    StillTripped(c, h, [Asked(probe)]);
    StillTripped(c, a, mid);
    StillProbing(c, a, mid);
    assert d[..|d| - 1] == b && IsOpening(c, d);
    StillTripped(c, b, [Failed(failed)]);
    StillWaiting(c, d, rest);
    StillTripped(c, d, rest);
    AdmitsIff(c, d + rest, now);
  }
}
