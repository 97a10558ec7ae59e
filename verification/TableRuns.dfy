/**
 Any number of processes counting in the database fallback, where the increment
 and the read of the counter are separate statements and Cleanup deletes rows in
 between. An aligned window admits at most the limit (WindowBound), any interval
 of one window's length at most twice the limit (IntervalBound); the limit itself
 holds exactly for the aligned intervals (LimitHoldsIffAligned), and all of it
 exactly when Cleanup waits long enough (CleanupAgeIff).
 */
module TableRuns {
  import opened Runes
  import opened Wrappers
  import opened RateLimit

  /**
   flight bounds the time from computing the window start to reading the counter
   (the statements run under one deadline), maxWindow bounds every rule's window,
   and age is the smallest age Cleanup is called with.
   */
  datatype Config = Config(flight: nat, maxWindow: nat, age: int)

  /** Cleanup leaves every row that a call in flight can address. */
  predicate Patient(cfg: Config) {
    cfg.maxWindow > 0 && cfg.age >= cfg.maxWindow + cfg.flight - 1
  }

  datatype Phase = Started | Incremented | Read(count: int) | Failed

  datatype Call = Call(bucket: Text, window: int, limit: int, started: int, phase: Phase, counted: bool)

  datatype Sys = Sys(clock: int, rows: map<(Text, int), int>, calls: map<nat, Call>)

  datatype Step =
    | Begin(id: nat, bucket: Text, window: int, limit: int, now: int)
    | IncrementRow(id: nat, now: int)
    | ReadRow(id: nat, now: int)
    | Abort(id: nat)
    | Cleanup(doomed: set<(Text, int)>, olderThan: int, now: int)

  /** The most rows one Cleanup deletes. */
  const CLEANUP_LIMIT := 5000

  function Row(c: Call): (Text, int) {
    (c.bucket, WindowStart(c.started, c.window))
  }

  function Apply(cfg: Config, sys: Sys, s: Step): Option<Sys> {
    match s
    case Begin(id, bucket, window, limit, now) =>
      if id in sys.calls || now < sys.clock || window > cfg.maxWindow then None
      else Some(sys.(clock := now, calls := sys.calls[id := Call(bucket, window, limit, now, Started, false)]))
    case IncrementRow(id, now) =>
      if id !in sys.calls || now < sys.clock then None
      else
        var c := sys.calls[id];
        if c.phase != Started || now > c.started + cfg.flight then None
        else Some(Sys(now, IncrRow(sys.rows, Row(c)), sys.calls[id := c.(phase := Incremented, counted := true)]))
    case ReadRow(id, now) =>
      if id !in sys.calls || now < sys.clock then None
      else
        var c := sys.calls[id];
        if c.phase != Incremented || now > c.started + cfg.flight then None
        else
          var phase := if Row(c) in sys.rows then Read(sys.rows[Row(c)]) else Failed;
          Some(sys.(clock := now, calls := sys.calls[id := c.(phase := phase)]))
    case Abort(id) =>
      if id !in sys.calls || sys.calls[id].phase.Read? then None
      else Some(sys.(calls := sys.calls[id := sys.calls[id].(phase := Failed)]))
    case Cleanup(doomed, olderThan, now) =>
      if now < sys.clock || |doomed| > CLEANUP_LIMIT || olderThan < cfg.age then None
      else if exists row :: row in doomed && row.1 >= now - olderThan then None
      else Some(sys.(clock := now, rows := sys.rows - doomed))
  }

  function Run(cfg: Config, clock: int, steps: seq<Step>): Option<Sys> {
    if steps == [] then Some(Sys(clock, map[], map[]))
    else
      var before :- Run(cfg, clock, steps[..|steps| - 1]);
      Apply(cfg, before, steps[|steps| - 1])
  }

  // ---------- Counting ----------

  predicate Admits(c: Call, limit: int) {
    c.phase.Read? && c.limit == limit && c.phase.count <= limit
  }

  /** The calls that have incremented the row. */
  ghost function Counted(sys: Sys, row: (Text, int)): set<nat> {
    set id | id in sys.calls && sys.calls[id].counted && Row(sys.calls[id]) == row
  }

  /** The calls admitted on the row under the limit. */
  ghost function Admitted(sys: Sys, row: (Text, int), limit: int): set<nat> {
    set id | id in sys.calls && Admits(sys.calls[id], limit) && Row(sys.calls[id]) == row
  }

  /** A row that some call in flight could still address. */
  predicate Alive(cfg: Config, clock: int, row: (Text, int)) {
    row.1 > clock - cfg.maxWindow - cfg.flight
  }

  predicate CallsSane(cfg: Config, sys: Sys) {
    forall id :: id in sys.calls ==>
      var c := sys.calls[id];
      && c.window <= cfg.maxWindow
      && (c.phase.Read? || c.phase.Incremented? ==> c.counted)
      && (c.phase.Started? ==> !c.counted)
  }

  ghost predicate RowsCount(cfg: Config, sys: Sys) {
    forall row :: Alive(cfg, sys.clock, row) ==> RowCount(sys.rows, row) == |Counted(sys, row)|
  }

  ghost predicate WithinLimits(sys: Sys) {
    forall row, limit :: |Admitted(sys, row, limit)| <= AtLeastZero(limit)
  }

  ghost predicate Inv(cfg: Config, sys: Sys) {
    CallsSane(cfg, sys) && RowsCount(cfg, sys) && WithinLimits(sys)
  }

  /** A call in flight addresses a row that Cleanup may not have removed. */
  lemma InFlightAlive(cfg: Config, c: Call, now: int)
    requires cfg.maxWindow > 0 && c.window <= cfg.maxWindow && now <= c.started + cfg.flight
    ensures Alive(cfg, now, Row(c))
  {
  }

  lemma BeginKeepsInv(cfg: Config, sys: Sys, s: Step)
    requires s.Begin? && Inv(cfg, sys) && Apply(cfg, sys, s).Some?
    ensures Inv(cfg, Apply(cfg, sys, s).value)
  {
    var after := Apply(cfg, sys, s).value;
    forall row ensures Counted(after, row) == Counted(sys, row) {
    }
    forall row, limit ensures Admitted(after, row, limit) == Admitted(sys, row, limit) {
    }
    AliveLater(cfg, sys, after);
  }

  lemma AliveLater(cfg: Config, sys: Sys, after: Sys)
    requires RowsCount(cfg, sys) && sys.clock <= after.clock && after.rows == sys.rows
    requires forall row :: Counted(after, row) == Counted(sys, row)
    ensures RowsCount(cfg, after)
  {
    forall row | Alive(cfg, after.clock, row) ensures RowCount(after.rows, row) == |Counted(after, row)| {
      assert Alive(cfg, sys.clock, row);
    }
  }

  lemma IncrementKeepsInv(cfg: Config, sys: Sys, s: Step)
    requires s.IncrementRow? && Inv(cfg, sys) && Apply(cfg, sys, s).Some?
    ensures Inv(cfg, Apply(cfg, sys, s).value)
  {
    var after := Apply(cfg, sys, s).value;
    var c := sys.calls[s.id];
    forall row | Alive(cfg, after.clock, row) ensures RowCount(after.rows, row) == |Counted(after, row)| {
      assert Alive(cfg, sys.clock, row);
      if row == Row(c) {
        assert Counted(after, row) == Counted(sys, row) + {s.id};
      } else {
        assert Counted(after, row) == Counted(sys, row);
      }
    }
    forall row, limit ensures |Admitted(after, row, limit)| <= AtLeastZero(limit) {
      assert Admitted(after, row, limit) == Admitted(sys, row, limit);
    }
  }

  lemma ReadKeepsInv(cfg: Config, sys: Sys, s: Step)
    requires cfg.maxWindow > 0 && s.ReadRow? && Inv(cfg, sys) && Apply(cfg, sys, s).Some?
    ensures Inv(cfg, Apply(cfg, sys, s).value)
    ensures Apply(cfg, sys, s).value.calls[s.id].phase.Read?
  {
    var after := Apply(cfg, sys, s).value;
    var c := sys.calls[s.id];
    forall row ensures Counted(after, row) == Counted(sys, row) {
    }
    AliveLater(cfg, sys, after);
    InFlightAlive(cfg, c, s.now);
    assert s.id in Counted(sys, Row(c));
    var count := RowCount(sys.rows, Row(c));
    assert Alive(cfg, sys.clock, Row(c));
    assert count == |Counted(sys, Row(c))| > 0;
    forall row, limit ensures |Admitted(after, row, limit)| <= AtLeastZero(limit) {
      if row == Row(c) && Admits(after.calls[s.id], limit) {
        assert Admitted(after, row, limit) <= Counted(after, row);
        SubsetSize(Admitted(after, row, limit), Counted(after, row));
      } else {
        assert Admitted(after, row, limit) == Admitted(sys, row, limit);
      }
    }
  }

  lemma AbortKeepsInv(cfg: Config, sys: Sys, s: Step)
    requires s.Abort? && Inv(cfg, sys) && Apply(cfg, sys, s).Some?
    ensures Inv(cfg, Apply(cfg, sys, s).value)
  {
    var after := Apply(cfg, sys, s).value;
    forall row ensures Counted(after, row) == Counted(sys, row) {
    }
    AliveLater(cfg, sys, after);
    forall row, limit ensures |Admitted(after, row, limit)| <= AtLeastZero(limit) {
      assert Admitted(after, row, limit) == Admitted(sys, row, limit);
    }
  }

  lemma CleanupKeepsInv(cfg: Config, sys: Sys, s: Step)
    requires Patient(cfg) && s.Cleanup? && Inv(cfg, sys) && Apply(cfg, sys, s).Some?
    ensures Inv(cfg, Apply(cfg, sys, s).value)
  {
    var after := Apply(cfg, sys, s).value;
    forall row | Alive(cfg, after.clock, row) ensures RowCount(after.rows, row) == |Counted(after, row)| {
      assert Alive(cfg, sys.clock, row) && row !in s.doomed;
      assert Counted(after, row) == Counted(sys, row);
    }
    forall row, limit ensures |Admitted(after, row, limit)| <= AtLeastZero(limit) {
      assert Admitted(after, row, limit) == Admitted(sys, row, limit);
    }
  }

  lemma {:induction false} RunKeepsInv(cfg: Config, clock: int, steps: seq<Step>)
    requires Patient(cfg) && Run(cfg, clock, steps).Some?
    ensures Inv(cfg, Run(cfg, clock, steps).value)
  {
    if steps == [] {
      var sys := Run(cfg, clock, steps).value;
      assert forall row :: Counted(sys, row) == {};
      assert forall row, limit :: Admitted(sys, row, limit) == {};
    } else {
      RunKeepsInv(cfg, clock, steps[..|steps| - 1]);
      var sys, s := Run(cfg, clock, steps[..|steps| - 1]).value, steps[|steps| - 1];
      match s {
        case Begin(_, _, _, _, _) => BeginKeepsInv(cfg, sys, s);
        case IncrementRow(_, _) => IncrementKeepsInv(cfg, sys, s);
        case ReadRow(_, _) => ReadKeepsInv(cfg, sys, s);
        case Abort(_) => AbortKeepsInv(cfg, sys, s);
        case Cleanup(_, _, _) => CleanupKeepsInv(cfg, sys, s);
      }
    }
  }

  // ---------- The bounds ----------

  /** Every aligned window admits at most the limit, however increments, reads and cleanups interleave. */
  lemma WindowBound(cfg: Config, clock: int, steps: seq<Step>, bucket: Text, windowStart: int, limit: int)
    requires Patient(cfg) && Run(cfg, clock, steps).Some?
    ensures |Admitted(Run(cfg, clock, steps).value, (bucket, windowStart), limit)| <= AtLeastZero(limit)
  {
    RunKeepsInv(cfg, clock, steps);
  }

  /** The admitted calls of a bucket that began in [from, from + window). */
  ghost function AdmittedIn(sys: Sys, bucket: Text, from: int, window: int, limit: int): set<nat> {
    set id | && id in sys.calls && Admits(sys.calls[id], limit)
             && sys.calls[id].bucket == bucket && sys.calls[id].window == window
             && from <= sys.calls[id].started < from + window
  }

  /** Two aligned windows cover any interval of one window's length. */
  lemma TwoWindowsCover(from: int, t: int, window: int)
    requires window > 0 && from <= t < from + window
    ensures WindowStart(t, window) == WindowStart(from, window)
         || WindowStart(t, window) == WindowStart(from, window) + window
  {
    var a, b := from / window, t / window;
    assert from == window * a + from % window && t == window * b + t % window;
    MulGap(window, b - a);
    assert window * (b - a) == window * b - window * a;
  }

  lemma MulGap(window: int, d: int)
    requires window > 0
    ensures d >= 2 ==> window * d >= 2 * window
    ensures d >= 1 ==> window * d >= window
    ensures d < 0 ==> window * d <= -window
  {
  }

  lemma UnionSize<T>(a: set<T>, b: set<T>)
    ensures |a + b| <= |a| + |b|
  {
    assert |a + b| == |a| + |b - a| by {
      assert a + b == a + (b - a);
    }
    SubsetSize(b - a, b);
  }

  lemma IntervalCovered(sys: Sys, bucket: Text, from: int, window: int, limit: int, first: int)
    requires window > 0 && first == WindowStart(from, window)
    ensures AdmittedIn(sys, bucket, from, window, limit)
         <= Admitted(sys, (bucket, first), limit) + Admitted(sys, (bucket, first + window), limit)
  {
    forall id | id in AdmittedIn(sys, bucket, from, window, limit)
      ensures id in Admitted(sys, (bucket, first), limit) || id in Admitted(sys, (bucket, first + window), limit)
    {
      TwoWindowsCover(from, sys.calls[id].started, window);
    }
  }

  lemma CoveredSize<T>(all: set<T>, a: set<T>, b: set<T>, limit: nat)
    requires all <= a + b && |a| <= limit && |b| <= limit
    ensures |all| <= 2 * limit
  {
    SubsetSize(all, a + b);
    UnionSize(a, b);
  }

  lemma IntervalWithin(sys: Sys, bucket: Text, from: int, window: int, limit: int, first: int)
    requires WithinLimits(sys) && window > 0 && first == WindowStart(from, window)
    ensures |AdmittedIn(sys, bucket, from, window, limit)| <= 2 * AtLeastZero(limit)
  {
    var a, b := Admitted(sys, (bucket, first), limit), Admitted(sys, (bucket, first + window), limit);
    IntervalCovered(sys, bucket, from, window, limit, first);
    CoveredSize(AdmittedIn(sys, bucket, from, window, limit), a, b, AtLeastZero(limit));
  }

  /** Any interval as long as the window admits at most twice the limit. */
  lemma IntervalBound(cfg: Config, clock: int, steps: seq<Step>, bucket: Text, from: int, window: int, limit: int)
    requires Patient(cfg) && Run(cfg, clock, steps).Some? && window > 0
    ensures |AdmittedIn(Run(cfg, clock, steps).value, bucket, from, window, limit)| <= 2 * AtLeastZero(limit)
  {
    RunKeepsInv(cfg, clock, steps);
    IntervalWithin(Run(cfg, clock, steps).value, bucket, from, window, limit, WindowStart(from, window));
  }

  /** An aligned interval is one window, so the limit itself bounds it. */
  lemma AlignedBound(cfg: Config, clock: int, steps: seq<Step>, bucket: Text, from: int, window: int, limit: int)
    requires Patient(cfg) && Run(cfg, clock, steps).Some? && window > 0 && from % window == 0
    ensures |AdmittedIn(Run(cfg, clock, steps).value, bucket, from, window, limit)| <= AtLeastZero(limit)
  {
    var sys := Run(cfg, clock, steps).value;
    WindowBound(cfg, clock, steps, bucket, from, limit);
    forall id | id in AdmittedIn(sys, bucket, from, window, limit)
      ensures id in Admitted(sys, (bucket, from), limit)
    {
      SameWindow(from, sys.calls[id].started, window);
    }
    SubsetSize(AdmittedIn(sys, bucket, from, window, limit), Admitted(sys, (bucket, from), limit));
  }

  lemma SameWindow(from: int, t: int, window: int)
    requires window > 0 && from % window == 0 && from <= t < from + window
    ensures WindowStart(t, window) == from
  {
    TwoWindowsCover(from, t, window);
  }

  // ---------- Runs that fill a window ----------

  /** A call that begins, counts and reads at one instant. */
  function Visit(id: nat, bucket: Text, window: int, limit: int, now: int): seq<Step> {
    [Begin(id, bucket, window, limit, now), IncrementRow(id, now), ReadRow(id, now)]
  }

  lemma RunSnoc(cfg: Config, clock: int, steps: seq<Step>, s: Step)
    requires Run(cfg, clock, steps).Some?
    ensures Run(cfg, clock, steps + [s]) == Apply(cfg, Run(cfg, clock, steps).value, s)
  {
    assert (steps + [s])[..|steps|] == steps;
  }

  /** A visit counts one more on its row. */
  lemma VisitCounts(cfg: Config, clock: int, steps: seq<Step>, sys: Sys,
                    id: nat, bucket: Text, window: int, limit: int, now: int)
    requires Run(cfg, clock, steps) == Some(sys) && window <= cfg.maxWindow && id !in sys.calls && sys.clock <= now
    ensures var row := (bucket, WindowStart(now, window));
            Run(cfg, clock, steps + Visit(id, bucket, window, limit, now))
            == Some(Sys(now, IncrRow(sys.rows, row),
                        sys.calls[id := Call(bucket, window, limit, now, Read(RowCount(sys.rows, row) + 1), true)]))
  {
    var v := Visit(id, bucket, window, limit, now);
    var one := steps + [v[0]];
    var two := one + [v[1]];
    RunSnoc(cfg, clock, steps, v[0]);
    RunSnoc(cfg, clock, one, v[1]);
    RunSnoc(cfg, clock, two, v[2]);
    assert steps + v == two + [v[2]];
    var row := (bucket, WindowStart(now, window));
    var c := Call(bucket, window, limit, now, Started, false);
    var d := c.(phase := Incremented, counted := true);
    assert Run(cfg, clock, one) == Some(sys.(clock := now, calls := sys.calls[id := c]));
    assert sys.calls[id := c][id := d] == sys.calls[id := d];
    assert Run(cfg, clock, two) == Some(Sys(now, IncrRow(sys.rows, row), sys.calls[id := d]));
    var e := d.(phase := Read(RowCount(sys.rows, row) + 1));
    assert sys.calls[id := d][id := e] == sys.calls[id := e];
  }

  /** n calls of one bucket that counted one after the other at one instant. */
  function FilledCalls(bucket: Text, window: int, limit: int, now: int, n: nat): (calls: map<nat, Call>)
    ensures forall id: nat :: id in calls <==> id < n
    ensures forall id: nat :: id < n ==> calls[id] == Call(bucket, window, limit, now, Read(id + 1), true)
  {
    if n == 0 then map[]
    else FilledCalls(bucket, window, limit, now, n - 1)[n - 1 := Call(bucket, window, limit, now, Read(n), true)]
  }

  function Filled(bucket: Text, window: int, limit: int, now: int, n: nat): Sys {
    Sys(now, if n == 0 then map[] else map[(bucket, WindowStart(now, window)) := n],
        FilledCalls(bucket, window, limit, now, n))
  }

  lemma FillStep(bucket: Text, window: int, limit: int, now: int, n: nat)
    requires n > 0
    ensures var sys, row := Filled(bucket, window, limit, now, n - 1), (bucket, WindowStart(now, window));
      && RowCount(sys.rows, row) == n - 1
      && Filled(bucket, window, limit, now, n)
         == Sys(now, IncrRow(sys.rows, row), sys.calls[n - 1 := Call(bucket, window, limit, now, Read(n), true)])
  {
    var sys, row := Filled(bucket, window, limit, now, n - 1), (bucket, WindowStart(now, window));
    assert sys.rows[row := n] == map[row := n];
  }

  lemma {:induction false} Fill(cfg: Config, bucket: Text, window: int, limit: int, now: int, n: nat)
    returns (steps: seq<Step>)
    requires window <= cfg.maxWindow
    ensures Run(cfg, now, steps) == Some(Filled(bucket, window, limit, now, n))
  {
    if n == 0 {
      steps := [];
    } else {
      var before := Fill(cfg, bucket, window, limit, now, n - 1);
      var sys := Filled(bucket, window, limit, now, n - 1);
      FillStep(bucket, window, limit, now, n);
      VisitCounts(cfg, now, before, sys, n - 1, bucket, window, limit, now);
      steps := before + Visit(n - 1, bucket, window, limit, now);
    }
  }

  /** An interval that is not aligned can admit one call more than any limit. */
  lemma UnalignedExceeds(bucket: Text, from: int, window: int, limit: int) returns (cfg: Config, steps: seq<Step>)
    requires window > 0 && from % window != 0 && limit >= 1
    ensures Patient(cfg) && Run(cfg, from, steps).Some?
    ensures |AdmittedIn(Run(cfg, from, steps).value, bucket, from, window, limit)| > limit
  {
    cfg := Config(0, window, window);
    var later := WindowStart(from, window) + window;
    MultipleOf(from, window);
    SameWindow(later, later, window);
    var first := Fill(cfg, bucket, window, limit, from, limit);
    var sys := Filled(bucket, window, limit, from, limit);
    VisitCounts(cfg, from, first, sys, limit, bucket, window, limit, later);
    steps := first + Visit(limit, bucket, window, limit, later);
    var admitted := AdmittedIn(Run(cfg, from, steps).value, bucket, from, window, limit);
    RangeSize(admitted, limit + 1);
  }

  lemma MultipleOf(from: int, window: int)
    requires window > 0
    ensures (WindowStart(from, window) + window) % window == 0
  {
    var n := from / window + 1;
    assert from == window * (from / window) + from % window;
    assert WindowStart(from, window) + window == window * n;
    ModOfMultiple(n, window);
  }

  lemma ModOfMultiple(n: int, window: int)
    requires window > 0
    ensures (window * n) % window == 0
  {
    var x := window * n;
    var q := x / window;
    assert x == window * q + x % window;
    assert window * (n - q) == window * n - window * q;
    MulGap(window, n - q);
  }

  /** No run exceeds the limit inside the interval [from, from + window). */
  ghost predicate IntervalSafe(bucket: Text, from: int, window: int, limit: int) {
    forall cfg, clock, steps :: Patient(cfg) && Run(cfg, clock, steps).Some? ==>
      |AdmittedIn(Run(cfg, clock, steps).value, bucket, from, window, limit)| <= limit
  }

  /** A limit bounds an interval of one window's length exactly when it is aligned, whatever the limit. */
  lemma LimitHoldsIffAligned(bucket: Text, from: int, window: int, limit: int)
    requires window > 0 && limit >= 1
    ensures IntervalSafe(bucket, from, window, limit) <==> from % window == 0
  {
    if from % window == 0 {
      forall cfg, clock, steps | Patient(cfg) && Run(cfg, clock, steps).Some?
        ensures |AdmittedIn(Run(cfg, clock, steps).value, bucket, from, window, limit)| <= limit
      {
        AlignedBound(cfg, clock, steps, bucket, from, window, limit);
      }
    } else {
      var cfg, steps := UnalignedExceeds(bucket, from, window, limit);
      assert |AdmittedIn(Run(cfg, from, steps).value, bucket, from, window, limit)| > limit;
    }
  }

  // ---------- How old a row must be before Cleanup may delete it ----------

  /** No aligned window admits more than the limit in any run. */
  ghost predicate WindowsSafe(cfg: Config, limit: int) {
    forall clock, steps, row :: Run(cfg, clock, steps).Some? ==>
      |Admitted(Run(cfg, clock, steps).value, row, limit)| <= limit
  }

  /** A call that began in a full window counts after Cleanup has deleted its row. */
  lemma EarlyCleanupExceeds(cfg: Config, limit: nat) returns (steps: seq<Step>)
    requires cfg.maxWindow > 0 && cfg.age < cfg.maxWindow + cfg.flight - 1 && limit >= 1
    ensures Run(cfg, cfg.maxWindow - 1, steps).Some?
    ensures |Admitted(Run(cfg, cfg.maxWindow - 1, steps).value, ([], 0), limit)| > limit
  {
    var window, clock := cfg.maxWindow, cfg.maxWindow - 1;
    var late, row: (Text, int) := clock + cfg.flight, ([], 0);
    var s0 := Fill(cfg, [], window, limit, clock, limit);
    var full := Filled([], window, limit, clock, limit);
    var begun := Call([], window, limit, clock, Started, false);
    var s1 := s0 + [Begin(limit, [], window, limit, clock)];
    RunSnoc(cfg, clock, s0, Begin(limit, [], window, limit, clock));
    var sys1 := full.(calls := full.calls[limit := begun]);
    var s2 := s1 + [Cleanup({row}, cfg.age, late)];
    RunSnoc(cfg, clock, s1, Cleanup({row}, cfg.age, late));
    assert Run(cfg, clock, s2) == Some(Sys(late, full.rows - {row}, sys1.calls));
    assert full.rows - {row} == map[];
    steps := LateCount(cfg, clock, s2, Sys(late, map[], sys1.calls), limit);
    var admitted := Admitted(Run(cfg, clock, steps).value, row, limit);
    RangeSize(admitted, limit + 1);
  }

  lemma LateCount(cfg: Config, clock: int, steps: seq<Step>, sys: Sys, id: nat) returns (more: seq<Step>)
    requires Run(cfg, clock, steps) == Some(sys) && sys.rows == map[] && id in sys.calls
    requires sys.calls[id].phase == Started && sys.clock <= sys.calls[id].started + cfg.flight
    ensures Run(cfg, clock, more)
         == Some(Sys(sys.clock, map[Row(sys.calls[id]) := 1],
                     sys.calls[id := sys.calls[id].(phase := Read(1), counted := true)]))
  {
    var c := sys.calls[id];
    var d := c.(phase := Incremented, counted := true);
    var one := steps + [IncrementRow(id, sys.clock)];
    RunSnoc(cfg, clock, steps, IncrementRow(id, sys.clock));
    assert Run(cfg, clock, one) == Some(Sys(sys.clock, map[Row(c) := 1], sys.calls[id := d]));
    more := one + [ReadRow(id, sys.clock)];
    RunSnoc(cfg, clock, one, ReadRow(id, sys.clock));
    assert sys.calls[id := d][id := d.(phase := Read(1))] == sys.calls[id := d.(phase := Read(1))];
  }

  /** Aligned windows never admit too much exactly when Cleanup waits for the longest window and the deadline. */
  lemma CleanupAgeIff(cfg: Config, limit: nat)
    requires cfg.maxWindow > 0 && limit >= 1
    ensures WindowsSafe(cfg, limit) <==> cfg.age >= cfg.maxWindow + cfg.flight - 1
  {
    if Patient(cfg) {
      forall clock, steps, row | Run(cfg, clock, steps).Some?
        ensures |Admitted(Run(cfg, clock, steps).value, row, limit)| <= limit
      {
        WindowBound(cfg, clock, steps, row.0, row.1, limit);
      }
    } else {
      var steps := EarlyCleanupExceeds(cfg, limit);
      assert |Admitted(Run(cfg, cfg.maxWindow - 1, steps).value, ([], 0), limit)| > limit;
    }
  }
}
