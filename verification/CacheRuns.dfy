/**
 Any number of Allow calls counting in the cache at once, one increment a step.
 Because every increment arms the expiry again, a rule admits at most its limit in
 every interval as long as its window (CacheBound), for all rules of a call at
 once (AllowedCountedEverywhere), unless a rule with a shorter window shares its
 bucket (LimitHoldsIffShortest).
 */
module CacheRuns {
  import opened Runes
  import opened Wrappers
  import opened RateLimit

  /** A call works through its applicable quotas and stops at the first refusal. */
  datatype Call = Call(quotas: seq<Quota>, done: nat, refused: bool)

  datatype Incr = Incr(call: nat, quota: Quota, at: int, count: int)

  datatype Sys = Sys(clock: int, counters: map<Text, Counter>, calls: map<nat, Call>, log: seq<Incr>)

  datatype Step = Start(id: nat, quotas: seq<Quota>) | Tally(id: nat, now: int)

  predicate Allowed(c: Call) {
    !c.refused && c.done == |c.quotas|
  }

  function Apply(sys: Sys, s: Step): Option<Sys> {
    match s
    case Start(id, quotas) =>
      if id in sys.calls then None else Some(sys.(calls := sys.calls[id := Call(quotas, 0, false)]))
    case Tally(id, now) =>
      if id !in sys.calls || now < sys.clock then None
      else
        var c := sys.calls[id];
        if c.refused || c.done >= |c.quotas| then None
        else
          var q := c.quotas[c.done];
          var count := CacheCount(sys.counters, q.bucket, now);
          var next := if count > q.rule.limit then c.(refused := true) else c.(done := c.done + 1);
          Some(Sys(now, IncrCache(sys.counters, q.bucket, q.rule.window, now),
                   sys.calls[id := next], sys.log + [Incr(id, q, now, count)]))
  }

  function Run(clock: int, steps: seq<Step>): Option<Sys> {
    if steps == [] then Some(Sys(clock, map[], map[], []))
    else
      var before :- Run(clock, steps[..|steps| - 1]);
      Apply(before, steps[|steps| - 1])
  }

  // ---------- What the log says about calls ----------

  predicate LoggedWithin(e: Incr) {
    e.count <= e.quota.rule.limit
  }

  /** A call that was not refused passed every increment it made, and made one for every quota done. */
  predicate CallsMatchLog(sys: Sys) {
    && (forall n :: 0 <= n < |sys.log| ==>
          sys.log[n].call in sys.calls && sys.log[n].at <= sys.clock
          && (!sys.calls[sys.log[n].call].refused ==> LoggedWithin(sys.log[n])))
    && (forall id :: id in sys.calls ==>
          sys.calls[id].done <= |sys.calls[id].quotas| && DoneLogged(sys.calls[id], id, sys.log))
  }

  predicate DoneLogged(c: Call, id: nat, log: seq<Incr>)
    requires c.done <= |c.quotas|
  {
    forall i :: 0 <= i < c.done ==> HasEntry(log, id, c.quotas[i])
  }

  predicate HasEntry(log: seq<Incr>, id: nat, q: Quota) {
    exists n :: 0 <= n < |log| && log[n].call == id && log[n].quota == q && LoggedWithin(log[n])
  }

  lemma HasEntryGrows(log: seq<Incr>, e: Incr, id: nat, q: Quota)
    requires HasEntry(log, id, q)
    ensures HasEntry(log + [e], id, q)
  {
    var n :| 0 <= n < |log| && log[n].call == id && log[n].quota == q && LoggedWithin(log[n]);
    assert (log + [e])[n] == log[n];
  }

  lemma ApplyMatchesLog(sys: Sys, s: Step)
    requires CallsMatchLog(sys) && Apply(sys, s).Some?
    ensures CallsMatchLog(Apply(sys, s).value)
  {
    if s.Tally? {
      var after := Apply(sys, s).value;
      var e := after.log[|sys.log|];
      assert after.log == sys.log + [e];
      forall id | id in after.calls
        ensures after.calls[id].done <= |after.calls[id].quotas| && DoneLogged(after.calls[id], id, after.log)
      {
        var c := after.calls[id];
        forall i | 0 <= i < c.done ensures HasEntry(after.log, id, c.quotas[i]) {
          if i < sys.calls[id].done {
            HasEntryGrows(sys.log, e, id, c.quotas[i]);
          } else {
            assert after.log[|sys.log|].quota == c.quotas[i];
          }
        }
      }
    }
  }

  lemma {:induction false} RunMatchesLog(clock: int, steps: seq<Step>)
    requires Run(clock, steps).Some?
    ensures CallsMatchLog(Run(clock, steps).value)
  {
    if steps != [] {
      RunMatchesLog(clock, steps[..|steps| - 1]);
      ApplyMatchesLog(Run(clock, steps[..|steps| - 1]).value, steps[|steps| - 1]);
    }
  }

  /** An allowed call was counted within the limit on every one of its quotas. */
  lemma AllowedCountedEverywhere(clock: int, steps: seq<Step>, id: nat, i: nat)
    requires Run(clock, steps).Some? && id in Run(clock, steps).value.calls
    requires var c := Run(clock, steps).value.calls[id]; Allowed(c) && i < |c.quotas|
    ensures HasEntry(Run(clock, steps).value.log, id, Run(clock, steps).value.calls[id].quotas[i])
  {
    RunMatchesLog(clock, steps);
    assert DoneLogged(Run(clock, steps).value.calls[id], id, Run(clock, steps).value.log);
  }

  // ---------- The bound ----------

  /** Every rule that counts in the bucket has a window at least this long. */
  predicate NoneShorter(log: seq<Incr>, bucket: Text, window: int) {
    forall n :: 0 <= n < |log| && log[n].quota.bucket == bucket ==> log[n].quota.rule.window >= window
  }

  predicate Hit(e: Incr, bucket: Text, from: int, until: int) {
    e.quota.bucket == bucket && from <= e.at < until
  }

  /** The increment was made for this quota in [from, until) and passed. */
  predicate PassedHere(e: Incr, q: Quota, from: int, until: int) {
    e.quota == q && from <= e.at < until && LoggedWithin(e)
  }

  /** How often the bucket was incremented in [from, until), for whichever rule. */
  function Hits(log: seq<Incr>, bucket: Text, from: int, until: int): nat {
    if log == [] then 0
    else Hits(log[..|log| - 1], bucket, from, until) + if Hit(log[|log| - 1], bucket, from, until) then 1 else 0
  }

  /** The calls that passed an increment for the quota in [from, until). */
  function Passed(log: seq<Incr>, q: Quota, from: int, until: int): set<nat> {
    if log == [] then {}
    else
      var e := log[|log| - 1];
      Passed(log[..|log| - 1], q, from, until) + if PassedHere(e, q, from, until) then {e.call} else {}
  }

  lemma OneMore(log: seq<Incr>, e: Incr, q: Quota, from: int, until: int)
    ensures Hits(log + [e], q.bucket, from, until)
         == Hits(log, q.bucket, from, until) + if Hit(e, q.bucket, from, until) then 1 else 0
    ensures Passed(log + [e], q, from, until)
         == Passed(log, q, from, until) + if PassedHere(e, q, from, until) then {e.call} else {}
  {
    assert (log + [e])[..|log|] == log;
  }

  /** While the interval lasts, its increments are all still in the counter. */
  predicate StillCounted(counters: map<Text, Counter>, bucket: Text, hits: nat, until: int) {
    bucket in counters && counters[bucket].count >= hits && counters[bucket].expiresAt >= until
  }

  predicate Positive(counters: map<Text, Counter>, bucket: Text) {
    bucket in counters ==> counters[bucket].count > 0
  }

  predicate CounterHolds(sys: Sys, q: Quota, from: int) {
    var until := from + q.rule.window;
    var hits, passed := Hits(sys.log, q.bucket, from, until), |Passed(sys.log, q, from, until)|;
    && passed <= hits && passed <= AtLeastZero(q.rule.limit) && Positive(sys.counters, q.bucket)
    && (hits > 0 ==> from <= sys.clock)
    && (hits > 0 && sys.clock < until ==> StillCounted(sys.counters, q.bucket, hits, until))
  }

  lemma AddOne<T>(s: set<T>, x: T)
    ensures |s + {x}| <= |s| + 1
  {
    if x in s {
      assert s + {x} == s;
    }
  }

  /** The counter after one more increment inside the interval. */
  lemma HitCounts(counters: map<Text, Counter>, bucket: Text, hits: nat, until: int, window: int, now: int)
    requires Positive(counters, bucket) && now < until <= now + window
    requires hits > 0 ==> StillCounted(counters, bucket, hits, until)
    ensures CacheCount(counters, bucket, now) >= hits + 1
    ensures StillCounted(IncrCache(counters, bucket, window, now), bucket, hits + 1, until)
  {
  }

  lemma TallyElsewhere(sys: Sys, s: Step, q: Quota, from: int)
    requires s.Tally? && Apply(sys, s).Some? && CounterHolds(sys, q, from)
    requires Apply(sys, s).value.log[|sys.log|].quota.bucket != q.bucket
    ensures CounterHolds(Apply(sys, s).value, q, from)
  {
    var after := Apply(sys, s).value;
    OneMore(sys.log, after.log[|sys.log|], q, from, from + q.rule.window);
  }

  lemma TallyOutside(sys: Sys, s: Step, q: Quota, from: int)
    requires s.Tally? && Apply(sys, s).Some? && CounterHolds(sys, q, from)
    requires var e := Apply(sys, s).value.log[|sys.log|];
      e.quota.bucket == q.bucket && !(from <= e.at < from + q.rule.window)
    ensures CounterHolds(Apply(sys, s).value, q, from)
  {
    var after := Apply(sys, s).value;
    OneMore(sys.log, after.log[|sys.log|], q, from, from + q.rule.window);
  }

  lemma TallyInside(sys: Sys, s: Step, q: Quota, from: int)
    requires s.Tally? && Apply(sys, s).Some? && CounterHolds(sys, q, from)
    requires var e := Apply(sys, s).value.log[|sys.log|];
      Hit(e, q.bucket, from, from + q.rule.window) && e.quota.rule.window >= q.rule.window
    ensures CounterHolds(Apply(sys, s).value, q, from)
  {
    var after, until := Apply(sys, s).value, from + q.rule.window;
    var e := after.log[|sys.log|];
    var hits := Hits(sys.log, q.bucket, from, until);
    OneMore(sys.log, e, q, from, until);
    HitCounts(sys.counters, q.bucket, hits, until, e.quota.rule.window, e.at);
    AddOne(Passed(sys.log, q, from, until), e.call);
  }

  lemma TallyKeepsBound(sys: Sys, s: Step, q: Quota, from: int)
    requires s.Tally? && Apply(sys, s).Some? && CounterHolds(sys, q, from)
    requires NoneShorter(Apply(sys, s).value.log, q.bucket, q.rule.window)
    ensures CounterHolds(Apply(sys, s).value, q, from)
  {
    var e := Apply(sys, s).value.log[|sys.log|];
    if e.quota.bucket != q.bucket {
      TallyElsewhere(sys, s, q, from);
    } else if from <= e.at < from + q.rule.window {
      TallyInside(sys, s, q, from);
    } else {
      TallyOutside(sys, s, q, from);
    }
  }

  lemma {:induction false} RunKeepsBound(clock: int, steps: seq<Step>, q: Quota, from: int)
    requires Run(clock, steps).Some? && NoneShorter(Run(clock, steps).value.log, q.bucket, q.rule.window)
    ensures CounterHolds(Run(clock, steps).value, q, from)
  {
    if steps != [] {
      var before := Run(clock, steps[..|steps| - 1]).value;
      var s := steps[|steps| - 1];
      assert before.log <= Apply(before, s).value.log;
      NoneShorterPrefix(before.log, Apply(before, s).value.log, q.bucket, q.rule.window);
      RunKeepsBound(clock, steps[..|steps| - 1], q, from);
      if s.Tally? {
        TallyKeepsBound(before, s, q, from);
      }
    }
  }

  lemma NoneShorterPrefix(a: seq<Incr>, b: seq<Incr>, bucket: Text, window: int)
    requires a <= b && NoneShorter(b, bucket, window)
    ensures NoneShorter(a, bucket, window)
  {
    assert forall n :: 0 <= n < |a| ==> a[n] == b[n];
  }

  /** The allowed calls that were counted for the quota in [from, until). */
  ghost function AllowedIn(sys: Sys, q: Quota, from: int, until: int): set<nat> {
    set id | id in sys.calls && Allowed(sys.calls[id]) && CountedIn(sys.log, id, q, from, until)
  }

  predicate CountedIn(log: seq<Incr>, id: nat, q: Quota, from: int, until: int) {
    exists n :: 0 <= n < |log| && log[n].call == id && log[n].quota == q && from <= log[n].at < until
  }

  lemma {:induction false} PassedContains(log: seq<Incr>, n: nat, q: Quota, from: int, until: int)
    requires n < |log| && PassedHere(log[n], q, from, until)
    ensures log[n].call in Passed(log, q, from, until)
  {
    if n < |log| - 1 {
      PassedContains(log[..|log| - 1], n, q, from, until);
    }
  }

  /**
   In every run in which no rule of the bucket has a shorter window, every interval
   of one window's length admits at most limit calls under the rule, wherever the
   interval begins.
   */
  lemma CacheBound(clock: int, steps: seq<Step>, q: Quota, from: int)
    requires Run(clock, steps).Some? && NoneShorter(Run(clock, steps).value.log, q.bucket, q.rule.window)
    ensures |AllowedIn(Run(clock, steps).value, q, from, from + q.rule.window)| <= AtLeastZero(q.rule.limit)
  {
    var sys, until := Run(clock, steps).value, from + q.rule.window;
    RunMatchesLog(clock, steps);
    RunKeepsBound(clock, steps, q, from);
    forall id | id in AllowedIn(sys, q, from, until) ensures id in Passed(sys.log, q, from, until) {
      var n :| 0 <= n < |sys.log| && sys.log[n].call == id && sys.log[n].quota == q && from <= sys.log[n].at < until;
      PassedContains(sys.log, n, q, from, until);
    }
    SubsetSize(AllowedIn(sys, q, from, until), Passed(sys.log, q, from, until));
  }

  // ---------- Rules that share a bucket ----------

  lemma RunOneMore(clock: int, steps: seq<Step>, s: Step)
    requires Run(clock, steps).Some?
    ensures Run(clock, steps + [s]) == Apply(Run(clock, steps).value, s)
  {
    assert (steps + [s])[..|steps|] == steps;
  }

  /** A call counted under one rule. */
  function Visit(id: nat, q: Quota, now: int): seq<Step> {
    [Start(id, [q]), Tally(id, now)]
  }

  lemma VisitAllowed(clock: int, steps: seq<Step>, sys: Sys, id: nat, q: Quota, now: int)
    requires Run(clock, steps) == Some(sys) && id !in sys.calls && sys.clock <= now
    requires CacheCount(sys.counters, q.bucket, now) <= q.rule.limit
    ensures Run(clock, steps + Visit(id, q, now))
         == Some(Sys(now, IncrCache(sys.counters, q.bucket, q.rule.window, now), sys.calls[id := Call([q], 1, false)],
                     sys.log + [Incr(id, q, now, CacheCount(sys.counters, q.bucket, now))]))
  {
    var v := Visit(id, q, now);
    var one := steps + [v[0]];
    RunOneMore(clock, steps, v[0]);
    RunOneMore(clock, one, v[1]);
    assert steps + v == one + [v[1]];
    var c := Call([q], 0, false);
    assert Run(clock, one) == Some(sys.(calls := sys.calls[id := c]));
    assert sys.calls[id := c][id := c.(done := 1)] == sys.calls[id := c.(done := 1)];
  }

  /** n calls that were counted under one rule, one after the other, at time 0. */
  function FilledCalls(q: Quota, n: nat): (calls: map<nat, Call>)
    ensures forall id: nat :: id in calls <==> id < n
    ensures forall id: nat :: id < n ==> calls[id] == Call([q], 1, false)
  {
    if n == 0 then map[] else FilledCalls(q, n - 1)[n - 1 := Call([q], 1, false)]
  }

  function FilledLog(q: Quota, n: nat): (log: seq<Incr>)
    ensures |log| == n && forall i :: 0 <= i < n ==> log[i] == Incr(i, q, 0, i + 1)
  {
    if n == 0 then [] else FilledLog(q, n - 1) + [Incr(n - 1, q, 0, n)]
  }

  function Filled(q: Quota, n: nat): Sys {
    Sys(0, if n == 0 then map[] else map[q.bucket := Counter(n, q.rule.window)], FilledCalls(q, n), FilledLog(q, n))
  }

  lemma FillStep(q: Quota, n: nat)
    requires q.rule.window > 0 && n > 0
    ensures var sys := Filled(q, n - 1);
      && CacheCount(sys.counters, q.bucket, 0) == n
      && Filled(q, n)
         == Sys(0, IncrCache(sys.counters, q.bucket, q.rule.window, 0), sys.calls[n - 1 := Call([q], 1, false)],
                sys.log + [Incr(n - 1, q, 0, n)])
  {
    var sys := Filled(q, n - 1);
    assert sys.counters[q.bucket := Counter(n, q.rule.window)] == map[q.bucket := Counter(n, q.rule.window)];
    assert Filled(q, n).calls == sys.calls[n - 1 := Call([q], 1, false)];
    assert Filled(q, n).log == sys.log + [Incr(n - 1, q, 0, n)];
  }

  lemma {:induction false} Fill(q: Quota, n: nat) returns (steps: seq<Step>)
    requires q.rule.window > 0 && n <= q.rule.limit
    ensures Run(0, steps) == Some(Filled(q, n))
  {
    if n == 0 {
      steps := [];
    } else {
      var before := Fill(q, n - 1);
      FillStep(q, n);
      VisitAllowed(0, before, Filled(q, n - 1), n - 1, q, 0);
      steps := before + Visit(n - 1, q, 0);
    }
  }

  /** A run in which every rule on the bucket has a window of at least shortest. */
  predicate Shares(clock: int, steps: seq<Step>, bucket: Text, shortest: int) {
    Run(clock, steps).Some? && NoneShorter(Run(clock, steps).value.log, bucket, shortest)
  }

  /**
   The longer rule's limit is used up, the shorter rule is counted once, and when
   its window has expired the longer rule admits another call.
   */
  lemma ResetByShorter(long: Quota, short: Quota) returns (steps: seq<Step>, sys: Sys)
    requires long.bucket == short.bucket && 0 <= short.rule.window < long.rule.window
    requires long.rule.limit >= 1 && short.rule.limit == long.rule.limit + 1
    ensures var n, now := long.rule.limit, short.rule.window;
      && Run(0, steps) == Some(sys)
      && sys.log == FilledLog(long, n) + [Incr(n, short, 0, n + 1)] + [Incr(n + 1, long, now, 1)]
      && sys.calls == FilledCalls(long, n)[n := Call([short], 1, false)][n + 1 := Call([long], 1, false)]
  {
    var n, now := long.rule.limit, short.rule.window;
    var first := Fill(long, n);
    var full := Filled(long, n);
    VisitAllowed(0, first, full, n, short, 0);
    var counted := Sys(0, full.counters[long.bucket := Counter(n + 1, now)], full.calls[n := Call([short], 1, false)],
                       full.log + [Incr(n, short, 0, n + 1)]);
    assert Run(0, first + Visit(n, short, 0)) == Some(counted);
    VisitAllowed(0, first + Visit(n, short, 0), counted, n + 1, long, now);
    steps := first + Visit(n, short, 0) + Visit(n + 1, long, now);
    sys := Run(0, steps).value;
  }

  /** A shorter rule on the same bucket lets the longer one admit one call more than any limit. */
  lemma ShorterRuleExceeds(bucket: Text, window: int, shortest: nat, limit: int)
    returns (steps: seq<Step>, long: Quota)
    requires window > shortest && limit >= 1
    ensures long.bucket == bucket && long.rule.window == window && long.rule.limit == limit
    ensures Shares(0, steps, bucket, shortest) && |AllowedIn(Run(0, steps).value, long, 0, window)| > limit
  {
    long := Quota(Rule([], limit, window), bucket);
    var short := Quota(Rule([], limit + 1, shortest), bucket);
    var sys;
    steps, sys := ResetByShorter(long, short);
    var allowed := AllowedIn(sys, long, 0, window);
    forall id: nat ensures id in allowed <==> id < limit || id == limit + 1 {
      if id < limit {
        assert sys.log[id] == Incr(id, long, 0, id + 1);
      } else if id == limit + 1 {
        assert sys.log[limit + 1] == Incr(limit + 1, long, shortest, 1);
      }
    }
    RangeSize(allowed - {limit + 1}, limit);
  }

  /** The rule admits at most its limit in the interval of one window's length that begins at from. */
  ghost predicate Bounded(clock: int, steps: seq<Step>, q: Quota, from: int)
    requires Run(clock, steps).Some?
  {
    |AllowedIn(Run(clock, steps).value, q, from, from + q.rule.window)| <= AtLeastZero(q.rule.limit)
  }

  /** A rule of the bucket with this window and limit. */
  predicate RuleOf(q: Quota, bucket: Text, window: int, limit: int) {
    q.bucket == bucket && q.rule.window == window && q.rule.limit == limit
  }

  /** No run whose rules on the bucket have windows of at least shortest exceeds the limit of such a rule. */
  ghost predicate RuleSafe(bucket: Text, window: int, limit: int, shortest: int) {
    forall clock, steps, q, from :: Shares(clock, steps, bucket, shortest) ==>
      RuleOf(q, bucket, window, limit) ==> Bounded(clock, steps, q, from)
  }

  /**
   A rule's limit holds in the cache exactly when no rule that shares its bucket has
   a shorter window, whatever the limit.
   */
  lemma LimitHoldsIffShortest(bucket: Text, window: int, limit: int, shortest: nat)
    requires limit >= 1
    ensures RuleSafe(bucket, window, limit, shortest) <==> window <= shortest
  {
    if window <= shortest {
      forall clock, steps, q, from | Shares(clock, steps, bucket, shortest) && RuleOf(q, bucket, window, limit)
        ensures Bounded(clock, steps, q, from)
      {
        CacheBound(clock, steps, q, from);
      }
    } else {
      var steps, long := ShorterRuleExceeds(bucket, window, shortest, limit);
      assert RuleOf(long, bucket, window, limit) && !Bounded(0, steps, long, 0);
    }
  }

  // ---------- What a count is ----------

  /** The key is still there when its bucket is incremented at now. */
  predicate Running(e: Incr, now: int) {
    now < e.at + e.quota.rule.window
  }

  function OfBucket(log: seq<Incr>, bucket: Text): seq<Incr> {
    if log == [] then []
    else OfBucket(log[..|log| - 1], bucket) + if log[|log| - 1].quota.bucket == bucket then [log[|log| - 1]] else []
  }

  /** Each increment came while the window armed by the one before was running. */
  predicate Unbroken(es: seq<Incr>) {
    forall i :: 0 < i < |es| ==> Running(es[i - 1], es[i].at)
  }

  /** The bucket's increments since its last expiry. */
  function Streak(log: seq<Incr>, bucket: Text): seq<Incr> {
    if log == [] then []
    else
      var before, e := Streak(log[..|log| - 1], bucket), log[|log| - 1];
      if e.quota.bucket != bucket then before
      else if before != [] && Running(before[|before| - 1], e.at) then before + [e]
      else [e]
  }

  /** The streak is the longest unbroken end of the bucket's increments. */
  lemma {:induction false} StreakIsLongest(log: seq<Incr>, bucket: Text) returns (ended: seq<Incr>)
    ensures OfBucket(log, bucket) == ended + Streak(log, bucket) && Unbroken(Streak(log, bucket))
    ensures OfBucket(log, bucket) != [] ==> Streak(log, bucket) != []
    ensures ended != [] ==> Streak(log, bucket) != [] && !Running(ended[|ended| - 1], Streak(log, bucket)[0].at)
  {
    if log == [] {
      ended := [];
    } else {
      var before, e := Streak(log[..|log| - 1], bucket), log[|log| - 1];
      ended := StreakIsLongest(log[..|log| - 1], bucket);
      if e.quota.bucket == bucket {
        if before != [] && Running(before[|before| - 1], e.at) {
          assert ended + before + [e] == ended + (before + [e]);
        } else {
          ended := ended + before;
        }
      }
    }
  }

  /** The counter holds the streak's length, and expires one window after its last increment. */
  predicate CounterIsStreak(sys: Sys, bucket: Text) {
    var streak := Streak(sys.log, bucket);
    if streak == [] then bucket !in sys.counters
    else
      var last := streak[|streak| - 1];
      bucket in sys.counters && sys.counters[bucket] == Counter(|streak|, last.at + last.quota.rule.window)
  }

  predicate CountsAreStreaks(log: seq<Incr>) {
    forall n :: 0 <= n < |log| ==> log[n].count == |Streak(log[..n + 1], log[n].quota.bucket)|
  }

  lemma TallyCountsStreak(sys: Sys, s: Step, bucket: Text)
    requires s.Tally? && Apply(sys, s).Some? && CounterIsStreak(sys, bucket)
    ensures var after := Apply(sys, s).value;
      CounterIsStreak(after, bucket)
      && var e := after.log[|sys.log|];
         e.quota.bucket == bucket ==> e.count == |Streak(after.log, bucket)|
  {
    var after := Apply(sys, s).value;
    assert after.log[..|after.log| - 1] == sys.log;
  }

  /** In every run a count is the number of increments of the bucket since its last expiry, this one included. */
  lemma {:induction false} CountIsStreak(clock: int, steps: seq<Step>)
    requires Run(clock, steps).Some?
    ensures CountsAreStreaks(Run(clock, steps).value.log)
    ensures forall bucket :: CounterIsStreak(Run(clock, steps).value, bucket)
  {
    if steps != [] {
      var before, s := Run(clock, steps[..|steps| - 1]).value, steps[|steps| - 1];
      CountIsStreak(clock, steps[..|steps| - 1]);
      var after := Apply(before, s).value;
      forall bucket ensures CounterIsStreak(after, bucket) {
        assert CounterIsStreak(before, bucket);
        if s.Tally? {
          TallyCountsStreak(before, s, bucket);
        }
      }
      if s.Tally? {
        var e := after.log[|before.log|];
        assert CounterIsStreak(before, e.quota.bucket);
        TallyCountsStreak(before, s, e.quota.bucket);
        forall n | 0 <= n < |after.log|
          ensures after.log[n].count == |Streak(after.log[..n + 1], after.log[n].quota.bucket)|
        {
          if n < |before.log| {
            assert after.log[..n + 1] == before.log[..n + 1] && after.log[n] == before.log[n];
          } else {
            assert after.log[..n + 1] == after.log;
          }
        }
      }
    }
  }

  /** While every increment comes within the running window, the streak only grows. */
  lemma {:induction false} StreakGrows(log: seq<Incr>, n: nat, bucket: Text)
    requires n < |log| && log[n].quota.bucket == bucket && Unbroken(OfBucket(log[n..], bucket))
    ensures |Streak(log, bucket)| == |Streak(log[..n + 1], bucket)| + |OfBucket(log[n..], bucket)| - 1
    ensures Streak(log, bucket) != [] && OfBucket(log[n..], bucket) != []
    ensures Streak(log, bucket)[|Streak(log, bucket)| - 1]
         == OfBucket(log[n..], bucket)[|OfBucket(log[n..], bucket)| - 1]
  {
    var m := |log| - 1;
    if n == m {
      assert log[..n + 1] == log && log[n..] == [log[n]];
      assert OfBucket([log[n]], bucket) == [log[n]] by { assert [log[n]][..0] == []; }
    } else {
      var prefix := log[..m];
      var es := OfBucket(prefix[n..], bucket);
      assert log[n..][..|log[n..]| - 1] == prefix[n..] && prefix[..n + 1] == log[..n + 1];
      assert OfBucket(log[n..], bucket) == es + if log[m].quota.bucket == bucket then [log[m]] else [];
      UnbrokenPrefix(es, OfBucket(log[n..], bucket));
      StreakGrows(prefix, n, bucket);
      if log[m].quota.bucket == bucket {
        assert (es + [log[m]])[|es|] == log[m] && (es + [log[m]])[|es| - 1] == es[|es| - 1];
      }
    }
  }

  lemma UnbrokenPrefix(a: seq<Incr>, b: seq<Incr>)
    requires a <= b && Unbroken(b)
    ensures Unbroken(a)
  {
    forall i | 0 < i < |a| ensures Running(a[i - 1], a[i].at) {
      assert a[i - 1] == b[i - 1] && a[i] == b[i];
    }
  }

  /**
   Refused calls arm the expiry too: once a count is over a limit, every later call
   is counted over it as well, as long as each comes while the window is running.
   */
  lemma Lockout(clock: int, steps: seq<Step>, n: nat, m: nat, bucket: Text)
    requires Run(clock, steps).Some? && n < m < |Run(clock, steps).value.log|
    requires var log := Run(clock, steps).value.log;
      log[n].quota.bucket == bucket && log[m].quota.bucket == bucket && Unbroken(OfBucket(log[n..m + 1], bucket))
    ensures var log := Run(clock, steps).value.log; log[m].count > log[n].count
  {
    var log := Run(clock, steps).value.log;
    CountIsStreak(clock, steps);
    var part := log[..m + 1];
    assert part[n..] == log[n..m + 1] && part[..n + 1] == log[..n + 1];
    StreakGrows(part, n, bucket);
    var es := OfBucket(part[n..], bucket);
    TwoOfBucket(part[n..], bucket);
  }

  lemma {:induction false} FirstOfBucket(log: seq<Incr>, bucket: Text)
    requires log != [] && log[0].quota.bucket == bucket
    ensures OfBucket(log, bucket) != []
  {
    if |log| > 1 {
      FirstOfBucket(log[..|log| - 1], bucket);
    }
  }

  lemma TwoOfBucket(log: seq<Incr>, bucket: Text)
    requires |log| > 1 && log[0].quota.bucket == bucket && log[|log| - 1].quota.bucket == bucket
    ensures |OfBucket(log, bucket)| >= 2
  {
    FirstOfBucket(log[..|log| - 1], bucket);
  }
}
