/**
 The limiter: which rules apply to a call, the two counter stores, and Allow with
 its early exits. Decides says what a decision means over all rules at once.
 Times and windows are integers on one non-decreasing clock. A window that is not
 positive is no window: its counters have expired as soon as they are written.
 */
module RateLimit {
  import opened Runes
  import opened Wrappers

  datatype Rule = Rule(dimension: Text, limit: int, window: int)

  datatype Key = Key(dimension: Text, value: Text)

  /** A rule together with the bucket it counts in. */
  datatype Quota = Quota(rule: Rule, bucket: Text)

  const BAR: Text := ['|' as int]

  function Bucket(route: Text, dimension: Text, value: Text): Text {
    route + BAR + dimension + BAR + value
  }

  /** Key i is the last one that supplies a value for the dimension. */
  predicate LastSupplied(keys: seq<Key>, dimension: Text, i: nat)
    requires i < |keys|
  {
    && keys[i].dimension == dimension && keys[i].value != []
    && forall j :: i < j < |keys| && keys[j].dimension == dimension ==> keys[j].value == []
  }

  /** The value supplied for a dimension: the last non-empty one. */
  function Supplied(keys: seq<Key>, dimension: Text): (v: Option<Text>)
    ensures v.Some? ==> v.value != [] && Key(dimension, v.value) in keys
    ensures v.None? ==> forall i :: 0 <= i < |keys| && keys[i].dimension == dimension ==> keys[i].value == []
  {
    if keys == [] then None
    else
      var last := keys[|keys| - 1];
      if last.dimension == dimension && last.value != [] then Some(last.value)
      else Supplied(keys[..|keys| - 1], dimension)
  }

  /** A later key overrides an earlier one of its dimension, unless it is empty. */
  lemma {:induction false} LastSuppliedWins(keys: seq<Key>, dimension: Text, i: nat)
    requires i < |keys| && LastSupplied(keys, dimension, i)
    ensures Supplied(keys, dimension) == Some(keys[i].value)
  {
    if i < |keys| - 1 {
      LastSuppliedWins(keys[..|keys| - 1], dimension, i);
    }
  }

  /** The rules whose dimension has a value, in order. */
  function Applicable(route: Text, keys: seq<Key>, rules: seq<Rule>): seq<Quota> {
    if rules == [] then []
    else
      var r := rules[0];
      var v := Supplied(keys, r.dimension);
      (if v.Some? then [Quota(r, Bucket(route, r.dimension, v.value))] else []) + Applicable(route, keys, rules[1..])
  }

  /** The applicable quotas are exactly the rules that have a value, each in the bucket of its value. */
  lemma {:induction false} ApplicableIffSupplied(route: Text, keys: seq<Key>, rules: seq<Rule>, q: Quota)
    ensures q in Applicable(route, keys, rules)
       <==> q.rule in rules && Supplied(keys, q.rule.dimension).Some?
            && q.bucket == Bucket(route, q.rule.dimension, Supplied(keys, q.rule.dimension).value)
  {
    if rules != [] {
      ApplicableIffSupplied(route, keys, rules[1..], q);
      assert rules == [rules[0]] + rules[1..];
    }
  }

  predicate BarFree(t: Text) {
    forall i :: 0 <= i < |t| ==> t[i] != BAR[0]
  }

  lemma BarSplit(a: Text, x: Text, b: Text, y: Text)
    requires BarFree(a) && BarFree(b) && a + BAR + x == b + BAR + y
    ensures a == b && x == y
  {
    var s, t := a + BAR + x, b + BAR + y;
    assert s[|a|] == BAR[0] && t[|b|] == BAR[0];
    assert forall i :: 0 <= i < |a| ==> s[i] == a[i];
    assert forall i :: 0 <= i < |b| ==> t[i] == b[i];
    assert |a| == |b|;
    assert a == s[..|a|] && b == t[..|b|];
    assert x == s[|a| + 1..] && y == t[|b| + 1..];
  }

  /** Calls count together exactly when route, dimension and value are the same. */
  lemma SameBucketIff(r1: Text, d1: Text, v1: Text, r2: Text, d2: Text, v2: Text)
    requires BarFree(r1) && BarFree(d1) && BarFree(r2) && BarFree(d2)
    ensures Bucket(r1, d1, v1) == Bucket(r2, d2, v2) <==> r1 == r2 && d1 == d2 && v1 == v2
  {
    assert Bucket(r1, d1, v1) == r1 + BAR + (d1 + BAR + v1);
    assert Bucket(r2, d2, v2) == r2 + BAR + (d2 + BAR + v2);
    if Bucket(r1, d1, v1) == Bucket(r2, d2, v2) {
      BarSplit(r1, d1 + BAR + v1, r2, d2 + BAR + v2);
      BarSplit(d1, v1, d2, v2);
    }
  }

  // ---------- The counter stores ----------

  /** A Redis counter and the time its key expires. */
  datatype Counter = Counter(count: int, expiresAt: int)

  /** The Redis counters, and the counter rows by bucket and window start. */
  datatype Store = Store(counters: map<Text, Counter>, rows: Rows)

  type Rows = map<(Text, int), int>

  /**
   Which stores answer during one increment, and what other processes do to the
   counter rows between its two statements.
   */
  datatype Reach = Reach(cache: bool, db: bool, others: Rows -> Rows)

  datatype Counted = Counted(count: int, ttl: int)

  function CacheCount(counters: map<Text, Counter>, key: Text, now: int): int {
    if key in counters && now < counters[key].expiresAt then counters[key].count + 1 else 1
  }

  /** INCR, EXPIRE and TTL in one transaction: the expiry is armed again every time. */
  function IncrCache(counters: map<Text, Counter>, key: Text, window: int, now: int): map<Text, Counter> {
    counters[key := Counter(CacheCount(counters, key, now), now + window)]
  }

  /** The start of the aligned window that contains now; without a window, now itself. */
  function WindowStart(now: int, window: int): (start: int)
    ensures window > 0 ==> start % window == 0 && start <= now < start + window
  {
    AlignedStart(now, window);
    if window <= 0 then now else now - now % window
  }

  lemma AlignedStart(now: int, window: int)
    ensures window > 0 ==> (now - now % window) % window == 0 && now - now % window <= now < now - now % window + window
  {
    if window > 0 {
      var q := now / window;
      assert now == window * q + now % window;
      assert now - now % window == window * q;
      Multiple(q, window);
    }
  }

  lemma Multiple(q: int, window: int)
    requires window > 0
    ensures (window * q) % window == 0
  {
    var x := window * q;
    assert x == window * (x / window) + x % window;
    assert x % window == window * (q - x / window);
    SmallMultiple(q - x / window, window);
  }

  lemma SmallMultiple(d: int, window: int)
    requires window > 0 && 0 <= window * d < window
    ensures d == 0
  {
    assert d >= 1 ==> window * d >= window;
    assert d <= -1 ==> window * d <= -window;
  }

  function RowCount(rows: Rows, row: (Text, int)): int {
    if row in rows then rows[row] else 0
  }

  function IncrRow(rows: Rows, row: (Text, int)): Rows {
    rows[row := RowCount(rows, row) + 1]
  }

  function Incremented(s: Store, q: Quota, now: int, reach: Reach): (Store, Option<Counted>)
  {
    if reach.cache then
      (s.(counters := IncrCache(s.counters, q.bucket, q.rule.window, now)),
       Some(Counted(CacheCount(s.counters, q.bucket, now), q.rule.window)))
    else if reach.db then
      var row := (q.bucket, WindowStart(now, q.rule.window));
      var rows := reach.others(IncrRow(s.rows, row));
      (s.(rows := rows),
       if row in rows then Some(Counted(rows[row], row.1 + q.rule.window - now)) else None)
    else (s, None)
  }

  // ---------- Sizes of bounds ----------

  /** A limit below zero admits nothing. */
  function AtLeastZero(n: int): nat {
    if n < 0 then 0 else n
  }

  lemma SubsetSize<T>(a: set<T>, b: set<T>)
    requires a <= b
    ensures |a| <= |b|
  {
    assert b == a + (b - a);
  }

  lemma {:induction false} RangeSize(s: set<nat>, n: nat)
    requires forall id: nat :: id in s <==> id < n
    ensures |s| == n
  {
    if n == 0 {
      assert s == {};
    } else {
      RangeSize(s - {n - 1}, n - 1);
    }
  }

  // ---------- Allow ----------

  datatype Decision = Decision(
    allowed: bool, dimension: Option<Text>, retryAfter: int, remaining: int, failedClosed: bool)

  const ALLOWED := Decision(true, None, 0, -1, false)
  const SECOND := 1_000_000_000

  /** The stores after the first n quotas were counted; reach[i] is what answered the i-th. */
  function After(s: Store, quotas: seq<Quota>, now: int, reach: seq<Reach>, n: nat): Store
    requires n <= |quotas| <= |reach|
  {
    if n == 0 then s else Incremented(After(s, quotas, now, reach, n - 1), quotas[n - 1], now, reach[n - 1]).0
  }

  /** What counting the i-th quota gave. */
  function Count(s: Store, quotas: seq<Quota>, now: int, reach: seq<Reach>, i: nat): Option<Counted>
    requires i < |quotas| <= |reach|
  {
    Incremented(After(s, quotas, now, reach, i), quotas[i], now, reach[i]).1
  }

  /** The refusal a count leads to, if any. */
  function Refusal(failClosed: bool, q: Quota, count: Option<Counted>): Option<Decision> {
    if count.None? then
      if failClosed then Some(Decision(false, Some(q.rule.dimension), SECOND, 0, true)) else None
    else if count.value.count > q.rule.limit then
      var retry := if count.value.ttl <= 0 then q.rule.window else count.value.ttl;
      Some(Decision(false, Some(q.rule.dimension), retry, 0, false))
    else None
  }

  /** The i-th quota lets the call pass. */
  predicate Passes(failClosed: bool, s: Store, quotas: seq<Quota>, now: int, reach: seq<Reach>, i: nat)
    requires i < |quotas| <= |reach|
  {
    Refusal(failClosed, quotas[i], Count(s, quotas, now, reach, i)).None?
  }

  /** The n-th quota is the first that refuses, with d, and nothing after it was counted. */
  predicate Refuses(failClosed: bool, s: Store, quotas: seq<Quota>, now: int, reach: seq<Reach>,
                    d: Decision, s': Store, n: nat)
    requires n < |quotas| <= |reach|
  {
    && (forall i :: 0 <= i < n ==> Passes(failClosed, s, quotas, now, reach, i))
    && Refusal(failClosed, quotas[n], Count(s, quotas, now, reach, n)) == Some(d)
    && s' == After(s, quotas, now, reach, n + 1)
  }

  /**
   A call is allowed exactly when every applicable quota lets it pass; otherwise
   the first one that does not decides, and no later one is counted.
   */
  predicate Decides(failClosed: bool, s: Store, quotas: seq<Quota>, now: int, reach: seq<Reach>, d: Decision, s': Store)
    requires |quotas| <= |reach|
  {
    if d.allowed then
      && d == Decision(true, None, 0, -1, false) && s' == After(s, quotas, now, reach, |quotas|)
      && forall i :: 0 <= i < |quotas| ==> Passes(failClosed, s, quotas, now, reach, i)
    else
      exists n :: 0 <= n < |quotas| && Refuses(failClosed, s, quotas, now, reach, d, s', n)
  }

  /** The first n quotas were counted and let the call pass. */
  predicate PassedSoFar(failClosed: bool, s: Store, quotas: seq<Quota>, now: int, reach: seq<Reach>, n: nat, s': Store)
    requires n <= |quotas| <= |reach|
  {
    s' == After(s, quotas, now, reach, n) && forall i :: 0 <= i < n ==> Passes(failClosed, s, quotas, now, reach, i)
  }

  class Limiter {
    const failClosed: bool
    var counters: map<Text, Counter>
    var rows: Rows

    ghost function View(): Store
      reads this
    {
      Store(counters, rows)
    }

    constructor (failClosed: bool)
      ensures this.failClosed == failClosed && View() == Store(map[], map[])
    {
      this.failClosed := failClosed;
      counters, rows := map[], map[];
    }

    method IncrementWindow(key: Text, window: int, now: int) returns (count: int, ttl: int)
      modifies this`counters
      ensures counters == IncrCache(old(counters), key, window, now)
      ensures count == CacheCount(old(counters), key, now) && ttl == window
      ensures counters[key].expiresAt == now + window
      ensures forall other :: other != key ==>
                (other in counters <==> other in old(counters))
                && (other in counters ==> counters[other] == old(counters)[other])
    {
      count := 1;
      if key in counters && now < counters[key].expiresAt {
        count := counters[key].count + 1;
      }
      counters := counters[key := Counter(count, now + window)];
      ttl := counters[key].expiresAt - now;
    }

    /** Increments the row and reads it back in a second statement; a row gone by then is an error. */
    method IncrementDB(bucket: Text, window: int, now: int, others: Rows -> Rows) returns (count: Option<int>, ttl: int)
      modifies this`rows
      ensures var row := (bucket, WindowStart(now, window));
        && rows == others(IncrRow(old(rows), row)) && ttl == row.1 + window - now
        && count == if row in rows then Some(rows[row]) else None
    {
      var windowStart := if window <= 0 then now else now - now % window;
      var row := (bucket, windowStart);
      if row in rows {
        rows := rows[row := rows[row] + 1];
      } else {
        rows := rows[row := 1];
      }
      rows := others(rows);
      count := if row in rows then Some(rows[row]) else None;
      ttl := windowStart + window - now;
    }

    method Increment(q: Quota, now: int, reach: Reach) returns (r: Option<Counted>)
      modifies this
      ensures (View(), r) == Incremented(old(View()), q, now, reach)
    {
      if reach.cache {
        var count, ttl := IncrementWindow(q.bucket, q.rule.window, now);
        return Some(Counted(count, ttl));
      }
      if !reach.db {
        return None;
      }
      var count, ttl := IncrementDB(q.bucket, q.rule.window, now, reach.others);
      return if count.Some? then Some(Counted(count.value, ttl)) else None;
    }

    /** Counts one quota and returns the refusal it leads to, if any. */
    method Check(q: Quota, now: int, reach: Reach) returns (d: Option<Decision>)
      modifies this
      ensures View() == Incremented(old(View()), q, now, reach).0
      ensures d == Refusal(failClosed, q, Incremented(old(View()), q, now, reach).1)
    {
      var r := Increment(q, now, reach);
      if r.None? {
        if failClosed {
          return Some(Decision(false, Some(q.rule.dimension), SECOND, 0, true));
        }
        return None;
      }
      if r.value.count > q.rule.limit {
        var retry := r.value.ttl;
        if retry <= 0 {
          retry := q.rule.window;
        }
        return Some(Decision(false, Some(q.rule.dimension), retry, 0, false));
      }
      return None;
    }

    /** Counts the n-th applicable quota, when all before it passed. */
    method CheckNext(q: Quota, now: int, reach: seq<Reach>, n: nat, ghost start: Store, ghost quotas: seq<Quota>)
      returns (d: Option<Decision>)
      requires n < |quotas| <= |reach| && q == quotas[n]
      requires PassedSoFar(failClosed, start, quotas, now, reach, n, View())
      modifies this
      ensures if d.Some? then Decides(failClosed, start, quotas, now, reach, d.value, View())
              else PassedSoFar(failClosed, start, quotas, now, reach, n + 1, View())
    {
      d := Check(q, now, reach[n]);
      if d.Some? {
        RefusesDecides(failClosed, start, quotas, now, reach, d.value, View(), n);
      }
    }

    /** reach[i] says which stores answer for the i-th rule that applies. */
    method Allow(route: Text, keys: seq<Key>, rules: seq<Rule>, now: int, reach: seq<Reach>) returns (d: Decision)
      requires |rules| <= |reach|
      modifies this
      ensures |Applicable(route, keys, rules)| <= |reach|
      ensures Decides(failClosed, old(View()), Applicable(route, keys, rules), now, reach, d, View())
    {
      ApplicableSize(route, keys, rules);
      ghost var quotas := Applicable(route, keys, rules);
      ghost var start := View();
      var values := CollectValues(keys);
      var n := 0;
      assert rules[0..] == rules;
      for i := 0 to |rules|
        invariant n <= |quotas| && quotas[n..] == Applicable(route, keys, rules[i..])
        invariant PassedSoFar(failClosed, start, quotas, now, reach, n, View())
      {
        var rule := rules[i];
        ApplicableStep(route, keys, rules, i);
        if rule.dimension !in values {
          continue;
        }
        var q := Quota(rule, Bucket(route, rule.dimension, values[rule.dimension]));
        assert quotas[n..][0] == q && quotas[n..][1..] == quotas[n + 1..];
        var refusal := CheckNext(q, now, reach, n, start, quotas);
        if refusal.Some? {
          return refusal.value;
        }
        n := n + 1;
      }
      assert n == |quotas|;
      AllPassDecides(failClosed, start, quotas, now, reach, View());
      return ALLOWED;
    }
  }

  lemma RefusesDecides(failClosed: bool, s: Store, quotas: seq<Quota>, now: int, reach: seq<Reach>,
                       d: Decision, s': Store, n: nat)
    requires n < |quotas| <= |reach|
    requires Refuses(failClosed, s, quotas, now, reach, d, s', n)
    ensures !d.allowed && Decides(failClosed, s, quotas, now, reach, d, s')
  {
  }

  lemma AllPassDecides(failClosed: bool, s: Store, quotas: seq<Quota>, now: int, reach: seq<Reach>, s': Store)
    requires |quotas| <= |reach| && s' == After(s, quotas, now, reach, |quotas|)
    requires forall i :: 0 <= i < |quotas| ==> Passes(failClosed, s, quotas, now, reach, i)
    ensures Decides(failClosed, s, quotas, now, reach, ALLOWED, s')
  {
  }

  lemma ApplicableStep(route: Text, keys: seq<Key>, rules: seq<Rule>, i: nat)
    requires i < |rules|
    ensures var v := Supplied(keys, rules[i].dimension);
            var more := Applicable(route, keys, rules[i + 1..]);
            Applicable(route, keys, rules[i..])
            == if v.Some? then [Quota(rules[i], Bucket(route, rules[i].dimension, v.value))] + more else more
  {
    assert rules[i..][1..] == rules[i + 1..];
  }

  method CollectValues(keys: seq<Key>) returns (values: map<Text, Text>)
    ensures forall d :: d in values <==> Supplied(keys, d).Some?
    ensures forall d :: d in values ==> values[d] == Supplied(keys, d).value
  {
    values := map[];
    for i := 0 to |keys|
      invariant forall d :: d in values <==> Supplied(keys[..i], d).Some?
      invariant forall d :: d in values ==> values[d] == Supplied(keys[..i], d).value
    {
      assert keys[..i + 1][..i] == keys[..i];
      if keys[i].value != [] {
        values := values[keys[i].dimension := keys[i].value];
      }
    }
    assert keys[..|keys|] == keys;
  }

  lemma {:induction false} ApplicableSize(route: Text, keys: seq<Key>, rules: seq<Rule>)
    ensures |Applicable(route, keys, rules)| <= |rules|
  {
    if rules != [] {
      ApplicableSize(route, keys, rules[1..]);
    }
  }

  /** A limiter that fails closed admits a call only if every applicable rule was counted within its limit. */
  lemma FailClosedCounts(s: Store, quotas: seq<Quota>, now: int, reach: seq<Reach>, d: Decision, s': Store)
    requires |quotas| <= |reach| && Decides(true, s, quotas, now, reach, d, s')
    ensures d.allowed <==> forall i :: 0 <= i < |quotas| ==>
              && Count(s, quotas, now, reach, i).Some?
              && Count(s, quotas, now, reach, i).value.count <= quotas[i].rule.limit
  {
    if !d.allowed {
      var n :| 0 <= n < |quotas| && Refuses(true, s, quotas, now, reach, d, s', n);
      assert Count(s, quotas, now, reach, n).None?
          || Count(s, quotas, now, reach, n).value.count > quotas[n].rule.limit;
    } else {
      forall i | 0 <= i < |quotas|
        ensures Count(s, quotas, now, reach, i).Some?
             && Count(s, quotas, now, reach, i).value.count <= quotas[i].rule.limit
      {
        assert Passes(true, s, quotas, now, reach, i);
      }
    }
  }

  /** A limiter that fails open admits a call exactly when every rule that could be counted was within its limit. */
  lemma FailOpenCounts(s: Store, quotas: seq<Quota>, now: int, reach: seq<Reach>, d: Decision, s': Store)
    requires |quotas| <= |reach| && Decides(false, s, quotas, now, reach, d, s')
    ensures d.allowed <==> forall i :: 0 <= i < |quotas| ==>
              Count(s, quotas, now, reach, i).Some? ==>
                Count(s, quotas, now, reach, i).value.count <= quotas[i].rule.limit
  {
    if !d.allowed {
      var n :| 0 <= n < |quotas| && Refuses(false, s, quotas, now, reach, d, s', n);
      assert Count(s, quotas, now, reach, n).Some?
          && Count(s, quotas, now, reach, n).value.count > quotas[n].rule.limit;
    } else {
      forall i | 0 <= i < |quotas| && Count(s, quotas, now, reach, i).Some?
        ensures Count(s, quotas, now, reach, i).value.count <= quotas[i].rule.limit
      {
        assert Passes(false, s, quotas, now, reach, i);
      }
    }
  }

  /**
   A refusal names a rule of the call. It asks to wait a second if nothing could be
   counted, a whole window if the cache counted, and otherwise to the end of the
   aligned window.
   */
  lemma RefusalWaits(failClosed: bool, s: Store, quotas: seq<Quota>, now: int, reach: seq<Reach>,
                     d: Decision, s': Store)
    requires |quotas| <= |reach| && Decides(failClosed, s, quotas, now, reach, d, s') && !d.allowed
    requires forall i :: 0 <= i < |quotas| ==> quotas[i].rule.window > 0
    ensures exists n :: 0 <= n < |quotas| && d.dimension == Some(quotas[n].rule.dimension)
              && var window := quotas[n].rule.window;
                 if d.failedClosed then d.retryAfter == 1_000_000_000
                 else if reach[n].cache then d.retryAfter == window
                 else 0 < d.retryAfter <= window && (now + d.retryAfter) % window == 0
  {
    var n :| 0 <= n < |quotas| && Refuses(failClosed, s, quotas, now, reach, d, s', n);
    var window := quotas[n].rule.window;
    assert window > 0;
    NextStart(WindowStart(now, window), window);
  }

  lemma NextStart(start: int, window: int)
    requires window > 0 && start % window == 0
    ensures (start + window) % window == 0
  {
    var q := start / window;
    assert start == window * q;
    assert start + window == window * (q + 1);
    Multiple(q + 1, window);
  }

  // ---------- Calls of different subjects ----------

  /** The two stores hold the same counters and rows for these buckets. */
  ghost predicate AgreeOn(s: Store, t: Store, buckets: set<Text>) {
    && (forall b :: b in buckets ==>
          (b in s.counters <==> b in t.counters) && (b in s.counters ==> s.counters[b] == t.counters[b]))
    && (forall row: (Text, int) :: row.0 in buckets ==>
          (row in s.rows <==> row in t.rows) && (row in s.rows ==> s.rows[row] == t.rows[row]))
  }

  function Buckets(quotas: seq<Quota>): set<Text> {
    set i | 0 <= i < |quotas| :: quotas[i].bucket
  }

  /** Nobody else writes the counter rows meanwhile. */
  ghost predicate Quiet(reach: seq<Reach>) {
    forall i, rows :: 0 <= i < |reach| ==> reach[i].others(rows) == rows
  }

  /** Counting one quota leaves every other bucket alone. */
  lemma IncrementElsewhere(s: Store, q: Quota, now: int, reach: Reach, buckets: set<Text>)
    requires q.bucket !in buckets && forall rows :: reach.others(rows) == rows
    ensures AgreeOn(Incremented(s, q, now, reach).0, s, buckets)
  {
  }

  /** It depends on its own bucket alone. */
  lemma IncrementAgrees(s: Store, t: Store, q: Quota, now: int, reach: Reach, buckets: set<Text>)
    requires AgreeOn(s, t, buckets) && q.bucket in buckets && forall rows :: reach.others(rows) == rows
    ensures AgreeOn(Incremented(s, q, now, reach).0, Incremented(t, q, now, reach).0, buckets)
    ensures Incremented(s, q, now, reach).1 == Incremented(t, q, now, reach).1
  {
  }

  lemma {:induction false} AfterElsewhere(s: Store, quotas: seq<Quota>, now: int, reach: seq<Reach>, n: nat,
                                          buckets: set<Text>)
    requires n <= |quotas| <= |reach| && Quiet(reach) && Buckets(quotas) !! buckets
    ensures AgreeOn(After(s, quotas, now, reach, n), s, buckets)
  {
    if n > 0 {
      AfterElsewhere(s, quotas, now, reach, n - 1, buckets);
      assert quotas[n - 1].bucket in Buckets(quotas);
      IncrementElsewhere(After(s, quotas, now, reach, n - 1), quotas[n - 1], now, reach[n - 1], buckets);
    }
  }

  lemma {:induction false} AfterAgrees(s: Store, t: Store, quotas: seq<Quota>, now: int, reach: seq<Reach>, n: nat)
    requires n <= |quotas| <= |reach| && Quiet(reach) && AgreeOn(s, t, Buckets(quotas))
    ensures AgreeOn(After(s, quotas, now, reach, n), After(t, quotas, now, reach, n), Buckets(quotas))
    ensures forall i :: 0 <= i < n ==> Count(s, quotas, now, reach, i) == Count(t, quotas, now, reach, i)
  {
    if n > 0 {
      AfterAgrees(s, t, quotas, now, reach, n - 1);
      assert quotas[n - 1].bucket in Buckets(quotas);
      IncrementAgrees(After(s, quotas, now, reach, n - 1), After(t, quotas, now, reach, n - 1),
                      quotas[n - 1], now, reach[n - 1], Buckets(quotas));
    }
  }

  lemma AllowedIffPasses(failClosed: bool, s: Store, quotas: seq<Quota>, now: int, reach: seq<Reach>,
                         d: Decision, s': Store)
    requires |quotas| <= |reach| && Decides(failClosed, s, quotas, now, reach, d, s')
    ensures d.allowed <==> forall i :: 0 <= i < |quotas| ==> Passes(failClosed, s, quotas, now, reach, i)
  {
    if !d.allowed {
      var n :| 0 <= n < |quotas| && Refuses(failClosed, s, quotas, now, reach, d, s', n);
      assert !Passes(failClosed, s, quotas, now, reach, n);
    }
  }

  /** Counting the i-th quota gives the same in both stores. */
  predicate SameCount(s: Store, t: Store, quotas: seq<Quota>, now: int, reach: seq<Reach>, i: nat)
    requires i < |quotas| <= |reach|
  {
    Count(s, quotas, now, reach, i) == Count(t, quotas, now, reach, i)
  }

  predicate SameCounts(s: Store, t: Store, quotas: seq<Quota>, now: int, reach: seq<Reach>)
    requires |quotas| <= |reach|
  {
    forall i :: 0 <= i < |quotas| ==> SameCount(s, t, quotas, now, reach, i)
  }

  lemma PassesAgree(failClosed: bool, s: Store, t: Store, quotas: seq<Quota>, now: int, reach: seq<Reach>, i: nat)
    requires i < |quotas| <= |reach| && SameCounts(s, t, quotas, now, reach)
    ensures Passes(failClosed, s, quotas, now, reach, i) <==> Passes(failClosed, t, quotas, now, reach, i)
  {
    assert SameCount(s, t, quotas, now, reach, i);
  }

  /** The first refusal is the same one, and says the same. */
  lemma RefusalsAgree(failClosed: bool, s: Store, t: Store, quotas: seq<Quota>, now: int, reach: seq<Reach>,
                      d: Decision, s': Store, n: nat, e: Decision, t': Store, m: nat)
    requires n < |quotas| <= |reach| && m < |quotas| && SameCounts(s, t, quotas, now, reach)
    requires Refuses(failClosed, s, quotas, now, reach, d, s', n)
    requires Refuses(failClosed, t, quotas, now, reach, e, t', m)
    ensures n == m && d == e
  {
    PassesAgree(failClosed, s, t, quotas, now, reach, n);
    PassesAgree(failClosed, s, t, quotas, now, reach, m);
    assert SameCount(s, t, quotas, now, reach, n);
  }

  /** Equal counts lead to the same decision after equally many quotas. */
  lemma SameOutcome(failClosed: bool, s: Store, t: Store, quotas: seq<Quota>, now: int, reach: seq<Reach>,
                    d: Decision, s': Store, e: Decision, t': Store) returns (n: nat)
    requires |quotas| <= |reach| && SameCounts(s, t, quotas, now, reach)
    requires Decides(failClosed, s, quotas, now, reach, d, s') && Decides(failClosed, t, quotas, now, reach, e, t')
    ensures d == e && n <= |quotas| && s' == After(s, quotas, now, reach, n) && t' == After(t, quotas, now, reach, n)
  {
    AllowedIffPasses(failClosed, s, quotas, now, reach, d, s');
    AllowedIffPasses(failClosed, t, quotas, now, reach, e, t');
    forall i | 0 <= i < |quotas|
      ensures Passes(failClosed, s, quotas, now, reach, i) <==> Passes(failClosed, t, quotas, now, reach, i)
    {
      PassesAgree(failClosed, s, t, quotas, now, reach, i);
    }
    if d.allowed {
      n := |quotas|;
    } else {
      var k :| 0 <= k < |quotas| && Refuses(failClosed, s, quotas, now, reach, d, s', k);
      var m :| 0 <= m < |quotas| && Refuses(failClosed, t, quotas, now, reach, e, t', m);
      RefusalsAgree(failClosed, s, t, quotas, now, reach, d, s', k, e, t', m);
      n := k + 1;
    }
  }

  lemma CountsAgree(s: Store, t: Store, quotas: seq<Quota>, now: int, reach: seq<Reach>)
    requires |quotas| <= |reach| && Quiet(reach) && AgreeOn(s, t, Buckets(quotas))
    ensures SameCounts(s, t, quotas, now, reach)
  {
    AfterAgrees(s, t, quotas, now, reach, |quotas|);
  }

  /** A decision depends only on what the stores hold for the call's own buckets, and leaves them alike. */
  lemma DecisionAgrees(failClosed: bool, s: Store, t: Store, quotas: seq<Quota>, now: int, reach: seq<Reach>,
                       d: Decision, s': Store, e: Decision, t': Store)
    requires |quotas| <= |reach| && Quiet(reach) && AgreeOn(s, t, Buckets(quotas))
    requires Decides(failClosed, s, quotas, now, reach, d, s') && Decides(failClosed, t, quotas, now, reach, e, t')
    ensures d == e && AgreeOn(s', t', Buckets(quotas))
  {
    CountsAgree(s, t, quotas, now, reach);
    var n := SameOutcome(failClosed, s, t, quotas, now, reach, d, s', e, t');
    AfterAgrees(s, t, quotas, now, reach, n);
  }

  /** Whatever both calls supply for a dimension differs. */
  predicate DifferentSubjects(keys: seq<Key>, keys': seq<Key>, rules: seq<Rule>) {
    forall i :: 0 <= i < |rules| ==>
      var v, w := Supplied(keys, rules[i].dimension), Supplied(keys', rules[i].dimension);
      v.Some? && w.Some? ==> v != w
  }

  lemma DifferentBuckets(route: Text, keys: seq<Key>, keys': seq<Key>, rules: seq<Rule>)
    requires BarFree(route) && (forall i :: 0 <= i < |rules| ==> BarFree(rules[i].dimension))
    requires DifferentSubjects(keys, keys', rules)
    ensures Buckets(Applicable(route, keys, rules)) !! Buckets(Applicable(route, keys', rules))
  {
    var a, b := Applicable(route, keys, rules), Applicable(route, keys', rules);
    forall i, j | 0 <= i < |a| && 0 <= j < |b| ensures a[i].bucket != b[j].bucket {
      ApplicableIffSupplied(route, keys, rules, a[i]);
      ApplicableIffSupplied(route, keys', rules, b[j]);
      var p, q := a[i].rule.dimension, b[j].rule.dimension;
      SameBucketIff(route, p, Supplied(keys, p).value, route, q, Supplied(keys', q).value);
    }
  }

  /** A decision leaves the buckets of other quotas alone. */
  lemma DecidedElsewhere(failClosed: bool, s: Store, quotas: seq<Quota>, now: int, reach: seq<Reach>,
                         d: Decision, s': Store, buckets: set<Text>)
    requires |quotas| <= |reach| && Quiet(reach) && Buckets(quotas) !! buckets
    requires Decides(failClosed, s, quotas, now, reach, d, s')
    ensures AgreeOn(s, s', buckets)
  {
    var n := |quotas|;
    if !d.allowed {
      var k :| 0 <= k < |quotas| && Refuses(failClosed, s, quotas, now, reach, d, s', k);
      n := k + 1;
    }
    AfterElsewhere(s, quotas, now, reach, n, buckets);
  }

  /**
   A call of one subject leaves the decision about a call of another, and what its
   buckets then hold, exactly as they would have been without it.
   */
  lemma OthersUnaffected(failClosed: bool, s: Store, route: Text, rules: seq<Rule>,
                         keys: seq<Key>, now: int, reach: seq<Reach>, d: Decision, s1: Store,
                         keys': seq<Key>, now': int, reach': seq<Reach>, e: Decision, t: Store, e1: Decision, t1: Store)
    requires BarFree(route) && (forall i :: 0 <= i < |rules| ==> BarFree(rules[i].dimension))
    requires |rules| <= |reach| && |rules| <= |reach'| && Quiet(reach) && Quiet(reach')
    requires DifferentSubjects(keys, keys', rules)
    requires |Applicable(route, keys, rules)| <= |reach| && |Applicable(route, keys', rules)| <= |reach'|
    requires Decides(failClosed, s, Applicable(route, keys, rules), now, reach, d, s1)
    requires Decides(failClosed, s, Applicable(route, keys', rules), now', reach', e, t)
    requires Decides(failClosed, s1, Applicable(route, keys', rules), now', reach', e1, t1)
    ensures e1 == e && AgreeOn(t, t1, Buckets(Applicable(route, keys', rules)))
  {
    var a, b := Applicable(route, keys, rules), Applicable(route, keys', rules);
    DifferentBuckets(route, keys, keys', rules);
    DecidedElsewhere(failClosed, s, a, now, reach, d, s1, Buckets(b));
    DecisionAgrees(failClosed, s, s1, b, now', reach', e, t, e1, t1);
  }
}
