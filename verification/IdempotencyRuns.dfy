/**
 Any number of concurrent requests against one idempotency table. The insert is
 one step, the decision under the row lock another; a row found absent is
 inserted again in a third. Owners may answer inside their own transaction,
 settle once, or be lost; expired rows are purged at any time. An attempt of
 Begin's transaction that took the key can be rolled back and retried: the
 captured "owned" stays set, and an answer found later is then not replayed but
 taken for ownership. ExclusiveIff says exactly when keys have one owner.
 */
module IdempotencyRuns {
  import opened Runes
  import opened Wrappers
  import opened Idempotency

  datatype Phase = Arrived | Contending | Missing | Owning | Answered(answer: Begun) | Ended

  /** retaken is the captured "owned" of an attempt that was rolled back. */
  datatype Process = Process(request: Request, phase: Phase, retaken: bool)

  /** A response as it is stored. */
  datatype Response = Response(status: int, body: Text, resource: Option<int>)

  /** Claims granted and failures recorded since the row was last inserted or taken over expired. */
  datatype Tally = Tally(grants: nat, fails: nat)

  datatype System = System(clock: int, rows: Table, processes: seq<Process>, tally: map<RowKey, Tally>)

  datatype Deed =
    | TryInsert | Lookup | Reinsert | Retry | RollBack | GiveUp
    | AnswerInTx(r: Response) | Complete(r: Response) | Fail | Lose

  datatype Act =
    | Tick(elapsed: nat)
    | Arrive(key: RowKey, route: Text, hash: Text)
    | PurgeRows(doomed: set<RowKey>)
    | By(process: nat, deed: Deed)

  // ---------- Steps ----------

  function At(s: System, i: nat, phase: Phase): System
    requires i < |s.processes|
  {
    s.(processes := s.processes[i := s.processes[i].(phase := phase)])
  }

  function Granted(tally: map<RowKey, Tally>, k: RowKey, newLifetime: bool): map<RowKey, Tally> {
    if newLifetime || k !in tally then tally[k := Tally(1, 0)]
    else tally[k := tally[k].(grants := tally[k].grants + 1)]
  }

  function Claim(s: System, i: nat, ttl: int, newLifetime: bool): System
    requires i < |s.processes|
  {
    var r := s.processes[i].request;
    At(s, i, Owning).(rows := s.rows[r.key := Claimed(r, ttl)], tally := Granted(s.tally, r.key, newLifetime))
  }

  function StoreAnswer(s: System, k: RowKey, r: Response): System {
    s.(rows := CompleteRow(s.rows, k, r.status, r.body, r.resource))
  }

  /** Only a failure that changes the row is counted. */
  function RecordFailure(s: System, k: RowKey): System {
    var effective := k in s.rows && s.rows[k].state == InProgress && k in s.tally;
    s.(rows := FailRow(s.rows, k),
       tally := if effective then s.tally[k := s.tally[k].(fails := s.tally[k].fails + 1)] else s.tally)
  }

  /** A committed attempt; a stored answer counts as ownership when an earlier attempt left owned set. */
  function Decided(s: System, i: nat, ttl: int): System
    requires i < |s.processes|
  {
    var r := s.processes[i].request;
    if r.key !in s.rows then At(s, i, Missing)
    else if Takes(r, s.rows) then Claim(s, i, ttl, s.rows[r.key].expiresAt < r.now)
    else if s.processes[i].retaken && Decide(s.rows[r.key], r) == Replay then At(s, i, Owning)
    else At(s, i, Answered(Answer(s.rows[r.key], r)))
  }

  /** An attempt that is rolled back and retried: it leaves no row, but may leave owned set. */
  function RolledBack(s: System, i: nat): System
    requires i < |s.processes|
  {
    var p := s.processes[i];
    if p.phase in {Contending, Missing} && Takes(p.request, s.rows)
       && (p.phase == Missing <==> p.request.key !in s.rows) then
      s.(processes := s.processes[i := p.(phase := Contending, retaken := true)])
    else s
  }

  /** A deed of process i; one that its phase does not allow changes nothing. */
  function Do(s: System, i: nat, deed: Deed, ttl: int): System
    requires i < |s.processes|
  {
    var p := s.processes[i];
    match deed
    case TryInsert =>
      if p.phase != Arrived then s
      else if p.request.key in s.rows then At(s, i, Contending)
      else Claim(s, i, ttl, true)
    case Lookup => if p.phase != Contending then s else Decided(s, i, ttl)
    case Reinsert =>
      if p.phase != Missing then s
      else if p.request.key in s.rows then At(s, i, Ended)
      else Claim(s, i, ttl, true)
    case Retry => if p.phase != Missing then s else At(s, i, Contending)
    case RollBack => RolledBack(s, i)
    case GiveUp => if p.phase in {Arrived, Contending, Missing} then At(s, i, Ended) else s
    case AnswerInTx(r) => if p.phase != Owning then s else StoreAnswer(s, p.request.key, r)
    case Complete(r) => if p.phase != Owning then s else At(StoreAnswer(s, p.request.key, r), i, Ended)
    case Fail => if p.phase != Owning then s else At(RecordFailure(s, p.request.key), i, Ended)
    case Lose => if p.phase != Owning then s else At(s, i, Ended)
  }

  function Step(s: System, a: Act, ttl: int): System {
    match a
    case Tick(elapsed) => s.(clock := s.clock + elapsed)
    case Arrive(key, route, hash) =>
      s.(processes := s.processes + [Process(Request(key, route, hash, s.clock), Arrived, false)])
    case PurgeRows(doomed) => s.(rows := s.rows - (doomed * Expired(s.rows, s.clock)))
    case By(i, deed) => if i < |s.processes| then Do(s, i, deed, ttl) else s
  }

  /** Undisturbed, the insert and the decision under the lock are together Idempotency's Begin. */
  lemma UndisturbedBegin(s: System, i: nat, ttl: int)
    requires i < |s.processes| && s.processes[i].phase == Arrived && !s.processes[i].retaken
    ensures var t := Do(Do(s, i, TryInsert, ttl), i, Lookup, ttl);
      exists b :: Begins(s.rows, s.processes[i].request, ttl, t.rows, b)
                  && t.processes[i].phase == if b == Owned then Owning else Answered(b)
  {
    var r, t := s.processes[i].request, Do(Do(s, i, TryInsert, ttl), i, Lookup, ttl);
    var b := if Takes(r, s.rows) then Owned else Answer(s.rows[r.key], r);
    assert Begins(s.rows, r, ttl, t.rows, b);
  }

  /** On an existing row, a committed and a rolled-back attempt are runs of Begin's transaction body. */
  lemma AttemptRunsBody(s: System, i: nat, ttl: int)
    requires i < |s.processes| && s.processes[i].phase == Contending && s.processes[i].request.key in s.rows
    ensures var p := s.processes[i];
      var ran := SlowBody(p.request, ttl, s.rows, Captured(p.retaken, None));
      var lost, kept := Do(s, i, RollBack, ttl), Do(s, i, Lookup, ttl);
      && lost.rows == s.rows && lost.processes[i].retaken == ran.memory.owned
      && kept.rows == ran.state
      && (kept.processes[i].phase == Owning <==> ran.error.None? && ran.memory.owned)
      && (ran.error.None? && !ran.memory.owned ==>
            kept.processes[i].phase == Answered(Stored(s.rows[p.request.key])))
  {
  }

  function After(s: System, acts: seq<Act>, ttl: int): System {
    if acts == [] then s else Step(After(s, acts[..|acts| - 1], ttl), acts[|acts| - 1], ttl)
  }

  const START := System(0, map[], [], map[])

  // ---------- The hypotheses ----------

  predicate TimelyAt(s: System, i: nat, d: int)
    requires i < |s.processes|
  {
    s.processes[i].phase == Owning ==> s.clock <= s.processes[i].request.now + d
  }

  predicate Timely(s: System, d: int) {
    forall i :: 0 <= i < |s.processes| ==> TimelyAt(s, i, d)
  }

  /** Throughout the run, owners settle within d of the time their request began. */
  predicate SettledWithin(s: System, acts: seq<Act>, d: int, ttl: int) {
    forall n :: 0 <= n <= |acts| ==> Timely(After(s, acts[..n], ttl), d)
  }

  predicate RollsBack(a: Act) {
    a.By? && a.deed == RollBack
  }

  predicate NoClaimRolledBack(acts: seq<Act>) {
    forall n :: 0 <= n < |acts| ==> !RollsBack(acts[n])
  }

  /** Owners settle before their claim expires, and no attempt that took a key is rolled back. */
  predicate TimelyRun(s: System, acts: seq<Act>, ttl: int) {
    SettledWithin(s, acts, ttl, ttl) && NoClaimRolledBack(acts)
  }

  // ---------- The invariant ----------

  /** What an owner may rely on: the row is its own claim, not failed and not replaced. */
  predicate Holds(s: System, i: nat, ttl: int)
    requires i < |s.processes|
  {
    var r := s.processes[i].request;
    && r.now <= s.clock && !s.processes[i].retaken
    && (s.processes[i].phase == Owning ==>
          && r.key in s.rows
          && s.rows[r.key].state != FailedRetryable
          && s.rows[r.key].route == r.route && s.rows[r.key].hash == r.hash
          && s.rows[r.key].expiresAt == r.now + ttl)
  }

  predicate OwnsKey(s: System, i: nat, k: RowKey)
    requires i < |s.processes|
  {
    s.processes[i].phase == Owning && s.processes[i].request.key == k
  }

  predicate NoOwner(s: System, k: RowKey) {
    forall j :: 0 <= j < |s.processes| ==> !OwnsKey(s, j, k)
  }

  /** Two processes do not own the same key. */
  predicate Apart(s: System, i: nat, j: nat)
    requires i < |s.processes| && j < |s.processes|
  {
    OwnsKey(s, i, s.processes[i].request.key) && OwnsKey(s, j, s.processes[i].request.key) ==> i == j
  }

  predicate SingleOwner(s: System) {
    forall i, j :: 0 <= i < |s.processes| && 0 <= j < |s.processes| ==> Apart(s, i, j)
  }

  /** Claims minus effective failures: 0 when the row has failed, 1 otherwise. */
  predicate Balanced(s: System, k: RowKey) {
    k in s.rows ==>
      && k in s.tally
      && s.tally[k].grants - s.tally[k].fails == if s.rows[k].state == FailedRetryable then 0 else 1
  }

  predicate Inv(s: System, ttl: int) {
    && (forall i :: 0 <= i < |s.processes| ==> Holds(s, i, ttl))
    && SingleOwner(s)
    && (forall k :: k in s.rows ==> Balanced(s, k))
  }

  // ---------- Every step keeps the invariant ----------

  /** Every owner of t owned the same key in s. */
  predicate OwnersFrom(s: System, t: System) {
    forall j | 0 <= j < |t.processes| && t.processes[j].phase == Owning ::
      j < |s.processes| && s.processes[j] == t.processes[j]
  }

  lemma OwnersStayApart(s: System, t: System)
    requires SingleOwner(s) && OwnersFrom(s, t)
    ensures SingleOwner(t)
  {
    forall i, j | 0 <= i < |t.processes| && 0 <= j < |t.processes| ensures Apart(t, i, j) {
      if t.processes[i].phase == Owning && t.processes[j].phase == Owning {
        assert Apart(s, i, j);
      }
    }
  }

  lemma AtKeepsInv(s: System, i: nat, phase: Phase, ttl: int)
    requires i < |s.processes| && phase != Owning && Inv(s, ttl)
    ensures Inv(At(s, i, phase), ttl)
  {
    var t := At(s, i, phase);
    OwnersStayApart(s, t);
    forall j | 0 <= j < |t.processes| ensures Holds(t, j, ttl) {
      assert Holds(s, j, ttl);
    }
    forall k | k in t.rows ensures Balanced(t, k) {
      assert Balanced(s, k);
    }
  }

  /** A live owner's row is present, not failed, and its claim has not expired. */
  lemma UnclaimedHasNoOwner(s: System, k: RowKey, now: int, ttl: int)
    requires Inv(s, ttl) && Timely(s, ttl) && now <= s.clock
    requires k in s.rows ==> s.rows[k].state == FailedRetryable || s.rows[k].expiresAt < now
    ensures NoOwner(s, k)
  {
    forall j | 0 <= j < |s.processes| ensures !OwnsKey(s, j, k) {
      assert Holds(s, j, ttl) && TimelyAt(s, j, ttl);
    }
  }

  lemma ClaimKeepsInv(s: System, i: nat, newLifetime: bool, ttl: int)
    requires i < |s.processes| && Inv(s, ttl) && NoOwner(s, s.processes[i].request.key)
    requires !newLifetime ==> s.processes[i].request.key in s.rows
                              && s.rows[s.processes[i].request.key].state == FailedRetryable
    ensures Inv(Claim(s, i, ttl, newLifetime), ttl)
  {
    var t, key := Claim(s, i, ttl, newLifetime), s.processes[i].request.key;
    forall j | 0 <= j < |t.processes| ensures Holds(t, j, ttl) {
      assert Holds(s, j, ttl) && !OwnsKey(s, j, key);
    }
    forall j, j' | 0 <= j < |t.processes| && 0 <= j' < |t.processes| ensures Apart(t, j, j') {
      assert Apart(s, j, j') && !OwnsKey(s, j, key) && !OwnsKey(s, j', key);
    }
    forall k | k in t.rows ensures Balanced(t, k) {
      assert k in s.rows ==> Balanced(s, k);
    }
  }

  lemma StoreAnswerKeepsInv(s: System, i: nat, r: Response, ttl: int)
    requires i < |s.processes| && Inv(s, ttl) && s.processes[i].phase == Owning
    ensures Inv(StoreAnswer(s, s.processes[i].request.key, r), ttl)
  {
    var t := StoreAnswer(s, s.processes[i].request.key, r);
    OwnersStayApart(s, t);
    assert Holds(s, i, ttl);
    forall j | 0 <= j < |t.processes| ensures Holds(t, j, ttl) {
      assert Holds(s, j, ttl);
    }
    forall k | k in t.rows ensures Balanced(t, k) {
      assert Balanced(s, k);
    }
  }

  lemma RecordFailureKeepsInv(s: System, i: nat, ttl: int)
    requires i < |s.processes| && Inv(s, ttl) && s.processes[i].phase == Owning
    ensures Inv(At(RecordFailure(s, s.processes[i].request.key), i, Ended), ttl)
  {
    var key := s.processes[i].request.key;
    var t := At(RecordFailure(s, key), i, Ended);
    OwnersStayApart(s, t);
    assert Holds(s, i, ttl);
    forall j | 0 <= j < |t.processes| ensures Holds(t, j, ttl) {
      assert Holds(s, j, ttl) && Apart(s, i, j);
    }
    forall k | k in t.rows ensures Balanced(t, k) {
      assert Balanced(s, k);
    }
  }

  lemma PurgeKeepsInv(s: System, doomed: set<RowKey>, ttl: int)
    requires Inv(s, ttl) && Timely(s, ttl)
    ensures Inv(Step(s, PurgeRows(doomed), ttl), ttl)
  {
    var t := Step(s, PurgeRows(doomed), ttl);
    OwnersStayApart(s, t);
    forall j | 0 <= j < |t.processes| ensures Holds(t, j, ttl) {
      assert Holds(s, j, ttl) && TimelyAt(s, j, ttl);
    }
    forall k | k in t.rows ensures Balanced(t, k) {
      assert Balanced(s, k);
    }
  }

  lemma ArriveKeepsInv(s: System, key: RowKey, route: Text, hash: Text, ttl: int)
    requires Inv(s, ttl)
    ensures Inv(Step(s, Arrive(key, route, hash), ttl), ttl)
  {
    var t := Step(s, Arrive(key, route, hash), ttl);
    OwnersStayApart(s, t);
    forall j | 0 <= j < |t.processes| ensures Holds(t, j, ttl) {
      assert j < |s.processes| ==> Holds(s, j, ttl);
    }
    forall k | k in t.rows ensures Balanced(t, k) {
      assert Balanced(s, k);
    }
  }

  lemma TickKeepsInv(s: System, elapsed: nat, ttl: int)
    requires Inv(s, ttl)
    ensures Inv(Step(s, Tick(elapsed), ttl), ttl)
  {
    var t := Step(s, Tick(elapsed), ttl);
    OwnersStayApart(s, t);
    forall j | 0 <= j < |t.processes| ensures Holds(t, j, ttl) {
      assert Holds(s, j, ttl);
    }
    forall k | k in t.rows ensures Balanced(t, k) {
      assert Balanced(s, k);
    }
  }

  lemma DecidedKeepsInv(s: System, i: nat, ttl: int)
    requires i < |s.processes| && Inv(s, ttl) && Timely(s, ttl)
    ensures Inv(Decided(s, i, ttl), ttl)
  {
    var r := s.processes[i].request;
    assert Holds(s, i, ttl);
    if r.key !in s.rows {
      AtKeepsInv(s, i, Missing, ttl);
    } else if Takes(r, s.rows) {
      UnclaimedHasNoOwner(s, r.key, r.now, ttl);
      ClaimKeepsInv(s, i, s.rows[r.key].expiresAt < r.now, ttl);
    } else {
      AtKeepsInv(s, i, Answered(Answer(s.rows[r.key], r)), ttl);
    }
  }

  lemma InsertKeepsInv(s: System, i: nat, ttl: int)
    requires i < |s.processes| && Inv(s, ttl) && Timely(s, ttl) && s.processes[i].request.key !in s.rows
    ensures Inv(Claim(s, i, ttl, true), ttl)
  {
    UnclaimedHasNoOwner(s, s.processes[i].request.key, s.clock, ttl);
    ClaimKeepsInv(s, i, true, ttl);
  }

  lemma DoKeepsInv(s: System, i: nat, deed: Deed, ttl: int)
    requires i < |s.processes| && deed != RollBack && Inv(s, ttl) && Timely(s, ttl)
    ensures Inv(Do(s, i, deed, ttl), ttl)
  {
    var p := s.processes[i];
    match deed
    case TryInsert =>
      if p.request.key in s.rows { AtKeepsInv(s, i, Contending, ttl); } else { InsertKeepsInv(s, i, ttl); }
    case Lookup => DecidedKeepsInv(s, i, ttl);
    case Reinsert =>
      if p.request.key in s.rows { AtKeepsInv(s, i, Ended, ttl); } else { InsertKeepsInv(s, i, ttl); }
    case Retry => AtKeepsInv(s, i, Contending, ttl);
    case GiveUp => AtKeepsInv(s, i, Ended, ttl);
    case AnswerInTx(r) => if p.phase == Owning { StoreAnswerKeepsInv(s, i, r, ttl); }
    case Complete(r) =>
      if p.phase == Owning {
        StoreAnswerKeepsInv(s, i, r, ttl);
        AtKeepsInv(StoreAnswer(s, p.request.key, r), i, Ended, ttl);
      }
    case Fail => if p.phase == Owning { RecordFailureKeepsInv(s, i, ttl); }
    case Lose => AtKeepsInv(s, i, Ended, ttl);
  }

  lemma StepKeepsInv(s: System, a: Act, ttl: int)
    requires Inv(s, ttl) && Timely(s, ttl) && !RollsBack(a)
    ensures Inv(Step(s, a, ttl), ttl)
  {
    match a
    case Tick(elapsed) => TickKeepsInv(s, elapsed, ttl);
    case Arrive(key, route, hash) => ArriveKeepsInv(s, key, route, hash, ttl);
    case PurgeRows(doomed) => PurgeKeepsInv(s, doomed, ttl);
    case By(i, deed) => if i < |s.processes| { DoKeepsInv(s, i, deed, ttl); }
  }

  lemma {:induction false} RunKeepsInv(s: System, acts: seq<Act>, ttl: int)
    requires Inv(s, ttl) && TimelyRun(s, acts, ttl)
    ensures Inv(After(s, acts, ttl), ttl)
  {
    if acts != [] {
      var before := acts[..|acts| - 1];
      TimelyPrefix(s, acts, |acts| - 1, ttl);
      RunKeepsInv(s, before, ttl);
      assert Timely(After(s, acts[..|acts| - 1], ttl), ttl);
      StepKeepsInv(After(s, before, ttl), acts[|acts| - 1], ttl);
    }
  }

  lemma TimelyPrefix(s: System, acts: seq<Act>, m: nat, ttl: int)
    requires m <= |acts| && TimelyRun(s, acts, ttl)
    ensures TimelyRun(s, acts[..m], ttl)
  {
    assert forall n :: 0 <= n < m ==> acts[..m][n] == acts[n];
    forall n | 0 <= n <= m ensures Timely(After(s, acts[..m][..n], ttl), ttl) {
      assert acts[..m][..n] == acts[..n];
    }
  }

  /**
   In every run whose owners settle before their claim expires: at most one live
   owner per key, whose row is its own unreplaced claim, and claims minus
   effective failures within the row's lifetime are 0 when it has failed and 1
   otherwise.
   */
  lemma OneOwner(acts: seq<Act>, ttl: int)
    requires TimelyRun(START, acts, ttl)
    ensures var s := After(START, acts, ttl);
      && (forall i, j, k | 0 <= i < |s.processes| && 0 <= j < |s.processes| ::
            OwnsKey(s, i, k) && OwnsKey(s, j, k) ==> i == j)
      && (forall i :: 0 <= i < |s.processes| ==> Holds(s, i, ttl))
      && (forall k :: k in s.rows ==> Balanced(s, k))
  {
    RunKeepsInv(START, acts, ttl);
    var s := After(START, acts, ttl);
    forall i, j, k | 0 <= i < |s.processes| && 0 <= j < |s.processes| && OwnsKey(s, i, k) && OwnsKey(s, j, k)
      ensures i == j
    {
      assert Apart(s, i, j);
    }
  }

  lemma AfterOneMore(s: System, acts: seq<Act>, a: Act, ttl: int)
    ensures After(s, acts + [a], ttl) == Step(After(s, acts, ttl), a, ttl)
  {
    assert (acts + [a])[..|acts|] == acts;
  }

  /** Two processes own the same key. */
  predicate Shared(s: System, i: nat, j: nat) {
    && i < |s.processes| && j < |s.processes| && i != j
    && OwnsKey(s, i, s.processes[i].request.key) && OwnsKey(s, j, s.processes[i].request.key)
  }

  lemma SharedIsNotSingle(s: System, i: nat, j: nat)
    requires Shared(s, i, j)
    ensures !SingleOwner(s)
  {
    assert !Apart(s, i, j);
  }

  /** The acts lead to s, and owners settle within d on the way. */
  predicate Leads(acts: seq<Act>, s: System, d: int, ttl: int) {
    After(START, acts, ttl) == s && SettledWithin(START, acts, d, ttl)
  }

  lemma Extend(acts: seq<Act>, s: System, a: Act, t: System, d: int, ttl: int) returns (more: seq<Act>)
    requires Leads(acts, s, d, ttl) && t == Step(s, a, ttl) && Timely(t, d)
    ensures more == acts + [a] && Leads(more, t, d, ttl)
  {
    more := acts + [a];
    AfterOneMore(START, acts, a, ttl);
    forall n | 0 <= n <= |more| ensures Timely(After(START, more[..n], ttl), d) {
      assert if n <= |acts| then more[..n] == acts[..n] else more[..n] == more;
    }
  }

  lemma NothingYet(d: int, ttl: int)
    ensures Leads([], START, d, ttl)
  {
  }

  const KEY := RowKey([], [])

  /** A request for KEY that began at now, and the row it claims in the given state. */
  function Asks(now: int): Request {
    Request(KEY, [], [], now)
  }

  function Holding(now: int, ttl: int, state: State): Table {
    map[KEY := Claimed(Asks(now), ttl).(state := state)]
  }

  const ARRIVE := Arrive(KEY, [], [])

  /** A request arrives and, with ttl to live, claims the free key. */
  lemma FirstOwner(d: nat, ttl: nat) returns (acts: seq<Act>)
    ensures NoClaimRolledBack(acts)
    ensures Leads(acts, System(0, Holding(0, ttl, InProgress), [Process(Asks(0), Owning, false)],
                               map[KEY := Tally(1, 0)]), d, ttl)
  {
    var s1 := System(0, map[], [Process(Asks(0), Arrived, false)], map[]);
    var s2 := System(0, Holding(0, ttl, InProgress), [Process(Asks(0), Owning, false)], map[KEY := Tally(1, 0)]);
    NothingYet(d, ttl);
    acts := Extend([], START, ARRIVE, s1, d, ttl);
    acts := Extend(acts, s1, By(0, TryInsert), s2, d, ttl);
  }

  lemma JoinTimely(s: System, p: Process, d: int)
    requires Timely(s, d) && p.phase != Owning
    ensures Timely(s.(processes := s.processes + [p]), d)
  {
    var t := s.(processes := s.processes + [p]);
    forall i | 0 <= i < |t.processes| ensures TimelyAt(t, i, d) {
      assert i < |s.processes| ==> TimelyAt(s, i, d);
    }
  }

  /** Another request for KEY finds the row and contends for it. */
  lemma NextContender(acts: seq<Act>, s: System, d: nat, ttl: nat) returns (more: seq<Act>)
    requires Leads(acts, s, d, ttl) && Timely(s, d) && KEY in s.rows
    ensures Leads(more, s.(processes := s.processes + [Process(Asks(s.clock), Contending, false)]), d, ttl)
    ensures NoClaimRolledBack(acts) ==> NoClaimRolledBack(more)
  {
    var n, arrived := |s.processes|, Process(Asks(s.clock), Arrived, false);
    var contending := arrived.(phase := Contending);
    var t, u := s.(processes := s.processes + [arrived]), s.(processes := s.processes + [contending]);
    JoinTimely(s, arrived, d);
    JoinTimely(s, contending, d);
    assert u.processes == t.processes[n := contending];
    more := Extend(acts, s, ARRIVE, t, d, ttl);
    more := Extend(more, t, By(n, TryInsert), u, d, ttl);
  }

  /** An owner that may settle after its claim has expired can share the key with the next one. */
  lemma LateOwnerShares(d: nat, ttl: nat) returns (acts: seq<Act>)
    requires d > ttl
    ensures SettledWithin(START, acts, d, ttl) && NoClaimRolledBack(acts)
    ensures Shared(After(START, acts, ttl), 0, 1)
  {
    var late, rows, tally := ttl + 1, Holding(0, ttl, InProgress), map[KEY := Tally(1, 0)];
    var owner := Process(Asks(0), Owning, false);
    var s2, s3 := System(0, rows, [owner], tally), System(late, rows, [owner], tally);
    var s5 := s3.(processes := s3.processes + [Process(Asks(late), Contending, false)]);
    var s6 := Step(s5, By(1, Lookup), ttl);
    acts := FirstOwner(d, ttl);
    acts := Extend(acts, s2, Tick(late), s3, d, ttl);
    acts := NextContender(acts, s3, d, ttl);
    acts := Extend(acts, s5, By(1, Lookup), s6, d, ttl);
  }

  /** Three requests for one key; the first has failed, the others contend. */
  lemma Contenders(d: nat, ttl: nat) returns (acts: seq<Act>)
    ensures Leads(acts, System(0, Holding(0, ttl, FailedRetryable),
      [Process(Asks(0), Ended, false), Process(Asks(0), Contending, false), Process(Asks(0), Contending, false)],
      map[KEY := Tally(1, 1)]), d, ttl)
  {
    var contending := Process(Asks(0), Contending, false);
    var s2 := System(0, Holding(0, ttl, InProgress), [Process(Asks(0), Owning, false)], map[KEY := Tally(1, 0)]);
    var s4 := s2.(processes := s2.processes + [contending]);
    var s6 := s4.(processes := s4.processes + [contending]);
    acts := FirstOwner(d, ttl);
    acts := NextContender(acts, s2, d, ttl);
    acts := NextContender(acts, s4, d, ttl);
    acts := FirstFails(acts, s6, d, ttl);
  }

  lemma FirstFails(acts: seq<Act>, s: System, d: nat, ttl: nat) returns (more: seq<Act>)
    requires Leads(acts, s, d, ttl)
    requires var contending := Process(Asks(0), Contending, false);
      s == System(0, Holding(0, ttl, InProgress), [Process(Asks(0), Owning, false), contending, contending],
                  map[KEY := Tally(1, 0)])
    ensures var contending := Process(Asks(0), Contending, false);
      Leads(more, System(0, Holding(0, ttl, FailedRetryable), [Process(Asks(0), Ended, false), contending, contending],
                         map[KEY := Tally(1, 1)]), d, ttl)
  {
    var contending := Process(Asks(0), Contending, false);
    var t := System(0, Holding(0, ttl, FailedRetryable), [Process(Asks(0), Ended, false), contending, contending],
                    map[KEY := Tally(1, 1)]);
    more := Extend(acts, s, By(0, Fail), t, d, ttl);
  }

  /** One contender's claim is rolled back, then the other takes the key. */
  lemma ClaimRolledBack(d: nat, ttl: nat) returns (acts: seq<Act>)
    ensures Leads(acts, System(0, Holding(0, ttl, InProgress),
      [Process(Asks(0), Ended, false), Process(Asks(0), Contending, true), Process(Asks(0), Owning, false)],
      map[KEY := Tally(2, 1)]), d, ttl)
  {
    var failed, tally := Holding(0, ttl, FailedRetryable), map[KEY := Tally(1, 1)];
    var ended, stale := Process(Asks(0), Ended, false), Process(Asks(0), Contending, true);
    var contending := Process(Asks(0), Contending, false);
    var s7 := System(0, failed, [ended, contending, contending], tally);
    var s8 := System(0, failed, [ended, stale, contending], tally);
    var s9 := System(0, Holding(0, ttl, InProgress), [ended, stale, Process(Asks(0), Owning, false)],
                     map[KEY := Tally(2, 1)]);
    acts := Contenders(d, ttl);
    acts := Extend(acts, s7, By(1, RollBack), s8, d, ttl);
    acts := Extend(acts, s8, By(2, Lookup), s9, d, ttl);
  }

  /** A rolled-back claim can end in a second owner however fast owners settle. */
  lemma RolledBackClaimShares(d: nat, ttl: nat) returns (acts: seq<Act>)
    ensures SettledWithin(START, acts, d, ttl) && Shared(After(START, acts, ttl), 1, 2)
  {
    var stale, owner := Process(Asks(0), Contending, true), Process(Asks(0), Owning, false);
    var s9 := System(0, Holding(0, ttl, InProgress), [Process(Asks(0), Ended, false), stale, owner],
                     map[KEY := Tally(2, 1)]);
    var s10 := StoreAnswer(s9, KEY, Response(200, [], None));
    var s11 := At(s10, 1, Owning);
    acts := ClaimRolledBack(d, ttl);
    acts := Extend(acts, s9, By(2, AnswerInTx(Response(200, [], None))), s10, d, ttl);
    acts := Extend(acts, s10, By(1, Lookup), s11, d, ttl);
  }

  /** No key ever has two owners, when owners settle within d and claims may or may not be rolled back. */
  ghost predicate Exclusive(d: int, ttl: int, rollbacks: bool) {
    forall acts :: SettledWithin(START, acts, d, ttl) && (NoClaimRolledBack(acts) || rollbacks) ==>
      SingleOwner(After(START, acts, ttl))
  }

  /** Keys have one owner in every run exactly when owners settle within the lifetime and no claim is rolled back. */
  lemma ExclusiveIff(d: nat, ttl: nat, rollbacks: bool)
    ensures Exclusive(d, ttl, rollbacks) <==> d <= ttl && !rollbacks
  {
    if d > ttl {
      var acts := LateOwnerShares(d, ttl);
      SharedIsNotSingle(After(START, acts, ttl), 0, 1);
    } else if rollbacks {
      var acts := RolledBackClaimShares(d, ttl);
      SharedIsNotSingle(After(START, acts, ttl), 1, 2);
    } else {
      forall acts | SettledWithin(START, acts, d, ttl) && NoClaimRolledBack(acts)
        ensures SingleOwner(After(START, acts, ttl))
      {
        SoonerIsTimely(acts, d, ttl);
        RunKeepsInv(START, acts, ttl);
      }
    }
  }

  lemma SoonerIsTimely(acts: seq<Act>, d: int, ttl: int)
    requires d <= ttl && SettledWithin(START, acts, d, ttl)
    ensures SettledWithin(START, acts, ttl, ttl)
  {
    forall n | 0 <= n <= |acts| ensures Timely(After(START, acts[..n], ttl), ttl) {
      var s := After(START, acts[..n], ttl);
      assert Timely(s, d);
      forall i | 0 <= i < |s.processes| ensures TimelyAt(s, i, ttl) {
        assert TimelyAt(s, i, d);
      }
    }
  }

  // ---------- Replay ----------

  predicate Pending(p: Process) {
    p.phase in {Arrived, Contending, Missing}
  }

  /** A request for the key that may take a stored answer for ownership. */
  predicate Stale(p: Process, k: RowKey) {
    p.request.key == k && Pending(p) && p.retaken
  }

  predicate NoneStale(s: System, k: RowKey) {
    forall j :: 0 <= j < |s.processes| ==> !Stale(s.processes[j], k)
  }

  /** The key's answer is stored and nobody is left to change it. */
  predicate Settled(s: System, k: RowKey, row: Row) {
    k in s.rows && s.rows[k] == row && row.state == Completed && NoOwner(s, k) && NoneStale(s, k)
  }

  /** A request for a settled key never runs the handler: it waits, gives up, or gets the stored answer. */
  predicate Replayed(p: Process, k: RowKey, row: Row) {
    p.request.key == k ==>
      || Pending(p) || p.phase == Ended
      || p.phase == Answered(if p.request.hash == row.hash then Stored(row) else ErrConflict)
  }

  predicate Clocked(s: System) {
    forall j :: 0 <= j < |s.processes| ==> s.processes[j].request.now <= s.clock
  }

  /** The processes of s that began or were undecided after the first known ones are all replayed. */
  predicate LatecomersReplayed(known: seq<Process>, s: System, k: RowKey, row: Row) {
    forall j :: 0 <= j < |s.processes| && (j >= |known| || Pending(known[j])) ==> Replayed(s.processes[j], k, row)
  }

  lemma DoStaysSettled(s: System, i: nat, deed: Deed, k: RowKey, row: Row, ttl: int)
    requires i < |s.processes| && Clocked(s) && Settled(s, k, row) && s.clock <= row.expiresAt
    ensures var t := Do(s, i, deed, ttl); Clocked(t) && Settled(t, k, row)
  {
    var t := Do(s, i, deed, ttl);
    assert !OwnsKey(s, i, k) && !Stale(s.processes[i], k);
    forall j | 0 <= j < |t.processes| ensures !OwnsKey(t, j, k) && !Stale(t.processes[j], k) {
      assert !OwnsKey(s, j, k) && !Stale(s.processes[j], k);
    }
  }

  lemma DoKeepsReplayed(s: System, i: nat, deed: Deed, k: RowKey, row: Row, known: seq<Process>, ttl: int)
    requires i < |s.processes| && Clocked(s) && Settled(s, k, row) && s.clock <= row.expiresAt
    requires LatecomersReplayed(known, s, k, row)
    ensures LatecomersReplayed(known, Do(s, i, deed, ttl), k, row)
  {
    assert !OwnsKey(s, i, k) && !Stale(s.processes[i], k);
  }

  lemma StepStaysSettled(s: System, a: Act, k: RowKey, row: Row, known: seq<Process>, ttl: int)
    requires Clocked(s) && Settled(s, k, row) && s.clock <= row.expiresAt
    requires LatecomersReplayed(known, s, k, row)
    ensures var t := Step(s, a, ttl);
      s.clock <= t.clock && Clocked(t) && Settled(t, k, row) && LatecomersReplayed(known, t, k, row)
  {
    var t := Step(s, a, ttl);
    if a.By? && a.process < |s.processes| {
      DoStaysSettled(s, a.process, a.deed, k, row, ttl);
      DoKeepsReplayed(s, a.process, a.deed, k, row, known, ttl);
    } else {
      forall j | 0 <= j < |t.processes| ensures !OwnsKey(t, j, k) {
        assert j < |s.processes| ==> !OwnsKey(s, j, k);
      }
    }
  }

  lemma StepClock(s: System, a: Act, ttl: int)
    ensures s.clock <= Step(s, a, ttl).clock
  {
  }

  /**
   Until it expires, a settled answer never changes and the key is never owned
   again, whatever other requests do; every undecided or later request for the
   key that gets an answer gets the stored one, or a conflict for another digest.
   */
  lemma {:induction false} SettledForLife(s: System, acts: seq<Act>, k: RowKey, row: Row, ttl: int)
    requires Clocked(s) && Settled(s, k, row) && After(s, acts, ttl).clock <= row.expiresAt
    ensures var t := After(s, acts, ttl);
      s.clock <= t.clock && Clocked(t) && Settled(t, k, row) && LatecomersReplayed(s.processes, t, k, row)
  {
    if acts != [] {
      var before := acts[..|acts| - 1];
      StepClock(After(s, before, ttl), acts[|acts| - 1], ttl);
      SettledForLife(s, before, k, row, ttl);
      StepStaysSettled(After(s, before, ttl), acts[|acts| - 1], k, row, s.processes, ttl);
    }
  }

  /**
   In a timely run, an owner that completes leaves exactly its response under its
   own digest; one that fails or is lost after answering inside its transaction
   leaves that answer untouched. Either way the answer is then replayed for life.
   */
  lemma ReplayFidelity(acts: seq<Act>, i: nat, deed: Deed, later: seq<Act>, ttl: int)
    requires TimelyRun(START, acts, ttl)
    requires i < |After(START, acts, ttl).processes| && After(START, acts, ttl).processes[i].phase == Owning
    requires deed.Complete? || deed == Fail || deed == Lose
    requires var s := After(START, acts, ttl);
      var k, t := s.processes[i].request.key, Do(s, i, deed, ttl);
      k in t.rows && t.rows[k].state == Completed && After(t, later, ttl).clock <= t.rows[k].expiresAt
    ensures var s := After(START, acts, ttl);
      var r, t := s.processes[i].request, Do(s, i, deed, ttl);
      var row, end := t.rows[r.key], After(t, later, ttl);
      && row.hash == r.hash && row.route == r.route && row.expiresAt == r.now + ttl
      && (deed.Complete? ==>
            row.status == Some(deed.r.status) && row.body == deed.r.body && row.resource == deed.r.resource)
      && (!deed.Complete? ==> r.key in s.rows && row == s.rows[r.key])
      && Settled(end, r.key, row) && LatecomersReplayed(t.processes, end, r.key, row)
  {
    var s := After(START, acts, ttl);
    var k, t := s.processes[i].request.key, Do(s, i, deed, ttl);
    RunKeepsInv(START, acts, ttl);
    assert Holds(s, i, ttl);
    assert Timely(After(START, acts[..|acts|], ttl), ttl) && acts[..|acts|] == acts;
    DoKeepsInv(s, i, deed, ttl);
    forall j | 0 <= j < |t.processes|
      ensures !OwnsKey(t, j, k) && !Stale(t.processes[j], k) && t.processes[j].request.now <= t.clock
    {
      assert Holds(t, j, ttl) && Apart(s, i, j);
    }
    SettledForLife(t, later, k, t.rows[k], ttl);
  }

  /**
   While a key has a live owner in a timely run, nobody else gets the key: another
   digest gets a conflict, the same digest the answer stored so far or "in progress".
   */
  lemma OwnedKeyIsClosed(acts: seq<Act>, i: nat, j: nat, ttl: int)
    requires TimelyRun(START, acts, ttl)
    requires var s := After(START, acts, ttl);
      && i < |s.processes| && s.processes[i].phase == Owning
      && j < |s.processes| && s.processes[j].phase == Contending
      && s.processes[j].request.key == s.processes[i].request.key
    ensures var s := After(START, acts, ttl);
      var mine, theirs := s.processes[i].request, s.processes[j].request;
      var t := Do(s, j, Lookup, ttl);
      && t.rows == s.rows && OwnsKey(t, i, mine.key) && mine.key in s.rows
      && t.processes[j].phase == Answered(
          if theirs.hash != mine.hash then ErrConflict
          else if s.rows[mine.key].state == Completed then Stored(s.rows[mine.key])
          else ErrInProgress)
  {
    var s := After(START, acts, ttl);
    RunKeepsInv(START, acts, ttl);
    assert acts[..|acts|] == acts;
    assert Holds(s, i, ttl) && Holds(s, j, ttl) && TimelyAt(s, i, ttl);
  }
}
