/**
 Appending to the audit trail: what Append does to the event, the statements it
 runs inside a transaction, and every interleaving of such transactions under
 the lock on the singleton head row. ChainNeverForks is the result over runs.
 */
module AuditAppend {
  import opened Runes
  import opened Wrappers
  import opened Audit

  // ---------- Preparing an event ----------

  /** The length of the UTF-8 encoded space at the front of t, 0 if there is none. */
  function SpaceLength(t: Text): (n: nat)
    ensures n <= |t|
  {
    if t == [] then 0
    else if 0x09 <= t[0] <= 0x0D || t[0] == 0x20 then 1
    else if |t| >= 2 && t[0] == 0xC2 && (t[1] == 0x85 || t[1] == 0xA0) then 2
    else if |t| < 3 then 0
    else if t[0] == 0xE1 && t[1] == 0x9A && t[2] == 0x80 then 3
    else if t[0] == 0xE2 && t[1] == 0x80
            && (0x80 <= t[2] <= 0x8A || t[2] == 0xA8 || t[2] == 0xA9 || t[2] == 0xAF) then 3
    else if t[0] == 0xE2 && t[1] == 0x81 && t[2] == 0x9F then 3
    else if t[0] == 0xE3 && t[1] == 0x80 && t[2] == 0x80 then 3
    else 0
  }

  /** strings.TrimSpace leaves nothing. */
  predicate IsBlank(t: Text)
    decreases |t|
  {
    t == [] || (SpaceLength(t) > 0 && IsBlank(t[SpaceLength(t)..]))
  }

  /** What the surroundings supply: a fresh identifier, the clock, and the request's identifiers. */
  datatype Context = Context(freshId: int, now: int, requestId: Text, traceId: Text)

  function Prepare(e: Event, ctx: Context): Event {
    var at := if e.createdAt == 0 then ctx.now else e.createdAt;
    e.(id := if e.id == 0 then ctx.freshId else e.id,
       createdAt := at - at % 1000,
       requestId := if e.requestId == [] then ctx.requestId else e.requestId,
       traceId := if e.traceId == [] then ctx.traceId else e.traceId)
  }

  /** The event with its place in the chain and its digest. */
  function Seal(c: Codec, e: Event, previous: Text): Event {
    var cut := e.(previousHash := previous, role := Truncate(e.role, 200), reason := Truncate(e.reason, 400));
    cut.(entryHash := EntryHash(c, cut))
  }

  predicate GivenOr(stored: Text, given: Text, otherwise: Text) {
    stored == if given != [] then given else otherwise
  }

  /** The stored event says, field by field, what the caller and the surroundings supplied. */
  predicate Records(stored: Event, given: Event, ctx: Context) {
    var at := if given.createdAt != 0 then given.createdAt else ctx.now;
    && stored.actorType == given.actorType && stored.actor == given.actor && stored.action == given.action
    && stored.targetType == given.targetType && stored.target == given.target
    && stored.beforeHash == given.beforeHash && stored.afterHash == given.afterHash
    && FirstBytes(stored.role, given.role, 200) && FirstBytes(stored.reason, given.reason, 400)
    && stored.id == (if given.id != 0 then given.id else ctx.freshId)
    && GivenOr(stored.requestId, given.requestId, ctx.requestId)
    && GivenOr(stored.traceId, given.traceId, ctx.traceId)
    && stored.createdAt % 1000 == 0 && stored.createdAt <= at < stored.createdAt + 1000
  }

  lemma SealedRecords(c: Codec, given: Event, ctx: Context, previous: Text)
    ensures Records(Seal(c, Prepare(given, ctx), previous), given, ctx)
  {
    WholeMicrosecond(if given.createdAt != 0 then given.createdAt else ctx.now);
    var p := Prepare(given, ctx);
    var s := Seal(c, p, previous);
    assert s.createdAt == p.createdAt && s.role == Truncate(given.role, 200) && s.reason == Truncate(given.reason, 400);
  }

  lemma WholeMicrosecond(at: int)
    ensures (at - at % 1000) % 1000 == 0 && at - at % 1000 <= at < at - at % 1000 + 1000
  {
  }

  // ---------- The table and its head row ----------

  datatype Entry = Entry(event: Event, seqNo: nat)

  /** The singleton row of audit_chain_head; its hash is NULL before the first entry. */
  datatype Head = Head(count: nat, hash: Option<Text>)

  function HeadHash(h: Head): Text {
    if h.hash.None? then [] else h.hash.value
  }

  /** The head that the entries imply. */
  function HeadOf(entries: seq<Entry>): Head {
    Head(|entries|, if entries == [] then None else Some(entries[|entries| - 1].event.entryHash))
  }

  function Rows(entries: seq<Entry>): seq<Row> {
    seq(|entries|, i requires 0 <= i < |entries| => Store(entries[i].event, entries[i].seqNo))
  }

  /** Entry i names the entry hash before it and carries its own digest. */
  predicate ChainedAt(c: Codec, entries: seq<Entry>, i: nat)
    requires i < |entries|
  {
    && entries[i].event.previousHash == (if i == 0 then [] else entries[i - 1].event.entryHash)
    && entries[i].event.entryHash == EntryHash(c, entries[i].event)
  }

  predicate Chained(c: Codec, entries: seq<Entry>) {
    forall i :: 0 <= i < |entries| ==> ChainedAt(c, entries, i)
  }

  predicate InSequence(entries: seq<Entry>, next: nat) {
    && (forall i, j :: 0 <= i < j < |entries| ==> entries[i].seqNo < entries[j].seqNo)
    && (forall i :: 0 <= i < |entries| ==> 0 < entries[i].seqNo < next)
  }

  /** What one append makes of the entries a transaction sees. */
  function Appended(c: Codec, entries: seq<Entry>, e: Event, seqNo: nat): seq<Entry> {
    entries + [Entry(Seal(c, e, HeadHash(HeadOf(entries))), seqNo)]
  }

  lemma AppendChains(c: Codec, entries: seq<Entry>, e: Event, seqNo: nat)
    requires Chained(c, entries) && InSequence(entries, seqNo) && seqNo > 0
    ensures Chained(c, Appended(c, entries, e, seqNo)) && InSequence(Appended(c, entries, e, seqNo), seqNo + 1)
    ensures |Appended(c, entries, e, seqNo)| == |entries| + 1
  {
    var all := Appended(c, entries, e, seqNo);
    SealDigests(c, e, HeadHash(HeadOf(entries)));
    forall i | 0 <= i < |all| ensures ChainedAt(c, all, i) {
      assert i < |entries| ==> ChainedAt(c, entries, i);
    }
  }

  lemma SealDigests(c: Codec, e: Event, previous: Text)
    ensures var s := Seal(c, e, previous);
            s.previousHash == previous && s.entryHash == EntryHash(c, s)
  {
    var s := Seal(c, e, previous);
    assert HashedParts(c, s) == HashedParts(c, s.(entryHash := e.entryHash));
  }

  // ---------- Append inside one transaction ----------

  /** What fails in an append, if anything: a statement, or encoding the metadata. */
  datatype Fault = NoFault | LockFails | MetadataFails | InsertFails | HeadFails

  /** The table as a transaction that holds the head lock sees and changes it. */
  class ChainTx {
    var entries: seq<Entry>
    var head: Head
    var nextSeq: nat

    ghost predicate Valid(c: Codec)
      reads this
    {
      Chained(c, entries) && head == HeadOf(entries) && InSequence(entries, nextSeq) && nextSeq > 0
    }

    constructor ()
      ensures entries == [] && head == HeadOf([]) && nextSeq == 1
    {
      entries, head, nextSeq := [], Head(0, None), 1;
    }

    /**
     Returns false when the action is blank or a step fails. Only a failure of
     the last statement leaves the table changed, and then not valid: the caller
     must roll back.
     */
    method Append(c: Codec, event: Event, ctx: Context, fault: Fault) returns (ok: bool)
      requires Valid(c)
      modifies this
      ensures ok <==> !IsBlank(event.action) && fault == NoFault
      ensures ok ==> Valid(c) && entries == Appended(c, old(entries), Prepare(event, ctx), old(nextSeq))
      ensures ok ==> |entries| == |old(entries)| + 1 && Records(entries[|old(entries)|].event, event, ctx)
      ensures !ok && (IsBlank(event.action) || fault != HeadFails) ==>
                Valid(c) && entries == old(entries) && head == old(head) && nextSeq == old(nextSeq)
      ensures !IsBlank(event.action) && fault == HeadFails ==>
                !Valid(c) && head == old(head)
                && entries == Appended(c, old(entries), Prepare(event, ctx), old(nextSeq))
    {
      if IsBlank(event.action) {
        return false;
      }
      var e := FillIn(event, ctx);
      if fault == LockFails || fault == MetadataFails {
        return false;
      }
      AppendChains(c, entries, e, nextSeq);
      e := SealEvent(c, e, HeadHash(head));
      if fault == InsertFails {
        return false;
      }
      entries := entries + [Entry(e, nextSeq)];
      nextSeq := nextSeq + 1;
      if fault == HeadFails {
        assert HeadOf(entries).count != head.count;
        return false;
      }
      head := Head(head.count + 1, Some(e.entryHash));
      SealedRecords(c, event, ctx, e.previousHash);
      return true;
    }
  }

  method FillIn(event: Event, ctx: Context) returns (e: Event)
    ensures e == Prepare(event, ctx)
  {
    e := event;
    if e.id == 0 {
      e := e.(id := ctx.freshId);
    }
    if e.createdAt == 0 {
      e := e.(createdAt := ctx.now);
    }
    e := e.(createdAt := e.createdAt - e.createdAt % 1000);
    if e.requestId == [] {
      e := e.(requestId := ctx.requestId);
    }
    if e.traceId == [] {
      e := e.(traceId := ctx.traceId);
    }
  }

  method SealEvent(c: Codec, event: Event, previous: Text) returns (e: Event)
    ensures e == Seal(c, event, previous)
  {
    e := event.(previousHash := previous);
    e := e.(role := Truncate(e.role, 200), reason := Truncate(e.reason, 400));
    e := e.(entryHash := EntryHash(c, e));
  }

  // ---------- Concurrent transactions ----------

  /** Between statements, or holding a predecessor read, or with a row inserted. */
  datatype Phase = Ready | Locked(previous: Text) | Inserted(hash: Text)

  datatype Tx = Tx(phase: Phase, pending: seq<Entry>, head: Head)

  /** holder has the row lock on the head; nextSeq is the auto-increment counter. */
  datatype Db = Db(entries: seq<Entry>, head: Head, holder: Option<nat>, open: map<nat, Tx>, nextSeq: nat)

  const EMPTY := Db([], Head(0, None), None, map[], 1)

  datatype Step =
    | Begin(tx: nat)
    | LockHead(tx: nat)
    | Insert(tx: nat, event: Event, ctx: Context)
    | Advance(tx: nat)
    | Commit(tx: nat)
    | Rollback(tx: nat)

  /** One statement of one transaction; None when it cannot run now. */
  function Apply(c: Codec, db: Db, s: Step): Option<Db> {
    if s.Begin? then
      if s.tx in db.open then None
      else Some(db.(open := db.open[s.tx := Tx(Ready, [], Head(0, None))]))
    else if s.tx !in db.open then None
    else
      var t := db.open[s.tx];
      match s
      case LockHead(p) =>
        if !t.phase.Ready? || (db.holder.Some? && db.holder.value != p) then None
        else
          var head := if db.holder.None? then db.head else t.head;
          Some(db.(holder := Some(p), open := db.open[p := t.(phase := Locked(HeadHash(head)), head := head)]))
      case Insert(p, event, ctx) =>
        if !t.phase.Locked? || IsBlank(event.action) then None
        else
          var e := Seal(c, Prepare(event, ctx), t.phase.previous);
          var pending := t.pending + [Entry(e, db.nextSeq)];
          Some(db.(nextSeq := db.nextSeq + 1,
                   open := db.open[p := t.(phase := Inserted(e.entryHash), pending := pending)]))
      case Advance(p) =>
        if !t.phase.Inserted? then None
        else
          var head := Head(t.head.count + 1, Some(t.phase.hash));
          Some(db.(open := db.open[p := t.(phase := Ready, head := head)]))
      case Commit(p) =>
        if t.phase.Inserted? then None
        else if db.holder == Some(p) then
          Some(db.(entries := db.entries + t.pending, head := t.head, holder := None, open := db.open - {p}))
        else Some(db.(open := db.open - {p}))
      case Rollback(p) =>
        Some(db.(holder := if db.holder == Some(p) then None else db.holder, open := db.open - {p}))
  }

  /** The table after a run; None when some step cannot run. */
  function Run(c: Codec, steps: seq<Step>): Option<Db> {
    if steps == [] then Some(EMPTY)
    else
      var before :- Run(c, steps[..|steps| - 1]);
      Apply(c, before, steps[|steps| - 1])
  }

  /** The entries as the holder of the head lock sees them. */
  function Seen(db: Db): seq<Entry> {
    if db.holder.Some? && db.holder.value in db.open then db.entries + db.open[db.holder.value].pending
    else db.entries
  }

  /** What the lock holder knows about the head, statement by statement. */
  predicate HolderSees(t: Tx, entries: seq<Entry>) {
    match t.phase
    case Ready => t.head == HeadOf(entries + t.pending)
    case Locked(previous) => t.head == HeadOf(entries + t.pending) && previous == HeadHash(t.head)
    case Inserted(hash) =>
      && t.pending != []
      && t.head == HeadOf(entries + t.pending[..|t.pending| - 1])
      && hash == t.pending[|t.pending| - 1].event.entryHash
  }

  /** A transaction that does not hold the head lock has written nothing. */
  predicate OthersIdle(db: Db) {
    forall p :: p in db.open && db.holder != Some(p) ==> db.open[p].phase == Ready && db.open[p].pending == []
  }

  predicate Inv(c: Codec, db: Db) {
    && db.nextSeq > 0 && db.head == HeadOf(db.entries)
    && Chained(c, db.entries) && Chained(c, Seen(db)) && InSequence(Seen(db), db.nextSeq)
    && OthersIdle(db)
    && (db.holder.Some? ==> db.holder.value in db.open && HolderSees(db.open[db.holder.value], db.entries))
  }

  lemma ApplyKeepsInv(c: Codec, db: Db, s: Step)
    requires Inv(c, db) && Apply(c, db, s).Some?
    ensures Inv(c, Apply(c, db, s).value)
  {
    match s {
      case Begin(p) =>
      case LockHead(p) => LockKeepsInv(c, db, p);
      case Insert(p, event, ctx) => InsertKeepsInv(c, db, s);
      case Advance(p) => AdvanceKeepsInv(c, db, p);
      case Commit(p) => CommitKeepsInv(c, db, p);
      case Rollback(p) => RollbackKeepsInv(c, db, p);
    }
  }

  lemma LockKeepsInv(c: Codec, db: Db, p: nat)
    requires Inv(c, db) && Apply(c, db, LockHead(p)).Some?
    ensures Inv(c, Apply(c, db, LockHead(p)).value)
  {
    assert db.entries + [] == db.entries;
  }

  lemma InsertKeepsInv(c: Codec, db: Db, s: Step)
    requires s.Insert? && Inv(c, db) && Apply(c, db, s).Some?
    ensures Inv(c, Apply(c, db, s).value)
  {
    var t, after := db.open[s.tx], Apply(c, db, s).value;
    assert db.holder == Some(s.tx);
    var e := Prepare(s.event, s.ctx);
    AppendChains(c, Seen(db), e, db.nextSeq);
    var pending := after.open[s.tx].pending;
    assert Seen(after) == Appended(c, Seen(db), e, db.nextSeq);
    assert pending[..|pending| - 1] == t.pending;
  }

  lemma AdvanceKeepsInv(c: Codec, db: Db, p: nat)
    requires Inv(c, db) && Apply(c, db, Advance(p)).Some?
    ensures Inv(c, Apply(c, db, Advance(p)).value)
  {
    var t := db.open[p];
    assert db.holder == Some(p);
    var all := db.entries + t.pending;
    assert all[|all| - 1] == t.pending[|t.pending| - 1];
  }

  lemma CommitKeepsInv(c: Codec, db: Db, p: nat)
    requires Inv(c, db) && Apply(c, db, Commit(p)).Some?
    ensures Inv(c, Apply(c, db, Commit(p)).value)
  {
  }

  /**
   A transaction whose head update failed must not commit: its rows would no
   longer be the ones the head row implies.
   */
  lemma AdvanceIsNeeded(c: Codec, db: Db, p: nat)
    requires Inv(c, db) && db.holder == Some(p) && db.open[p].phase.Inserted?
    ensures db.open[p].head != HeadOf(db.entries + db.open[p].pending)
  {
  }

  lemma RollbackKeepsInv(c: Codec, db: Db, p: nat)
    requires Inv(c, db) && Apply(c, db, Rollback(p)).Some?
    ensures Inv(c, Apply(c, db, Rollback(p)).value)
  {
    PrefixInSequence(db.entries, Seen(db), db.nextSeq);
  }

  lemma PrefixInSequence(a: seq<Entry>, b: seq<Entry>, next: nat)
    requires a <= b && InSequence(b, next)
    ensures InSequence(a, next)
  {
    assert forall i :: 0 <= i < |a| ==> a[i] == b[i];
  }

  lemma {:induction false} RunKeepsInv(c: Codec, steps: seq<Step>)
    requires Run(c, steps).Some?
    ensures Inv(c, Run(c, steps).value)
  {
    if steps != [] {
      RunKeepsInv(c, steps[..|steps| - 1]);
      ApplyKeepsInv(c, Run(c, steps[..|steps| - 1]).value, steps[|steps| - 1]);
    }
  }

  // ---------- What the committed entries say ----------

  /** The inserts of a run, in order. */
  function Inserts(steps: seq<Step>): seq<Step> {
    if steps == [] then []
    else Inserts(steps[..|steps| - 1]) + if steps[|steps| - 1].Insert? then [steps[|steps| - 1]] else []
  }

  /** Entry e is what the insert with its sequence number supplied. */
  predicate InsertedAs(e: Entry, inserts: seq<Step>) {
    0 < e.seqNo <= |inserts| && inserts[e.seqNo - 1].Insert?
    && Records(e.event, inserts[e.seqNo - 1].event, inserts[e.seqNo - 1].ctx)
  }

  predicate AllInserted(es: seq<Entry>, inserts: seq<Step>) {
    forall i :: 0 <= i < |es| ==> InsertedAs(es[i], inserts)
  }

  lemma MoreInserts(es: seq<Entry>, inserts: seq<Step>, more: seq<Step>)
    requires AllInserted(es, inserts)
    ensures AllInserted(es, inserts + more)
  {
    forall i | 0 <= i < |es| ensures InsertedAs(es[i], inserts + more) {
      assert InsertedAs(es[i], inserts);
    }
  }

  predicate RecordsInserts(db: Db, inserts: seq<Step>) {
    && db.nextSeq == |inserts| + 1 && AllInserted(db.entries, inserts)
    && forall p :: p in db.open ==> AllInserted(db.open[p].pending, inserts)
  }

  lemma InsertRecords(c: Codec, db: Db, s: Step, inserts: seq<Step>)
    requires s.Insert? && Apply(c, db, s).Some? && RecordsInserts(db, inserts)
    ensures RecordsInserts(Apply(c, db, s).value, inserts + [s])
  {
    var after := Apply(c, db, s).value;
    var t, more := db.open[s.tx], inserts + [s];
    MoreInserts(db.entries, inserts, [s]);
    forall p | p in after.open ensures AllInserted(after.open[p].pending, more) {
      MoreInserts(db.open[p].pending, inserts, [s]);
      if p == s.tx {
        SealedRecords(c, s.event, s.ctx, t.phase.previous);
        assert more[db.nextSeq - 1] == s;
      }
    }
  }

  lemma OtherRecords(c: Codec, db: Db, s: Step, inserts: seq<Step>)
    requires !s.Insert? && Apply(c, db, s).Some? && RecordsInserts(db, inserts)
    ensures RecordsInserts(Apply(c, db, s).value, inserts)
  {
  }

  /**
   Every committed entry records, field by field, the insert that its sequence
   number names; so the entries appear in the order of their inserts.
   */
  lemma {:induction false} EntriesRecordInserts(c: Codec, steps: seq<Step>)
    requires Run(c, steps).Some?
    ensures RecordsInserts(Run(c, steps).value, Inserts(steps))
  {
    if steps != [] {
      var before, s := steps[..|steps| - 1], steps[|steps| - 1];
      EntriesRecordInserts(c, before);
      if s.Insert? {
        InsertRecords(c, Run(c, before).value, s, Inserts(before));
      } else {
        OtherRecords(c, Run(c, before).value, s, Inserts(before));
        assert Inserts(before) + [] == Inserts(before);
      }
    }
  }

  /** The committed entries of every run are inserted events, in the order of their inserts. */
  lemma CommittedRecord(c: Codec, steps: seq<Step>)
    requires Run(c, steps).Some?
    ensures var es := Run(c, steps).value.entries;
      && AllInserted(es, Inserts(steps))
      && forall i, j :: 0 <= i < j < |es| ==> es[i].seqNo < es[j].seqNo
  {
    EntriesRecordInserts(c, steps);
    RunKeepsInv(c, steps);
    var db := Run(c, steps).value;
    PrefixInSequence(db.entries, Seen(db), db.nextSeq);
  }

  // ---------- What the reader sees ----------

  /** A row of the chain is linked exactly when its digest can be reproduced from what was stored. */
  lemma ChainedRowLinked(c: Codec, entries: seq<Entry>, i: nat)
    requires Chained(c, entries) && i < |entries|
    ensures Linked(c, Rows(entries), i) <==>
            EntryHash(c, Load(Rows(entries)[i])) == entries[i].event.entryHash
  {
    var rows := Rows(entries);
    var e := entries[i].event;
    assert ChainedAt(c, entries, i);
    assert rows[i] == Store(e, entries[i].seqNo);
    LoadStore(e, entries[i].seqNo);
    if i > 0 {
      assert rows[i - 1] == Store(entries[i - 1].event, entries[i - 1].seqNo);
    }
  }

  /**
   However the transactions interleave, commit and roll back, the committed rows
   in sequence order are one unforked chain whose last hash and length are in the
   head row, and the verifier accepts them up to the first row (if any) whose
   digest a re-read cannot reproduce.
   */
  lemma ChainNeverForks(c: Codec, steps: seq<Step>)
    requires Run(c, steps).Some?
    ensures var db := Run(c, steps).value;
            && db.head == HeadOf(db.entries) && Chained(c, db.entries) && InSequence(db.entries, db.nextSeq)
            && (forall i :: 0 <= i < |db.entries| ==>
                  (Linked(c, Rows(db.entries), i) <==>
                   EntryHash(c, Load(Rows(db.entries)[i])) == db.entries[i].event.entryHash))
  {
    RunKeepsInv(c, steps);
    var db := Run(c, steps).value;
    PrefixInSequence(db.entries, Seen(db), db.nextSeq);
    forall i | 0 <= i < |db.entries|
      ensures Linked(c, Rows(db.entries), i) <==>
              EntryHash(c, Load(Rows(db.entries)[i])) == db.entries[i].event.entryHash
    {
      ChainedRowLinked(c, db.entries, i);
    }
  }

  /** The committed rows all verify whenever no identifier was present and zero. */
  lemma CommittedVerify(c: Codec, steps: seq<Step>, limit: nat)
    requires Run(c, steps).Some?
    requires forall i :: 0 <= i < |Run(c, steps).value.entries| ==> NoPhantomId(Run(c, steps).value.entries[i].event)
    ensures var rows := Rows(Run(c, steps).value.entries);
            Accepted(c, rows) && Verdict(c, rows, limit, Min(limit, |rows|), 0)
  {
    RunKeepsInv(c, steps);
    var db := Run(c, steps).value;
    forall i | 0 <= i < |db.entries| ensures Linked(c, Rows(db.entries), i) {
      assert ChainedAt(c, db.entries, i);
      ChainedRowLinked(c, db.entries, i);
      RereadDigests(c, db.entries[i].event, db.entries[i].seqNo);
    }
  }

  /** The texts digested when the entries were appended and when they are read again. */
  ghost function AppendedAndReread(c: Codec, entries: seq<Entry>): set<Text> {
    (set i | 0 <= i < |entries| :: Digested(c, entries[i].event))
    + (set i | 0 <= i < |entries| :: Digested(c, Load(Store(entries[i].event, entries[i].seqNo))))
  }

  /** Among the first limit entries, first counts those before the first one with a phantom identifier. */
  predicate FirstPhantom(entries: seq<Entry>, limit: nat, first: nat) {
    && first <= Min(limit, |entries|)
    && (forall i :: 0 <= i < first ==> NoPhantomId(entries[i].event))
    && (first < Min(limit, |entries|) ==> !NoPhantomId(entries[first].event))
  }

  lemma PairCollisionFree(c: Codec, entries: seq<Entry>, i: nat)
    requires i < |entries| && CollisionFree(c.sha, AppendedAndReread(c, entries))
    ensures var e := entries[i].event;
      CollisionFree(c.sha, {Digested(c, e), Digested(c, Load(Store(e, entries[i].seqNo)))})
  {
    var e := entries[i].event;
    assert Digested(c, e) in AppendedAndReread(c, entries);
    assert Digested(c, Load(Store(e, entries[i].seqNo))) in AppendedAndReread(c, entries);
  }

  lemma CommittedLinkedIff(c: Codec, entries: seq<Entry>, i: nat)
    requires Chained(c, entries) && i < |entries| && CollisionFree(c.sha, AppendedAndReread(c, entries))
    ensures Linked(c, Rows(entries), i) <==> NoPhantomId(entries[i].event)
  {
    var e, seqNo := entries[i].event, entries[i].seqNo;
    assert ChainedAt(c, entries, i);
    ChainedRowLinked(c, entries, i);
    PairCollisionFree(c, entries, i);
    RereadVerifies(c, e, seqNo);
  }

  /**
   On the committed rows of every run the verifier stops exactly at the first
   entry with a phantom identifier, and accepts all of them exactly when there is none.
   */
  lemma CommittedVerdict(c: Codec, steps: seq<Step>, limit: nat, first: nat)
    requires Run(c, steps).Some?
    requires var entries := Run(c, steps).value.entries;
      CollisionFree(c.sha, AppendedAndReread(c, entries)) && FirstPhantom(entries, limit, first)
    ensures var entries := Run(c, steps).value.entries;
      && Verdict(c, Rows(entries), limit, first, if first == Min(limit, |entries|) then 0 else entries[first].seqNo)
      && (Accepted(c, Rows(entries)) <==> forall i :: 0 <= i < |entries| ==> NoPhantomId(entries[i].event))
  {
    RunKeepsInv(c, steps);
    var entries := Run(c, steps).value.entries;
    forall i | 0 <= i < |entries| ensures Linked(c, Rows(entries), i) <==> NoPhantomId(entries[i].event) {
      CommittedLinkedIff(c, entries, i);
    }
  }

  /** Rows missing at the tail are accepted, but their last hash is not the one in the head row. */
  lemma HeadSeesTailDeletion(c: Codec, entries: seq<Entry>, n: nat)
    requires Sound(c) && 0 < n < |entries|
    requires Accepted(c, Rows(entries))
    requires CollisionFree(c.sha, DigestedRows(c, Rows(entries)))
    ensures Accepted(c, Rows(entries)[..n])
    ensures Rows(entries)[n - 1].entryHash != HeadHash(HeadOf(entries))
  {
    AcceptedPrefix(c, Rows(entries), n);
    HashesDistinct(c, Rows(entries), n - 1, |entries| - 1);
    assert Rows(entries)[|entries| - 1].entryHash == HeadHash(HeadOf(entries));
  }
}
