/**
 The idempotency middleware: it claims the key, replays a stored answer or runs
 the handler through a buffering writer, and settles the claim by status class.
 A response is what the wrapped writer is told to send: the first call fixes the
 status, every write adds to the body. Bodies here are sequences of bytes.
 */
module Middleware {
  import opened Runes
  import opened Wrappers
  import opened Json
  import opened Bodies
  import opened RequestHash
  import opened Idempotency

  // ---------- Responses ----------

  datatype Call = WriteHeader(code: int) | Write(bytes: Text)

  datatype Sent = Sent(status: int, body: Text)

  function FirstStatus(calls: seq<Call>): int {
    if calls != [] && calls[0].WriteHeader? then calls[0].code else 200
  }

  function AllBytes(calls: seq<Call>): Text {
    if calls == [] then []
    else AllBytes(calls[..|calls| - 1]) + (match calls[|calls| - 1] case WriteHeader(_) => [] case Write(b) => b)
  }

  /** What the client is sent by these calls. */
  function Response(calls: seq<Call>): Sent {
    Sent(FirstStatus(calls), AllBytes(calls))
  }

  /** A status code that can be written: net/http panics on any other. */
  predicate Writable(call: Call) {
    call.WriteHeader? ==> 100 <= call.code <= 999
  }

  predicate AllWritable(calls: seq<Call>) {
    forall i :: 0 <= i < |calls| ==> Writable(calls[i])
  }

  lemma AllBytesOneMore(calls: seq<Call>, call: Call)
    ensures AllBytes(calls + [call]) == AllBytes(calls) + (match call case WriteHeader(_) => [] case Write(b) => b)
  {
    assert (calls + [call])[..|calls|] == calls;
  }

  /** The writer below the middleware, as the calls it has received. */
  class Connection {
    var calls: seq<Call>
    var headers: map<string, string>

    constructor ()
      ensures calls == [] && headers == map[]
    {
      calls, headers := [], map[];
    }

    method Receive(call: Call)
      modifies this`calls
      ensures calls == old(calls) + [call]
    {
      calls := calls + [call];
    }
  }

  class BufferingWriter {
    const inner: Connection
    var status: int
    var buf: Text
    var wrote: bool

    /** The buffer holds, and the client was sent, exactly what these handler calls amount to. */
    ghost predicate Captures(handled: seq<Call>)
      reads this, inner
    {
      && (wrote <==> handled != []) && (inner.calls == [] <==> handled == [])
      && status == (if handled == [] then 0 else FirstStatus(handled))
      && buf == AllBytes(handled)
      && Response(inner.calls) == Response(handled)
    }

    constructor (inner: Connection)
      requires inner.calls == []
      ensures this.inner == inner && Captures([])
    {
      this.inner := inner;
      status, buf, wrote := 0, [], false;
    }

    method WriteHeader(code: int, ghost handled: seq<Call>)
      requires Captures(handled)
      modifies this, inner`calls
      ensures Captures(handled + [Call.WriteHeader(code)])
      ensures wrote && buf == old(buf)
    {
      AllBytesOneMore(handled, Call.WriteHeader(code));
      if wrote {
        return;
      }
      status := code;
      wrote := true;
      AllBytesOneMore(inner.calls, Call.WriteHeader(code));
      inner.Receive(Call.WriteHeader(code));
    }

    method Write(b: Text, ghost handled: seq<Call>)
      requires Captures(handled)
      modifies this, inner`calls
      ensures Captures(handled + [Call.Write(b)])
    {
      AllBytesOneMore(handled, Call.Write(b));
      if !wrote {
        WriteHeader(200, handled);
        AllBytesOneMore(handled, Call.WriteHeader(200));
      }
      buf := buf + b;
      AllBytesOneMore(inner.calls, Call.Write(b));
      inner.Receive(Call.Write(b));
    }
  }

  /** The handler, as the calls it makes on its writer. */
  method RunHandler(w: BufferingWriter, calls: seq<Call>)
    requires w.Captures([])
    modifies w, w.inner`calls
    ensures w.Captures(calls)
  {
    for i := 0 to |calls|
      invariant w.Captures(calls[..i])
    {
      assert calls[..i + 1] == calls[..i] + [calls[i]];
      match calls[i] {
        case WriteHeader(code) => w.WriteHeader(code, calls[..i]);
        case Write(b) => w.Write(b, calls[..i]);
      }
    }
    assert calls[..|calls|] == calls;
  }

  // ---------- Settling ----------

  const MAX_STORED_BODY := 64 * 1024

  predicate Successful(status: int) {
    200 <= status < 400
  }

  /** The client may retry with the same key. */
  predicate Transient(status: int) {
    status == 429 || status >= 500
  }

  function Payload(body: Text): Text {
    if |body| > MAX_STORED_BODY then [] else body
  }

  /** What a handler run does: an answer stored inside its own transaction, its calls, the resource it names. */
  datatype Handling = Handling(inTx: Option<StoredAnswer>, calls: seq<Call>, resource: Option<int>)

  datatype StoredAnswer = StoredAnswer(status: int, body: Text, resource: Option<int>)

  function InTx(t: Table, k: RowKey, h: Handling): Table {
    match h.inTx
    case None => t
    case Some(a) => CompleteRow(t, k, a.status, a.body, a.resource)
  }

  /** The effect of the response on the table the handler left. */
  function SettledBy(t: Table, k: RowKey, sent: Sent, resource: Option<int>): Table {
    if Transient(sent.status) then FailRow(t, k)
    else CompleteRow(t, k, sent.status, Payload(sent.body), if Successful(sent.status) then resource else None)
  }

  /** Settles the claim; when the store cannot be reached the error is only logged. */
  method Settle(store: Store, k: RowKey, w: BufferingWriter, h: Handling, reachable: bool)
    requires w.Captures(h.calls) && AllWritable(h.calls)
    modifies store
    ensures store.rows
         == if reachable then SettledBy(old(store.rows), k, Response(h.calls), h.resource) else old(store.rows)
    ensures var sent := Response(h.calls);
      reachable && k in old(store.rows) && sent.status != 429 && sent.status < 500 ==>
        && k in store.rows && store.rows[k].state == Completed && store.rows[k].status == Some(sent.status)
        && store.rows[k].body == (if |sent.body| <= 65536 then sent.body else [])
        && store.rows[k].resource == if 200 <= sent.status < 400 then h.resource else None
  {
    if !reachable {
      return;
    }
    var status := w.status;
    if status == 0 {
      status := 200;
    }
    assert status == FirstStatus(h.calls);
    if 200 <= status < 400 {
      var payload := w.buf;
      if |payload| > MAX_STORED_BODY {
        payload := [];
      }
      store.Complete(k, status, payload, h.resource);
    } else if status == 429 || status >= 500 {
      store.Fail(k);
    } else {
      var payload := w.buf;
      if |payload| > MAX_STORED_BODY {
        payload := [];
      }
      store.Complete(k, status, payload, None);
    }
  }

  // ---------- The middleware ----------

  const SPACE := 0x20

  /** A request as the middleware reads it; an unreadable body is None, a refused scope carries its problem. */
  datatype Http = Http(verb: Text, pattern: Text, header: Text, scope: Result<Text, Problem>, body: Option<Text>)

  datatype Code = KeyRequired | ValidationFailed | IdempotencyConflict | RequestInProgress | Internal | Other

  datatype Problem = Problem(status: int, code: Code)

  datatype Served = Refused(problem: Problem) | Replayed | Ran

  predicate ReadOnly(verb: Text) {
    verb in [Ascii("GET"), Ascii("HEAD"), Ascii("OPTIONS")]
  }

  /** The number of bytes of one rune in UTF-8; a byte outside any encoding is one byte. */
  function Width(r: int): (n: nat)
    ensures 1 <= n <= 4
  {
    if r >= FIRST_BAD || r < 0x80 then 1 else if r < 0x800 then 2 else if r < 0x10000 then 3 else 4
  }

  function ByteLength(t: Text): (n: nat)
    ensures |t| <= n <= 4 * |t|
  {
    if t == [] then 0 else ByteLength(t[..|t| - 1]) + Width(t[|t| - 1])
  }

  const MAX_KEY := 255

  /** The problem that stops a mutation before its key is claimed. */
  function Screen(q: Http): Option<Problem> {
    var key := TrimSpace(q.header);
    if key == [] then Some(Problem(400, KeyRequired))
    else if ByteLength(key) > MAX_KEY then Some(Problem(400, ValidationFailed))
    else match q.scope
      case Err(p) => Some(p)
      case Ok(_) => if q.body.None? then Some(Problem(400, ValidationFailed)) else None
  }

  function Route(q: Http): Text {
    q.verb + [SPACE] + q.pattern
  }

  predicate NoSpace(t: Text) {
    forall i :: 0 <= i < |t| ==> t[i] != SPACE
  }

  /** The route tells method and pattern apart: a method contains no space. */
  lemma RouteDecides(q: Http, q': Http)
    requires NoSpace(q.verb) && NoSpace(q'.verb)
    ensures Route(q) == Route(q') <==> q.verb == q'.verb && q.pattern == q'.pattern
  {
    var s, t := Route(q), Route(q');
    if s == t {
      var n, n' := |q.verb|, |q'.verb|;
      assert s[n] == SPACE && t[n'] == SPACE;
      assert forall i :: 0 <= i < n ==> s[i] == q.verb[i];
      assert forall i :: 0 <= i < n' ==> t[i] == q'.verb[i];
      assert n == n';
      assert q.verb == s[..n] && q'.verb == t[..n'];
      assert q.pattern == s[n + 1..] && q'.pattern == t[n' + 1..];
    }
  }

  function KeyOf(q: Http): RowKey
    requires Screen(q).None?
  {
    RowKey(q.scope.value, TrimSpace(q.header))
  }

  /** Spaces around the key in the header are no part of it. */
  lemma KeyIsTrimmed(q: Http, before: Text, key: Text, after: Text)
    requires Screen(q).None? && q.header == before + key + after
    requires AllSpace(before) && AllSpace(after) && Tight(key)
    ensures KeyOf(q).key == key && q.scope == Ok(KeyOf(q).scope)
  {
    TrimSpaceCore(before, key, after);
  }

  ghost function Identify(norm: Rounding, sha: Text -> Text, q: Http, now: int): Request
    requires Screen(q).None?
  {
    Request(KeyOf(q), Route(q), RequestDigest(norm, sha, q.scope.value, Route(q), q.body.value), now)
  }

  /** The stored answer as it is sent; a missing status is sent as 200. */
  function AsSent(row: Row): Sent {
    Sent(match row.status case Some(s) => if s == 0 then 200 else s case None => 200, row.body)
  }

  /** Whether the store can be reached to claim the key, and later to settle the claim. */
  datatype Reach = Reach(begin: bool, settle: bool)

  /** The table after a handler ran under a fresh claim. */
  function AfterRun(r: Request, ttl: int, h: Handling, settled: bool, t: Table): Table {
    var mid := InTx(t[r.key := Claimed(r, ttl)], r.key, h);
    if settled then SettledBy(mid, r.key, Response(h.calls), h.resource) else mid
  }

  /** Everything one mutation does, when no other request interferes. */
  ghost predicate Serves(r: Request, ttl: int, h: Handling, reach: Reach, t: Table,
                         served: Served, sent: Sent, t': Table)
  {
    if !reach.begin then
      served == Refused(Problem(500, Internal)) && t' == t
    else if Takes(r, t) then
      served == Ran && sent == Response(h.calls) && t' == AfterRun(r, ttl, h, reach.settle, t)
    else
      && t' == t
      && match Decide(t[r.key], r)
         case Replay => served == Replayed && sent == AsSent(t[r.key])
         case Conflict => served == Refused(Problem(409, IdempotencyConflict))
         case _ => served == Refused(Problem(409, RequestInProgress))
  }

  /** The headers the middleware adds: a replay says what it is, and a request still running when to retry. */
  function HeadersFor(served: Served, headers: map<string, string>): map<string, string> {
    match served
    case Replayed =>
      headers["Content-Type" := "application/json; charset=utf-8"]["Idempotency-Replayed" := "true"]
             ["Cache-Control" := "no-store"]
    case Refused(p) => if p.code == RequestInProgress then headers["Retry-After" := "1"] else headers
    case Ran => headers
  }

  method Serve(norm: Rounding, sha: Text -> Text, store: Store, conn: Connection, q: Http, now: int, h: Handling,
               reach: Reach)
    returns (served: Served)
    requires conn.calls == [] && AllWritable(h.calls)
    modifies store, conn
    ensures q.verb in [Ascii("GET"), Ascii("HEAD"), Ascii("OPTIONS")] ==>
              served == Ran && conn.calls == h.calls && store.rows == old(store.rows)
    ensures q.verb !in [Ascii("GET"), Ascii("HEAD"), Ascii("OPTIONS")] && Screen(q).Some? ==>
              served == Refused(Screen(q).value) && conn.calls == [] && store.rows == old(store.rows)
    ensures q.verb !in [Ascii("GET"), Ascii("HEAD"), Ascii("OPTIONS")] && Screen(q).None? ==>
              && Serves(Identify(norm, sha, q, now), store.ttl, h, reach, old(store.rows),
                        served, Response(conn.calls), store.rows)
              && conn.headers == HeadersFor(served, old(conn.headers))
    ensures served.Refused? ==> conn.calls == []
  {
    if ReadOnly(q.verb) {
      conn.calls := h.calls;
      return Ran;
    }
    var key := TrimSpace(q.header);
    if key == [] {
      return Refused(Problem(400, KeyRequired));
    }
    if ByteLength(key) > MAX_KEY {
      return Refused(Problem(400, ValidationFailed));
    }
    if q.scope.Err? {
      return Refused(q.scope.error);
    }
    if q.body.None? {
      return Refused(Problem(400, ValidationFailed));
    }
    var digest := ComputeRequestHash(norm, sha, q.scope.value, Route(q), q.body.value);
    var r := Request(RowKey(q.scope.value, key), Route(q), digest, now);
    served := Claimant(store, conn, r, h, reach);
  }

  /** Sends a stored answer. */
  method SendReplay(conn: Connection, row: Row)
    requires conn.calls == []
    modifies conn
    ensures Response(conn.calls) == AsSent(row) && conn.headers == HeadersFor(Replayed, old(conn.headers))
  {
    conn.headers := conn.headers["Content-Type" := "application/json; charset=utf-8"];
    conn.headers := conn.headers["Idempotency-Replayed" := "true"];
    conn.headers := conn.headers["Cache-Control" := "no-store"];
    var status := if row.status.Some? then row.status.value else 0;
    if status == 0 {
      status := 200;
    }
    AllBytesOneMore([], WriteHeader(status));
    conn.Receive(WriteHeader(status));
    AllBytesOneMore([WriteHeader(status)], Write(row.body));
    conn.Receive(Write(row.body));
  }

  /** Runs the handler of a claimed request and settles the claim. */
  method RunClaimed(store: Store, conn: Connection, k: RowKey, h: Handling, reachable: bool)
    requires conn.calls == [] && AllWritable(h.calls)
    modifies store, conn`calls
    ensures Response(conn.calls) == Response(h.calls)
    ensures var mid := InTx(old(store.rows), k, h);
      store.rows == if reachable then SettledBy(mid, k, Response(h.calls), h.resource) else mid
  {
    var w := new BufferingWriter(conn);
    if h.inTx.Some? {
      store.Complete(k, h.inTx.value.status, h.inTx.value.body, h.inTx.value.resource);
    }
    RunHandler(w, h.calls);
    Settle(store, k, w, h, reachable);
  }

  method Claimant(store: Store, conn: Connection, r: Request, h: Handling, reach: Reach) returns (served: Served)
    requires conn.calls == [] && AllWritable(h.calls)
    modifies store, conn
    ensures Serves(r, store.ttl, h, reach, old(store.rows), served, Response(conn.calls), store.rows)
    ensures conn.headers == HeadersFor(served, old(conn.headers))
    ensures served.Refused? ==> conn.calls == []
  {
    if !reach.begin {
      return Refused(Problem(500, Internal));
    }
    var begun := store.Begin(r);
    match begun {
      case ErrConflict =>
        return Refused(Problem(409, IdempotencyConflict));
      case ErrInProgress =>
        conn.headers := conn.headers["Retry-After" := "1"];
        return Refused(Problem(409, RequestInProgress));
      case Stored(row) =>
        SendReplay(conn, row);
        return Replayed;
      case Owned =>
        RunClaimed(store, conn, r.key, h, reach.settle);
        return Ran;
    }
  }

  // ---------- A retry ----------

  /** A request for the same key that begins before the first claim expires. */
  predicate Retries(r: Request, again: Request, ttl: int) {
    again.key == r.key && r.now <= again.now <= r.now + ttl
  }

  function AnswerSent(a: StoredAnswer): Sent {
    Sent(if a.status == 0 then 200 else a.status, a.body)
  }

  /** What a retry of a run is to be given back, if anything: the response, or the answer of the transaction. */
  function Kept(h: Handling, settled: bool): Option<Sent> {
    var sent := Response(h.calls);
    if settled && !Transient(sent.status) then Some(Sent(sent.status, Payload(sent.body)))
    else if h.inTx.Some? then Some(AnswerSent(h.inTx.value))
    else None
  }

  /**
   After a handler run, a retry with the same digest is replayed exactly what was
   kept, and without that runs the handler again or, if the first run could not be
   settled, is told to wait. Another digest is a conflict in every case.
   */
  lemma RetryGetsWhatWasKept(r: Request, again: Request, ttl: int, h: Handling, h': Handling,
                             reach: Reach, reach': Reach, t: Table,
                             served: Served, sent: Sent, t1: Table, served': Served, sent': Sent, t2: Table)
    requires reach.begin && reach'.begin && AllWritable(h.calls)
    requires Serves(r, ttl, h, reach, t, served, sent, t1) && Takes(r, t)
    requires Retries(r, again, ttl) && Serves(again, ttl, h', reach', t1, served', sent', t2)
    ensures again.hash != r.hash ==> served' == Refused(Problem(409, IdempotencyConflict)) && t2 == t1
    ensures again.hash == r.hash ==>
              match Kept(h, reach.settle)
              case Some(answer) => served' == Replayed && sent' == answer && t2 == t1
              case None => served' == if reach.settle then Ran else Refused(Problem(409, RequestInProgress))
  {
    var mid := InTx(t[r.key := Claimed(r, ttl)], r.key, h);
    assert r.key in mid && mid[r.key].hash == r.hash && mid[r.key].expiresAt == r.now + ttl;
  }

  /**
   A retry gets the same response without running the handler exactly when it is
   the same request and either the response was settled, its status is neither 429
   nor 500 or above and its body is at most 65536 bytes long, or it equals the
   answer the transaction stored.
   */
  lemma RetrySeesTheSame(r: Request, again: Request, ttl: int, h: Handling, h': Handling, reach: Reach, reach': Reach,
                         t: Table, served: Served, sent: Sent, t1: Table, served': Served, sent': Sent, t2: Table)
    requires reach.begin && reach'.begin && AllWritable(h.calls)
    requires Serves(r, ttl, h, reach, t, served, sent, t1) && Takes(r, t)
    requires Retries(r, again, ttl) && Serves(again, ttl, h', reach', t1, served', sent', t2)
    ensures served' == Replayed && sent' == sent
       <==> again.hash == r.hash
            && if reach.settle && sent.status != 429 && sent.status < 500 then |sent.body| <= 65536
               else h.inTx.Some? && AnswerSent(h.inTx.value) == sent
  {
    RetryGetsWhatWasKept(r, again, ttl, h, h', reach, reach', t, served, sent, t1, served', sent', t2);
  }

  /**
   End to end: after a response that was settled and not transient, another request
   with the same scope and key is replayed exactly when its method, its pattern and
   the meaning of its body are those of the first; otherwise it is a conflict.
   */
  lemma SameKeySameRequest(norm: Rounding, sha: Text -> Text, q: Http, again: Http, now: int, later: int, ttl: int,
                           h: Handling, h': Handling, reach: Reach, reach': Reach, t: Table,
                           served: Served, sent: Sent, t1: Table, served': Served, sent': Sent, t2: Table)
    requires Screen(q).None? && Screen(again).None? && KeyOf(q) == KeyOf(again) && now <= later <= now + ttl
    requires RoundTrips(norm) && NulFree(q.scope.value) && NulFree(Route(q)) && NulFree(Route(again))
    requires NoSpace(q.verb) && NoSpace(again.verb)
    requires CollisionFree(sha, {DigestInput(norm, q.scope.value, Route(q), q.body.value),
                                 DigestInput(norm, q.scope.value, Route(again), again.body.value)})
    requires reach == Reach(true, true) && reach'.begin && AllWritable(h.calls)
    requires var r := Identify(norm, sha, q, now);
      Takes(r, t) && Serves(r, ttl, h, reach, t, served, sent, t1)
    requires Serves(Identify(norm, sha, again, later), ttl, h', reach', t1, served', sent', t2)
    requires sent.status != 429 && sent.status < 500
    ensures var same := q.verb == again.verb && q.pattern == again.pattern
                        && Read(norm, q.body.value) == Read(norm, again.body.value);
      if same then served' == Replayed && sent' == Sent(sent.status, if |sent.body| <= 65536 then sent.body else [])
      else served' == Refused(Problem(409, IdempotencyConflict))
  {
    RequestHashDecides(norm, sha, q.scope.value, Route(q), q.body.value,
                       again.scope.value, Route(again), again.body.value);
    RouteDecides(q, again);
    var r, r' := Identify(norm, sha, q, now), Identify(norm, sha, again, later);
    RetryGetsWhatWasKept(r, r', ttl, h, h', reach, reach', t, served, sent, t1, served', sent', t2);
  }
}
