# Verification of the shared service library

This project models the parts of the library whose correctness spans whole runs
or all inputs, and proves what they are relied on for. It is written in Dafny;
`dafny verify dfyconfig.toml` checks all of it.

- **Request identity** (`Runes`, `JsonGrammar`, `JsonScanner`, `Json`, `Bodies`,
  `JsonSpelling`, `RequestHash`, `Utf8`). Bodies are arbitrary byte strings, read as runes. The JSON
  grammar of RFC 8259 (sections 2 to 7) is a type of concrete syntax trees; the
  scanner is proved to be its exact inverse, so "denotes a value" has a meaning of
  its own, independent of the printer; what a string denotes is also said by how
  its runes may be spelled. The printer with sorted keys is proved against that
  meaning, and the request digest decides sameness of requests. `Utf8` relates
  runes to the bytes the code compares, measures and trims.
- **Idempotency** (`Idempotency`, `IdempotencyRuns`, `Middleware`). The record
  table, the store's operations, every interleaving of concurrent requests, and
  the middleware with its buffering writer.
- **Audit chain** (`Audit`, `AuditForgery`, `AuditAppend`). The 13-part digest, the
  forward verifier, tampering, what a NUL in a text allows, and appends by
  concurrent transactions under the lock on the head row.
- **Rate limiter** (`RateLimit`, `CacheRuns`, `TableRuns`). The decision over
  several rules, and the counting theorem of each backend.
- **Circuit breaker** (`Circuit`). The in-place pruned failure list against the
  full history, and the spacing of probes.
- **Projection rewriter** (`Projection`, `ProjectionCounts`). The splitter, its
  inverse, the rewrite, and where it cuts, by counting over the input.
- **Transactions and outbox** (`Transactions`, `Outbox`, `OutboxRuns`). The retry
  loop with the variables its body captures, and relays side by side.

## How the source's objects appear

Classes with mutable fields are classes here (`RequestHash.Buffer`,
`Idempotency.Store`, `Middleware.BufferingWriter`, `AuditAppend.ChainTx`,
`RateLimit.Limiter`, `Circuit.CircuitBreaker`, `Transactions.Database`,
`Outbox.Store`); loops are loops. Each such method is proved equal to a
specification function, and the theorems are about those functions. The run
modules use the same functions as steps of a state machine, so a run theorem is
about the code the methods are proved to be. Stored rows are maps, a row lock is a
holder or an atomic step, time is an integer on one non-decreasing clock.

SHA-256 is a parameter. No theorem assumes that it is injective: each one that
needs it assumes only that no two of the texts it names collide. Printing a
float64 is a parameter too (`Json.Rounding`): a number token is mapped to the
token it prints as, or rejected, and printed tokens print as themselves.

## Where the code does less than it seems to

- `Begin` keeps the variables its transaction body set when an attempt is rolled
  back, so it can report ownership of a key whose stored answer it has just read.
  `Idempotency.OwnershipReported` says exactly when, `Idempotency.StaleOwnership`
  builds such a run.
- `Complete` does not check who owns the key. Every key has one owner in every run
  exactly when owners settle within the lifetime of a claim and no attempt that
  took a key is rolled back (`IdempotencyRuns.ExclusiveIff`).
- A response body over 64 KiB is stored as a completed answer without a body. The
  comment at idempotency/middleware.go:78-80 says it is not stored; the code at
  172-175 and 189-192 does store it. `Middleware.RetrySeesTheSame` has the exact
  condition under which a retry sees the first response.
- The comment at ratelimit/ratelimit.go:37 promises at most `Limit` events per
  window. With the database counter this holds exactly for aligned intervals
  (`TableRuns.LimitHoldsIffAligned`); any other interval can admit up to twice
  that. With the cache it holds for all intervals, but exactly for the rules with
  which no shorter window shares the bucket (`CacheRuns.LimitHoldsIffShortest`):
  two rules on one dimension share a bucket, and the shorter one's expiry resets
  the longer one's count. Both hold for every limit of at least one.
- `Cleanup` takes any age. Aligned windows hold exactly when the age is at least
  the longest window plus the statement deadline, less one tick
  (`TableRuns.CleanupAgeIff`).
- Refused calls arm the expiry of a cache counter too, so a bucket that is asked
  again within every window stays refused (`CacheRuns.Lockout`).
- An identifier marked present but zero is stored as NULL, and its entry can then
  never be verified again (`Audit.RereadVerifies`); the verifier stops at the first
  one (`AuditAppend.CommittedVerdict`).
- `Append` rejects no NUL, and the digest ends its parts with NUL. A row whose role,
  action, target type, reason, request identifier or before or after hash contains
  one can be edited unnoticed, by moving text over the NUL into the neighbouring
  field: a reason "x", NUL, "y" with an empty request identifier reads as reason "x"
  and request identifier "y", NUL. Every edit of a row is reported exactly when it
  contains none (`AuditForgery.EditsReportedIffNoNul`).
- `ClaimBatch` does not reset its count between attempts, and reports it even when
  the call fails. `Outbox.ProcessedReported` says exactly when the count is the
  number of events published; `Outbox.ProcessedTooHigh` is a run where it is not.
- Rows deleted at the tail of the audit trail are accepted by the verifier; only
  the head row can tell (`AuditAppend.HeadSeesTailDeletion`).
- A NUL in one request's scope or route can make it look like another request.
  `RequestHash.ConfusableIff` says exactly which pairs of scope and route some
  bodies make look alike, and `RequestHash.MistakableIffNul` when one and the same
  body does.
- A transaction in which the update of the audit head failed must not commit
  (`AuditAppend.AdvanceIsNeeded`); nothing but the caller prevents it.

## Model

| member | source | states |
|---|---|---|
| `RequestHash.RequestHashDecides` | idempotency/store.go:247-259 | two requests have the same digest exactly when scope, route and the meaning of the body (blank, a JSON value, or a verbatim text) are the same |
| `RequestHash.DigestInputDecides` | idempotency/store.go:252-258 | the NUL-separated bytes given to the hasher determine scope, route and meaning, and are determined by them |
| `RequestHash.ConfusableIff` | idempotency/store.go:252-258 | two pairs of scope and route are digested as the same bytes for some two bodies exactly when their NUL-terminated frames are equal or one goes on after the other with anything but a space |
| `RequestHash.ComputeRequestHash` | idempotency/store.go:247-259 | the stepwise hasher ends with the digest of exactly that input |
| `RequestHash.WriteCanonicalJson` | idempotency/store.go:279-296 | nothing for a blank body, the canonical text for a JSON body, the trimmed bytes for any other |
| `RequestHash.WriteCanonical` | idempotency/store.go:298-343 | appends to the shared buffer the canonical text of a value of any depth, whatever order the map's keys were collected in |
| `RequestHash.SortStrings` | idempotency/store.go:301-305 | the sorted rearrangement of the keys, in byte order |
| `RequestHash.SortedPermutation` | idempotency/store.go:301-305 | the order in which a map yields its keys cannot show: every sorted arrangement of them is the same |
| `Bodies.CanonicalRoundTrip` | idempotency/store.go:298-343 | parsing the canonical text of any value, followed by a delimiter or the end, gives back the value and consumes exactly that text |
| `Bodies.CanonicalInjective` | idempotency/store.go:298-343 | different values print differently |
| `Bodies.CanonicalSeparates` | idempotency/store.go:279-296 | two bodies have the same canonical bytes exactly when they mean the same; a verbatim body never equals a canonical one |
| `Bodies.CanonicalIdempotent` | idempotency/store.go:279-296 | canonicalising twice changes nothing, for every body |
| `Bodies.LayoutIrrelevant` | idempotency/store.go:279-288 | whitespace around and inside a document does not change what it means |
| `Bodies.ReorderedMembers` | idempotency/store.go:300-322 | objects that bind the same names to the same values in another order mean the same |
| `Bodies.LastMemberWins` | idempotency/store.go:284-285 | an object has exactly the names of its members, and of equal names the last member's value |
| `JsonSpelling.SpelledReads` | idempotency/store.go:284-285 | however its runes are spelled, plainly, by a short escape, by four hexadecimal digits or by a surrogate pair, a string denotes them |
| `JsonSpelling.StrayReads` | idempotency/store.go:284-285 | a surrogate without its partner is read as the replacement character |
| `JsonSpelling.SpellingsDecide` | idempotency/store.go:279-296 | two string bodies have the same canonical bytes exactly when they spell the same runes |
| `JsonSpelling.NestingLimit` | idempotency/store.go:284-290 | arrays nested up to 10000 deep are read as a document, deeper ones are a verbatim text |
| `JsonSpelling.PrintedShape` | idempotency/store.go:298-343 | words, quoted strings, and lists with commas between the parts and no whitespace, members in key order |
| `JsonSpelling.PrintedSafe` | idempotency/store.go:313-340 | controls, ampersands, angle brackets and the two line separators are never printed as themselves |
| `Utf8.BeforeIffBytesLess` | idempotency/store.go:305 | the order of the keys is the byte order of their encodings |
| `Bodies.DecodedIsDocument` | idempotency/store.go:284-289 | a body is treated as JSON only if it is the text of a well-formed document, and its value is the document's |
| `JsonScanner.ScanDocComplete` | idempotency/store.go:284-289 | the scanner accepts the text of every well-formed document and rebuilds that document |
| `JsonScanner.ScanDocSound` | idempotency/store.go:284-289 | what the scanner accepts is the text of the document it returns |
| `Json.SortedUnique` | idempotency/store.go:305 | a set of keys has only one sorted arrangement |
| `Idempotency.Store.Begin` | idempotency/store.go:73-170 | claims an absent, expired or failed key with an empty row of the request's own that expires one lifetime later, replays a completed one, and refuses another digest or a request still running |
| `Idempotency.ExpiredIsClaimed` | idempotency/store.go:144-158 | a row past its expiry is claimed whatever its state and digest, and before it only a failed row with the same digest |
| `Idempotency.Store.Complete` | idempotency/store.go:200-221 | stores state, status, body and resource of an existing row; other rows and the claim's route, digest and times stay as they are |
| `Idempotency.Store.Fail` | idempotency/store.go:225-231 | only a row in progress becomes retryable, and the claim itself and other rows stay as they are |
| `Idempotency.Store.Purge` | idempotency/store.go:235-242 | deletes only expired rows, counts them, and stops short of the limit only when none is left |
| `Idempotency.OwnershipReported` | idempotency/store.go:92-169 | ownership is reported exactly when the committed attempt took the key, unless an earlier attempt took it and was rolled back |
| `Idempotency.StaleOwnership` | idempotency/store.go:92-169 | a run in which a stored answer is found and ownership is reported all the same |
| `IdempotencyRuns.ExclusiveIff` | idempotency/store.go:73-242 | every run keeps one owner per key exactly when owners settle within the lifetime of a claim and no attempt that took a key is rolled back |
| `IdempotencyRuns.OneOwner` | idempotency/store.go:73-242 | in every such run the live owner's row is its own claim, and claims minus effective failures are 0 when the row has failed and 1 otherwise |
| `IdempotencyRuns.LateOwnerShares` | idempotency/store.go:144-146 | for every settling bound above the lifetime, a run with two owners of one key |
| `IdempotencyRuns.RolledBackClaimShares` | idempotency/store.go:92-169 | for every settling bound, a run in which a rolled-back claim ends in a second owner |
| `IdempotencyRuns.AttemptRunsBody` | idempotency/store.go:96-159 | the attempts in the runs, committed or rolled back, are runs of Begin's transaction body with its captured variable |
| `IdempotencyRuns.UndisturbedBegin` | idempotency/store.go:73-170 | the insert and the decision under the row lock, run without interruption, are Begin |
| `IdempotencyRuns.OwnedKeyIsClosed` | idempotency/store.go:144-158 | while a key has a live owner, another digest gets a conflict whatever the state, and the same digest the stored answer or "in progress" |
| `IdempotencyRuns.SettledForLife` | idempotency/store.go:144-158 | a stored answer without a live owner stays as it is until it expires, and every request for the key that is answered gets it or a conflict |
| `IdempotencyRuns.ReplayFidelity` | idempotency/middleware.go:165-196 | an owner that settles leaves its own response, or untouched the answer it stored in its transaction, and that answer is replayed for life |
| `Middleware.BufferingWriter.WriteHeader` | idempotency/middleware.go:55-62 | only the first status counts, for the buffer and for the client alike |
| `Middleware.BufferingWriter.Write` | idempotency/middleware.go:64-70 | the buffer holds every byte the client was sent, and a first write fixes status 200 |
| `Middleware.Settle` | idempotency/middleware.go:165-196 | a status below 500 other than 429 is stored with its body, if that is at most 65536 bytes, and with the resource for 200 to 399 only; any other makes the key retryable |
| `Utf8.ScreenPasses` | idempotency/middleware.go:93-116 | a mutation reaches its key exactly with a visible key of at most 255 bytes, a scope and a readable body |
| `Utf8.ByteLengthIsBytes` | idempotency/middleware.go:100 | the measured length is the number of bytes |
| `Middleware.RouteDecides` | idempotency/middleware.go:92 | the route tells method and pattern apart |
| `Middleware.KeyIsTrimmed` | idempotency/middleware.go:92-93 | whitespace around the header does not make another key |
| `Middleware.Serve` | idempotency/middleware.go:84-198 | the added headers mark a replay or say when to retry; read-only methods pass through; malformed requests and an unreachable store are refused before the key is touched; a mutation is run, replayed or refused as the table says |
| `Middleware.RetryGetsWhatWasKept` | idempotency/middleware.go:146-196 | a retry is given the settled response, or else the answer stored in the handler's transaction, or else runs again; if settling failed it is told to wait; another digest is always a conflict |
| `Middleware.RetrySeesTheSame` | idempotency/middleware.go:146-196 | a retry gets the first response without running the handler exactly when it is the same request and the response was settled with a status below 500 other than 429 and at most 65536 bytes, or equals the answer of the transaction |
| `Middleware.SameKeySameRequest` | idempotency/middleware.go:112-163 | end to end: a later request under the same key is replayed exactly when its method, its pattern and the meaning of its body are the first one's, and is a conflict otherwise |
| `Audit.DigestedInjective` | audit/audit.go:161-184 | the digested bytes of an event without NUL are those of another event, whatever its texts, exactly when all 13 hashed fields are equal |
| `Audit.PreviousFixed` | audit/audit.go:161-184 | the predecessor's hash can be read off the digested bytes whatever the other texts hold |
| `AuditForgery.ForgeableIffNul` | audit/audit.go:161-184 | some other event has the same digested bytes exactly when a text the caller supplies contains a NUL |
| `AuditForgery.ForgeryAccepted` | audit/audit.go:314-331 | a list stays accepted when a row with a NUL is replaced by one with other fields and the same entry hash |
| `AuditForgery.EditsReportedIffNoNul` | audit/audit.go:314-331 | every edit of a row under its entry hash is reported there exactly when no text of the row contains a NUL |
| `Audit.RereadVerifies` | audit/audit.go:124-133 | any stored entry verifies when read back exactly when no identifier is present and zero |
| `Audit.VerifyChain` | audit/audit.go:301-332 | checked counts the rows before the first broken link among the first limit rows, and brokenAt is its sequence number, or 0 |
| `Audit.BeyondLimit` | audit/audit.go:301-309 | rows past the limit do not matter |
| `Audit.VerdictUnique` | audit/audit.go:301-332 | no other answer meets that description |
| `Audit.TailFixesHashes` | audit/audit.go:314-331 | any two accepted lists that end in the same entry hash have equal length and equal entry hashes throughout |
| `Audit.TamperEvident` | audit/audit.go:314-331 | a list without NUL and any accepted list that ends in the same entry hash agree on every hashed field of every row |
| `Audit.HashesDistinct` | audit/audit.go:314-331 | no entry hash occurs twice in any accepted list, whatever the identifiers and texts |
| `Audit.DeletionReported` | audit/audit.go:299-332 | in any accepted list, deleting any run of rows that leaves a later one is reported at the first row after it |
| `Audit.EditReported` | audit/audit.go:299-332 | changing a hashed field of a row without NUL to anything the columns hold, under the same entry hash, is reported at that row |
| `Audit.AcceptedPrefix` | audit/audit.go:301-332 | rows cut off at the tail go unnoticed by the verifier |
| `AuditAppend.ChainTx.Append` | audit/audit.go:70-151 | appends one entry that records the caller's event field by field behind the last one and moves the head to it; a blank action, metadata that cannot be encoded or a failing statement changes nothing, except that a failing head update leaves a state that must be rolled back |
| `AuditAppend.AdvanceIsNeeded` | audit/audit.go:139-150 | between the insert and the head update the head is not the one the rows imply |
| `AuditAppend.ChainNeverForks` | audit/audit.go:91-151 | in every interleaving of appending transactions, commits and rollbacks, the committed rows are one chain whose last hash and length are in the head row |
| `AuditAppend.CommittedRecord` | audit/audit.go:70-151 | every committed entry of every run records an inserted event: its own fields, role and reason cut to 200 and 400 bytes, identifiers and time from the caller or else the surroundings; in the order of the inserts |
| `Utf8.BlankIffSpaces` | audit/audit.go:71-73 | an action is refused as blank exactly when all its runes are spaces |
| `AuditAppend.CommittedVerdict` | audit/audit.go:301-332 | on the committed rows of every such run the verifier stops exactly at the first entry with an identifier present and zero, and accepts them all exactly when there is none |
| `AuditAppend.HeadSeesTailDeletion` | audit/audit.go:103-109 | the head row's hash is not the last hash of a list cut off at the tail |
| `RateLimit.Limiter.Allow` | ratelimit/ratelimit.go:76-109 | allowed exactly when every applicable rule lets the call pass; otherwise the first that does not decides and no later one is counted |
| `RateLimit.Limiter.IncrementWindow` | cache/cache.go:140-153 | counts from one after the expiry and arms the expiry again every time |
| `RateLimit.Limiter.IncrementDB` | ratelimit/ratelimit.go:126-147 | increments the row of the aligned window that contains now and, after whatever other processes did to the rows, reports what it reads back, or an error if the row is gone |
| `RateLimit.CollectValues` | ratelimit/ratelimit.go:77-82 | the last non-empty value of each dimension |
| `RateLimit.SameBucketIff` | ratelimit/ratelimit.go:89 | calls count together exactly when route, dimension and value are the same |
| `RateLimit.OthersUnaffected` | ratelimit/ratelimit.go:76-109 | a call of one subject changes neither the decision about a call of another nor what its buckets hold |
| `RateLimit.ApplicableIffSupplied` | ratelimit/ratelimit.go:84-89 | the counted rules are exactly those with a value, each in the bucket of its value |
| `RateLimit.LastSuppliedWins` | ratelimit/ratelimit.go:77-82 | the last key of a dimension that is not empty supplies its value |
| `RateLimit.RefusalWaits` | ratelimit/ratelimit.go:93-105 | a refusal names a rule of the call and asks to wait a second, a whole window or to the end of the aligned window, by what counted |
| `RateLimit.FailOpenCounts` | ratelimit/ratelimit.go:91-108 | a limiter that fails open admits a call exactly when every rule that could be counted was within its limit |
| `RateLimit.FailClosedCounts` | ratelimit/ratelimit.go:91-108 | a limiter that fails closed admits a call exactly when every applicable rule was counted within its limit |
| `CacheRuns.CacheBound` | cache/cache.go:140-153 | in every run, any interval of one window's length, aligned or not, admits at most the limit under a rule whose bucket no shorter window shares |
| `CacheRuns.LimitHoldsIffShortest` | cache/cache.go:140-153 | a rule's limit, whatever it is, holds in every run exactly when no rule that shares the bucket has a shorter window |
| `CacheRuns.CountIsStreak` | cache/cache.go:140-153 | in every run a count is the number of increments of the bucket since its last expiry |
| `CacheRuns.StreakIsLongest` | cache/cache.go:140-153 | those increments are the longest end of the bucket's increments in which each comes while the window is running |
| `CacheRuns.Lockout` | cache/cache.go:140-153 | a later call of such an unbroken stretch always counts higher, refused or not |
| `CacheRuns.AllowedCountedEverywhere` | ratelimit/ratelimit.go:84-108 | an allowed call was counted within the limit of every applicable rule |
| `TableRuns.WindowBound` | ratelimit/ratelimit.go:126-159 | with increments, reads and cleanups of any number of processes interleaved, an aligned window admits at most the limit |
| `TableRuns.IntervalBound` | ratelimit/ratelimit.go:126-159 | any interval of one window's length admits at most twice the limit |
| `TableRuns.CleanupAgeIff` | ratelimit/ratelimit.go:149-159 | aligned windows never admit more than a limit exactly when Cleanup's age is at least the longest window plus the deadline, less one tick |
| `TableRuns.LimitHoldsIffAligned` | ratelimit/ratelimit.go:37-42 | a limit, whatever it is, bounds an interval of one window's length exactly when it is aligned |
| `Circuit.CircuitBreaker.Allow` | providers/circuit.go:58-84 | one probe after the cooldown, none before |
| `Circuit.CircuitBreaker.RecordSuccess` | providers/circuit.go:87-95 | forgets the failures and closes from any state |
| `Circuit.CircuitBreaker.Compact` | providers/circuit.go:102-109 | the array's front holds exactly the failures later than the cutoff, in order |
| `Circuit.CircuitBreaker.RecordFailure` | providers/circuit.go:98-118 | the pruned failures with the new one, and open from half-open or at the threshold |
| `Circuit.FailureListIsWindow` | providers/circuit.go:102-109 | in every history the incrementally pruned list is the filter of all failures since the last success by the window ending at the latest |
| `Circuit.ClosedUnlessTripped` | providers/circuit.go:98-118 | the breaker is closed exactly while no failure since the last success completed threshold failures in one window |
| `Circuit.AdmitsIff` | providers/circuit.go:58-118 | read off the history alone: a call is admitted exactly when the window never filled up since the last success, or no probe is under way and a cooldown has passed since the last failure that filled the window or was the first after a probe |
| `Circuit.FailedProbeReopens` | providers/circuit.go:98-118 | a probe that fails reopens the circuit at its own time: calls are refused until a cooldown later, and the first one from then on is admitted |
| `Circuit.AdmittedIff` | providers/circuit.go:58-84 | after any history a call is admitted exactly when the window never filled up since the last success, or the circuit is open and cooled down |
| `Circuit.ProbeBound` | providers/circuit.go:58-84 | from its opening until a success, admitted calls are a cooldown apart, so time T admits at most T / cooldown |
| `Transactions.Database.RunTx` | database/database.go:219-246 | commits the body's writes, or rolls them all back |
| `Transactions.Database.InTx` | database/database.go:194-217 | at most four attempts; only retryable failures lead to another; the committed state is the body applied once to what the last attempt began from, or untouched |
| `Transactions.LastAttempt` | database/database.go:194-217 | an attempt is followed by another exactly when it failed with a retryable error and nobody cancelled, and three such failures still reach a fourth attempt |
| `Transactions.AllOrNothing` | database/database.go:191-217 | an error leaves the state alone and success applies the body exactly once, however many attempts were rolled back |
| `Projection.SplitTopLevel` | database/database.go:392-419 | the parts between the commas at depth 0 outside quotes |
| `ProjectionCounts.CutsAreCounted` | database/database.go:392-419 | by counting: a comma ends a part exactly when an even number of apostrophes without a backslash before them and as many opening as closing parentheses outside quotes stand before it |
| `ProjectionCounts.CallIsOnePart` | database/database.go:360-365 | a function call with balanced arguments is never cut, whatever commas its arguments hold |
| `ProjectionCounts.AliasPlaced` | database/database.go:379-388 | the alias and a dot stand before the first argument, or before the whole expression where there is no parenthesis |
| `ProjectionCounts.ColumnsOfParts` | database/database.go:366-377 | each part contributes its own column, or none when it is blank, in order |
| `Projection.SplitLosesNothing` | database/database.go:392-419 | joining the parts with commas gives back the input, less one trailing top-level comma |
| `Projection.PartsStandAlone` | database/database.go:392-419 | each part alone has no top-level comma, and all but the last end at depth 0 outside quotes |
| `Projection.SplitJoin` | database/database.go:392-419 | splitting a joined list of such parts gives back the list |
| `Projection.PrefixColumns` | database/database.go:366-377 | joins the qualified, trimmed, non-blank parts |
| `Projection.PrefixColumnsCommutes` | database/database.go:366-388 | splitting and trimming the rewritten projection gives exactly the qualified columns of the input, in order |
| `Outbox.BatchUnique` | outbox/outbox.go:113-119 | the claimable rows and the limit leave one possible batch, in identifier order |
| `Outbox.Store.Append` | outbox/outbox.go:72-91 | inserts one unpublished event, with a fresh identifier and the time where they are missing, or nothing when the identifier exists |
| `Outbox.Store.Record` | outbox/outbox.go:138-155 | writes the results in order up to a failing statement and counts the successes among them |
| `Outbox.ResultsLand` | outbox/outbox.go:138-155 | with one result per event, each lands on its own row: one more attempt, and either the message identifier and time or the truncated error |
| `Outbox.RecordedMarks` | outbox/outbox.go:138-155 | no event is added, lost or rewritten, and an event is published exactly when some attempt for it succeeded |
| `Outbox.CountMatchesMarks` | outbox/outbox.go:148-153 | one attempt's count is the number of events it publishes exactly when its successes name distinct events that are there and unpublished |
| `Outbox.ProcessedReported` | outbox/outbox.go:111-158 | the reported count is the number of events the call published exactly when no rolled-back attempt had counted anything and the committed one's successes name distinct events that are there and unpublished, or the failed last one had counted nothing |
| `Outbox.ProcessedTooHigh` | outbox/outbox.go:111-158 | a retried batch of one event reports two |
| `OutboxRuns.PublishedOnce` | outbox/outbox.go:110-158 | in every interleaving of relays, open claims share no event, an event is marked at most once and only after a send in the same transaction, and is never handed out afterwards |
| `OutboxRuns.PublishedForGood` | outbox/outbox.go:148-152 | a published row never changes again |

## Left out

- `RequestHash.RequestHashDecides`: assumes that SHA-256 does not collide on the two digested texts; SHA-256 itself is not part of this model.
- `Bodies.CanonicalRoundTrip`: numbers are tokens under an idempotent rounding; the digits float64 printing chooses are not modelled.
- `IdempotencyRuns.ReplayFidelity`: expiry of the claim ends the guarantee, as it does in the code.
- `Middleware.Serve`: the handler's own headers, the rendering of problem documents, logging and metrics are not modelled; an informational or bodyless status is treated like any other.
- `Idempotency.OwnershipReported`: a body whose insert meets a duplicate made by another request in between ends with an error; IdempotencyRuns has that step, this transaction body does not.
- `AuditAppend.ChainTx.Append`: what metadata is stored, and its redaction, are not modelled; they are no part of the digest.
- `AuditForgery.EditsReportedIffNoNul`: the actor type is one of the code's constants and the predecessor's hash a digest, so neither contains a NUL.
- `AuditAppend.ChainNeverForks`: a transaction whose head update failed is taken to roll back, as `AuditAppend.AdvanceIsNeeded` says it must.
- `Audit.VerifyChain`: scan errors are not modelled.
- `CacheRuns.CacheBound`: windows are whole seconds, and the cache keeps its keys until they expire.
- `TableRuns.IntervalBound`: Cleanup's age is at least what `TableRuns.CleanupAgeIff` shows to be needed.
- `RateLimit.Limiter.Allow`: a cache that counts a call but reports an error is not modelled.
- `RateLimit.FailOpenCounts`: such a limiter admits calls it could not count, so no bound over runs is claimed for it.
- `RateLimit.SameBucketIff`: routes and dimensions contain no vertical bar; the code does not check that.
- `Circuit.ProbeBound`: says nothing about how long half-open lasts, since a caller may leave a probe unsettled.
- `Transactions.Database.RunTx`: a panic in the body is an error that is not retryable; that it is thrown on rather than returned is not modelled.
- `Transactions.Database.InTx`: a commit error means that nothing was committed; isolation within an attempt, statement timeouts and the length of the backoff are not modelled.
- `OutboxRuns.PublishedOnce`: the publishing callback is taken to report only events of its batch; a send whose transaction rolls back is repeated, so delivery is at least once.
- Text column widths, character sets and the splitting of a multi-byte character by truncate.
- `Load`, `CanonicalHash`, `HashOf`, `List`, `Lag`: reads and digests that add only easy members.
- `AcquireLock`, the cache's other operations, connection handling, DSN parsing and the classification of MySQL error numbers.
- Money, identifiers beyond their text form, secrets, storage and provider clients, HTTP plumbing, tracing and metrics.
