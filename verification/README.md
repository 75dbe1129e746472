# Verified model of the mail server's core

This project models the parts of the mail server that keep state under concurrency or decide about mail, and proves
what they promise. Each file models one part of the program; a second file, named `...runs` or `...proofs`, states what
holds over whole runs.

- `pool.dfy`, `poolruns.dfy`: the storage connection pool. Every critical section and every channel operation is one
  step; any number of goroutines interleave.
- `ratelimit.dfy`, `ratelimitruns.dfy`, `ratelimitfine.dfy`: the token bucket per client and the eviction of idle
  buckets, with calls as atomic steps and then at the grain of the two locks.
- `timeout.dfy`: the race between a handler and its deadline for one response.
- `limiter.dfy`, `limiterruns.dfy`, `middlewareruns.dfy`: connection limits, bans, and the middleware that is their
  client, in every interleaving of its lock sections.
- `spf.dfy`, `spfstandard.dfy`, `spfproofs.dfy`: the recursive SPF evaluator, RFC 7208 as it stands, and where the two
  agree.
- `dmarc.dfy`, `dmarcproofs.dfy`: DMARC alignment and the action on a message.
- `postfix.dfy`, `postfixproofs.dfy`: the list of domains as a text file, mirrored into a Postfix setting.
- `dns.dfy`, `dnsproofs.dfy`: reconciling a zone's records.
- `headers.dfy`, `headersproofs.dfy`: the header parser.
- `text.dfy`: the string operations they share, with their laws.

Parts that work step by step are classes and methods with loops, each proved equal to a function on values; the runs and
the theorems about them are stated over those functions. Clocks, factories, lookups, the throttle and the success of
`postconf` are parameters, so every theorem holds for all their answers.

## What turned out not to hold

Where the code does not do what its names or comments suggest, the model follows the code and states exactly when it
does.

- The pool can exceed its size limit, by up to one connection less than there are goroutines: the check and the creation
  are separate critical sections. `OvershootExactly` says when.
- The pool counts idle connections that a failing factory never made; the difference stays forever
  (`IdleAndSizeBound`). When all of them failed every connection given back is thrown away, and a goroutine can be left
  waiting for one that cannot come (`StrandedExactly`).
- Evicting idle rate-limit buckets is visible exactly when a bucket can be evicted before it has refilled
  (`EvictionIsInvisible`). The server's defaults are safe.
- A deadline after the handler's first call can make the middleware return with part of the response. A handler is safe
  from that exactly when it writes no body after its first call (`NeverTruncatedExactly`).
- `UpdateLimits` puts an empty limiter in place while connections of the old one will still give their slots back, to
  the new one, which then counts fewer than it let in. It is safe exactly when no such connection is held
  (`ReplaceIsSafeExactly`).
- Two closers of one connection can both find it not closed, since no lock guards that test, and give its slot back
  twice, the second time at the expense of another caller (`TwoClosersSteal`). From any state `StaysExactExactly` says
  whether later runs can lose count, and `ExactThroughoutExactly` at which event a run does.
- `checkSPF` skips directives such as `-ip6:`, `-mx`, `+include:` or `-ALL` (`BranchExactly`, `HandledExactly`). On
  circular includes it need not end; `DivergesExactly` says for which records it does not, and `RankedIncludesEnd` what
  keeps it from happening.
- A failed query of an `a` or `mx` mechanism is taken for no match (`FailedASkipped`, `FailedMxSkipped`,
  `FailedExchangerSkipped`), where section 5 of RFC 7208 asks for a temporary error, and an include without a record is
  skipped (`DeadIncludeSkipped`), where section 5.2 asks for a permanent one. `AgreesExactly` says that this is all that
  makes a difference: the results agree exactly when the program comes past no such query or include.
- A sender's domain whose name does not exist gives a temporary error (`NoneAndTempError`), where section 4.3 of RFC
  7208 asks for none. `VerifyAgreesExactly` has this with the others in one condition.
- The first record that starts with v=spf1 is taken, where section 4.5 asks for a word boundary and for a single record.
  `SameRecordExactly` says when the choice is the same.
- Any white space sets off the terms of an SPF record for the program, where section 4.6.1 has spaces only
  (`SameTermsExactly`).
- A message rejected under a strictly enforced policy can be reported as passing (`RejectedButPasses`): the flag depends
  on the SPF and DKIM results alone (`PassesExactly`).
- Strict DMARC alignment does not imply relaxed alignment across upper and lower case, because the table of suffixes is
  case-sensitive (`StrictThenRelaxed`); under relaxed enforcement a policy of reject is treated more mildly than one of
  quarantine (`PolicyMonotoneExactly`).
- After a failed `postconf` file and setting are out of step, and repeating the same addition, removal or update repairs
  nothing (`AgainDoesNothing`); any operation that changes the list does (`RepairExactly`). `InStepAfterExactly` says
  after which runs they are in step. A file without a final newline swallows the next name (`AppendAddsExactly`).
- The comment on `CleanupLegacyARecords` says the mail host's record is kept; the code keeps names that start with
  "mail". For any other host name every setup deletes and recreates its record (`SetupIdempotentExactly`).
- A line that is neither a header nor a continuation makes `ParseHeaders` save the header before it once more, and a
  header still open at the end of the input is lost (`SavedOnceExactly`).

## Model

| member | source | states |
|---|---|---|
| Pool.Normalise | internal/storage/pool.go:41-49 | each limit is the argument where it is positive and 100 or 10 where it is not, and an idle limit above the size limit is lowered to it, so 1 <= idle limit <= size limit |
| Pool.ConnectionPool.constructor | internal/storage/pool.go:54-74 | for any factory: created is the number of distinct connections in the channel, one per success, while idle is the limit whatever failed |
| Pool.ConnectionPool.CreateConnection | internal/storage/pool.go:208-224 | a fresh connection of this pool, one more created |
| Pool.ConnectionPool.Receive | internal/storage/pool.go:83-86 | the oldest entry of the channel leaves it, no counter moves |
| Pool.ConnectionPool.CountReceived | internal/storage/pool.go:88-94 | the connection is in use, one fewer idle, one more active |
| Pool.ConnectionPool.CountCreated | internal/storage/pool.go:105-110 | the connection is in use, one more active, idle untouched |
| Pool.ConnectionPool.PutLocked | internal/storage/pool.go:138-151 | nil and foreign connections change nothing; an own one stops being active and is kept exactly when idle is below its limit, else uncounted |
| Pool.ConnectionPool.Send | internal/storage/pool.go:152-155 | the non-blocking send succeeds exactly below capacity and appends |
| Pool.ConnectionPool.Drop | internal/storage/pool.go:155-161 | the full arm takes one from idle and one from created |
| PoolRuns.CountersStep | internal/storage/pool.go:77-167 | one step of any goroutine, with any client, keeps the idle and size accounting, and a send always finds room |
| PoolRuns.OwnershipStep | internal/storage/pool.go:77-167 | one step of any goroutine with careful clients keeps every connection in at most one place and the counters equal to the places |
| PoolRuns.IdleAndSizeBound | internal/storage/pool.go:62-167 | in every interleaving, with any clients: idle = channel + received-not-counted + being-pushed + factory failures <= idle limit; created + past-the-check <= size limit + n - 1; one goroutine never exceeds the limit |
| PoolRuns.FullArmUnreachable | internal/storage/pool.go:147-161 | in every interleaving, with any clients, the pool-is-full arm of Put cannot be taken |
| PoolRuns.ConservationAndOwnership | internal/storage/pool.go:77-167 | in every interleaving with careful clients: created = channel + goroutines' hands + active, active = connections held by clients, no connection in two places |
| PoolRuns.Quiescence | internal/storage/pool.go:77-167 | with careful clients, once every goroutine is out and every connection back: active is 0 and created = channel length = idle - factory failures <= idle limit - factory failures |
| PoolRuns.ChannelIsFifo | internal/storage/pool.go:83-86 | in every interleaving, with any clients: the connections made at construction and then those sent come out of the channel in that order, and the rest is still in it |
| PoolRuns.GetServes | internal/storage/pool.go:77-132 | with nobody else inside, after any run of careful clients: Get hands out the connection longest in the channel, else makes one exactly when clients hold fewer than the size limit, else waits |
| PoolRuns.PutKeepsExactly | internal/storage/pool.go:138-167 | there Put appends the connection exactly when the channel and the factory failures leave room below the idle limit, else it goes and is no longer counted |
| PoolRuns.WaiterServed | internal/storage/pool.go:117-131 | a waiting goroutine can take the connection longest in the channel, in any state |
| PoolRuns.FailedGetLeavesNoTrace | internal/storage/pool.go:83-124 | a Get ended by its context, its timer or a failing factory leaves the pool as it found it |
| PoolRuns.OvershootReached | internal/storage/pool.go:97-112 | for all limits and every n >= 1 some run reaches exactly size limit + n - 1, if construction left room for one connection |
| PoolRuns.FullStaysFull | internal/storage/pool.go:97-112 | a pool born at its limit never discards and never creates, so it stays at its limit |
| PoolRuns.OvershootExactly | internal/storage/pool.go:97-112 | careful clients can push the pool past its limit if and only if n >= 2 and construction left room |
| PoolRuns.SuppliedStep | internal/storage/pool.go:97-167 | one step of any goroutine with careful clients keeps at least one connection counted, unless construction failed altogether, and a lone goroutine waits only for a pool at its limit |
| PoolRuns.StrandedExactly | internal/storage/pool.go:62-167 | careful clients can reach a state in which a goroutine waits while the channel is empty, no client holds a connection and everybody else waits too or is outside, if and only if n >= 2 and every factory call at construction failed |
| RateLimit.BucketCell.Take | internal/middleware/ratelimit.go:104-124 | the bucket part of Allow refills, decides and spends as specified on values |
| RateLimit.RateLimiter.Allow | internal/middleware/ratelimit.go:88-125 | the answer and the whole new table; no two keys ever share a bucket |
| RateLimit.RateLimiter.GetRemaining | internal/middleware/ratelimit.go:127-150 | what is left after a refill, without storing the refill; a full burst for unknown keys |
| RateLimit.RateLimiter.Cleanup | internal/middleware/ratelimit.go:156-168 | the loop leaves exactly the buckets used within the time to live, unchanged |
| RateLimitRuns.CreditBound | internal/middleware/ratelimit.go:107-110 | a credit is never worth more than its time, and a zero credit means less than 59/60 of a token plus one second has passed |
| RateLimitRuns.CreditExactly | internal/middleware/ratelimit.go:109-110 | s whole seconds are worth as many tokens as whole sixtieths of s times the rate |
| RateLimitRuns.TokensInRange | internal/middleware/ratelimit.go:104-124 | in every run tokens stay in 0..burst and lastFill <= lastUsed |
| RateLimitRuns.RemainingIsExact | internal/middleware/ratelimit.go:127-150 | at any instant of any run exactly the first getRemaining further calls at that instant are admitted |
| RateLimitRuns.Ledger | internal/middleware/ratelimit.go:88-124 | after every run without eviction a bucket was last filled at the last call that found the wait worth a token, admitted or not, and holds the least, over all calls, of a burst plus what was earned since less what was admitted since |
| RateLimitRuns.AdmittedExactly | internal/middleware/ratelimit.go:88-124 | in every run without eviction a call is admitted if and only if, back to each earlier call of its key, fewer were admitted than a burst and what was earned since make up |
| RateLimitRuns.AlikeStep | internal/middleware/ratelimit.go:88-169 | one call or one cleanup keeps the swept and the unswept limiter in agreement and gives equal answers |
| RateLimitRuns.EvictionShows | internal/middleware/ratelimit.go:152-169 | otherwise spending a burst, waiting past the time to live and spending again tells the two limiters apart |
| RateLimitRuns.EvictionIsInvisible | internal/middleware/ratelimit.go:152-169 | cleanup changes no answer of any run if and only if a bucket idle past the time to live is worth a full burst |
| RateLimitRuns.BudgetStep | internal/middleware/ratelimit.go:104-124 | one call keeps the window budget: admissions are paid by tokens at the start, then by elapsed time |
| RateLimitRuns.WindowBound | internal/middleware/ratelimit.go:104-124 | admissions A in any window of D ns of any run: 60(A - burst) <= rate(D + 1 s) + 59, in ns units |
| RateLimitRuns.WindowReached | internal/middleware/ratelimit.go:104-124 | the bound without its truncation term is reached: calling after every gap worth whole tokens, at most a burst, the admissions beyond one burst are worth exactly the time of the window, for any number of gaps |
| RateLimitRuns.CreationBound | internal/middleware/ratelimit.go:88-124 | from a key's creation: 60(A + tokens - burst) <= rate(lastFill - created), despite truncation |
| RateLimitRuns.RetryAfter | internal/middleware/ratelimit.go:66-124 | a denied key is admitted once floor(seconds)*rate >= 60, whatever denied attempts, other keys and cleanups came between |
| RateLimitRuns.SixtySecondsSuffice | internal/middleware/ratelimit.go:66 | the 60 seconds of the header always satisfy that condition |
| RateLimitRuns.EvictionUnderServerLimits | internal/middleware/ratelimit.go:152-169 | 60 per minute, burst 10, 300 s meets the condition; 1 per minute, burst 10 does not |
| RateLimitRuns.ForgottenExactly | internal/middleware/ratelimit.go:152-169 | after every run a tick of the cleanup forgets exactly the keys whose last admission is further back than the time to live, and changes no other |
| RateLimitFine.UsePaid | internal/middleware/ratelimit.go:104-124 | spending from the bucket the table knows keeps the window budget |
| RateLimitFine.ForgottenPaid | internal/middleware/ratelimit.go:156-168 | a bucket may be forgotten only once the time since the window began pays for all it admitted |
| RateLimitFine.StrayStep | internal/middleware/ratelimit.go:88-105 | between the two locks only a cleanup makes a goroutine's bucket stray, and a stray one is used at most once per goroutine |
| RateLimitFine.AtomicCall | internal/middleware/ratelimit.go:88-124 | the two critical sections of Allow with nothing in between are the atomic call, in its answer and in the whole table |
| RateLimitFine.FineWindowBound | internal/middleware/ratelimit.go:88-169 | for n goroutines interleaving between the two locks of Allow, with cleanup running: admissions A in any window of D ns with c cleanups satisfy 60(A - burst - n(c + 1)) <= rate(D + 1 s) + 59, in ns units |
| RateLimitFine.FineWindowReached | internal/middleware/ratelimit.go:88-169 | the bound is reached in its n(c + 1): for any number c of cleanups and n up to the burst some window of c times the time to live (plus 1 ns each) strands all n goroutines at every cleanup and admits each of them, burst + n(c + 1) + c burst in all |
| Timeout.TimeoutWriter.WriteHeader | internal/middleware/timeout.go:76-85 | only the first call of an unwritten, untimed-out response reaches the underlying writer |
| Timeout.TimeoutWriter.Write | internal/middleware/timeout.go:87-102 | bodies reach the underlying writer in order until the timeout, none after |
| Timeout.TimeoutWriter.Expire | internal/middleware/timeout.go:50-62 | the deadline claims the response exactly when nothing was written |
| Timeout.StepKeepsInv | internal/middleware/timeout.go:34-63 | every step of handler, deadline or error sending keeps the ownership of the response |
| Timeout.EffectiveSeen | internal/middleware/timeout.go:76-102 | what passes the writer is, to a client, the handler's own response: same status, same body, at most one status call |
| Timeout.OneResponse | internal/middleware/timeout.go:34-63 | in every interleaving the response is the handler's calls so far or a part of the timeout error, never both; at return it is the whole script, the whole error, or what had been sent |
| Timeout.DeadlineDecides | internal/middleware/timeout.go:40-63 | in every run still waiting the deadline can come: after a call of the handler the middleware returns at once with what was sent; before any, every continuation that returns ends with the whole timeout error and nothing else, and one does |
| Timeout.HandlerCanFinish | internal/middleware/timeout.go:34-45 | in every run still waiting the handler can finish with its whole response sent |
| Timeout.DoneArmNeverTimedOut | internal/middleware/timeout.go:40-45 | the done arm never sees timedOut set |
| Timeout.LateIsComplete | internal/middleware/timeout.go:46-62 | returning late gives the whole response if and only if the handler had no body left to write at that point |
| Timeout.NeverTruncatedExactly | internal/middleware/timeout.go:34-63 | for every script of a handler: no run that returns late cuts the response short if and only if no body follows the first call |
| Timeout.LateTruncates | internal/middleware/timeout.go:46-62 | the usual handler, a status and then a body, is cut by a deadline between the two |
| Limiter.ConnectionLimiter.Accept | internal/security/connection_limiter.go:49-95 | the verdict and the whole new state: ban, expired ban forgiven, total limit, host limit, in that order |
| Limiter.ConnectionLimiter.RecordViolation | internal/security/connection_limiter.go:188-197 | one more violation, or at the threshold a ban and a clean record |
| Limiter.ConnectionLimiter.Release | internal/security/connection_limiter.go:98-119 | one connection of the host, if it has any, and one of the total, if positive; no zero entries |
| Limiter.ConnectionLimiter.Ban | internal/security/connection_limiter.go:122-133 | banned until now plus the duration, or the default for zero |
| Limiter.ConnectionLimiter.Unban | internal/security/connection_limiter.go:136-146 | ban and violations gone, only if banned |
| Limiter.ConnectionLimiter.IsBanned | internal/security/connection_limiter.go:149-157 | banned and not yet run out |
| Limiter.ConnectionLimiter.Cleanup | internal/security/connection_limiter.go:210-231 | the loop keeps exactly the bans that have not run out; violations reset past 1000 records |
| LimiterRuns.BoundsHold | internal/security/connection_limiter.go:49-146 | over every run, releases matched or not: 0 <= total <= sum of host counts, total and hosts within limits, no zero counts, violations below the threshold |
| LimiterRuns.TotalStaysExact | internal/security/connection_limiter.go:98-119 | total = sum is kept by every event except, and only by, a release of a host without connections while total > 0 |
| LimiterRuns.AcceptsBelow | internal/security/connection_limiter.go:49-95 | in any state a host below both limits without a running ban gains exactly one connection, and nothing else changes but a ban that has run out and the violations behind it |
| LimiterRuns.LimitsCanBeUsedUp | internal/security/connection_limiter.go:49-95 | any requests within both limits are all let in: counts are how often each host asked, and no violation or ban appears |
| LimiterRuns.AcceptReleaseRestores | internal/security/connection_limiter.go:49-119 | a connection let in and released leaves every count as it was |
| LimiterRuns.SweepExactly | internal/security/connection_limiter.go:210-231 | a sweep takes out exactly the bans that have run out, keeps the times of the others, and drops violations only when more than a thousand hosts have some |
| LimiterRuns.ViolationsModulo | internal/security/connection_limiter.go:188-197 | violations on record are the limit refusals since the record was wiped, modulo five |
| LimiterRuns.AutoBanExactly | internal/security/connection_limiter.go:188-197 | a refusal bans, until now plus the ban duration, if and only if it is a fifth one since the record was wiped |
| LimiterRuns.FifthRefusalBans | internal/security/connection_limiter.go:188-197 | a host that keeps asking where nobody is let in is banned by its fifth refusal and not before |
| LimiterRuns.BanHolds | internal/security/connection_limiter.go:60-69 | until a ban runs out no connection of the host is accepted in any run that does not unban or re-ban it |
| LimiterRuns.ManualBanExactly | internal/security/connection_limiter.go:122-146 | a manual ban is in force exactly until its time is over, in every run that neither lifts nor renews it, and not after an unban |
| Limiter.ConnectionMiddleware.BeginRequest | internal/middleware/connection.go:33-48 | a request is let through exactly when neither its address nor its host is banned and no limit is reached; its release will go to the limiter of that moment |
| Limiter.ConnectionMiddleware.EndRequest | internal/middleware/connection.go:48 | the deferred release goes to the limiter the defer statement named, whatever limiter the middleware has by then |
| Limiter.ConnectionMiddleware.WrapConnection | internal/middleware/connection.go:64-115 | a connection is wrapped exactly when admitted and not throttled; a throttled one gives its slot back at once |
| Limiter.ConnectionMiddleware.UpdateLimits | internal/middleware/connection.go:141-147 | a fresh, empty limiter takes the place of the old one |
| MiddlewareRuns.AdmitsExactly | internal/middleware/connection.go:33-84 | a caller is let through if and only if neither its address as it came nor its host is banned and both limits leave room; one banned by either changes nothing |
| Limiter.ManagedConn.Close | internal/middleware/connection.go:159-167 | the first Close releases into the limiter in place then; later ones do nothing |
| MiddlewareRuns.StepKeepsExact | internal/middleware/connection.go:32-167 | from exact books one lock section of any caller, or a change of the limits, leaves them exact if and only if it does not give back a slot that is not owed while one is out |
| MiddlewareRuns.AccountingIsExact | internal/middleware/connection.go:32-167 | over every interleaving of the separate sections (ban check, Accept, defer, throttle, release, the test and the act of closing), limits changed at calm moments and one closer at a time: total = sum of host counts = sessions holding a slot, the same per host, no zero entries, all within limits |
| MiddlewareRuns.ExactThroughoutExactly | internal/middleware/connection.go:32-167 | over every run, with limits changed at any time and any number of concurrent closers: the books are exact throughout if and only if no slot that is not owed comes back while one is out |
| MiddlewareRuns.TwoClosersSteal | internal/middleware/connection.go:159-167 | under any limits that admit a caller, a run in which two closers of one connection end with a live request the limiter does not count |
| MiddlewareRuns.StaysExactExactly | internal/middleware/connection.go:32-167 | from any state with exact books, they stay exact over every later run with one closer at a time and unchanged limits if and only if no connection has a second or a late closer and no session of an earlier limiter will release into this one, or the limits admit nobody |
| MiddlewareRuns.ReplaceIsSafeExactly | internal/middleware/connection.go:141-167 | the books are exact after every later calm run if and only if, when the limits were changed, no TCP connection held a slot or was being closed and no request stood between Accept and its defer statement, or the new limits admit nobody |
| Spf.LookupSpf | internal/auth/spf.go:94-109 | it has an answer exactly when the query does; the answer is the first record starting with v=spf1, and empty exactly when there is none |
| Spf.FirstSpf | internal/auth/spf.go:101-108 | the answer is the record no earlier one of which starts with v=spf1, and empty exactly when none does |
| Spf.Check | internal/auth/spf.go:112-239 | any answer is pass, fail, softfail or neutral and is reported for the domain asked about, never for an included one |
| SpfProofs.SameRecordExactly | internal/auth/spf.go:94-109 | the program takes the record section 4.5 of RFC 7208 selects, or neither finds one, if and only if no record starts with v=spf1 or the only SPF record comes before every other record that starts so |
| SpfProofs.TermsInOrder | internal/auth/spf.go:114-116 | for every list of words the terms of a record with these words behind its version are these words, in order |
| SpfProofs.SameTermsExactly | internal/auth/spf.go:114-116 | the terms are those of section 4.6.1 of RFC 7208, what stands between spaces, if and only if the record has no other white space |
| SpfProofs.IpCheckMatches | internal/auth/spf.go:241-278 | an ip4 or ip6 term is checked as a network exactly when it has a prefix length, as section 5.6 asks |
| SpfProofs.ChecksMatch | internal/auth/spf.go:280-315 | as long as no query it needs fails, the scan for mx or a finds the client exactly when the mechanism of RFC 7208 matches |
| SpfProofs.BranchExactly | internal/auth/spf.go:116-230 | the code takes a branch for a term if and only if it is a handled directive in the spelling the code knows, and then the branch RFC 7208's reading asks for |
| SpfProofs.DepthIsStable | internal/auth/spf.go:214-229 | once an evaluation answers, deeper nesting never changes the answer |
| SpfProofs.AgreesExactly | internal/auth/spf.go:112-239 | on records of directives, set off by spaces, that are handled or do not match, with includes going down in rank, the evaluation ends, and its result is the one of leftmost-match evaluation of the terms as the standard reads them (sections 4.6, 4.7, 5 and 5.2 of RFC 7208), in any assignment that obeys those sections, if and only if the program, walking through the terms and the includes it enters, comes past no failed query and no include without a record; otherwise the standard gives an error |
| SpfProofs.VerifyAgreesExactly | internal/auth/spf.go:36-91 | the same for what Verify reports: it is what the standard says if and only if, besides, the name is not one that does not exist |
| SpfProofs.DeadIncludeSkipped | internal/auth/spf.go:214-229 | for every include of a domain without a record the code goes on with the next term, where every answer the standard allows is an error |
| SpfProofs.FailedASkipped | internal/auth/spf.go:302-315 | for every a mechanism whose query fails the code goes on with the next term, where the only answer the standard allows is a temporary error |
| SpfProofs.FailedMxSkipped | internal/auth/spf.go:280-300 | the same for an mx mechanism whose query fails |
| SpfProofs.FailedExchangerSkipped | internal/auth/spf.go:286-300 | for an mx of which one exchanger cannot be looked up before one matches the code tries the others and may pass, where the only answer is a temporary error |
| SpfProofs.NoneAndTempError | internal/auth/spf.go:50-70 | without a sender domain no result, for the greeting; else no result exactly when no TXT record starts with v=spf1, a temporary error exactly when the query gave no records, whether it failed or the name does not exist |
| SpfProofs.AnswersSolve | internal/auth/spf.go:112-239 | an assignment that obeys the standard exists on every ranked zone |
| SpfProofs.HandledExactly | internal/auth/spf.go:116-230 | where every mechanism matches, a directive in any spelling in front of -all and of +all decides as the standard says if and only if the code handles it |
| SpfProofs.DivergesExactly | internal/auth/spf.go:112-239 | the recursion on a domain never ends if and only if the domain lies in a set of domains each of whose records reaches, past terms that match nothing and includes that give no pass, an include of a member |
| SpfProofs.SelfIncludeDiverges | internal/auth/spf.go:214-229 | a domain whose record includes the domain itself first is one |
| SpfProofs.RankedIncludesEnd | internal/auth/spf.go:112-239 | if includes of domains with a record go down in rank, the evaluation ends whatever the other terms are, handled or not |
| Dmarc.CheckDkimAlignment | internal/auth/dmarc.go:117-138 | the loop finds an aligned passing signature exactly when there is one, in any order |
| Dmarc.VerifyDmarc | internal/auth/dmarc.go:39-98 | none, temporary error, pass or fail as specified on values |
| DmarcProofs.OrganizationalDomainIdempotent | internal/auth/dmarc.go:153-181 | the organizational domain of an organizational domain is itself |
| DmarcProofs.OrganizationalDomainIsSuffix | internal/auth/dmarc.go:153-181 | it is the domain or a suffix of it after a dot |
| DmarcProofs.PrefixedLabel | internal/auth/dmarc.go:153-181 | a label in front leaves it unchanged if and only if the name is neither a bare label nor a listed suffix |
| DmarcProofs.ListedSuffixes | internal/auth/dmarc.go:165-169 | the suffixes that make an organizational domain one label longer are exactly these nine |
| DmarcProofs.StrictThenRelaxed | internal/auth/dmarc.go:101-150 | a strictly aligned name is aligned in relaxed mode if and only if both names are under a listed suffix or neither is |
| DmarcProofs.StrictImpliesRelaxed | internal/auth/dmarc.go:101-150 | for lower-case names strict alignment implies relaxed |
| DmarcProofs.SpellingSplitsAlignment | internal/auth/dmarc.go:165-169 | x.co.uk and x.co.UK align in strict mode and not in relaxed mode |
| Dmarc.DetermineOverallPass | internal/auth/middleware.go:163-181 | a DMARC, SPF or DKIM pass, and nothing else |
| Dmarc.VerifyInbound | internal/auth/middleware.go:86-160 | action and pass of every message under every configuration, as specified on values |
| DmarcProofs.VerifiedExactly | internal/auth/dmarc.go:39-98 | no result without a From domain or record, a temporary error when the lookup failed, else a pass exactly when a passing result that counts is for the same name (strict) or organizational domain (relaxed), up to ASCII case, each kind in its own mode |
| DmarcProofs.PassesExactly | internal/auth/middleware.go:152-181 | a message passes overall if and only if some SPF or DKIM result that counts has passed, aligned or not; DMARC never changes that |
| DmarcProofs.RejectedButPasses | internal/auth/middleware.go:133-153 | a message rejected under its policy that is reported as passing |
| DmarcProofs.EvidenceNeverHarms | internal/auth/middleware.go:101-150 | more passing evidence, in any order, never makes the action harsher |
| DmarcProofs.ActionExactly | internal/auth/middleware.go:119-150 | rejected exactly under strict enforcement of an applicable reject policy, quarantined exactly under any enforcement but none of an applicable quarantine policy; a policy applies when nothing that counts vouches for the From domain, SPF and DKIM each in their own mode |
| DmarcProofs.EnforcementIsMonotone | internal/auth/middleware.go:133-150 | the action grows with enforcement: none, relaxed, strict |
| DmarcProofs.PolicyMonotoneExactly | internal/auth/middleware.go:133-150 | it grows with the published policy if and only if enforcement is none or strict |
| Postfix.DomainManager.ListDomains | internal/postfix/manager.go:104-125 | the list read from the file |
| Postfix.DomainManager.AddDomain | internal/postfix/manager.go:21-56 | file, setting and outcome, with or without a failing postconf |
| Postfix.DomainManager.RemoveDomain | internal/postfix/manager.go:58-102 | file, setting and outcome; an unknown name changes nothing |
| Postfix.ReadEntries | internal/postfix/manager.go:115-121 | the loop keeps the trimmed lines that are neither blank nor comments |
| Postfix.Filter | internal/postfix/manager.go:66-74 | the loop drops every occurrence of the name and says whether there was one |
| Postfix.Contains | internal/postfix/manager.go:29-33 | the loop finds the name exactly when it is listed |
| PostfixProofs.ListedPrint | internal/postfix/manager.go:81-84 | reading undoes printing |
| PostfixProofs.LineMeans | internal/postfix/manager.go:115-121 | a line says its name whatever white space is around it, and nothing when it is blank or its first other character is a number sign |
| PostfixProofs.FileMeans | internal/postfix/manager.go:113-121 | a file says what its lines say, in order, the unfinished one at its end included |
| PostfixProofs.WithoutBetween | internal/postfix/manager.go:66-74 | a removed name leaves the others in their places |
| PostfixProofs.AppendAddsExactly | internal/postfix/manager.go:36-44 | appending a name as a line adds it to the list if and only if the text has no unfinished last line |
| PostfixProofs.UnterminatedLineSwallows | internal/postfix/manager.go:36-44 | otherwise both names are replaced by their concatenation |
| PostfixProofs.StepRefines | internal/postfix/manager.go:21-102 | each operation keeps file and setting in step and does to the file what it does to a plain list |
| PostfixProofs.RunRefines | internal/postfix/manager.go:21-145 | over every sequence of operations with postconf succeeding the file read back is the plain list and the setting is that list, or localhost |
| PostfixProofs.RunFollows | internal/postfix/manager.go:21-102 | over every sequence in which postconf may fail at any point the file is always the plain list, and the setting the list as it was after the last operation that changed it with postconf succeeding |
| PostfixProofs.FileText | internal/postfix/manager.go:35-84 | from a new installation on, after any operations and whatever postconf does, the file is to the letter the names of the plain list, each on a line of its own |
| PostfixProofs.SettingText | internal/postfix/manager.go:46-96 | the setting is the names with one space between them |
| PostfixProofs.InStepAfterExactly | internal/postfix/manager.go:21-102 | file and setting end such a run in step if and only if that list and the list at the end are served alike |
| PostfixProofs.RepairExactly | internal/postfix/manager.go:28-102 | from any state, in step or not, an operation with postconf succeeding ends in step if and only if they were in step or the operation changes the list |
| PostfixProofs.AgainDoesNothing | internal/postfix/manager.go:28-80 | repeating an addition, removal or update, after a failed postconf too, changes neither file nor setting |
| PostfixProofs.NoDuplicates | internal/postfix/manager.go:29-74 | no sequence makes a duplicate where there was none |
| PostfixProofs.AddAndUndo | internal/postfix/manager.go:21-102 | adding is idempotent; adding and removing a new name restores list and setting |
| PostfixProofs.AddInStepExactly | internal/postfix/manager.go:28-55 | when postconf may fail, the two stay in step if and only if it succeeded or was not needed, and repeating the addition changes nothing |
| PostfixProofs.SettingIsList | internal/postfix/manager.go:90-96 | read word by word the setting is the list |
| Postfix.DomainManager.constructor | internal/postfix/installer.go:81-112 | a new installation: the primary domain in both places |
| Postfix.DomainManager.UpdateDomains | internal/postfix/installer.go:117-158 | file, setting and outcome of the installer's update |
| PostfixProofs.SameReading | internal/postfix/installer.go:122-129 | the installer's split and the manager's scanner read the same list from every text |
| PostfixProofs.InstalledInStep | internal/postfix/installer.go:109-112 | a new installation is in step |
| Dns.Find | internal/digitalocean/dns.go:98-104 | the record found is the first that fits the type and name, and none is found exactly when none fits |
| Dns.Client.FindDNSRecord | internal/digitalocean/dns.go:92-105 | the loop finds the first fitting record |
| Dns.Client.UpsertDNSRecord | internal/digitalocean/dns.go:136-151 | replaces the first fitting record in place under its id, or appends one |
| Dns.Client.CleanupLegacyARecords | internal/digitalocean/dns.go:247-270 | deleting by id over a snapshot leaves exactly the records that are not legacy, in order |
| Dns.Client.SetupMailDNS | internal/digitalocean/dns.go:154-234 | cleanup, then the wanted records one after the other |
| DnsProofs.UpsertFinds | internal/digitalocean/dns.go:136-151 | after an upsert the first fitting record is the wanted one, and every other lookup gives what it gave |
| DnsProofs.UpsertInPlace | internal/digitalocean/dns.go:136-151 | the record takes the place and the id of the first one of its type and name, all others staying, or comes last under a new id when there is none |
| DnsProofs.SetupProvides | internal/digitalocean/dns.go:185-231 | after one run every wanted type and name holds the wanted data |
| DnsProofs.SetupPublishes | internal/digitalocean/dns.go:172-231 | after one run the first MX, SPF and DMARC record are, field by field, the ones for this host and domain, and for a host inside the domain its A record points to this server |
| DnsProofs.SetupCleansUp | internal/digitalocean/dns.go:247-270 | an A record of this server under a name that is neither @ nor starts with mail is gone by its id |
| DnsProofs.SetupAddsNothingElse | internal/digitalocean/dns.go:154-234 | whatever is there afterwards was there before and not up for cleanup, or stands in one of the four places written |
| DnsProofs.SetupIdempotentExactly | internal/digitalocean/dns.go:154-270 | a second run changes nothing if and only if the host's own record does not look like a legacy one |
| DnsProofs.SmtpHostNeverSettles | internal/digitalocean/dns.go:154-270 | the host smtp of any domain is one whose record is replaced by every run |
| DnsProofs.SetupKeepsOthers | internal/digitalocean/dns.go:154-270 | records outside those four places that are not A records of this server under other names, A records of other servers among them, keep value and order |
| Headers.ParseHeaders | internal/mail/parser.go:224-264 | the loop collects, in order, the fields saved line by line |
| Headers.CollectValues | internal/mail/parser.go:238-251 | the header map holds under each name the saved values in order, and no other names |
| HeadersProofs.ParsePrint | internal/mail/parser.go:224-264 | parsing undoes printing for every list of well-formed fields, with white space before the colon, continuation lines by space or tab, and either blank line: per name the trimmed first lines with raw continuations, in order, nothing else |
| HeadersProofs.RestIsNotRead | internal/mail/parser.go:229-233 | complete lines are read one by one, and a rest without a newline is not read |
| HeadersProofs.SavedOnceExactly | internal/mail/parser.go:249-260 | for every input the saved fields are the named lines with their continuations, each once and in order, if and only if no stray line follows a named one and no field is open at the end, or a field is open there and its loss evens out the one stray line; without stray lines an open end loses exactly the last field |
| HeadersProofs.StrayAtTheEnd | internal/mail/parser.go:249-264 | whatever comes before, one stray line behind the last named line of an open end leaves every field saved once |
| HeadersProofs.StrayLineRepeats | internal/mail/parser.go:249-260 | a single field followed by a stray line is saved twice |
| HeadersProofs.StrayAtOpenEnd | internal/mail/parser.go:249-264 | a single field followed by a stray line at the end of the input is saved once: the two faults cancel |

## Left out

- Pool: `Close` while connections are out, wait counters and timestamps. A run ends at Close.
- Pool: that Go's select picks the default arm only when nothing is ready is built into the steps; that a waiting goroutine is ever scheduled is not modelled.
- RateLimitRuns.EvictionIsInvisible: takes each call as one atomic step. Between the two locks of Allow a call can spend from a bucket cleanup has just forgotten; `FineWindowBound` bounds what that adds, but equal answers are not claimed at that grain.
- Rate limiter: rounding of elapsed time to a float and client address extraction.
- Timeout: `Flush` and `Hijack`, which go around the lock, header contents, informational status codes and what the underlying writer does after the middleware has returned.
- Limiter: splitting host and port is a parameter; reading the middleware's limiter field and the section called on it are one event. `ConnectionThrottle` is a yes or no.
- SPF: parsing of networks and addresses and the DNS are parameters; the lookup limit of section 4.6.4 of RFC 7208, modifiers and the mechanisms `exists`, `ptr`, `a:` and `mx:` (a record with such a term, or with a syntax error, is left open by `SolvesAt`), reason texts and extracting the domain of an address.
- Spf.Check: an include bound replaces unbounded recursion; `DepthIsStable` and `DivergesExactly` say what it stands for.
- DMARC: folding is for ASCII letters; the record lookup, DKIM verification and extraction of the From domain are parameters.
- Postfix: a missing domain file, lines longer than the scanner accepts, and the other settings and files of the installer. Manager and installer are taken to use the same file.
- DNS: failing calls, paging, creating the domain itself, and `SetupInfraDNS`, which reuses the same two operations. The provider's behaviour is an assumption of the model.
- Header parser: `ParseRawEmail`, `FromJSON` and DKIM parameter extraction, which would add only easy members.
- HTTP serving, commands, TLS, certificates, metrics, logging and the web administration.
