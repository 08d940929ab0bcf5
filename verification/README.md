# Verified protocols of the KISS-PM API

This project models the stateful and algorithmic cores of the KISS-PM API server and proves what
they promise over every run, every interleaving and every input. Each object that the server
updates in place (the rate limiter, the SMTP reader, the event bus, the after-commit queue, the
stage table, the token store, the plan store, the audit log) is a class whose methods are proved
equal to a transition function; the theorems are then about runs of those transition functions.

| file | core | what is proved about it |
|---|---|---|
| `RateLimitSpec`, `RateLimitTables`, `RateLimitSteps`, `RateLimitTheorems`, `RateLimitLimits`, `RateLimitOrder`, `RateLimitBooks`, `RateLimiter` | sign-in rate limiter | pruning, lazy expiry and eviction are invisible next to a limiter that never forgets; blocks hold; waits are exact; which limit is whose; the oldest is evicted; when the reservation books match |
| `StageOrder` | pipeline stage reorder | every single-row write respects the unique index; the end state is the requested permutation; why one phase cannot work |
| `SmtpReader`, `SmtpMessage` | SMTP client | the k-th call gets the k-th reply however bytes arrive, and what socket errors leave; which replies of the grammar are read; dot-stuffing is transparent; the end mark is unique |
| `AuditPaging` | audit log paging | following the cursor visits every event once, in order, while the log grows |
| `OneTimeTokens`, `AccountCredentials` | password resets and invitations | at most one commit per token over any interleaving; exactly when commits are in time; exactly when stale edits and split reads let an account with a credential accept |
| `Planning`, `ControlApply` | governed plan apply | what is written is what was previewed; optimistic versioning; one condition per outcome; audit trail |
| `FileSegments`, `FileSegmentMeaning`, `Metadata` | upload validation | results are exactly the safe segments, no letter is lost, and seven replacements are one pass; exact acceptance |
| `IsoDates` | absence dates | exactly the real Gregorian dates, in calendar order |
| `ImageHeaders` | sticker images | decoding accepts exactly the headers of the three formats, and inverts encoding |
| `EventBus`, `AfterCommit`, `RealtimeEvents` | realtime events | exactly when the bus has the listeners that are meant; callbacks run exactly once, after the commit; a deferred event reaches each listener of that moment exactly once |
| `Wrappers` | shared | option type, `trim`, string order |

## What turned out false of the code

Some properties one would expect do not hold of the code as written. The code is modelled as it
is, and the exact boundary is proved.

- A reorder can fail although the request is right: the temporary slots start above the highest
  occupied one, and the column ends at 2147483647. `StageOrder.ReorderStages` succeeds if and only
  if the request names exactly the stages and N more slots fit above each; `StageOrder.NoRoomAtTheTop` is a concrete case.
- Calling an unsubscribe closure late can drop somebody else's listeners. Throughout a run the bus
  has the listeners that are meant if and only if every call is on its current set or happens to do
  what leaving would do (`EventBus.BusIsRosterExactlyWhen`); one call per closure does not bring that about
  (`EventBus.OncePerClosureIsNotEnough`), `EventBus.OrderlyIsTimely` gives a discipline that does.
- A reply that ends in a bare code, which section 4.2.1 of RFC 5321 lets a server send and obliges a
  client to accept, is never delivered: it is glued to the next reply. Replies are read back one by
  one if and only if every last line carries its blank (`SmtpReader.ReadsBackExactlyWhen`);
  `SmtpReader.BareReplyIsNeverRead` is the case of a lone 250.
- Settling one reservation twice takes away the pending attempt of another; login does so when a
  step after `recordSuccess` throws. The books match throughout a run if and only if every
  settlement has an outstanding reservation or comes while none is outstanding
  (`RateLimitBooks.BooksMatchExactlyWhen`); `RateLimitBooks.SettlingTwiceUnbalances` is the run of
  two sign-ins in which it goes wrong.
- A lossless WebP file whose header is complete is still refused when fewer than five bytes follow
  (`ImageHeaders.LosslessRoundTrip`): the length test asks for 30 bytes, the header ends at 25.
- A deactivated account whose credential still exists can be let back in by a reset token. Edits
  write back, and compare with, a row read before their transaction, and an accept reads the account
  and looks for its credential in two reads. `AccountCredentials.StaleSaveLetsIn` and
  `AccountCredentials.EditBetweenReads` are the runs. Accounts stay in order throughout a run if and
  only if, for accounts with a credential, no accepted write that leaves the email alone finds another
  one stored than it read, and no look-up of an accept that can still commit misses the credential
  (`AccountCredentials.AccountsInOrderExactlyWhen`).
- A token can be consumed after it has expired: the expiry is compared with the time of the first
  read only. `OneTimeTokens.LateCommit` is the run; commits are in time if and only if each committing
  step comes before the expiry (`OneTimeTokens.InTimeExactlyWhen`).
- The wait advertised to an attempt refused for lack of room, at most 30 s, helps exactly when no
  bucket that was full still has its window running by then
  (`RateLimitTheorems.RoomWaitHelpsExactlyWhen`).
- An invitation accept that finds the account no longer waiting fails and still commits the
  consumed token (`OneTimeTokens.FailedAcceptSpendsToken`); with a taken email it rolls back.
- The check on calendar dates refuses real dates of the years 0 to 99, which the platform's date
  constructor moves to 1900 to 1999 (`IsoDates.SurvivesExactlyWhenReal`).
- A cursor is refused for ids longer than 128 characters although it is issued for them
  (`AuditPaging.CursorRoundTrip`).

## Model

| member | source | states |
|---|---|---|
| RateLimitTheorems.FreshLimiterAgrees | apps/api/src/authRateLimit.ts:239-363 | From empty, with a monotone clock and never more unexpired keys stored than the caps, every reply of every run, denied attempts at full tables included, equals that of a limiter which never deletes a bucket by itself |
| RateLimitTheorems.RunAgrees | apps/api/src/authRateLimit.ts:239-363 | The same from any state that agrees with the reference on what is still alive |
| RateLimitTheorems.StepAgrees | apps/api/src/authRateLimit.ts:69-176 | One operation gives the reference's reply and keeps the agreement on live buckets at every address |
| RateLimitTables.EvictionIsLackOfRoom | apps/api/src/authRateLimit.ts:287-303 | In a table within its cap, storing a bucket forgets another live bucket if and only if the live keys, counting the new one, exceed the cap |
| RateLimitTables.PrunedMeaning | apps/api/src/authRateLimit.ts:349-358 | Pruning removes exactly the buckets whose window and block have both ended, and keeps the table well formed |
| RateLimitTables.StoreMeaning | apps/api/src/authRateLimit.ts:300-303 | A store finds its bucket again, drops at most old entries, keeps the others unchanged, and never exceeds a cap of at least one |
| RateLimitSteps.StepMoves | apps/api/src/authRateLimit.ts:69-176 | In each table a step moves every slot to what the operation means for that address or drops it, and drops a live one only by an eviction |
| RateLimitSteps.StepAnswers | apps/api/src/authRateLimit.ts:69-137 | Replies depend only on the slots of the caller's own keys as they were before the call's own clean-up |
| RateLimitSteps.StepKeepsValid | apps/api/src/authRateLimit.ts:61-176 | Every operation keeps all three tables well formed |
| RateLimitTheorems.DeniedReserveIsInvisible | apps/api/src/authRateLimit.ts:85-137 | A denied reservation changes no live counter at any address of any table |
| RateLimitTheorems.RunStaysWithinCaps | apps/api/src/authRateLimit.ts:281-363 | With caps of at least one, no run makes a table exceed its cap |
| RateLimitTheorems.CheckAllowedExactlyWhen | apps/api/src/authRateLimit.ts:69-83 | A check is allowed if and only if no key of the caller has a block that has yet to end |
| RateLimitTheorems.ReserveGrantedExactlyWhen | apps/api/src/authRateLimit.ts:85-137 | A reservation is granted if and only if in addition every one of its buckets has room for one more pending attempt in its current window; which limit is whose is said by RateLimitLimits.GrantedWithinLimits |
| RateLimitTheorems.ReserveAdvertises | apps/api/src/authRateLimit.ts:85-137 | A refused reservation repeats the wait of a check, or for lack of room advertises the first full second past the smaller of window and 30 s |
| RateLimitTheorems.RoomWaitHelpsExactlyWhen | apps/api/src/authRateLimit.ts:260-279 | After the wait advertised for lack of room, with nothing else happening, the attempt is granted if and only if every bucket that was full has seen its window end |
| RateLimitTheorems.RoomWaitFails | apps/api/src/authRateLimit.ts:260-279 | With a full bucket whose window runs for more than 30 s, the retry after the advertised wait is refused again |
| RateLimitTheorems.SuccessForgetsOnlyTheEmail | apps/api/src/authRateLimit.ts:173-176 | A success clears the record and block of its email and leaves failures, window and block of every other live bucket |
| RateLimitTheorems.FailuresAreCounted | apps/api/src/authRateLimit.ts:321-347 | Within its window a bucket counts every failure of its key over any undisturbed run, and from the limit on each failure starts a full block anew; which limit is whose is said by RateLimitLimits.BlockedExactlyWhen |
| RateLimitTheorems.FirstFailureOpensAWindow | apps/api/src/authRateLimit.ts:321-347 | The first failure of a key without a running window opens one of full length with count one |
| RateLimitTheorems.AdvertisedWaitSuffices | apps/api/src/authRateLimit.ts:69-83 | A caller denied by a check who waits the advertised seconds is allowed, whatever else happens, unless one of its keys fails meanwhile |
| RateLimitTheorems.AdvertisedWaitIsTight | apps/api/src/authRateLimit.ts:253-258 | As long as nothing disturbs the one bucket that denies, one second less is still denied |
| RateLimitTheorems.RunKeepsSound | apps/api/src/authRateLimit.ts:321-347 | In every reachable state a block is backed by a full failure count and ends within one block length |
| RateLimitTheorems.BlockHolds | apps/api/src/authRateLimit.ts:69-137 | Until its end a block denies every check and every reservation for its key, on every run without eviction, without success for that email and without failure past the window |
| RateLimitLimits.BlockedExactlyWhen | apps/api/src/authRateLimit.ts:109-171 | From an empty limiter, inside one window and without eviction or a success for the email, while the block of the last failure lasts, an email or an ip is blocked if and only if it has failed maxFailures times, and everybody if and only if there were maxGlobalFailures failures |
| RateLimitLimits.DeniedBecauseOf | apps/api/src/authRateLimit.ts:69-83 | A check is denied if and only if everybody, the caller's email or the caller's ip is blocked; a missing email stands for one of its own, a missing ip for none |
| RateLimitLimits.IpDecides | apps/api/src/authRateLimit.ts:69-83 | With neither everybody nor the email blocked, a check is denied if and only if its ip has failed maxFailures times |
| RateLimitLimits.RunTracks | apps/api/src/authRateLimit.ts:321-347 | Throughout such a run the bucket of a key holds the number of its failures, and a block that ends one block length after the last one from its own limit on |
| RateLimitLimits.GrantedWithinLimits | apps/api/src/authRateLimit.ts:85-137 | A reservation is granted if and only if the check is, and failures plus pending stay below maxGlobalFailures for everybody and below maxFailures for the email and for the ip, a bucket whose window has ended counting nothing |
| RateLimitLimits.TablesStayWithin | apps/api/src/authRateLimit.ts:88-118 | No run keeps more emails than maxTrackedEmails, more ips than maxTrackedIps or more than one entry for everybody |
| RateLimitLimits.EvictedByOwnCap | apps/api/src/authRateLimit.ts:281-347 | A live email or ip is not forgotten as long as the live ones, with the one to be stored, fit under the cap of their own table |
| RateLimitLimits.ForgottenExactlyWhen | apps/api/src/authRateLimit.ts:349-358 | Pruning forgets a bucket if and only if its window and its block have ended |
| RateLimitLimits.LookedAtIsPruned | apps/api/src/authRateLimit.ts:124-132 | After a denial for lack of room the tables that were looked at hold no ended bucket, and those behind the first one without room lose none but the caller's own |
| RateLimitOrder.StepIsByArrival | apps/api/src/authRateLimit.ts:281-363 | Whatever the operation, each table keeps its live keys in the order in which they arrived, and what arrives goes to the end |
| RateLimitOrder.OldestIsForgotten | apps/api/src/authRateLimit.ts:360-363 | When a new key meets a table full of live ones, the live key that stands first is forgotten and no other |
| RateLimitBooks.RunBalances | apps/api/src/authRateLimit.ts:85-171 | On every run where each settlement has an outstanding reservation inside its window, pending equals the outstanding reservations and failures plus pending never exceed the limit |
| RateLimitBooks.BooksMatchExactlyWhen | apps/api/src/authRateLimit.ts:85-176 | Pending equals the outstanding reservations throughout a run if and only if no settlement without a reservation comes while another reservation of that bucket is outstanding |
| RateLimitBooks.CallKeepsBooks | apps/api/src/authRateLimit.ts:306-319 | One call keeps matching books matching if and only if it is no such settlement |
| RateLimitBooks.DisciplinedBlockHolds | apps/api/src/authRateLimit.ts:69-137 | On every such disciplined run a block denies every check and every reservation for its key until its end, without any assumption on failures past the window |
| RateLimitBooks.DisciplineLeavesBlocks | apps/api/src/authRateLimit.ts:321-347 | No call of a disciplined run can lift a block early |
| RateLimitBooks.GlobalBooksBalance | apps/api/src/authRateLimit.ts:85-171 | The same for the global bucket from an empty limiter, which needs no assumption on eviction |
| RateLimitBooks.SettlingTwiceUnbalances | apps/api/src/authRoutes.ts:87-134 | Two sign-ins reserve, the first succeeds and is released again: the global bucket ends with no pending attempt while the second is outstanding |
| RateLimiter.BucketMap.Set | apps/api/src/authRateLimit.ts:303 | A map write keeps the place of a known key and appends a new one |
| RateLimiter.BucketMap.Remove | apps/api/src/authRateLimit.ts:355 | A map delete removes that key and no other, keeping the order |
| RateLimiter.PruneExpiredBuckets | apps/api/src/authRateLimit.ts:349-358 | Deleting while iterating visits every key once and leaves exactly the live buckets, in order |
| RateLimiter.DeleteOldestBucket | apps/api/src/authRateLimit.ts:360-363 | Removes the first inserted key and nothing else |
| RateLimiter.GetRetryAfterMs | apps/api/src/authRateLimit.ts:239-251 | Reports the rest of the block and forgets the bucket if it is dead |
| RateLimiter.RetryAfterForReservationOverflow | apps/api/src/authRateLimit.ts:260-279 | Reports a wait exactly when the bucket that was there before pruning has no room |
| RateLimiter.StoreBucket | apps/api/src/authRateLimit.ts:300-303 | Makes room for a new key in a full table before storing |
| RateLimiter.ReserveInBucket | apps/api/src/authRateLimit.ts:281-304 | One table's part of a granted reservation, equal to the specified table |
| RateLimiter.ReleaseReservedAttemptInBucket | apps/api/src/authRateLimit.ts:306-319 | One table's part of a release: never below zero, never reviving a dead bucket |
| RateLimiter.RecordFailureInBucket | apps/api/src/authRateLimit.ts:321-347 | One table's part of a failure, a bucket whose window has ended being replaced even while its block runs |
| RateLimiter.AuthRateLimiter.constructor | apps/api/src/authRateLimit.ts:61-68 | Three separate empty maps |
| RateLimiter.AuthRateLimiter.Check | apps/api/src/authRateLimit.ts:69-83 | State and reply are those of the specified step on all three maps |
| RateLimiter.AuthRateLimiter.LongestRetry | apps/api/src/authRateLimit.ts:119-121 | The first pass finds the longest wait over all reservations and cleans each bucket it meets |
| RateLimiter.AuthRateLimiter.FirstWithoutRoom | apps/api/src/authRateLimit.ts:124-132 | The second pass stops at the first bucket without room, having pruned exactly the tables it looked at |
| RateLimiter.AuthRateLimiter.ReserveEverywhere | apps/api/src/authRateLimit.ts:133-135 | The third pass reserves once in each map of the caller |
| RateLimiter.AuthRateLimiter.ReserveAttempt | apps/api/src/authRateLimit.ts:85-137 | State and reply of the three passes are those of the specified step, whose limits are those of RateLimitLimits.GrantedWithinLimits |
| RateLimiter.AuthRateLimiter.ReleaseReservedAttempt | apps/api/src/authRateLimit.ts:139-145 | The new state is that of the specified release on all three maps |
| RateLimiter.AuthRateLimiter.RecordFailure | apps/api/src/authRateLimit.ts:147-171 | The reservation, if any, is released first, then the failure is counted in each map; the limits are those of RateLimitLimits.BlockedExactlyWhen |
| RateLimiter.AuthRateLimiter.RecordSuccess | apps/api/src/authRateLimit.ts:173-176 | The reservation, if any, is released and the whole email bucket is deleted |
| StageOrder.ParseStageOrder | apps/api/src/crmParsers.ts:420-432 | Accepts exactly the non-empty lists of distinct identifiers, unchanged; the kind of refusal is that of the first offending element |
| StageOrder.IdMeans | apps/api/src/crmParsers.ts:33 | An identifier has 3 to 81 characters, a lower-case letter first and then such letters, digits and hyphens |
| StageOrder.AcceptedExactlyWhen | packages/persistence/src/schema/crm.ts:202-206 | Checking the written row at once is enough: a write is accepted if and only if its row exists, its slot is in range and the whole table with the row replaced satisfies the index |
| StageOrder.WriteExactlyWhen | packages/persistence/src/crmRepository.ts:405-419 | Which write finds no row, is out of the column's range or meets the slot of another row of its pipeline, and what an accepted one leaves |
| StageOrder.StageStore.UpdateDealStage | packages/persistence/src/crmRepository.ts:405-419 | One row write keeps ids and slots unique, replaces just its row when the index allows it and leaves the table unchanged otherwise |
| StageOrder.CoveringIsPermutation | apps/api/src/crmRoutes.ts:840-845 | No duplicates, equal length and all known imply that the request names every stage |
| StageOrder.CoversExactlyWhen | apps/api/src/crmRoutes.ts:840-845 | Counting and looking up, as the code does, is the same as having exactly the ids of the pipeline's rows, in any order |
| StageOrder.RoomExactlyWhen | apps/api/src/crmRoutes.ts:847-851 | The highest slot leaves room for N temporary ones if and only if every row of the pipeline does |
| StageOrder.Transact | apps/api/src/crmRoutes.ts:825-875 | The transaction's two phases, with its roll-back, reach the specified table or the specified refusal |
| StageOrder.SlotsStayUnique | packages/persistence/src/schema/crm.ts:202-206 | At every moment of both phases no two stages of a pipeline share a slot |
| StageOrder.WriteAdvances | apps/api/src/crmRoutes.ts:847-858 | Each write of either phase is accepted by the index and takes the table to the next stage of progress, unless the slot is past the column's range |
| StageOrder.PutAside | apps/api/src/crmRoutes.ts:848-851 | A write of the first phase succeeds if and only if its temporary slot fits the column |
| StageOrder.MoveAside | apps/api/src/crmRoutes.ts:847-851 | The first phase succeeds if and only if the last temporary slot fits the column |
| StageOrder.PutInPlace | apps/api/src/crmRoutes.ts:855-858 | A write of the second phase never fails |
| StageOrder.MoveIntoPlace | apps/api/src/crmRoutes.ts:854-858 | The second phase ends with every stage in its final slot and returns the rows in the requested order |
| StageOrder.ReorderStages | apps/api/src/crmRoutes.ts:825-875 | Conflict if and only if the request does not name exactly the ids that rows of the pipeline have, in whatever order; success if and only if in addition N more slots fit above every row of the pipeline; then row by row every slot is the place in the request, nothing else changes, and what is sent back is what is stored; otherwise the table is as before; no two rows of a pipeline share a slot |
| StageOrder.RenumberedIsDense | apps/api/src/crmRoutes.ts:852-858 | After a reorder the pipeline's slots are exactly 1..N in the requested order; nothing else in any row changes; other pipelines are untouched |
| StageOrder.LastOrderWins | apps/api/src/crmRoutes.ts:779-888 | A second reorder makes the first one's effect on the slots disappear |
| StageOrder.NoRoomAtTheTop | apps/api/src/crmParsers.ts:592-602 | A stage at the largest legal slot leaves no temporary slot above it |
| StageOrder.DirectWritesNeverPermute | apps/api/src/crmRoutes.ts:771-778 | No order of single-row writes into final, currently occupied slots changes anything without violating the index |
| StageOrder.DirectWriteStays | apps/api/src/crmRoutes.ts:771-778 | An accepted write to an occupied slot is a write of a row's own slot |
| SmtpReader.KthCallGetsKthReply | apps/api/src/emailProvider.ts:438-488 | On every run without socket error, call k has received reply k of the whole byte stream if it is complete, and is waiting otherwise |
| SmtpReader.ChunkingAndTimingDoNotMatter | apps/api/src/emailProvider.ts:438-488 | Two runs with the same bytes and the same number of calls give every call the same outcome |
| SmtpReader.RepliesInCallOrder | apps/api/src/emailProvider.ts:438-488 | On every run, socket errors included, a call that has a reply has the m-th of the stream, m being the number of earlier calls that have one: errors lose, repeat and swap no reply |
| SmtpReader.ErrorSettlesEverybody | apps/api/src/emailProvider.ts:463-466 | Just after a socket error nobody waits: each call made so far keeps the outcome it had and is rejected if it had none |
| SmtpReader.ErrorRejectsWaiting | apps/api/src/emailProvider.ts:463-466 | From every reachable state a socket error empties the queue, rejects each call in it, and leaves every other outcome, the buffer and the queued replies alone |
| SmtpReader.WaitingIsForMore | apps/api/src/emailProvider.ts:446-488 | On every run a call without outcome waits in the queue, and every complete reply of the stream has gone to some call |
| SmtpReader.ReadsBackExactlyWhen | apps/api/src/emailProvider.ts:448-460 | Replies by the grammar of section 4.2.1 of RFC 5321 are read back one by one if and only if every last line carries its blank |
| SmtpReader.ReadsWhatWasSent | apps/api/src/emailProvider.ts:448-460 | Whatever such replies a server sends, each that ends in a bare code is glued to the next one, last ones that do are never delivered, and every other is read as sent |
| SmtpReader.BareReplyIsNeverRead | apps/api/src/emailProvider.ts:454-456 | A lone 250 without blank is a reply of the grammar and yields no reply to any caller |
| SmtpReader.CallsOfAServer | apps/api/src/emailProvider.ts:438-488 | Against such a server, however its bytes arrive, call k gets the k-th of the glued replies, and calls beyond them wait for ever |
| SmtpReader.RunKeepsInv | apps/api/src/emailProvider.ts:438-488 | After every run, with socket errors too, replies were handed out in stream order to calls in call order, and waiters and queued replies are not both non-empty |
| SmtpReader.StepKeepsInv | apps/api/src/emailProvider.ts:446-476 | Each of the three events keeps that invariant |
| SmtpReader.LinesConcat | apps/api/src/emailProvider.ts:447-459 | Splitting a stream anywhere and carrying the unfinished line over yields the same lines |
| SmtpReader.LineByLine | apps/api/src/emailProvider.ts:447-452 | For any bytes a line is what precedes a line feed, less one carriage return at its end |
| SmtpReader.LastMeans | apps/api/src/emailProvider.ts:454 | A line ends a reply if and only if it begins with three digits and a blank |
| SmtpReader.RepliesMean | apps/api/src/emailProvider.ts:452-456 | For any lines none is lost, added or moved, and every reply is cut after the first line that ends one |
| SmtpReader.GrammarMeans | apps/api/src/emailProvider.ts:448-456 | The lines of section 4.2.1 of RFC 5321: a code with a hyphen and text, and a code alone or with a blank and text |
| SmtpReader.GrammarInFigures | apps/api/src/emailProvider.ts:448-456 | Its codes and its text, in figures |
| SmtpReader.RepliesConcat | apps/api/src/emailProvider.ts:452-456 | Splitting the lines anywhere and carrying the unfinished reply over yields the same replies |
| SmtpReader.SmtpReader.OnData | apps/api/src/emailProvider.ts:446-462 | The line loop and the flush take the reader to the specified state |
| SmtpReader.SmtpReader.FlushWaiters | apps/api/src/emailProvider.ts:479-488 | Pairs waiting calls with queued replies, oldest with oldest, until one queue is empty |
| SmtpReader.SmtpReader.NextReply | apps/api/src/emailProvider.ts:468-476 | A call takes the oldest queued reply at once, or with none queued joins the end of the queue, and touches nothing else |
| SmtpReader.SmtpReader.OnError | apps/api/src/emailProvider.ts:463-466 | A socket error empties the queue and rejects exactly the calls that were in it; buffer, replies and every other outcome stay |
| SmtpMessage.DotStuffingIsTransparent | apps/api/src/emailProvider.ts:537-562 | A server that undoes dot-stuffing gets the headers, an empty line and the newline-normalised body, and goes on right after the end mark (section 4.5.2 of RFC 5321) |
| SmtpMessage.FormattedMessageArrives | apps/api/src/emailProvider.ts:537-562 | An accepted message arrives as the trimmed sender, recipient and subject under their names, the date, the three fixed headers, an empty line and the lines of the body |
| SmtpMessage.FirstEndMarkIsTheLast | apps/api/src/emailProvider.ts:369 | In a message followed by the end mark the first end mark is that one (section 4.1.1.4 of RFC 5321) |
| SmtpMessage.ServerGetsLines | apps/api/src/emailProvider.ts:556-562 | Any lines without line feeds, stuffed, arrive as they were |
| SmtpMessage.HeadersAreClean | apps/api/src/emailProvider.ts:537-554 | No accepted header value can start a line of its own or a lone dot |
| SmtpMessage.RefusedExactlyWhen | apps/api/src/emailProvider.ts:550-554 | A message is refused if and only if its sender, recipient or subject is blank or keeps a CR or LF after trimming |
| SmtpMessage.NewlinesMean | apps/api/src/emailProvider.ts:557-558 | Lines joined by LF and CRLF in any mixture are sent as those lines |
| SmtpMessage.SplitJoins | apps/api/src/emailProvider.ts:558-561 | Joining undoes splitting at CRLF |
| SmtpMessage.NormalizedIsUnbroken | apps/api/src/emailProvider.ts:557-558 | After normalisation no line contains a line feed |
| SmtpMessage.NormalizeIsIdempotent | apps/api/src/emailProvider.ts:557 | Normalising newlines twice is normalising once |
| AuditPaging.PagingIsComplete | apps/api/src/auditRoutes.ts:69-93 | A client that follows the cursor sees, after the last page, exactly the rest of the log as it was at its first request, in ceil(n / limit) pages; before it, a proper prefix in fewer pages; though newer events arrive between requests |
| AuditPaging.PagingFromTheStart | apps/api/src/auditRoutes.ts:69-93 | From the first page on, the pages together hold an event if and only if it is in the log, belongs to the tenant and meets every filter that is set, field by field; strictly by time and then id, in as few pages as the limit allows |
| AuditPaging.PageCountIsCeiling | apps/api/src/auditRoutes.ts:69-93 | The number of pages is n / limit rounded up, and one for an empty result |
| AuditPaging.CursorRoundTrip | apps/api/src/auditRoutes.ts:181-204 | Parsing undoes encoding for exactly the ids of 1 to 128 characters, bars in ids included |
| AuditPaging.LawsAreConsistent | apps/api/src/auditRoutes.ts:181-204 | What the codec assumes of the platform's dates and base64url can be met |
| AuditPaging.NewerEventsAreInvisible | apps/api/src/inMemoryTenantDataSource.ts:41-84 | Events appended at or ahead of a cursor leave what is behind it unchanged |
| AuditPaging.RestBehind | apps/api/src/inMemoryTenantDataSource.ts:76-83 | The cursor of an element leaves exactly the elements after it |
| AuditPaging.RestIsDescending | apps/api/src/inMemoryTenantDataSource.ts:53-82 | What is read behind a cursor is strictly descending and has exactly the matching events below the cursor |
| AuditPaging.SortThenFilter | apps/api/src/inMemoryTenantDataSource.ts:67-82 | Cutting at the cursor before or after sorting is the same |
| AuditPaging.SortSorts | apps/api/src/inMemoryTenantDataSource.ts:67-75 | Sorting gives a strictly descending list of the same events |
| AuditPaging.OlderIsTotal | apps/api/src/inMemoryTenantDataSource.ts:67-75 | The order by time, then id, is strict and total |
| AuditPaging.AuditLog.AppendAuditEvent | apps/api/src/inMemoryTenantDataSource.ts:41-47 | A new event goes in front, the others stay |
| AuditPaging.ResponseShowsNewest | apps/api/src/auditRoutes.ts:69-93 | A page is strictly newest first and holds the newest events that match below the cursor; there is a next cursor if and only if some are left, all of them older; what a match is, is said by AuditPaging.PageHolds |
| AuditPaging.GetAuditEvents | apps/api/src/auditRoutes.ts:41-93 | Every event shown belongs to the caller's tenant and meets each filter that is set, field by field; on a first page without a next cursor every such event of the log is shown; newest first, at most limit of them; a cursor is refused if and only if it is not blank and spells none |
| AuditPaging.PageHolds | apps/api/src/inMemoryTenantDataSource.ts:53-66 | What a page shows and, without cursors, all it could show, in the fields of tenant, project, actor, action, status and dates, for any log |
| AuditPaging.PageIsBehind | apps/api/src/inMemoryTenantDataSource.ts:76-82 | Behind a cursor every event shown is older, or as old with a smaller id |
| AuditPaging.PageBegins | apps/api/src/auditRoutes.ts:69-86 | A page is the beginning of what is left, and its cursor encodes time and id of its last event |
| AuditPaging.CursorMeans | apps/api/src/auditRoutes.ts:181-198 | No cursor is meant if and only if the text is missing or blank; a cursor is read if and only if the text decodes to a readable date without bar, a bar and an id of 1 to 128 characters |
| OneTimeTokens.AtMostOneCommitPerToken | apps/api/src/authRegistrationRoutes.ts:410-673 | Over any interleaving of resets, accepts, logins, edits and issues, no token is behind two successful commits |
| OneTimeTokens.EarlierReadersCannotCommit | apps/api/src/authRegistrationRoutes.ts:551-673 | Once a commit for a user has happened, no request that had read a token of that user before it can commit, however the run goes on |
| OneTimeTokens.CommitShutsOutOthers | apps/api/src/authRegistrationRoutes.ts:464-466 | A commit spends every stored token of its user |
| OneTimeTokens.InTimeExactlyWhen | apps/api/src/authRegistrationRoutes.ts:411-484 | All commits of a run happen before the expiry of their tokens if and only if each committing step comes before it |
| OneTimeTokens.CommitIgnoresClock | apps/api/src/authRegistrationRoutes.ts:439-484 | A request that commits at one time commits the same change at any other |
| OneTimeTokens.LateCommit | apps/api/src/authRegistrationRoutes.ts:411-457 | At a time when a new request is refused as expired, one that read the token earlier still commits |
| OneTimeTokens.CommitsAreStamped | apps/api/src/authRegistrationRoutes.ts:414-457 | Over every run with a monotone clock a commit's recorded time is before the expiry of its token and not after the commit |
| OneTimeTokens.StampedBeforeExpiry | apps/api/src/authRegistrationRoutes.ts:414-457 | Over any interleaving the consumption time recorded with a token is before its expiry |
| AccountCredentials.AcceptOnlyWithoutCredential | apps/api/src/authRegistrationRoutes.ts:567-663 | If no email changes between the read and the write of an edit that leaves it alone, nor between the two reads of an accept, then over any interleaving of the server's own steps an accept commits only for an account without a credential |
| AccountCredentials.AccountsInOrderExactlyWhen | apps/api/src/authRegistrationRoutes.ts:567-597 | Throughout a run of the server's own steps credentials stay in step with accounts and only accounts without one are admitted, if and only if every write is safe and no look-up misses a credential |
| AccountCredentials.StepKeepsAccountsExactlyWhen | apps/api/src/workspaceUserRoutes.ts:484-530 | The same for one step |
| AccountCredentials.WriteKeepsSyncExactlyWhen | apps/api/src/workspaceUserRoutes.ts:494-503 | A write of a row read before keeps account and credential in step if and only if it is refused, moves the email, leaves the email that is stored, or the account has no credential |
| AccountCredentials.LookUpMissesExactlyWhen | apps/api/src/authRegistrationRoutes.ts:584-597 | The look-up by the email read before misses an account's credential if and only if the account's email has changed since and no other credential carries the old one |
| AccountCredentials.StaleSaveLetsIn | apps/api/src/profileRoutes.ts:45-66 | A profile save read before an email change puts the account out of step, and after its deactivation a reset token lets it in |
| AccountCredentials.EditBetweenReads | apps/api/src/authRegistrationRoutes.ts:567-597 | An email change between the two reads of an accept lets a deactivated account in, although account and credential are in step before and after it |
| AccountCredentials.StepSyncExactlyWhen | apps/api/src/workspaceUserRoutes.ts:161-178 | Creating, deleting, resetting and accepting keep each credential's email that of its account and on no other credential; an edit does if and only if it is safe |
| AccountCredentials.MovingKeepsSync | apps/api/src/workspaceUserRoutes.ts:497-503 | An edit that departs from the email it read carries the new one over to the credential, or is refused |
| OneTimeTokens.SpentForever | packages/persistence/src/repositories.ts:729-767 | A spent token stays spent on every run |
| OneTimeTokens.CommitSpends | apps/api/src/authRegistrationRoutes.ts:439-484 | A commit is for the owner of an unconsumed token and spends it |
| OneTimeTokens.ConfirmLeavesNothingBehind | apps/api/src/authRegistrationRoutes.ts:439-484 | A reset succeeds if and only if its token is stored and unconsumed, and otherwise changes nothing; then the consumed token is the user's only token, no session of the user is left, other users keep theirs, only this password changes and one record is logged |
| OneTimeTokens.AcceptKeepsFreshColumns | apps/api/src/authRegistrationRoutes.ts:599-663 | An accept sets the status of a waiting account, gives it the email read in the transaction and changes no other column; it consumes its token, drops the user's others and nobody else's |
| OneTimeTokens.AcceptExactlyWhen | apps/api/src/authRegistrationRoutes.ts:599-663 | When an accept finds its token used, its account no longer waiting or its email taken, and that only the second leaves a trace, the consumed token |
| OneTimeTokens.ReadsExactlyWhen | apps/api/src/authRegistrationRoutes.ts:411-597 | A request goes on if and only if its token is stored, unconsumed and unexpired; an accept if and only if in addition its account waits, and then if no credential has its email |
| OneTimeTokens.CommitsInTurn | apps/api/src/authRegistrationRoutes.ts:439-663 | A request commits in its turn only, by its own transaction with what it has read, and is then over; out of turn nothing changes |
| OneTimeTokens.TokensComeAndGo | packages/persistence/src/repositories.ts:729-767 | A token is issued unconsumed and once under its id; a revocation drops the tokens of one user and nobody else's |
| OneTimeTokens.WriteExactlyWhen | apps/api/src/workspaceUserRoutes.ts:484-530 | An edit is refused if and only if the account is gone or an index is violated; otherwise just its row changes, the credential's email moves with the account's, and a deactivation revokes the user's tokens |
| OneTimeTokens.CreateExactlyWhen | apps/api/src/workspaceUserRoutes.ts:161-178 | An account is made if and only if its id and its email are free, with a credential if and only if a password is given |
| OneTimeTokens.DeleteExactly | apps/api/src/workspaceUserRoutes.ts:646-710 | A deleted account leaves no row, credential, token or session behind, and no other one is touched |
| OneTimeTokens.FailedAcceptSpendsToken | apps/api/src/authRegistrationRoutes.ts:615-628 | A failed accept has spent the token if and only if the account was no longer waiting |
| OneTimeTokens.AuthStore.MarkTokenConsumed | packages/persistence/src/repositories.ts:729-746 | Consumes an unconsumed token and reports one row, or changes nothing and reports none |
| OneTimeTokens.AuthStore.DeleteOtherTokens | packages/persistence/src/repositories.ts:757-767 | Keeps the named token and the tokens of other users |
| OneTimeTokens.AuthStore.ConfirmPasswordReset | apps/api/src/authRegistrationRoutes.ts:439-484 | The statements of the transaction give the specified database and verdict |
| OneTimeTokens.AuthStore.AcceptInvitation | apps/api/src/authRegistrationRoutes.ts:599-663 | The statements of the transaction, roll-back included, give the specified database and outcome |
| Planning.WrittenIsPreviewed | apps/api/src/governedPlanningApply.ts:87-153 | If one stored write simulates one preview step, the plan after the batch reads back as the snapshot that was previewed |
| Planning.BatchDelta | apps/api/src/governedPlanningApply.ts:157-171 | The folded delta of a batch is the first-occurrence de-duplication of all changes of its commands in order |
| Planning.DedupMeaning | apps/api/src/governedPlanningApply.ts:169-171 | De-duplication keeps exactly the elements, once each |
| Planning.DedupInOrder | apps/api/src/governedPlanningApply.ts:169-171 | First occurrences give the order: an element not seen so far goes to the end, one seen before changes nothing |
| Planning.DedupAbsorbs | apps/api/src/governedPlanningApply.ts:157-171 | De-duplicating on the way changes nothing in the end |
| Planning.BlockedExactlyWhen | apps/api/src/governedPlanningApply.ts:98-118 | A batch is blocked if and only if some command raises a blocking issue on the snapshot it meets or in its precondition |
| Planning.PreviewMeans | apps/api/src/planning/planningCommandCore.ts:38-59 | A preview ends in the snapshot its commands lead to one after the other, with the issues of each where it stands, in order |
| Planning.BlockedMeans | apps/api/src/planning/planningCommandCore.ts:45-59 | A batch is blocked if and only if some command raises a blocking issue on the snapshot the ones before it lead to, or by its precondition |
| Planning.PreviewCommands | apps/api/src/governedPlanningApply.ts:88-109 | The loop computes the folded preview and writes nothing |
| Planning.PlanStore.ApplyPlanningCommands | apps/api/src/governedPlanningApply.ts:120-127 | Every command is written exactly once, in order |
| Planning.ApplyGovernedPlanningDelta | apps/api/src/governedPlanningApply.ts:87-153 | A blocking issue leaves the store untouched; otherwise all commands, one version increment and one audit event |
| ControlApply.ApplyAction | apps/api/src/controlRoutes.ts:526-721 | The transaction's loop and appends give the specified store and outcome; the conditions of each outcome are those of StoppedExactlyWhen, its log entries those of OneAuditOneExecution |
| ControlApply.AppliedExactlyWhen | apps/api/src/controlRoutes.ts:539-668 | Success if and only if the action is listed under the lock with commands, its actor is permitted, the version is the one the client named, and no command nor the batch raises a blocking issue |
| ControlApply.NotListedExactlyWhen | apps/api/src/controlRoutes.ts:539-547 | An action is not found if and only if it is not listed under the lock or has no delta |
| ControlApply.StoppedExactlyWhen | apps/api/src/controlRoutes.ts:548-658 | For a listed action, one condition each for an empty delta, a missing permission, a missing project, another plan version than the one named, which is reported, and a blocking issue of a command where it stands or of the batch |
| ControlApply.ReportsAllIssues | apps/api/src/controlRoutes.ts:621-658 | A failed precondition reports the issues of every command in order and those the batch introduces |
| ControlApply.AppliedReadsBack | apps/api/src/controlRoutes.ts:621-701 | If one stored write simulates one preview step, a success leaves a plan that reads back as the previewed snapshot |
| ControlApply.OnlySuccessWrites | apps/api/src/controlRoutes.ts:539-690 | Plan and version change only on success, by exactly the commands and by one |
| ControlApply.OneAuditOneExecution | apps/api/src/controlRoutes.ts:548-690 | A forbidden apply is logged as denied with a denied execution, a conflict and a failed precondition as such with a failed one, a success as such with a succeeded one, each execution pointing at its audit event; any other outcome leaves no trace |
| ControlApply.LaterSuccessNamesHigherVersion | apps/api/src/controlRoutes.ts:583-618 | Of two successful applies on a project the later named the higher version, whatever happened between, so at most one of those naming one version succeeds |
| ControlApply.VersionCountsWrites | apps/api/src/controlRoutes.ts:661-669 | Over every run the version grows by exactly the number of successful writes |
| ControlApply.PlanIsReplay | apps/api/src/controlRoutes.ts:661-669 | After every run the plan is the first plan with everything ever written replayed onto it |
| ControlApply.LogsStayInStep | apps/api/src/controlRoutes.ts:548-690 | Over every run execution n points at audit event n and agrees with its verdict |
| FileSegments.NormalizedIsSafe | apps/api/src/attachmentValidation.ts:334-349 | Every result is empty or safe: allowed characters, no double dot or dash, clean edges, no reserved base name |
| FileSegments.SafeMeans | apps/api/src/attachmentValidation.ts:334-349 | A safe segment has no slash, backslash, control or shell character and is neither of the dot names |
| FileSegments.FixedExactlyWhenSafe | apps/api/src/attachmentValidation.ts:334-349 | The fixed points of the normaliser are exactly the empty string and the safe segments |
| FileSegments.NormalizeIsIdempotent | apps/api/src/attachmentValidation.ts:334-349 | Normalising twice is normalising once |
| FileSegments.LettersAreKept | apps/api/src/attachmentValidation.ts:334-349 | Letters, digits and underscores survive in order, apart from the word that defuses a reserved name; a result is empty if and only if there were none |
| FileSegmentMeaning.NormalizeIsOnePass | apps/api/src/attachmentValidation.ts:334-349 | The chain of replacements is one pass that drops control characters, marks every character but letters, digits, underscores, whitespace and dots with a dash, and drops repeated dots and dashes; then both ends are stripped and a reserved name is prefixed |
| FileSegmentMeaning.MarkMeans | apps/api/src/attachmentValidation.ts:334-345 | The characters that stay, one by one |
| FileSegmentMeaning.ReservedMeans | apps/api/src/attachmentValidation.ts:23-46 | The reserved names: con, prn, aux, nul, and com or lpt with a digit from 1 to 9, in any case |
| FileSegmentMeaning.BaseNameMeans | apps/api/src/attachmentValidation.ts:346-347 | What is compared is the name up to its first dot |
| FileSegments.DisplayNameIsPathSafe | apps/api/src/attachmentValidation.ts:106-115 | A display name has at most 180 characters, no path separator and no double dot |
| FileSegmentMeaning.DisplayNameMeans | apps/api/src/attachmentValidation.ts:106-115 | A name is required if and only if it is blank, invalid if and only if it is not but has no letter, digit or underscore, and otherwise the first 180 characters of the normalised name with one blank for every run of whitespace |
| FileSegmentMeaning.RunsMean | apps/api/src/attachmentValidation.ts:110 | Replacing runs leaves other characters alone and turns each run into one character |
| FileSegments.StorageKeyHasThreeSegments | apps/api/src/attachmentValidation.ts:247-256 | Whatever the inputs, a storage key splits into exactly three non-empty segments, none of them a dot name |
| FileSegmentMeaning.StorageKeyMeans | apps/api/src/attachmentValidation.ts:247-256 | The three segments are the normalised tenant, asset and name in this order, with tenant, asset or download in place of one that has no letter, digit or underscore |
| Metadata.SanitizeRecord | apps/api/src/attachmentValidation.ts:351-378 | Accepts a record if and only if it is good everywhere and fits under the depth limit, and returns it unchanged |
| Metadata.SanitizeValue | apps/api/src/attachmentValidation.ts:380-408 | The same for any value |
| Metadata.ParseMetadata | apps/api/src/attachmentValidation.ts:235-245 | Invalid are exactly the values that are no record nested at most five deep and good at every node, too large those of the others that print to more than 8192, and the rest come back unchanged; a missing value is the empty record |
| Metadata.ListAccepted | apps/api/src/attachmentValidation.ts:393-406 | The depth of the whole agrees with the counter the recursion passes down, for lists |
| Metadata.RecordAccepted | apps/api/src/attachmentValidation.ts:351-378 | The same for records |
| Metadata.GoodMeans | apps/api/src/attachmentValidation.ts:351-408 | Kind by kind and in figures: 100 entries or items, keys of 1 to 120 characters without control characters and none of the three blocked ones, finite numbers |
| Metadata.LimitsOfText | apps/api/src/attachmentValidation.ts:385-389 | A text has at most 1000 characters and no control character |
| Metadata.DepthMeans | apps/api/src/attachmentValidation.ts:355-396 | A container is one deeper than the deepest of what it holds |
| IsoDates.AcceptsExactlyRealDates | apps/api/src/absencesRoutes.ts:52-68 | Accepts exactly the real Gregorian dates of the years 100 to 9999, each with its own day number |
| IsoDates.SurvivesExactlyWhenReal | apps/api/src/absencesRoutes.ts:58-66 | A date comes back from its day number if and only if it is real and its year is not remapped |
| IsoDates.TextOrderIsDayOrder | apps/api/src/absencesRoutes.ts:52-75 | On accepted texts the order of strings is the order of days, and equal days are equal texts |
| IsoDates.TomorrowIsNext | apps/api/src/absencesRoutes.ts:67 | Consecutive calendar dates have consecutive day numbers |
| IsoDates.DateOfDay | apps/api/src/absencesRoutes.ts:58-66 | Day numbers and real dates correspond one to one |
| IsoDates.YearStartIsEcma | apps/api/src/absencesRoutes.ts:58 | Counting leap years one by one agrees with the closed formula of the language standard |
| IsoDates.DayNumberIsEcma | apps/api/src/absencesRoutes.ts:52-68 | An accepted text has the day number that the closed formulas of the language standard, with its table of months, give its year, month and day |
| IsoDates.MonthTable | apps/api/src/absencesRoutes.ts:58 | The month starts added up from month lengths are those of the standard's table |
| IsoDates.RealMeans | apps/api/src/absencesRoutes.ts:59-66 | Real dates in figures: 30 days in four months, 28 in February and 29 in leap years, else 31 |
| IsoDates.ShapeMeans | apps/api/src/absencesRoutes.ts:53-54 | A text has the shape of a date if and only if it has ten characters, dashes in the fifth and eighth place and figures in the others |
| IsoDates.FieldsMean | apps/api/src/absencesRoutes.ts:55-57 | Year, month and day are what the figures say |
| IsoDates.RangeCoversDays | apps/api/src/absencesRoutes.ts:70-75 | A range is valid if and only if its last date is reached from its first in a run of 1 to 370 consecutive calendar days |
| ImageHeaders.PngRoundTrip | apps/api/src/communicationUpgradeRoutes.ts:971-990 | A header built by section 4.1.1 of RFC 2083 reads back with its size and type, whatever follows |
| ImageHeaders.PngExactlyWhen | apps/api/src/communicationUpgradeRoutes.ts:971-990 | A file reads as a PNG of a size of 32 bits each way if and only if it begins with the header of that size |
| ImageHeaders.PngInBytes | apps/api/src/communicationUpgradeRoutes.ts:971-990 | Byte by byte: a file is a PNG of a size if and only if it has 24 bytes, the first 16 are the fixed ones, and the next eight are width and height, big end first |
| ImageHeaders.ExtendedRoundTrip | apps/api/src/communicationUpgradeRoutes.ts:1004-1013 | The same round trip for the extended header of section 2.7 of RFC 9649 |
| ImageHeaders.LosslessRoundTrip | apps/api/src/communicationUpgradeRoutes.ts:1014-1028 | The same for the lossless header of section 3.4 of RFC 9649, exactly when at least five bytes follow it |
| ImageHeaders.LossyRoundTrip | apps/api/src/communicationUpgradeRoutes.ts:1029-1046 | The same for the key frame of section 9.1 of RFC 6386, whatever its scale bits |
| ImageHeaders.WebpExactlyWhen | apps/api/src/communicationUpgradeRoutes.ts:992-1048 | A file reads as a WebP of some size if and only if it has 30 bytes and begins with one of the three headers of that size |
| ImageHeaders.WebpInBytes | apps/api/src/communicationUpgradeRoutes.ts:992-1048 | Byte by byte: the chunk names, the signature, the start code and the bits of each size in the three kinds of WebP header |
| ImageHeaders.NeverBoth | apps/api/src/communicationUpgradeRoutes.ts:960-969 | No bytes are read as both formats |
| EventBus.KeyIsInjective | apps/api/src/planningEventBus.ts:12-14 | Different tenants or projects never share a key, as tenant ids hold no separator |
| EventBus.SubscribeKeepsInv | apps/api/src/planningEventBus.ts:25-29 | A subscription leaves no empty set in the map and no listener twice in a set, and its closure refers to the current set |
| EventBus.SubscribeAdds | apps/api/src/planningEventBus.ts:25-29 | Under its own key it puts its listener at the end unless it is there, and changes no other key |
| EventBus.UnsubscribeKeepsInv | apps/api/src/planningEventBus.ts:30-33 | A call on the current set leaves no empty set in the map |
| EventBus.UnsubscribeRemoves | apps/api/src/planningEventBus.ts:30-33 | It removes exactly its listener under its own key |
| EventBus.UnsubscribeClosesUp | apps/api/src/planningEventBus.ts:30-33 | The other listeners keep their order, and without the listener nothing changes |
| EventBus.RegisteredIsCurrent | apps/api/src/planningEventBus.ts:25-33 | A closure whose listener is still in its own set refers to the current set |
| EventBus.UnsubscribeIsRightExactlyWhen | apps/api/src/planningEventBus.ts:30-33 | On any bus calls can lead to, a call does what is meant if and only if its set is current, or it leaves its set empty with nobody else listening, or leaves it non-empty with the listener not there |
| EventBus.BusIsRosterExactlyWhen | apps/api/src/planningEventBus.ts:22-41 | Throughout a run of subscriptions and calls of handed-out closures the bus has exactly the listeners that joined and have not left, if and only if every call is right in that sense |
| EventBus.OrderlyIsTimely | apps/api/src/planningEventBus.ts:25-33 | Callers that use each closure once and re-join only after leaving never meet a replaced set |
| EventBus.OncePerClosureIsNotEnough | apps/api/src/planningEventBus.ts:25-33 | With one listener subscribed twice, a closure's only call drops another listener |
| EventBus.DeliveredExactlyOnce | apps/api/src/planningEventBus.ts:22-41 | After any disciplined run from an empty bus, an event is delivered exactly once to each listener that subscribed to its own tenant and project and has not unsubscribed since, and to nobody else |
| EventBus.ListenersOfRun | apps/api/src/planningEventBus.ts:22-41 | After any run of timely calls a listener is in the set of a project if and only if its last action there was to subscribe |
| EventBus.BusIsRoster | apps/api/src/planningEventBus.ts:22-41 | After any run of timely calls every key has exactly the listeners that joined and have not left |
| EventBus.InMemoryPlanningEventPublisher.SubscribeTo | apps/api/src/planningEventBus.ts:25-34 | The method makes or reuses the set of its key as specified, after stale calls as well |
| EventBus.InMemoryPlanningEventPublisher.CallUnsubscribe | apps/api/src/planningEventBus.ts:30-33 | The closure changes the set it captured and the map as specified, stale or not |
| EventBus.InMemoryPlanningEventPublisher.Publish | apps/api/src/planningEventBus.ts:37-41 | Each listener in the set of the event's own key gets the event once, in the order of the set, and nothing else is delivered |
| RealtimeEvents.DeliveredAtItsCommit | apps/api/src/collaborationNotificationService.ts:44-48 | A publish deferred in a transaction that commits afterwards reaches each listener subscribed to its channel at the commit exactly once, and nobody else, whatever other transactions and the bus do |
| RealtimeEvents.NotDeliveredWithoutCommit | apps/api/src/afterCommitQueue.ts:21-34 | Without a later commit of its transaction a deferred publish reaches nobody |
| RealtimeEvents.RolledBackReachesNobody | apps/api/src/afterCommitQueue.ts:21-34 | A publish deferred in a transaction that rolls back reaches nobody |
| RealtimeEvents.OneQueue | apps/api/src/workspaceEventBus.ts:43-47 | Publishing a queue of distinct callbacks delivers each once to each listener of its channel |
| AfterCommit.ExactlyOnceAfterCommit | apps/api/src/afterCommitQueue.ts:15-34 | Over any interleaving of non-nested transactions a callback is called exactly once if deferred outside, or in a transaction that commits afterwards, and not at all otherwise: never after a rollback, never when deferred after the end |
| AfterCommit.CalledIsDue | apps/api/src/afterCommitQueue.ts:15-34 | The callbacks called so far are exactly those due, in order, and each open queue holds what its own context deferred |
| AfterCommit.AfterCommitQueues.Open | apps/api/src/afterCommitQueue.ts:22-23 | A transaction begins with an empty queue of its own |
| AfterCommit.AfterCommitQueues.Discard | apps/api/src/afterCommitQueue.ts:23 | A failed transaction takes its queue with it and calls nothing |
| AfterCommit.AfterCommitQueues.DeferUntilTransactionCommit | apps/api/src/afterCommitQueue.ts:15-19 | In the context of a transaction a callback waits in its queue, or is lost if the transaction has ended; outside it is called at once |
| AfterCommit.AfterCommitQueues.Flush | apps/api/src/afterCommitQueue.ts:21-34 | After a commit every callback of the queue is called, those after a throwing one included |
| AfterCommit.ThrowingMeans | apps/api/src/afterCommitQueue.ts:25-32 | The callbacks that fail are those that throw, in order |

## Left out

- The Redis form of the rate limiter and its scripts; pending attempts expire differently there, and the code does not promise that the two agree.
- Trimming and lower-casing of emails, parsing of forwarded-address headers: the limiter's keys arrive normalised; the clock is a parameter.
- RateLimiter.BucketMap.Set: buckets are values stored anew on each change, so a bucket object updated through a reference is not modelled; the source never shares one between maps.
- RateLimitBooks.RunBalances: asks that reservations are settled inside their window and without eviction; a bucket whose window ends with attempts pending loses them.
- RateLimitTheorems.BlockHolds: asks for no failure between window end and block end, since a failure then replaces the bucket and its block; disciplined callers cannot make one.
- StageOrder.ReorderStages: models the transaction; the pre-check on an earlier snapshot, the sort for the audit record, the lifecycle graph, the stage-name index and the audit append are not part of it.
- StageOrder.StageStore.UpdateDealStage: lifecycle columns and the tenant column are not modelled; the table is that of one tenant.
- SmtpReader.SmtpReader.OnData: a chunk is text already decoded; the second reader made after STARTTLS, timeouts and sockets are not modelled.
- SmtpMessage.FormattedMessageArrives: the printed date is a parameter without line feeds; address extraction and the command dialogue are not modelled.
- AccountCredentials.AcceptOnlyWithoutCredential: the checks an edit makes before its transaction (taken emails, allowed domains, roles) are not modelled, so edits are let through that the server would refuse earlier; lower-casing of emails is not modelled.
- AuditPaging.CursorRoundTrip: the 128 characters are counted as characters, where the source counts UTF-16 code units; base64url and ISO dates are parameters with the round-trip laws of section 5 of RFC 4648 and of the platform; lone surrogates, which do not survive UTF-8, are outside those laws.
- AuditPaging.GetAuditEvents: strings are compared by character, the source by UTF-16 code unit; access checks and the parsing of filters are not modelled; the Postgres listing is not modelled.
- OneTimeTokens.AuthStore.ConfirmPasswordReset: transactions are atomic steps; hashing, rate-limit calls, lower-casing of emails and tenant columns are not modelled, a user id standing for tenant and user; an account edit revokes tokens but, in the model, no sessions.
- Planning.ApplyGovernedPlanningDelta: the engine's preview (one function for the governed preview and for the reduction used by control), preconditions and stored write are function parameters; read-back after the writes is assumed to succeed, and the optional callback before the audit event is not modelled.
- ControlApply.ApplyAction: models the transaction under the lock, with read-back assumed to succeed; the checks before the lock, notifications and the read model are not modelled.
- ControlApply.LogsStayInStep: the audit log is that of the apply transaction; other endpoints also append to the tenant's log.
- FileSegments.NormalizedIsSafe: the Unicode letter and digit classes are a parameter beyond ASCII; lower-casing is ASCII, which is all that reserved names need.
- Metadata.ParseMetadata: the length of the printed form is a parameter; a record is a list of entries, so repeated keys, which an object cannot have, are not excluded.
- EventBus.InMemoryPlanningEventPublisher.SubscribeTo: set objects are numbered rather than heap objects; listeners that subscribe or unsubscribe during delivery and the Redis bus are not modelled.
- IsoDates.AcceptsExactlyRealDates: the trimming of an optional query value before the check is not modelled.
- AfterCommit.ExactlyOnceAfterCommit: nested transactions and callbacks that defer again while the queue is flushed are not modelled.
- Other parsers, permission tables, serialisers, upload slots, URL and host checks: each is settled by reading one branch.
