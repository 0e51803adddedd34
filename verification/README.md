# Verification of the batch engine, SSE framing, rate limiter, RTK compression and retry logic

A Dafny 4.11 model of the parts of the repository where a property of whole runs or
whole inputs is decided by the code. `dafny verify dfyconfig.toml` checks all of it.

## What is modelled

| files | component |
|---|---|
| `Arith`, `Text`, `Calendar`, `Timestamp` | machine words, decimal text, the Gregorian calendar, the ISO 8601 timestamps that SQL compares as strings |
| `BatchTypes`, `BatchQueue`, `SqliteQueue`, `BatchEngine` | job and item rows; the queue as a state machine of atomic steps; the class whose methods update the tables and log each step; what a submission puts into it |
| `BatchRows`, `BatchLeases`, `BatchCancel`, `BatchCounts`, `BatchScenarios` | what one step does to one row, and from it the properties of every run; short runs that show the differences below |
| `Webhook`, `WebhookLeases` | the delivery queue (class and state machine), the dispatcher's decision, runs in which outcomes are recorded in time, and lease exclusion over all runs |
| `Sse`, `SseEvents` | the incremental frame buffer; reading a stream with a consumer that may stop |
| `RateLimit` | the Lua scripts over a sorted set, beside the full history of admissions |
| `Lines`, `Dedup`, `SmartTruncate`, `LineFilter`, `Detector`, `CommandType`, `RtkEngine` | text compression: deduplication, retention, filters, the command splitter, detection, and the stages together |
| `EnvFile`, `EnvExport`, `Retry`, `SchemaReach` | environment file and its export, retry loop, schema reachability |

Every queue method takes the connection mutex once, so a method is one step and a run is
any sequence of steps. A class holds the tables as maps and a ghost log of its calls;
`Valid()` says that replaying the log gives the tables. Each method is proved to append
one event and to leave exactly the state that event produces, and the lemmas quantify
over every log. The clock is a parameter that never goes back; ids, responses and regexes
are parameters too.

"Discipline" below is the rule that finishing calls are made only on an item that is
leased (crates/batch_engine/src/queue/mod.rs:41-43). Lemmas that need it say so.

## Where the code and its description differ

- Text order is time order exactly below year 10000 (`OrderAgreesExactly`). A lease whose
  expiry falls in year 10000 can be reclaimed at once (`LeaseHoldsExactly`), and a retry time
  past year 9999 is due by its first four digits (`RetryPastYear9999Exactly`).
- A terminal job status is not final: `complete_batch` has no status guard
  (`TerminalJobChangesExactly`; a run in `CancelledJobIsCompleted`). A terminal item or
  webhook row is rewritten by a late finishing call, which filters on the id alone
  (`TerminalItemChangesExactly`, `FinalRowChangesExactly`; runs in
  `LateCompletionOverwrites` and `LateRetryReopens`).
- `dead_letter` says it moves an item out of the queue but only copies the row
  (`DeadLettersChangeNothing`).
- A batch whose job is terminal can still complete exactly when no item of it is pending
  (`CompletableExactly`). Cancelled twice while an item is out, whose worker then schedules
  a retry, it never does (`CancelledBatchNeverCompletes`; a run in `CancelledBatchIsStuck`).
- `ack` is described as removal; no webhook row is ever removed (`RowsAreNeverRemoved`).
  The backoff is 2, 4, 8, 16, 16 s, where line 509 of
  docs/superpowers/specs/2026-03-30-batch-orchestration-engine-design.md has 1, 2, 4 s
  (`BackoffSchedule`), and under a limit of 255 retries no delivery is ever given up,
  because the attempt count is a u8 (`GivesUpExactly`).
- The rate limiter's retry-after is rounded down: a rejected request that waits that long
  is admitted exactly when rounding lost nothing (`RetryAfterSufficesExactly`; a run in
  `RetryAfterFallsShort`). Its guarantee starts at timestamp 1 (`TimestampZeroIsNotCounted`).
- The exponent cap in `backoff_delay` does not prevent overflow: the delay is right up to
  attempt 55 and zero from attempt 62 (`DelayExactly`, `DelayVanishesExactly`).
- The command splitter counts `$(` inside double quotes but not its `)`: a double-quoted
  word is passed over exactly when no substitution opens in it (`DoubleQuotedIsWordExactly`;
  a command in `SecondCommandIsMissed`).
- Deduplication is lossless on text exactly when the input holds no run that already looks
  encoded and no line of it ends in a carriage return (`TextRebuiltExactly`; inputs in
  `ForgedInput`, `CarriageReturnsAreLost` and `CrlfDocumentIsNotRebuilt`).
- An exported environment line longer than 4096 bytes is skipped on import
  (`ImportOfExportExactly`).

## Model

| member | source | states |
|---|---|---|
| Calendar.CivilIsTheCalendar | crates/batch_engine/src/db.rs:14-23 | for every day number the closed formula, in both its i64 and its u64 form, gives the valid Gregorian date reached by stepping one day at a time from 1970-01-01; no unsigned subtraction underflows |
| Calendar.YearWithinFourDigits | crates/batch_engine/src/db.rs:14-29 | the year has four digits exactly up to day 2932896 |
| Calendar.CivilFitsI64 | crates/batch_engine/src/db.rs:14-23 | no u64 epoch takes the signed arithmetic out of i64 |
| Calendar.DateOfIncreases | crates/client/src/rate_limit.rs:227-239 | later days have later dates |
| Timestamp.CopiesAgree | crates/client/src/rate_limit.rs:209-239 | both crates print the same timestamp for every epoch |
| Timestamp.TextOrderIsTimeOrder | crates/batch_engine/src/db.rs:7-29 | below year 10000, one timestamp sorts before another as text if and only if it is earlier |
| Timestamp.TextAtMostIsTimeAtMost | crates/batch_engine/src/queue/sqlite.rs:216 | below year 10000 the query's `next_retry_at <= now` on text decides `<=` on time |
| Timestamp.TwentyCharacters | crates/batch_engine/src/db.rs:24-29 | a timestamp has twenty characters if and only if it is before year 10000 |
| Timestamp.OrderAgreesExactly | crates/batch_engine/src/db.rs:7-29 | text order is time order on all epochs below a bound if and only if the bound is at most the start of year 10000 |
| Timestamp.ExpiryTest | crates/batch_engine/src/queue/sqlite.rs:413-416 | `lease_expires_at < now` on text holds exactly after the expiry, or when the expiry is already in year 10000 |
| Timestamp.ExpiresAfterCreation | crates/batch_engine/src/db.rs:44-47 | a job's expires_at sorts after its creation time exactly while it falls before year 10000 |
| BatchTypes.StatusTextRoundTrip | crates/batch_engine/src/job.rs:67-100 | a status stored as text reads back as itself, and only the known texts survive reading and storing |
| BatchRows.RowStep | crates/batch_engine/src/queue/sqlite.rs:151-320 | one call changes a row only by claiming it, finishing it, sweeping its cancelled batch or reclaiming its expired lease; no call removes a row |
| BatchRows.JobStep | crates/batch_engine/src/queue/sqlite.rs:151-194 | the status of a job changes only by cancel, complete_batch or the first claim; total and mode never change |
| BatchLeases.LeaseExclusion | crates/batch_engine/src/queue/sqlite.rs:196-254 | in every run, between two claims of one item there is a schedule_retry of it or a reclaim strictly later than the first claim's time + 120 s |
| BatchLeases.LeaseHoldsExactly | crates/batch_engine/src/queue/sqlite.rs:408-425 | a reclaim right after a claim takes the item back if and only if the lease ran out or its expiry is in year 10000 |
| BatchLeases.AttemptsCountClaims | crates/batch_engine/src/queue/sqlite.rs:205-221 | in every run attempts is the number of claims of the item |
| BatchLeases.ProcessingIffLeased | crates/batch_engine/src/queue/sqlite.rs:205-320 | in every run from submissions an item is processing if and only if both lease columns are set |
| BatchLeases.RetryDelayHonoured | crates/batch_engine/src/queue/sqlite.rs:297-320 | after schedule_retry no claim of the item happens before the delay is over |
| BatchLeases.RetryPastYear9999Exactly | crates/batch_engine/src/queue/sqlite.rs:216 | every retry time past year 9999 is due if and only if the first four digits of its year are less than the current year; in years 10000 to 19999, at any clock from 2000 on |
| BatchCancel.CancelIsFinal | crates/batch_engine/src/queue/sqlite.rs:151-194 | after cancel returns, in no continuation is an item of the batch claimed or its status queued or processing |
| BatchCancel.TerminalJobChangesExactly | crates/batch_engine/src/queue/sqlite.rs:375-381 | a terminal job status stays terminal and changes exactly by complete_batch on a job not completed |
| BatchCancel.TerminalItemChangesExactly | crates/batch_engine/src/queue/sqlite.rs:256-320 | a terminal item status changes exactly by a finishing call that writes another status |
| BatchCancel.TerminalItemsStay | crates/batch_engine/src/job.rs:216-218 | under the discipline the whole row of a terminal item never changes again |
| BatchCancel.QueuedJobsAreUntouched | crates/batch_engine/src/queue/sqlite.rs:241-245 | in every disciplined run all items of a queued job are pending with 0 attempts |
| BatchCancel.CancelQueuedExactly | crates/batch_engine/src/queue/sqlite.rs:166-188 | cancelling a queued batch leaves cancelled exactly the items that were pending or cancelled, and leaves it complete exactly if none was leased, in any state |
| BatchCancel.CancelQueuedCancelsAll | crates/batch_engine/src/queue/sqlite.rs:166-188 | in every disciplined run, cancelling a queued batch leaves every item cancelled and never attempted, and the batch complete |
| BatchCancel.PendingIsFrozen | crates/batch_engine/src/queue/sqlite.rs:178-188 | a pending item of a closed batch stays pending exactly until a cancel finds the batch cancelling |
| BatchCancel.CompletableExactly | crates/batch_engine/src/queue/sqlite.rs:340-356 | for a batch whose job is terminal, some disciplined continuation completes it if and only if no item of it is pending |
| BatchCancel.CancelledBatchNeverCompletes | crates/batch_engine/src/queue/sqlite.rs:340-356 | after two cancels and a retry of an item that was out, no disciplined continuation makes the batch complete |
| BatchScenarios.CancelledBatchIsStuck | crates/batch_engine/src/queue/sqlite.rs:151-194 | a disciplined run from empty tables that gets there |
| BatchScenarios.LateCompletionOverwrites | crates/batch_engine/src/queue/sqlite.rs:256-276 | a legal run in which a failed item becomes succeeded |
| BatchScenarios.CancelledJobIsCompleted | crates/batch_engine/src/queue/sqlite.rs:375-381 | a legal run in which a cancelled job becomes completed |
| BatchCounts.ItemsAreConserved | crates/batch_engine/src/engine.rs:45-94 | in every run from submissions each batch has exactly total items |
| BatchCounts.StatusesPartition | crates/batch_engine/src/job.rs:193-218 | the items of a batch are the sum of its items over the five statuses |
| BatchCounts.CompletedCountsAddUp | crates/batch_engine/src/queue/sqlite.rs:358-386 | in every reachable state complete_batch records succeeded + failed + cancelled = total if and only if is_batch_complete held |
| BatchCounts.DeadLettersChangeNothing | crates/batch_engine/src/queue/sqlite.rs:322-338 | erasing every dead_letter call from a run leaves a run with the same jobs and items |
| SqliteQueueModel.SqliteQueue.Enqueue | crates/batch_engine/src/queue/sqlite.rs:35-93 | inserts the job and all items, with the columns given, or changes nothing when a key, uniqueness or reference constraint fails; reports which |
| SqliteQueueModel.EnqueueSucceedsExactly | crates/batch_engine/src/db.rs:91-111 | an enqueue is accepted if and only if the job id is new, every item id is new and unlike the others, no two rows share batch and custom id, and every item names a job there is |
| SqliteQueueModel.SqliteQueue.ClaimNextItem | crates/batch_engine/src/queue/sqlite.rs:196-254 | the item leased is pending, due, of an open proxy_native job; no other such item has a job of higher priority, nor of the same priority an older creation time; its columns and its job after the call; None exactly when there is no such item |
| SqliteQueueModel.ClaimTakesFirst | crates/batch_engine/src/queue/sqlite.rs:205-221 | every legal claim, in any state, takes an item on offer with the highest priority and among those the oldest, and none only if none is on offer |
| SqliteQueueModel.SqliteQueue.CompleteItem | crates/batch_engine/src/queue/sqlite.rs:256-276 | stores the code and body given and the time, makes the item succeeded and clears its lease; every other row and column stays |
| SqliteQueueModel.SqliteQueue.FailItem | crates/batch_engine/src/queue/sqlite.rs:278-295 | stores the error given and the time, makes the item failed and clears its lease; every other row and column stays |
| SqliteQueueModel.SqliteQueue.ScheduleRetry | crates/batch_engine/src/queue/sqlite.rs:297-320 | makes the item pending again with the error given, no lease and the retry time read before the mutex plus the delay, on 64 bits; every other row and column stays |
| SqliteQueueModel.SqliteQueue.MoveItemToDeadLetter | crates/batch_engine/src/queue/sqlite.rs:322-338 | copies an existing item column by column unless a copy is there; jobs and items stay |
| SqliteQueueModel.SqliteQueue.CancelBatch | crates/batch_engine/src/queue/sqlite.rs:151-194 | not found exactly for an unknown batch; a terminal job stays; a processing one becomes cancelling; a queued or cancelling one becomes cancelled with exactly its pending items; the job returned is never queued or processing |
| SqliteQueueModel.SqliteQueue.BatchIsComplete | crates/batch_engine/src/queue/sqlite.rs:340-356 | true exactly when every item of the batch is terminal |
| SqliteQueueModel.SqliteQueue.FinishBatch | crates/batch_engine/src/queue/sqlite.rs:358-386 | completes the job with the numbers of its succeeded, failed and cancelled items; all else stays |
| SqliteQueueModel.SqliteQueue.UpdateProgress | crates/batch_engine/src/queue/sqlite.rs:427-456 | overwrites each count of an existing job but the total; all else stays |
| SqliteQueueModel.SqliteQueue.ReclaimExpiredLeases | crates/batch_engine/src/queue/sqlite.rs:408-425 | makes exactly the processing items whose lease expired before now pending without a lease, and returns how many there were |
| SqliteQueueModel.SubmitSucceedsExactly | crates/batch_engine/src/db.rs:91-111 | a submission with fresh ids is accepted if and only if its custom ids differ pairwise |
| BatchEngine.Submit | crates/batch_engine/src/engine.rs:36-94 | no call when the file is missing; otherwise one enqueue that leaves a queued job with the submitted total and one pending item for each submitted item, with its custom id and request and no attempt, or nothing |
| Webhook.RowsAreNeverRemoved | crates/batch_engine/src/webhook/sqlite.rs:59-178 | in every run a delivery row, once there, is there for ever and its attempts never go down |
| Webhook.FinalRowChangesExactly | crates/batch_engine/src/webhook/sqlite.rs:112-162 | a delivered or dead-lettered row changes status exactly by a finishing call with another outcome |
| Webhook.TimelyRowStep | crates/batch_engine/src/webhook/dispatcher.rs:123-148 | while outcomes are recorded in time, every step on a row not yet final strictly lowers a measure, and final rows do not change |
| Webhook.ClaimsAreBounded | crates/batch_engine/src/webhook/dispatcher.rs:123-148 | in every timely run a delivery with at most 254 retries is claimed at most max_retries + 1 times |
| Webhook.DeliveryComesToAnEnd | crates/batch_engine/src/webhook/dispatcher.rs:123-148 | in every timely run the row of a delivery changes at most 2 (max_retries + 1) times after it was enqueued, and has no step left exactly when it is delivered or dead-lettered |
| Webhook.DrainedQueueIsFinal | crates/batch_engine/src/webhook/sqlite.rs:59-110 | when nothing is leased, no retry time is ahead and nothing is left to claim, every delivery is delivered or dead-lettered |
| Webhook.GivesUpExactly | crates/batch_engine/src/webhook/dispatcher.rs:123-148 | in every timely run a delivery is dead-lettered if and only if it was claimed max_retries + 1 times, max_retries is below 255, and it is neither leased nor delivered |
| Webhook.RetryDelayIs | crates/batch_engine/src/webhook/dispatcher.rs:131-138 | in every timely run the n-th retry of a delivery is scheduled 2^min(n mod 256, 4) s on, and n is at most max_retries when that is below 255 |
| Webhook.BackoffSchedule | crates/batch_engine/src/webhook/dispatcher.rs:131-138 | in every timely run the delays scheduled for a delivery's n retries add up to those of 2, 4, 8, 16, 16, ... s, up to the 255th |
| WebhookLeases.LeaseExclusion | crates/batch_engine/src/webhook/sqlite.rs:59-178 | in every run, timely or not, between two claims of one delivery there is a schedule_retry of it or a reclaim strictly later than the first claim's time + 60 s |
| WebhookLeases.LateRetryReopens | crates/batch_engine/src/webhook/sqlite.rs:112-145 | a legal run that reopens a delivered row |
| Webhook.ClaimTakesOldest | crates/batch_engine/src/webhook/sqlite.rs:67-80 | every legal claim takes a row that is pending and due and than which no such row is older, and none only if there is none |
| Webhook.Deliver | crates/batch_engine/src/webhook/dispatcher.rs:99-149 | records an acknowledgement if and only if the response is a success, a retry after 1, 2, 4, 8 or 16 s by the attempt count if and only if it failed and the attempts are at most max_retries, and else a dead letter; the row ends delivered, pending or dead-lettered accordingly and no other row changes; a timely step while the lease is out |
| Webhook.SqliteWebhookQueue.Insert | crates/batch_engine/src/webhook/sqlite.rs:30-57 | adds a pending row, or fails and changes nothing when the id is taken |
| Webhook.SqliteWebhookQueue.Claim | crates/batch_engine/src/webhook/sqlite.rs:59-110 | leases a row that is pending and due and than which no such row is older, and counts the attempt; None exactly when there is no such row |
| Webhook.SqliteWebhookQueue.Acked | crates/batch_engine/src/webhook/sqlite.rs:112-127 | the step that marks an existing row delivered and clears its lease |
| Webhook.SqliteWebhookQueue.RetryLater | crates/batch_engine/src/webhook/sqlite.rs:129-145 | the step that makes an existing row pending with a later retry time |
| Webhook.SqliteWebhookQueue.Bury | crates/batch_engine/src/webhook/sqlite.rs:147-162 | the step that dead-letters an existing row |
| Webhook.SqliteWebhookQueue.ReclaimExpiredLeases | crates/batch_engine/src/webhook/sqlite.rs:164-178 | makes every expired row pending and returns how many there were |
| Sse.FindDoubleNewline | crates/client/src/sse.rs:25-43 | finds the first LF LF or CRLF CRLF at or after the start, and nothing exactly when there is none |
| Sse.DelimAtExactly | crates/client/src/sse.rs:25-43 | a delimiter is the bytes 10 10 or the bytes 13 10 13 10, and nothing else |
| Sse.SplitIsFraming | crates/client/src/sse.rs:72-90 | the split of a byte string: frames and delimiters interleaved with the rest rebuild it, and no frame nor the rest contains a delimiter |
| Sse.EndsHasNoDelim | crates/client/src/sse.rs:72-90 | a frame that a delimiter ends contains no delimiter |
| Sse.FramingIsUnique | crates/client/src/sse.rs:72-90 | and no other cutting has these properties |
| Sse.FirstDelimStable | crates/client/src/sse.rs:25-43 | bytes that arrive later never put a delimiter before one already found |
| Sse.ResumeIsEnough | crates/client/src/sse.rs:71-90 | searching from the resume offset finds what searching from 0 finds |
| Sse.SplitInTwo | crates/client/src/sse.rs:72-90 | splitting a prefix and going on with its rest is splitting the whole |
| Sse.ChunksDoNotMatter | crates/client/src/sse.rs:108-150 | when nothing overflows, frames and final buffer depend only on the bytes, not on their cutting into chunks |
| Sse.NoChunkingOverflows | crates/client/src/sse.rs:72-90 | bytes accepted in one push are accepted in any chunking, with the same result |
| Sse.OverflowsExactly | crates/client/src/sse.rs:72-90 | a stream is refused exactly when some chunk does not fit beside the bytes no delimiter has closed |
| Sse.SseFrameBuffer.Push | crates/client/src/sse.rs:72-90 | returns the frames of buffer and chunk together and keeps the rest, within the size limit and free of delimiters; a chunk that does not fit changes nothing |
| SseEvents.GiveAppend | crates/client/src/sse.rs:118-146 | giving a consumer two runs of frames in turn is giving it both together |
| SseEvents.PayloadsExactly | crates/client/src/sse.rs:127-132 | each line of a frame gives, in its place, what follows a literal `data: ` on it when trimmed, or nothing |
| SseEvents.EventsExactly | crates/client/src/sse.rs:129-138 | the batch of a frame is the events of each payload in order, each asked for with all data up to it, and nothing for those refused |
| SseEvents.GivenExactly | crates/client/src/sse.rs:119-146 | after any frames there is a number of them the consumer was given: all their payloads in order, one batch for each with exactly its events, going on after every batch but the last; all frames unless it stopped |
| SseEvents.ConsumeFrame | crates/client/src/sse.rs:119-146 | the data grow by the payloads of the frame, a frame that is no UTF-8 having none; exactly one batch is added, with the events of those payloads; the consumer decides on all batches including it |
| SseEvents.ReadSseStream | crates/client/src/sse.rs:100-150 | for every chunking: a stream that ends normally has given the consumer, until it stopped, exactly the data and one batch of events for each frame of all bytes together; on an overflow, those of the bytes before the first chunk that does not fit |
| RateLimit.RunSound | crates/proxy/src/ratelimit.rs:108-154 | in every run, key expiry included, the stored set is the history above a floor that no window reaches |
| RateLimit.RpmDecidesByHistory | crates/proxy/src/ratelimit.rs:108-154 | a request is admitted exactly when the whole history holds fewer than limit admissions in the last 60 s |
| RateLimit.WindowSafety | crates/proxy/src/ratelimit.rs:108-154 | in every run with a fixed limit, for every T, at most limit admissions have a time in (T - 60000, T] |
| RateLimit.RetryAfterInRange | crates/proxy/src/ratelimit.rs:108-154 | a rejection under a positive limit asks for 1 to 60 seconds, computed from the oldest entry in the window |
| RateLimit.RetryAdmittedExactly | crates/proxy/src/ratelimit.rs:108-154 | in every run, a rejected request with no call in between is admitted at a later time if and only if enough of the oldest entries are a window old by then to leave fewer than the limit |
| RateLimit.FullExactly | crates/proxy/src/ratelimit.rs:108-154 | under a fixed limit a rejection means that exactly limit entries are stored |
| RateLimit.RetryAfterOldestExactly | crates/proxy/src/ratelimit.rs:108-154 | so under a fixed limit it is admitted if and only if the oldest entry is a window old |
| RateLimit.RetryAfterSufficesExactly | crates/proxy/src/ratelimit.rs:108-154 | in every run with a fixed limit, waiting the whole seconds returned gets the request admitted if and only if the wait was a whole number of seconds or under one second |
| RateLimit.RetryAfterFallsShort | crates/proxy/src/ratelimit.rs:108-154 | a two-call run: told to wait 59 s, and rejected again after 59 s |
| RateLimit.TimestampZeroIsNotCounted | crates/proxy/src/ratelimit.rs:108-154 | at timestamp 0 a limit of one admits two |
| RateLimit.TokensRoundTrip | crates/proxy/src/ratelimit.rs:175-238 | the token count the check reads from a member is the one recorded |
| RateLimit.TpmDecidesByHistory | crates/proxy/src/ratelimit.rs:175-223 | the tokens the check sums are those the whole history holds in the last 60 s |
| RateLimit.WindowHoldsRecordings | crates/proxy/src/ratelimit.rs:175-238 | the tokens of a window are the sum of the tokens the calls recorded in it |
| RateLimit.TpmOvershoot | crates/proxy/src/ratelimit.rs:175-238 | in every run, after a check that passed, every window that ends at the check or later holds fewer than limit tokens plus those recorded since, however late |
| RateLimit.RedisWindow.CheckRpm | crates/proxy/src/ratelimit.rs:108-154 | allows exactly while fewer than limit admissions of the history lie within the last 60000 ms; only an admission is stored, for 120 s; a rejection asks for the seconds until the oldest of those is 60 s old, 1 to 60 |
| RateLimit.RedisWindow.CheckTpm | crates/proxy/src/ratelimit.rs:175-223 | allows exactly while the tokens recorded in the last 60000 ms are below the limit; records nothing; the seconds as above |
| RateLimit.RedisWindow.RecordTpm | crates/proxy/src/ratelimit.rs:226-238 | appends the token count and id at the given time and renews the key for 120 s |
| Lines.SplitOfJoin | crates/rtk/src/line_filter.rs:16-29 | joining lines without line feeds and splitting again gives them back |
| Lines.JoinOfSplit | crates/rtk/src/line_filter.rs:16-29 | splitting any text and joining again gives it back |
| Lines.TrimExactly | crates/proxy/src/env_parser.rs:215 | trimming takes a blank beginning and a blank end off a text, and what is left neither begins nor ends with white space |
| Lines.WhitespaceExactly | crates/proxy/src/env_parser.rs:215 | the 25 code points of White_Space are white space, and no others |
| Lines.SplitLinesExactly | crates/rtk/src/line_filter.rs:16-29 | the lines of a text are what stands between its line feeds, each less one carriage return at its end |
| Lines.ContentLinesExactly | crates/proxy/src/env_parser.rs:213 | the lines of a file end in LF or CR LF; what follows the last is a line as it stands, unless empty |
| Dedup.EncodeLength | crates/rtk/src/dedup.rs:10-41 | output lines + collapsed = input lines + 2 x collapsed runs |
| Dedup.LosslessExactly | crates/rtk/src/dedup.rs:10-41 | expanding the marker lines gives back the input if and only if the input holds no run that already looks encoded |
| Dedup.MarkerFreeIsNotForged | crates/rtk/src/dedup.rs:10-41 | input with no marker-shaped line holds none |
| Dedup.SecondPassIsIdentity | crates/rtk/src/dedup.rs:10-41 | on such input a second pass changes nothing |
| Dedup.TextLosslessExactly | crates/rtk/src/dedup.rs:10-41 | on text, through joining and splitting, the lines without their carriage returns come back under the same condition |
| Dedup.TextRebuiltExactly | crates/rtk/src/dedup.rs:10-41 | the text itself comes back if and only if there is no run that already looks encoded and no line ends in a carriage return |
| Dedup.ForgedInput | crates/rtk/src/dedup.rs:10-41 | three lines that are decoded to three others |
| Dedup.CarriageReturnsAreLost | crates/rtk/src/dedup.rs:10-41 | a CR LF and an LF text with the same lines, none of them looking encoded, that are collapsed alike |
| Dedup.DeduplicateRepeatedLines | crates/rtk/src/dedup.rs:10-41 | the loop computes the run-length encoding of the lines, at a threshold of at least two, and its count |
| Dedup.RunEncodedExactly | crates/rtk/src/dedup.rs:17-35 | a run of equal lines that another line or the end follows is written as that line and two literal markers with the number left out, if it is not blank and as long as the threshold, and as it stands otherwise |
| SmartTruncate.SelectionIsExact | crates/rtk/src/smart_truncate.rs:52-80 | the selection is the head in place, then each value once exactly the priority lines and the tail beyond the head that are not head lines; never more lines than exist |
| SmartTruncate.SelectionInOrder | crates/rtk/src/smart_truncate.rs:52-72 | the selection is the head, then priority lines in the order of the text, then other lines of the tail in their order |
| SmartTruncate.PriorityAndTailSurvive | crates/rtk/src/smart_truncate.rs:52-72 | no priority line and no tail line is lost |
| SmartTruncate.ClipCaps | crates/rtk/src/smart_truncate.rs:82-115 | the character pass returns exactly min(length, limit) characters |
| SmartTruncate.NeverOverCap | crates/rtk/src/smart_truncate.rs:28-122 | with a character limit no result exceeds it |
| SmartTruncate.LinesOfOutput | crates/rtk/src/smart_truncate.rs:74-80 | when only lines are cut, the output lines are the head, the marker with the exact number missing, and the rest of the selection |
| SmartTruncate.Run | crates/rtk/src/smart_truncate.rs:28-122 | a text within both limits comes back; otherwise the selection with the exact marker after the head, and past the character limit its first head characters, the literal marker and its last characters that fit, or a prefix of the marker; the exact number of lines dropped |
| LineFilter.SelectionIsPassing | crates/rtk/src/line_filter.rs:113-137 | strip, keep and collapse select, in order, exactly the lines that are not stripped, are kept or have no kept line among those left, and are not repeats of an earlier collapsed one |
| LineFilter.RewrittenExactly | crates/rtk/src/line_filter.rs:83-96 | ANSI codes, then the stderr prefix, then each replacement in order, each if asked for |
| LineFilter.ShortCircuitExactly | crates/rtk/src/line_filter.rs:98-111 | the message is that of the first rule whose pattern matches and whose exception does not, and there is one exactly when there is such a rule |
| LineFilter.FinalOptionsExactly | crates/rtk/src/line_filter.rs:153-162 | the truncation is by the line limit and the head and tail of the filter, with its priority patterns and no character limit |
| LineFilter.AppliedIsFiltered | crates/rtk/src/line_filter.rs:76-169 | the output is the message of the first rule that applies, or else the passing lines, each cut for length, deduplicated if asked for and truncated, or the text for an empty output when that is blank |
| LineFilter.TruncateSafeCaps | crates/rtk/src/line_filter.rs:57-70 | a line is cut to exactly the limit, keeps its beginning, and is unchanged exactly when within it |
| LineFilter.PriorityLineSurvives | crates/rtk/src/line_filter.rs:76-169 | a priority line that the selection lets through and that is not cut is a line of the output, whatever deduplication and truncation do |
| LineFilter.CollapseLines | crates/rtk/src/line_filter.rs:128-137 | the retain loop with its set of seen keys computes the collapse stage |
| LineFilter.ApplyLineFilter | crates/rtk/src/line_filter.rs:76-169 | the stages in their order give such an output |
| CommandType.DetectedExactly | crates/rtk/src/detector.rs:264-302 | the first row of highest confidence among those that match decides the type; unknown when none matches |
| CommandType.ConfidenceExactly | crates/rtk/src/detector.rs:264-302 | a row matches if a pattern of it does; 55 for the command and 25 for each content pattern that matches, at most 100 |
| CommandType.DetectCommandType | crates/rtk/src/detector.rs:250-303 | the loop over the table computes that detection for the command given or found in the text |
| RtkEngine.MatchFilterExactly | crates/rtk/src/engine.rs:65-86 | the filter chosen is the first among those with the strongest claim: by type, by command, by content, as the generic one; none exactly when no filter has a claim |
| RtkEngine.LastOptionsExactly | crates/rtk/src/engine.rs:137-155 | the cap is 120 lines, 12000 characters and 24 lines of head and tail, with the default priority patterns and those of the filter |
| RtkEngine.ResultIsCapped | crates/rtk/src/engine.rs:137-155 | a result that is not a document has at most 12000 characters |
| RtkEngine.DocumentsLoseNothing | crates/rtk/src/engine.rs:113-135 | a document-like read comes back unchanged, or encoded: its lines can be decoded exactly when it holds no forged run, and its text rebuilt exactly when besides no line ends in a carriage return |
| RtkEngine.CrlfDocumentIsNotRebuilt | crates/rtk/src/engine.rs:132-135 | two documents with different line ends come back as one text |
| RtkEngine.PriorityLineReachesResult | crates/rtk/src/engine.rs:132-155 | below the character cap, a priority line that reached deduplication is a line of the result |
| RtkEngine.ProcessedIs | crates/rtk/src/engine.rs:105-164 | the result is, for a document, the text with repeats encoded; else what the filter for the detected command makes of it within its own line limit or 120, with repeats encoded, and then what that cap makes of it |
| RtkEngine.ProcessRtkText | crates/rtk/src/engine.rs:105-164 | the stages in their order give such a result; compressed exactly when it has fewer bytes |
| Detector.SplitIsSplitting | crates/rtk/src/detector.rs:116-215 | segments and removed separators rebuild the command; every cut is at the first separator outside quotes, backticks and parentheses; the last segment has none |
| Detector.SplittingIsUnique | crates/rtk/src/detector.rs:116-215 | and no other cutting has these properties |
| Detector.WordsAreNotCut | crates/rtk/src/detector.rs:131-192 | words - plain characters, lone marks, quoted text, balanced groups and substitutions - are never cut, wherever they stand, and what follows is cut as it would be alone |
| Detector.SplitOfCommands | crates/rtk/src/detector.rs:116-215 | any list of commands made of such words, written with separators between them, is split into exactly those commands |
| Detector.LastOfCommands | crates/rtk/src/detector.rs:216-227 | of such commands, the last one that is not blank is found, trimmed |
| Detector.LastSegmentExactly | crates/rtk/src/detector.rs:216-227 | the last segment with text in it, trimmed; the command itself if it is one segment or all blank |
| Detector.DoubleQuotedIsWordExactly | crates/rtk/src/detector.rs:147-157 | what follows a double-quoted text is cut as it would be alone, for every continuation, if and only if no substitution opens inside it |
| Detector.QuotedSubstitutionIsNeverSplit | crates/rtk/src/detector.rs:147-157 | a command that opens with a double-quoted text in which a substitution opens is returned whole unless a closing parenthesis follows |
| Detector.QuotedSubstitutionsClose | crates/rtk/src/detector.rs:147-192 | followed by text that closes as many groups as substitutions open in it, the quoted text is passed over with that text, and what follows is cut as it would be alone |
| Detector.SecondCommandIsMissed | crates/rtk/src/detector.rs:147-157 | such a command |
| Detector.LastSegmentIsIdempotent | crates/rtk/src/detector.rs:116-227 | taking the last segment twice is taking it once, for every command |
| Detector.CommandFromTextExactly | crates/rtk/src/detector.rs:234-248 | the last segment of the first line, among those looked at, that is a command once its prompt is gone; none exactly when no line is |
| Detector.DetectedCommandExactly | crates/rtk/src/detector.rs:250-262 | a command given that is not blank is cut to its last segment; otherwise the first 20 lines decide |
| Detector.DetectionFromTextIsStable | crates/rtk/src/detector.rs:234-262 | without a given command the detector reports exactly the command found in the text |
| Detector.LastCommandSegment | crates/rtk/src/detector.rs:116-227 | the scan and the look back compute the last non-blank segment, or the command |
| EnvFile.UnescapeOfEscape | crates/proxy/src/env_parser.rs:148-187 | unescaping undoes escaping for every string |
| EnvFile.EscapeExactly | crates/proxy/src/env_parser.rs:174-187 | backslash, quote, LF, CR and tab are written as two characters, every other character as itself |
| EnvFile.UnescapeExactly | crates/proxy/src/env_parser.rs:148-170 | each known escape is one character; a backslash before any other character, or at the end, stays |
| EnvFile.EscapeForEnvFile | crates/proxy/src/env_parser.rs:174-187 | the loop computes the escaping |
| EnvFile.UnescapeDoubleQuoted | crates/proxy/src/env_parser.rs:148-170 | the loop computes the unescaping, unknown escapes and a final backslash included |
| EnvFile.ParseEnvContent | crates/proxy/src/env_parser.rs:193-347 | the loop over the lines computes pairs, warnings and hard errors |
| EnvFile.AssignmentRead | crates/proxy/src/env_parser.rs:213-277 | every line `key=value` of at most 4096 bytes, with any white space around its parts and with or without `export`, is read as exactly that key and the value written: as it stands if it is bare or in single quotes, unescaped in double quotes |
| EnvFile.OneAssignmentParsed | crates/proxy/src/env_parser.rs:193-347 | a file of such a line parses to that one pair on line 1 with no hard error |
| EnvFile.PlainFormsParsed | crates/proxy/src/env_parser.rs:261-277 | the forms `key=v`, `key='v'`, `key="v"` and `export key=v` for every v they fit |
| EnvFile.OtherLines | crates/proxy/src/env_parser.rs:213-259 | exactly which lines are ignored, too long, without `=`, without a key or with an invalid key |
| EnvFile.ValidKeyExactly | crates/proxy/src/env_parser.rs:351-358 | a key is valid exactly when it is not empty, begins with A to Z and holds only A to Z, 0 to 9 and underscore |
| EnvFile.PairsAreEntries | crates/proxy/src/env_parser.rs:213-334 | the pairs are the entry lines, in order and with their numbers, and nothing else |
| EnvFile.AcceptedExactly | crates/proxy/src/env_parser.rs:193-347 | no hard error if and only if there is no NUL, no invalid key, and an entry or nothing but blanks and comments |
| EnvFile.DuplicatesExactly | crates/proxy/src/env_parser.rs:317-327 | a duplicate is reported for exactly the pairs whose key an earlier pair has |
| EnvFile.WarningsExactly | crates/proxy/src/env_parser.rs:213-334 | which warning each line deserves, for every line and every kind of warning but duplicates |
| EnvFile.HardErrorsExactly | crates/proxy/src/env_parser.rs:193-347 | each hard error is reported exactly when it is due: a NUL, an invalid key on its line, or no entry in a file with content |
| EnvFile.ReportsInOrder | crates/proxy/src/env_parser.rs:213-334 | warnings come line by line and on one line in the order of the checks, invalid keys line by line |
| EnvExport.RoundTripExactly | crates/proxy/src/env_parser.rs:193-347 | writing any list of notes and of settings with valid keys and parsing it gives the settings in order, with their line numbers and no hard error, if and only if no value holds a NUL and no setting's line exceeds 4096 bytes |
| EnvExport.ExportSetsEnv | crates/proxy/src/admin/routes/env.rs:380-424 | the exported file sets exactly the variables that are set, to their values |
| EnvExport.ExportTextExactly | crates/proxy/src/admin/routes/env.rs:380-424 | the text of the file, piece by piece: one quoted and escaped line for each set key, a comment before each section that has one, and the keys of no section at the end |
| EnvExport.ImportOfExportExactly | crates/proxy/src/admin/routes/env.rs:380-424 | exporting any environment with valid names, sections and comments included, and importing it gives the environment back with no hard error if and only if no value holds a NUL and no line exceeds 4096 bytes |
| EnvExport.ExportEnv | crates/proxy/src/admin/routes/env.rs:380-424 | the loops over the sections and over the keys not yet emitted write that file |
| Retry.SendWithRetryPolicy | crates/client/src/retry.rs:113-198 | for every script of outcomes: at most max_retries + 1 requests, all but the last ended in 408, 429, a 5xx or an unsent request the policy repeats, and no exhausted quota; delivered exactly when the last status is 2xx; before each retry the wait asked for, or the doubled one; never past the loop |
| Retry.DelayExactly | crates/client/src/retry.rs:252-260 | without retry-after the delay is 625 x 2^attempt ms if and only if attempt is at most 55 |
| Retry.DelayVanishesExactly | crates/client/src/retry.rs:252-260 | the delay is zero if and only if attempt is at least 62 |
| Retry.TotalWaitExactly | crates/client/src/retry.rs:122-198 | when no response carries a retry-after, the k backoffs of a run total 625 (2^k - 1) ms if and only if k is at most 56 |
| SchemaReach.LastPart | scripts/condense-openapi.py:94-99 | the name is the longest suffix without a slash |
| SchemaReach.RawRefExactly | scripts/condense-openapi.py:94-99 | an object refers to a schema exactly if its `$ref` is a text that begins with `#/components/schemas/`, and then to what follows the last slash; it raises exactly if its `$ref` is no text |
| SchemaReach.RefsExactly | scripts/condense-openapi.py:327-343 | the walk collects a name if and only if some nested object refers to it and it is not empty |
| SchemaReach.FailsExactly | scripts/condense-openapi.py:327-343 | the walk raises if and only if some nested `$ref` is not a string |
| SchemaReach.Walk | scripts/condense-openapi.py:327-343 | adds to the shared set exactly the names in the document |
| SchemaReach.CollectReachableSchemas | scripts/condense-openapi.py:346-360 | terminates on every graph; returns exactly the names reachable by a path from a root, the least set with the roots and closed under references; raises exactly when the schema of a reachable name does |

## Left out

- SQLite, rusqlite, tokio, UUIDs and the real clock: rows are maps, ids and times parameters; foreign keys are enforced, as the bundled SQLite does by default. Reading rows back (queue/sqlite/rows.rs), listing and fetching jobs, and payload columns the queue never reads.
- SqliteQueueModel.SqliteQueue.ClaimNextItem: attempts is a natural number; the u8 view of it in the claim handed to the worker is not modelled. Ties in priority and age may be broken either way.
- BatchEngine.Submit: whether the input file exists and the ids drawn are parameters; the `batch.queued` webhook that follows a submission, and the columns of the job the queue never reads.
- Webhook.ClaimsAreBounded: assumes every outcome is recorded before its lease expires.
- RateLimit.WindowSafety: one key at a time; the caller's clock and Redis's expiry clock agree and never go back. Redis connections and the fail-open or fail-closed policy.
- SmartTruncate.Run: the 0.55 split of the character budget is any number up to the budget, as floating-point rounding is not the point.
- SseEvents.ReadSseStream: a transport error, which ends the stream after the chunks before it; the decoding of UTF-8 is a parameter.
- RtkEngine.ProcessRtkText: the detector table, the filter packs and the regexes are parameters; the theorems hold for all of them.
- CommandType.DetectCommandType: confidences are whole hundredths, whose order is that of the floating-point sums; the category and the confidence reported for an unknown type are not kept.
- EnvExport.ExportEnv: reading the environment and sorting its keys; the HTTP response. Importing starts from an empty table.
- EnvFile.ParseEnvContent: warnings and errors are values; their wording is not modelled.
- Retry.SendWithRetryPolicy: the outcome of a request, its quota flag and its parsed retry-after are inputs; HTTP, headers and bodies. In a debug build the wrapped multiplication panics instead.
- parse_openai_duration, HMAC signing, HTTP sending, DNS filtering, validate_jsonl, the loop that enqueues webhook urls, provider tables, translation and streaming crates.
