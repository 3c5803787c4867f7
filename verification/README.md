# Verified model of atsig-common

This project models the parts of `atsig_common` whose promises span several calls, several processes or
whole runs, and proves them. `dafny verify dfyconfig.toml` checks all of it.

| file | what it models |
|---|---|
| `HandlerTask.dfy` | one handling of one stream entry: `_handle_entry` as a coroutine that stops at every await |
| `Protocol.dfy` | the consumer group: Redis, any number of consumers and of interleaved coroutines, crashes, lost replies, trimming; no message is lost |
| `ProtocolStart.dfy` | where a new group begins, and which entries it passes over |
| `ProtocolSlots.dfy` | the semaphore over that state machine |
| `ProtocolDeliveries.dfy` | the delivery limit over whole runs |
| `ProtocolPatience.dfy` | the limit when entries are claimed only after their handling is over |
| `ProtocolOverrun.dfy` | for any limits, the run that exceeds them when a count cannot be read |
| `ProtocolHandlings.dfy` | every interleaved coroutine is a handling of `HandlerTask`, so it has one outcome |
| `ReclaimScan.dfy` | one pass of `_reclaim_pending` over an in-place pending list |
| `RunLoop.dfy` | the loop of `run`: reclaim interval, failures in a row, waits, give-up |
| `Producer.dfy` | `emit` and `emit_safe` with replies that may be lost |
| `UniCache.dfy` | the university cache; other calls and key expiry may act before every Redis command |
| `TokenVerifier.dfy` | the cache of signing keys over every clock and every pattern of failed fetches |
| `Pagination.dfy` | the chosen ORDER BY, the pages that any database may serve for it, the numbers sent along |
| `DatabaseUrl.dfy` | the escaping of credentials, the URL, its parsing, and its way through configparser |
| `BodyLimit.dfy` | the streaming body limit around an arbitrary application |
| `ServiceToken.dfy` | the single-flight refresh of the service token, interleaved at every step |
| `Lifecycle.dfy` | start, stop and lifespan with calls that fail or are cancelled |

What is assumed of Redis is stated at the head of `Protocol.dfy` and `ReclaimScan.dfy`. A write whose reply was
lost may have been applied or not. Clocks, answers of services, applications and failures are parameters,
and the theorems hold for all of them. Times and waits are reals. An action of a state machine is what the
code does from one await to the next, where nothing else can run.

## Where the code does less than it says

Each of these is a lemma with the case that fails and, where one exists, the exact condition under which the
promise holds.

- A claimed entry that is ACKed by its first handler before its delivery count is looked up has no count, and
  is then handled again whatever `max_deliveries` and `max_retries` say (`ProtocolOverrun.LimitNeedsCounts`). The bound that
  holds in every run adds one delivery for each count that could not be read (`ProtocolDeliveries.DeliveryLimit`); the
  promised bound holds when no entry is claimed while it is being handled (`ProtocolPatience.DeliveryLimitWhenPatient`).
- An XACK that fails after `process_message` returned counts as a failed attempt: the entry is processed again or
  goes to the DLQ. A handling has one of the three promised outcomes if and only if none of its XACKs failed
  (`HandlerTask.OneOutcome`, `HandlerTask.FailedAckHasNoOutcome`).
- With a float `loop_error_delay` the wait cannot be computed at the 1025th failure in a row: `run` raises
  `OverflowError` although `max_loop_failures` is 0, and `_is_running` stays true unless `stop()` has come
  (`RunLoop.NeverGivesUpMeans`, `RunLoop.OverflowHappens`).
  It also stays true when the wait after a failure is cancelled and no `stop()` has come (`RunLoop.Consumer.Run`).
- The refresh rate of the signing keys is bounded by the smaller of `ttl` and `min_refresh_interval`
  (`TokenVerifier.RefreshRate`, `TokenVerifier.ShortTtlIsFaster`).
- A list sorted by `created_at`, or by the `id` of a separate `sort_model`, has no tiebreaker, so a row can come
  twice and another never (`Pagination.PagesMayRepeat`, `Pagination.PagesPartitionWhen`). `limit` has no lower
  bound: 0 divides by zero when there are rows (`Pagination.PaginateQuery`).
- `update_department_university_map` raises when departments are given of which none has a university, and
  breaks the hash when it is given a part of a university (`UniCache.UpdateIsExact`, `UniCache.UpdateKeepsConsistent`).
- `emit` with negative retries makes no attempt and reads a variable that was never set (`Producer.EventProducer.Emit`).
- The refusal of a body follows a response that the application has begun exactly when the application sends before it
  has asked for too much (`BodyLimit.RefusalFollowsAnswerWhen`), and is sent at most once if and only if the
  application never awaits two `receive` calls at once (`BodyLimit.RefusesOnceWhen`, `BodyLimit.TwoRefusals`). A `content-length` of superscript digits, or of more than 4300
  digits, raises `ValueError` (`BodyLimit.DeclaredCrashes`); common HTTP servers refuse such a header themselves.
- Refreshes of the service token are single-flight if and only if no call is cancelled while its thread is at work
  (`ServiceToken.SingleFlight`): such a cancellation lets a second refresh begin (`ServiceToken.CancelledFlight`).
- A cancelled stop leaves the clients started before it open (`Lifecycle.LifeIsBalanced`,
  `Lifecycle.CancelledStopLeavesOpen`).

## Model

| member | source | states |
|---|---|---|
| HandlerTask.HandleEntry | atsig_common/redis/consumer.py:380-477 | the loop of attempts, statement by statement, is a complete path of the coroutine under any answers; it attempts up to the first attempt that is ACKed or not retryable and no further, and is dead-lettered exactly when the envelope is invalid or no attempt was ACKed |
| HandlerTask.TryAll | atsig_common/redis/consumer.py:403-450 | how many attempts are made, whether the entry goes to the DLQ, and with which error: that of the non-retryable attempt, or that of the last one, which process_message or the XACK raised |
| HandlerTask.TryOnce | atsig_common/redis/consumer.py:408-450 | one attempt: slot, process_message, XACK inside the try; a failed XACK is a failed attempt |
| HandlerTask.SendToDlq | atsig_common/redis/consumer.py:164-201 | one DLQ write is tried, and the handling ends; no XACK when the write raised |
| HandlerTask.AnswersDecide | atsig_common/redis/consumer.py:380-477 | two handlings with the same answers of the environment take the same path |
| HandlerTask.OneOutcome | atsig_common/redis/consumer.py:388-477 | a complete handling makes at most max_retries attempts and has exactly one of: processed and ACKed once, one DLQ write then one ACK, left pending with no ACK; if and only if no XACK failed |
| HandlerTask.FailedAckHasNoOutcome | atsig_common/redis/consumer.py:414-468 | for every max_retries >= 1 a path on which the entry is processed max_retries times, its XACKs fail, and it is dead-lettered as well |
| HandlerTask.HandlingSoFar | atsig_common/redis/consumer.py:388-468 | at every await, what has been attempted, written and ACKed so far |
| HandlerTask.NeverAckFirst | atsig_common/redis/consumer.py:293-306 | on every path, of a new or of a reclaimed entry, an XACK comes only right after process_message returned or the DLQ write was confirmed, and a confirmed XACK is the last event |
| HandlerTask.NoAttemptAfterNonRetryable | atsig_common/redis/consumer.py:431-439 | after a NonRetryableError no slot is taken, no attempt made and no sleep begun |
| HandlerTask.CauseIsLast | atsig_common/redis/consumer.py:293-306 | on every path the error of a DLQ record is that of the await right before the write; a retryable error gets there only after all max_retries attempts, the delivery limit only past max_deliveries |
| Protocol.NoMessageLost | atsig_common/redis/consumer.py:259-477 | in every reachable state of any interleaving, an entry is still to come, was before the start of the group or trimmed undelivered, or is pending, or process_message returned for it, or its DLQ record was written, or it came back trimmed |
| Protocol.LeavesOnlySettled | atsig_common/redis/consumer.py:293-328 | whatever action takes an entry off the pending list finds one of these reasons already there, or is Redis dropping a trimmed entry |
| Protocol.OrderedByRun | atsig_common/redis/consumer.py:137-157 | the entries delivered are those of the stream between the start of the group and its cursor |
| Protocol.GroupKeepsPosition | atsig_common/redis/consumer.py:141-157 | an existing group keeps its start, its cursor only moves on, and creating it again changes nothing |
| ProtocolStart.PassesOverExactly | atsig_common/redis/consumer.py:137-157 | in every run the first creation of the group decides: no entry up to its start is ever read, and each later one has been read, trimmed, or is still ahead of the cursor |
| ProtocolStart.DefaultPassesOverNothing | atsig_common/redis/consumer.py:101-105 | a group created from "0" passes over no entry, whatever was in the stream before it |
| ProtocolStart.DollarPassesOverTheOld | atsig_common/redis/consumer.py:101-105 | with $ exactly the entries that were added before the group are passed over |
| ProtocolStart.ReadsTheFirstUnread | atsig_common/redis/consumer.py:505-511 | in every reachable state a live consumer can read exactly the first entry after the group's start that is in the stream and was never read |
| ProtocolSlots.SlotsConserved | atsig_common/redis/consumer.py:385-468 | for every live consumer, free slots plus coroutines inside an attempt equal concurrency; a coroutine that sleeps or writes to the DLQ holds none |
| ProtocolDeliveries.DeliveryLimit | atsig_common/redis/consumer.py:279-328 | in every run process_message is called for an entry at most (max(1, max_deliveries) + deliveries whose count could not be read) times max_retries, and every other delivery past the limit never reaches it |
| ProtocolDeliveries.DeliveryLimitWhenCountsAreRead | atsig_common/redis/consumer.py:279-328 | when every count is read: at most max(1, max_deliveries) * max_retries calls |
| ProtocolPatience.DeliveryLimitWhenPatient | atsig_common/redis/consumer.py:121-132 | the same bound when entries are claimed only while no coroutine handles them, and a count is missing only when there is no row |
| ProtocolPatience.PatientCountsAreRead | atsig_common/redis/consumer.py:279-291 | under that condition every count is read |
| ProtocolPatience.LonelyByRun | atsig_common/redis/consumer.py:121-132 | under that condition an entry has at most one live coroutine, and one that asks for its count is still pending |
| ProtocolOverrun.LimitNeedsCounts | atsig_common/redis/consumer.py:279-325 | for every max_retries >= 1 and max_deliveries, a run in which Redis answers everything, every delivery is to a consumer of its own, the last claimed entry has no count any more, and the handler is called max(1, max_deliveries) * max_retries + 1 times |
| ProtocolHandlings.OneOutcomeInEveryRun | atsig_common/redis/consumer.py:308-477 | in every interleaving a coroutine that has ended has one of the three outcomes exactly when no XACK of its own failed, or was the ACK of a trimmed entry |
| ProtocolHandlings.AllPathsByRun | atsig_common/redis/consumer.py:308-477 | what a coroutine has awaited in an interleaving is a path of a single handling |
| ProtocolHandlings.HandedOutAs | atsig_common/redis/consumer.py:308-325 | in every interleaving, what is awaited first: the envelope of a new entry, the count of a reclaimed one; one that was trimmed by then is ACKed and nothing else |
| ReclaimScan.Group.XAutoClaim | atsig_common/redis/consumer.py:340-348 | which rows a scan looks at and claims, what they become, and where the next scan continues |
| ReclaimScan.Consumer.Decide | atsig_common/redis/consumer.py:310-325 | a trimmed entry is ACKed, one whose count is read and over the limit is dead-lettered, any other is handled |
| ReclaimScan.Consumer.HandleReclaimed | atsig_common/redis/consumer.py:308-328 | one decision per claimed entry, in order, up to the first trimmed one whose XACK fails, and to the end if there is none; exactly the trimmed entries and those that their handlers ACK leave the pending list, and no handler has begun when an XACK fails |
| ReclaimScan.Consumer.ReclaimPending | atsig_common/redis/consumer.py:330-363 | the pass ends, claims nothing twice, returns the number claimed, its cursor strictly increases; it decides about each claimed entry by the deliveries it had before the pass (ACK if trimmed, DLQ if they had reached max_deliveries and can be read, handler otherwise); a claimed entry stays pending, with one delivery more, exactly when it is in the stream and its handler does not ACK it, and no other row changes; it raises if and only if an XAUTOCLAIM or the XACK of a trimmed entry did, is stopped if and only if a stop came, and otherwise has claimed every entry that was idle long enough when it began |
| ReclaimScan.ScanIsBatch | atsig_common/redis/consumer.py:340-361 | one scan claims exactly the idle rows between its start and the next cursor |
| ReclaimScan.ScanClaims | atsig_common/redis/consumer.py:340-348 | a scan counts one delivery more for what it claims and changes no other row |
| ReclaimScan.PassedOn | atsig_common/redis/consumer.py:350-361 | batches of successive scans join into one increasing list that covers all idle rows behind the cursor |
| RunLoop.Consumer.Try | atsig_common/redis/consumer.py:495-529 | when a reclaim pass is due, and which failures reset the count |
| RunLoop.Consumer.Run | atsig_common/redis/consumer.py:479-566 | how the loop goes for any turns: the steps it comes to make, its waits and its ending, and when it still counts as running |
| RunLoop.EndingMeans | atsig_common/redis/consumer.py:494-566 | a loop error is raised exactly at the first turn where the failures in a row reach max_loop_failures, unless the wait overflows; it stops or is cancelled in its wait exactly where the turn says so |
| RunLoop.OneRun | atsig_common/redis/consumer.py:479-560 | the turns determine ending, steps and waits |
| RunLoop.GivesUpMeans | atsig_common/redis/consumer.py:539-558 | give-up happens if and only if max_loop_failures > 0 and that many turns failed with no XREADGROUP returning between the first and the last |
| RunLoop.StepsAreTurns | atsig_common/redis/consumer.py:494-566 | for every run, in terms of what each turn brings: which turns failed, in which XREADGROUP returned, and that a cancelled await, and only that, ends the loop early |
| RunLoop.GivesUpByTurns | atsig_common/redis/consumer.py:539-558 | for every run: the loop gives up when, and the first time that, max_loop_failures turns in a row failed with no XREADGROUP returning after the first of them, unless a float wait overflows; with 0 never |
| RunLoop.NeverGivesUpMeans | atsig_common/redis/consumer.py:539-560 | with max_loop_failures 0 the loop raises by itself if and only if the delay is a float and 1025 turns failed in a row |
| RunLoop.OverflowHappens | atsig_common/redis/consumer.py:544-547 | 1025 failures in a row that raise |
| RunLoop.DelayIsPower | atsig_common/redis/consumer.py:544-547 | the wait that doubles is min(d * 2^(k-1), M) |
| RunLoop.DelayGrows | atsig_common/redis/consumer.py:544-547 | the waits of a streak do not decrease and are bounded by loop_error_max_delay |
| RunLoop.StreakEndsTheWaits | atsig_common/redis/consumer.py:539-560 | the last waits of a run are those of its current streak |
| RunLoop.GiveUpWaits | atsig_common/redis/consumer.py:540-560 | the loop gives up at exactly n = max_loop_failures in a row; its last waits are those of the first n - 1 failures of the streak, do not decrease, and total at most (n - 1) * M |
| RunLoop.PassesAreApart | atsig_common/redis/consumer.py:496-503 | a reclaim pass begins at least reclaim_interval_s after the end of the last pass that returned |
| RunLoop.DueMeans | atsig_common/redis/consumer.py:496-503 | with a monotonic clock a pass is due exactly when reclaim_interval_s has gone by since every pass that returned, so at once when none did |
| Producer.EventProducer.Emit | atsig_common/redis/producer.py:64-111 | which attempts are made, the sleeps, the result, and one copy in the stream per attempt that Redis applied; a pipeline command is tried once |
| Producer.EventProducer.EmitSafe | atsig_common/redis/producer.py:113-138 | never raises; has a result exactly when an attempt was confirmed |
| Producer.EmitConserves | atsig_common/redis/producer.py:88-111 | an emit that returns left between one and retries + 1 copies, one exactly when no failed attempt had reached Redis; one that raises made exactly retries + 1 attempts |
| Producer.TotalSleep | atsig_common/redis/producer.py:104 | the sleeps after k failures total retry_delay * (2^k - 1) |
| UniCache.AllOrNothing | atsig_common/redis/uni_cache.py:19-51 | under any commands of any interleaved calls and any expiries, the hash tells the truth and holds all or none of each university |
| UniCache.UpdateIsExact | atsig_common/redis/uni_cache.py:19-51 | alone, the update leaves exactly the new pairs and the old ones whose department is not newly mapped and whose university is not among the new ones; it fails exactly when no department given has a university |
| UniCache.UpdateKeepsConsistent | atsig_common/redis/uni_cache.py:33-49 | the hash stays consistent if and only if the departments given are all or none of each university |
| UniCache.PartialUpdateBreaks | atsig_common/redis/uni_cache.py:33-49 | one of two departments of a university, given alone, breaks it |
| UniCache.UniCache.UpdateDepartmentUniversityMap | atsig_common/redis/uni_cache.py:19-51 | the read, delete and set steps make that update when alone, and keep the invariant among other calls |
| UniCache.UniCache.GetDepartmentsByIdsCached | atsig_common/redis/uni_cache.py:53-84 | returns exactly the departments the API would, whatever other calls do and whatever expires; alone, it asks the API once, for exactly those not cached, or not at all, and leaves every department it returns in the cache |
| UniCache.UniCache.GetDepartmentsByUniversityIdsCached | atsig_common/redis/uni_cache.py:86-143 | returns exactly the departments of the universities the API would; alone, it leaves all of them in the cache and in the hash, asks the API only for universities the hash does not mention, for nothing when all is cached, and raises exactly when the universities it does not mention have departments, none of which has a university |
| UniCache.UniCache.GetDepartmentsBySchoolIdCached | atsig_common/redis/uni_cache.py:145-175 | returns exactly the departments of the school; alone, it leaves the list in the cache, and asks the API exactly when no list, or an empty one, is there |
| UniCache.IndexAnswers | atsig_common/redis/uni_cache.py:105-119 | a university that the hash mentions is there with exactly its departments |
| UniCache.MissingMeans | atsig_common/redis/uni_cache.py:60-74 | the API is asked for exactly the ids that are not cached |
| UniCache.KnownIsIndexed | atsig_common/redis/uni_cache.py:105-141 | what is in a consistent hash and what an update for the unmentioned universities adds make up all that was asked for; when that update fails |
| TokenVerifier.TokenVerifier.FetchLocked | atsig_common/auth/decode.py:98-119 | the new state after a fetch that succeeds or fails; it raises exactly when there are no keys |
| TokenVerifier.TokenVerifier.KeysFor | atsig_common/auth/decode.py:121-135 | the new state of the machine and the keys returned |
| TokenVerifier.TokenVerifier.Decode | atsig_common/auth/decode.py:137-171 | an unreadable token changes nothing; any other is judged under the keys held, and accepted if and only if it verifies and names the configured issuer and audience, where these are set |
| TokenVerifier.KeysStay | atsig_common/auth/decode.py:98-119 | keys never become None again |
| TokenVerifier.AvailableAfterFirstSuccess | atsig_common/auth/decode.py:98-119 | from the first fetch that succeeded on every call gets keys |
| TokenVerifier.FetchesWhileNoKeys | atsig_common/auth/decode.py:121-135 | there are no keys exactly while no fetch has succeeded, and then every call fetches |
| TokenVerifier.KeysAreLastFetched | atsig_common/auth/decode.py:98-119 | the keys are those of the last fetch that succeeded |
| TokenVerifier.FetchesWhen | atsig_common/auth/decode.py:98-135 | told by the last fetch: a call fetches if and only if there are no keys, or that fetch is more than ttl ago (min_refresh_interval if it failed), or it is at least min_refresh_interval ago and the call brings a key id that is not among the keys |
| TokenVerifier.RefreshRate | atsig_common/auth/decode.py:98-135 | n + 1 fetches take at least n times min(ttl, min_refresh_interval), for all key ids and outcomes, from the first that leaves keys on |
| TokenVerifier.FetchesInWindow | atsig_common/auth/decode.py:121-135 | with ttl >= min_refresh_interval > 0 a window W holds at most W / min_refresh_interval + 1 fetches |
| TokenVerifier.ShortTtlIsFaster | atsig_common/auth/decode.py:121-135 | with a smaller ttl two fetches are closer than min_refresh_interval |
| TokenVerifier.BoundedStaleness | atsig_common/auth/decode.py:83-135 | when fetches succeed, the keys returned were the realm's within the last ttl |
| TokenVerifier.MissedOnlyBriefly | atsig_common/auth/decode.py:98-135 | whatever fetches fail, a published key is missed only within min_refresh_interval of the last attempt |
| TokenVerifier.PublishedKeyIsFound | atsig_common/auth/decode.py:121-135 | when fetches succeed, a key published from some time on is found by every call from min_refresh_interval after it on |
| TokenVerifier.UnchangingRealm | atsig_common/auth/decode.py:98-135 | with an unchanging realm and any failures, the keys are the realm's, or none if no fetch ever succeeded |
| TokenVerifier.DecodeAsIfFetched | atsig_common/auth/decode.py:137-171 | decode then judges as if it had fetched the keys for this token |
| Pagination.ChooseOrder | atsig_common/pagination/service.py:91-137 | the branches choose the ORDER BY of the specification, for every sort, order, default and sort_model |
| Pagination.ChosenHasId | atsig_common/pagination/service.py:112-133 | the id is among the ORDER BY columns unless the list is sorted by created_at or by the id of another model |
| Pagination.SortedAsAsked | atsig_common/pagination/service.py:91-137 | in every order the database may return, the values of the column asked for go up for "asc" and down otherwise, and equal ones have the newest id first; an unknown name stands for the id, absent or empty ones for the defaults |
| Pagination.SomeOrderIsOrder | atsig_common/pagination/service.py:119-137 | every ORDER BY has a sorted permutation of the rows |
| Pagination.TheOrder | atsig_common/pagination/service.py:119-137 | with the id among the columns it has exactly one |
| Pagination.PagesPartition | atsig_common/pagination/service.py:139-142 | pages queried one by one, whatever order each query may see, concatenate to that one permutation |
| Pagination.PagesMayRepeat | atsig_common/pagination/service.py:125-133 | without the id: two rows, two pages, one row twice and the other never |
| Pagination.PagesPartitionWhen | atsig_common/pagination/service.py:67-142 | pages partition the rows of every table if and only if the list is not sorted by created_at or by the id of another model |
| Pagination.PaginateQuery | atsig_common/pagination/service.py:145-173 | for limit >= 1 the page is a slice of a sorted permutation, has_next holds exactly when page < total_pages, and a page is empty exactly past the last; limit 0 fails when there are rows |
| Pagination.BuildPaginatedResponse | atsig_common/pagination/service.py:40-64 | for limit >= 1 total_pages is the least number of pages that hold all rows and has_next holds exactly when page < total_pages; it fails exactly for limit 0 with rows |
| Pagination.TotalPagesCover | atsig_common/pagination/service.py:54-55 | total_pages is the least number of pages that hold all rows |
| Pagination.PageNumbers | atsig_common/pagination/schemas.py:14-16 | the next offset is inside the list exactly when page < total_pages |
| DatabaseUrl.UrlUser | atsig_common/config/settings.py:6-13 | the loop of replacements is the percent-encoding of each of the four characters |
| DatabaseUrl.UrlPasswordIsEncoding | atsig_common/config/settings.py:16-18 | the same for the two characters of a password |
| DatabaseUrl.ReplaceExtends | atsig_common/config/settings.py:11-12 | one more replacement is one more encoded character, when % came first |
| DatabaseUrl.PercentLast | atsig_common/config/settings.py:6-18 | replacing % last is right if and only if the text has none of the characters replaced before |
| DatabaseUrl.DecodedUndoes | atsig_common/config/settings.py:83-85 | percent-decoding gives back every text |
| DatabaseUrl.UntouchedWhenFree | atsig_common/config/settings.py:7-10 | a text stays the same if and only if it has no character to escape |
| DatabaseUrl.ParseUndoes | atsig_common/config/settings.py:80-91 | splitting at the first : and then the first @ and decoding gives back user, password and the rest, for all strings |
| DatabaseUrl.DatabaseUrl | atsig_common/config/settings.py:80-91 | the URL that is built parses back into its settings |
| DatabaseUrl.PortIsRead | atsig_common/config/settings.py:87-91 | the text between server and database is a numeral that reads back as the port |
| DatabaseUrl.ExampleUrl | atsig_common/config/settings.py:87-91 | one URL in full |
| DatabaseUrl.AlembicDatabaseUrl | atsig_common/config/settings.py:93-101 | configparser reads the doubled URL as the URL itself, and the doubling changes nothing exactly when it has no % |
| DatabaseUrl.UndoubledPassesWhen | atsig_common/config/settings.py:93-101 | without the doubling it would do so exactly when nothing had to be escaped and server and database have no % |
| BodyLimit.Session.EndReceive | atsig_common/middleware/body_limit.py:55-66 | the state after a message arrived: counted, refused or handed on |
| BodyLimit.Session.App | atsig_common/middleware/body_limit.py:52-74 | the closures driven by any application are the state machine of the limit |
| BodyLimit.InvisibleWithinLimit | atsig_common/middleware/body_limit.py:55-71 | it refuses if and only if the messages the application asks for hold more than max_body_size bytes; until then everything is as without it |
| BodyLimit.AppGetsAPrefix | atsig_common/middleware/body_limit.py:55-66 | the application gets a prefix of the client's messages that fits the limit, and nothing of the body after it |
| BodyLimit.BodyIsLimited | atsig_common/middleware/body_limit.py:59-65 | never more than max_body_size bytes of body |
| BodyLimit.RefusalIsLast | atsig_common/middleware/body_limit.py:57-71 | nothing of the application goes out after a refusal; refusals are no more than receive calls awaited at once |
| BodyLimit.OneRefusal | atsig_common/middleware/body_limit.py:55-71 | an application that awaits one receive at a time gets one refusal, and only disconnects after it |
| BodyLimit.RefusesOnceWhen | atsig_common/middleware/body_limit.py:55-71 | whatever the client sends, at most one refusal is sent at any point, if and only if the application never awaits two receive calls at once |
| BodyLimit.TwoRefusals | atsig_common/middleware/body_limit.py:57-65 | two receive calls awaited at once can both refuse |
| BodyLimit.RefusalFollowsAnswerWhen | atsig_common/middleware/body_limit.py:62-71 | the refusal follows a message of the application if and only if the application exceeds the limit and has sent something before |
| BodyLimit.RefusalMayFollowAnswer | atsig_common/middleware/body_limit.py:62-71 | such an application, awaiting one receive at a time |
| BodyLimit.DeclaredCrashes | atsig_common/middleware/body_limit.py:46-50 | two kinds of content-length that int() refuses although isdigit() holds |
| BodyLimit.DeclaredRefuses | atsig_common/middleware/body_limit.py:46-50 | a request is refused by its declared size exactly when that is a number, with any leading zeros and at most 4300 digits, larger than max_body_size |
| BodyLimit.Call | atsig_common/middleware/body_limit.py:41-79 | the whole request: untouched when not multipart or within the limit, refused at once by the declared size, ClientDisconnect swallowed only after a refusal |
| ServiceToken.ServiceTokenManager.GetToken | atsig_common/auth/service_token.py:44-64 | when it asks, and what it returns and stores for each answer, also for one that lacks a key |
| ServiceToken.SingleFlight | atsig_common/auth/service_token.py:31-42 | at every point of a run, and however it goes on, at most one refresh is in flight, if and only if no call is cancelled while its thread is at work |
| ServiceToken.CancelledFlight | atsig_common/auth/service_token.py:39-42 | a run with such a cancellation and two refreshes in flight |
| ServiceToken.NobodyWaitsForEver | atsig_common/auth/service_token.py:39-42 | from every reachable state, whatever was cancelled, the run can go on to where a waiting call has its token or its thread has finished, and the lock is free |
| ServiceToken.RefreshesAreSpaced | atsig_common/auth/service_token.py:28-64 | without such a cancellation two refreshes are at least the first token's lifetime less 30 s apart, and every cached token handed out was stored by a refresh and has more than 30 s left |
| ServiceToken.ThreadIsGetToken | atsig_common/auth/service_token.py:55-64 | the steps of a thread, uninterrupted, leave what get_token leaves, for every answer of Keycloak |
| Lifecycle.Core.Start | atsig_common/bootstrap.py:66-77 | the calls made and the stack left, for every pattern of failures; what is raised |
| Lifecycle.Core.Stop | atsig_common/bootstrap.py:79-89 | the calls made and the stack left; empty unless a stop was cancelled |
| Lifecycle.Core.Lifespan | atsig_common/bootstrap.py:100-113 | the calls of a lifespan and how it ends, whatever ended the application |
| Lifecycle.ErrorsSkipNobody | atsig_common/bootstrap.py:80-89 | clients stop from the last started on, and all are told to stop if and only if no stop but the last is cancelled |
| Lifecycle.NeverStoppedTwice | atsig_common/bootstrap.py:66-113 | after any operations in any order, each completed start is answered by one stop or its client is still open |
| Lifecycle.LifeIsBalanced | atsig_common/bootstrap.py:66-113 | by the end of a lifespan or of a failed start, each client whose start completed was told to stop exactly once, in reverse order, if and only if no stop but the last was cancelled; otherwise the clients started first are left |
| Lifecycle.CallbacksRun | atsig_common/bootstrap.py:105-113 | all callbacks are called, in order and whatever ordinary errors they raise, up to one that is cancelled, if every client started and no stop was cancelled; none is called otherwise |
| Lifecycle.CancelledStopLeavesOpen | atsig_common/bootstrap.py:79-89 | two clients, of which a cancelled stop leaves the first open |

## Left out

- HandlerTask.Next: with `max_retries` 0 the error text of the DLQ record is None, which redis-py refuses; the model lets that write succeed or fail.
- Protocol.Step: an entry id is its place in the stream; time and idleness are not part of the interleaving, so an entry may be claimed at any moment, which includes every moment the code allows; XREADGROUP and XAUTOCLAIM hand out one entry per action; a write whose reply was lost is applied before the failure is seen, never later.
- ReclaimScan.Consumer.ReclaimPending: XAUTOCLAIM is that of Redis 6.2, which hands out trimmed entries; Redis 7 drops them, so they are not claimed there; no other consumer acts during the pass; handlers ACK their entries or leave them, their inside, with the DLQ write of a dead-lettered entry, is `HandlerTask`.
- RunLoop.Consumer.Run: what the handlers of a batch do is `HandlerTask`; here they matter only if the gathering itself raises.
- Producer.EventProducer.Emit: a wait that overflows after more than 1024 retries with a float delay; trimming by `maxlen` and the request id.
- UniCache.UniCache.GetDepartmentsByUniversityIdsCached: the API does not change while it is cached, and ids are natural numbers with 0 for no university; the lookup of a single department (lines 177-214) would add an easy member.
- TokenVerifier.RefreshRate: `refresh()` called after the unlocked check of `needs_refresh` has no rate bound and is not part of the claim; the rounding of floats.
- Pagination.ChooseOrder: a `sort_model` that is the listed model itself is the case without one; rows do not change between the queries of the pages.
- DatabaseUrl.ParseUndoes: how the engine splits the rest into host, port and database, and decoding of octets outside ASCII, which the encoding never writes; `redis_url`.
- BodyLimit.Session.Reject: a `send` that raises or is interrupted between the two messages of the refusal.
- ServiceToken.RefreshesAreSpaced: Keycloak never answers with an empty token; `get_token` called directly from other threads.
- Lifecycle.Core.Stop: two operations of one core that run at the same time.
- JWT parsing, signatures, JSON and envelope parsing: an uninterpreted check, or a validity flag.
- Logging, request ids, event and response schemas, API and email clients, storage, database engine, service factory, CRUD base, small auth and file helpers: plumbing or one-line guards.
- `build_core` and the list of resources: the order of clients is any list.
- `sortable_names`: which names of a mapper are sortable is an arbitrary set.
