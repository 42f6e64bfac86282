# PetroBrain backend: a verified model

A Dafny 4.11 model of the parts of the PetroBrain service that keep state, count
time or rewrite text, with proofs over every run and every input. Five
components are covered:

| files | component |
|---|---|
| `AssetForest`, `AssetCalls`, `AssetOutcomes`, `AssetOrder`, `AssetsRepository`, `AssetQueries` | the tenant-scoped asset hierarchy, in memory and as recursive SQL |
| `AuditLog` | the hash-chained audit log: writer, reload, verifier, several writers on one file |
| `Windows`, `RateLimit`, `Lockout`, `RefreshTokens` | rate limits, sign-in lockout and refresh-token rotation, each with its memory and Redis form |
| `Calendar`, `TaskSchedule`, `TasksRepository` | calendar steps, choice of the next run, completion of recurring work |
| `Chars`, `AnswerChunks`, `Chunking` | answer pacing, document chunking |
| `Citations`, `CitationScan`, `CitationSeams`, `SurvivingUrls`, `Revalidation`, `SurvivingLinks`, `CitationsInText`, `LinksInText` | citation rewriting: the three passes, what they leave, what each citation becomes inside an answer |

Classes that the service updates in place are classes here; each method is tied
to a function of the old state, and the results over whole runs are lemmas about
those functions. `Wrappers` and `Seqs` hold shared definitions.

## What the proofs say about the code

Several properties hold only under a condition, and the exact condition is proved.

- Audit log: `get_audit_logger` gives every importing module its own logger with
  its own cached tail on one file. The log verifies after a run exactly when no
  logger writes again after another one has written
  (`IntactIffLoggersTakeTurns`); writes by A, B, A break line 3.
- Lockout: at most `max_failures` failures fit in one window without a success
  exactly when the lock lasts at least as long as the failure window. A
  threshold below one still lets one failure happen, so the bound is the larger
  of the threshold and one.
- Lockout on Redis: the refreshed expiry makes the counter count a whole burst,
  the longest run of failures each less than a window after the one before
  (`RedisCountsTheBurst`). It agrees with the in-memory count exactly when that
  run is empty, all inside one window, or all over (`CountsAgreeIff`). Of
  failures half a window apart Redis counts every one; memory never counts more
  than two.
- Completing something that does not recur marks it completed but keeps its old
  `next_run_at`, because the store skips `None` values in a patch. Completing a
  paused or cancelled recurring one makes it active again.
- A monthly run keeps its day of month for ever exactly when that day is at most
  the 28th; later days shrink for good at the first short month.
- A custom recurrence moves forward exactly when its interval is not negative
  (zero and a missing interval count as one day).
- Chunking keeps all the text exactly when only whitespace precedes the first
  clause; a preamble before it is dropped.
- Citation validation leaves a URL in the answer exactly when the text entering
  its last pass has one directly after an opening parenthesis that no earlier URL
  runs over (`UrlLeftByValidation`); it is not flagged, even when no source has it.
- Validation can put a fabricated link together: a link with a known URL and,
  right behind it, another URL in parentheses come out as an unflagged link from
  a valid reference to that other URL (`FabricatedLinkSurvives`). Validating a
  result again is quiet exactly when no link stands in it
  (`RevalidationIsQuietIffNoLinks`), and the texts that leave one there are
  characterised (`RevalidationIsQuietIff`).
- Refresh tokens: a store with no lifetime ends a key in memory but leaves an
  earlier record alive in Redis (`RedisAnswersLikeHistoryIff`). Fresh tokens never
  meet that case, so the routes behave alike on both (`BackendsRotateAlike`).
- The fixed-window limiter's bound of twice the limit in one window is reached.

## Conventions

- A digest of an audit row is any function of the previous hash and the event;
  results that need it assume no two inputs collide and none gives the empty
  text. Token hashes are likewise any function without collisions.
- Every call carries one reading of one nondecreasing clock, shared by the
  service, Redis and Postgres, as a real number of seconds; scheduling uses
  microseconds. A call that reads the clock twice in the service reads it once here.
- New uuids and minted tokens are arguments. A minted token was never minted before.
- A raised error is a value; the JSONL file is the sequence of stored rows.
- Zones have a fixed offset from UTC, and years have no upper bound.
- Regular expressions are written out as scanners. Whitespace and decimal digits
  are the Unicode classes that Python's `re` and `str` use.
- `WITH RECURSIVE ... UNION ALL` means its working-table iteration; a foreign key
  or a unique violation is the corresponding error of the store.

## Model

| member | source | states |
|---|---|---|
| AssetForest.Find | app/db/assets_repository.py:554-560 | a row of the tenant with that id; none exactly when the id is empty or no row has it |
| AssetForest.FindIsFirst | app/db/assets_repository.py:554-560 | it is row i exactly when the id is nonempty and i is the first row of the tenant that has it |
| AssetForest.ForestIffEveryRowReachesARoot | app/db/assets_repository.py:133-140 | with unique ids and present parents, the acyclicity invariant is exactly that every row climbs to a parentless row |
| AssetForest.RootPathIsTheRootPath | app/db/assets_repository.py:186-200 | the path runs from a parentless row to the asset along parent links inside one tenant, and is the only such path |
| AssetCalls.WalkRefusesExactlyCycles | app/db/assets_repository.py:133-139 | the proposed parent's chain meets the row exactly when the new link would end the forest |
| AssetCalls.CycleErrorIffForestLost | app/db/assets_repository.py:127-140 | an update raises the cycle error exactly when the parent is another asset and the relinked rows are no forest |
| AssetCalls.EffectKeepsForest | app/db/assets_repository.py:64-145 | create and update, raising or not, keep ids unique, parents present in the same tenant, and no cycle |
| AssetCalls.EffectIsConfined | app/db/assets_repository.py:64-145 | a raising call changes nothing; a successful one stores its record, leaves rows with other ids alone, and never touches another tenant's rows |
| AssetCalls.ReachableStoresAreForests | app/db/assets_repository.py:64-145 | after any run from the empty file every row has a root path in its own tenant and its parent is present there |
| AssetOutcomes.CreateAnswers | app/db/assets_repository.py:74-95 | create succeeds exactly with tenant, type and name, a present parent or none, and an unused id; each error exactly when its check is the first to fail |
| AssetOutcomes.CreatedRecord | app/db/assets_repository.py:83-97 | the new last row holds the given parent, type, name and attributes, the wanted id or the fresh one, and both times |
| AssetOutcomes.CreatedUnderParent | app/db/assets_repository.py:79-97 | its root path is its parent's root path followed by itself |
| AssetOutcomes.UpdateAnswers | app/db/assets_repository.py:111-139 | each error of update exactly when its check is the first to fail |
| AssetOutcomes.UpdatedRecord | app/db/assets_repository.py:117-145 | the one row holds, field by field, the given value or the old one, no parent when cleared, and the new update time |
| AssetsRepository.LocalJsonAssetsRepository.Create | app/db/assets_repository.py:64-98 | new rows and outcome of create, including every error in the order it is raised |
| AssetsRepository.LocalJsonAssetsRepository.WalkMeets | app/db/assets_repository.py:133-139 | the walk without a visited set terminates and says exactly whether the reparenting would end the forest |
| AssetsRepository.LocalJsonAssetsRepository.Update | app/db/assets_repository.py:100-145 | new rows and outcome of update; nothing is stored when it raises |
| AssetsRepository.GroupByParent | app/db/assets_repository.py:173-176 | the index lists, for each parent value, the tenant's rows with that parent in stored order |
| AssetsRepository.Flood | app/db/assets_repository.py:177-182 | the queue loop terminates having reached each row strictly below the asset once and nothing else |
| AssetOrder.SortedInOrder | app/db/assets_repository.py:183 | sorting keeps every row and orders them by type, then name |
| AssetsRepository.LocalJsonAssetsRepository.Descendants | app/db/assets_repository.py:171-184 | each asset other than the named one whose root path holds it, exactly once, in listing order |
| AssetsRepository.ClimbToRoot | app/db/assets_repository.py:189-199 | the climb terminates with the whole parent chain and its cycle guard never fires |
| AssetsRepository.LocalJsonAssetsRepository.PathToRoot | app/db/assets_repository.py:186-200 | the root path of the asset, or nothing when it is unknown |
| AssetQueries.DescendantsQueryReachesFixpoint | app/db/assets_repository.py:406-419 | the recursive query reaches an empty level for good and then answers each descendant exactly once, as the in-memory traversal does |
| AssetQueries.PathQueryIsRootPath | app/db/assets_repository.py:421-435 | the recursive query reaches an empty level and, ordered by depth, answers exactly the in-memory root path |
| AssetQueries.IsAncestorQueryIsWalk | app/db/assets_repository.py:496-507 | the recursive ancestor test says yes exactly when the in-memory walk would refuse |
| AuditLog.VerdictIsFirstFault | app/core/audit.py:98-123 | the verdict names the first line that does not link to the lines before it, and an intact log has none |
| AuditLog.VerifyChain | app/core/audit.py:98-123 | the verifier's loop returns that verdict, for any digest |
| AuditLog.VerdictFromLines | app/core/audit.py:98-123 | a log verifies exactly when every line is blank or a row whose hash fits its fields and whose previous hash is the last row's hash; otherwise the first other line gives a crash for a JSON value that is no object and a break for all else, unparsable text included |
| AuditLog.TailIsLastRowHash | app/core/audit.py:84-95 | a fresh logger reads back the last row's hash, or the empty text when Python takes that hash as false |
| AuditLog.AppendKeepsFault | app/core/audit.py:98-123 | nothing appended to a faulty log moves the reported line |
| AuditLog.LastHashFixesLog | app/core/audit.py:62-76 | two logs that both verify and end in the same hash hold the same rows in the same order |
| AuditLog.TailIsNew | app/core/audit.py:62-76 | a log that verifies never returns to an earlier tail hash |
| AuditLog.AppendIntactIffTail | app/core/audit.py:62-76 | appending a row hashed over a previous hash keeps the log verifying exactly when that hash is the tail |
| AuditLog.AuditLogger.LoadTailHash | app/core/audit.py:78-95 | the cached tail if there is one, else the last parseable row's hash, which becomes the cache |
| AuditLog.AuditLogger.Write | app/core/audit.py:62-76 | one row is appended over the cached or reloaded tail, the cache becomes its hash; the log verifies afterwards exactly when it did before and the cache was current |
| AuditLog.IntactIffLoggersTakeTurns | app/core/audit.py:57-95 | over any writes by any number of loggers, restarts included, a verifying log still verifies exactly when no logger resumes after another wrote |
| AuditLog.TwoLoggersBreakTheChain | app/core/audit.py:126-127 | loggers A, B, A on one path leave a log rejected at line 3 |
| RateLimit.SlidingWindowIsExact | app/core/http_hardening.py:142-150 | the pruned deque is exactly the accepted calls younger than the window; a limited call is refused exactly when `limit` of those exist |
| RateLimit.SlidingWindowBound | app/core/http_hardening.py:138-150 | no interval one window long accepts more than `limit` calls of a key |
| RateLimit.MemoryBackend.OverLimit | app/core/http_hardening.py:142-150 | the popleft loop and append produce the specified deques and answer |
| RateLimit.MemoryBackend.CheckRateLimit | app/core/http_hardening.py:104-109 | a limit of zero or less is never refused and not counted |
| RateLimit.CounterOutlivesItsWindow | app/core/http_hardening.py:161-171 | up to the end of its aligned window a counter still counts every limited call of the key in it |
| RateLimit.FixedWindowIsExact | app/core/http_hardening.py:161-171 | a limited call is refused exactly when its aligned window has already seen `limit` limited calls |
| RateLimit.FixedWindowLetsThrough | app/core/http_hardening.py:153-171 | each aligned window accepts the smaller of its arrivals and the limit |
| RateLimit.FixedWindowBound | app/core/http_hardening.py:153-171 | any interval one window long accepts at most twice the limit |
| RateLimit.FixedWindowBoundIsTight | app/core/http_hardening.py:153-171 | for every limit and window some run accepts twice the limit in one window |
| RateLimit.RedisBackend.OverLimit | app/core/http_hardening.py:161-171 | increment, refreshed expiry and comparison on the aligned bucket |
| Lockout.MemoryCountIsExact | app/core/auth_lockout.py:36-43 | the pruned deque is exactly the failures since the last success younger than the window |
| Lockout.RedisTripsNoLater | app/core/auth_lockout.py:68-78 | on one history the Redis counter is never below the in-memory count |
| Lockout.BurstIsLongest | app/core/auth_lockout.py:68-78 | the burst is the longest end of the failures since the last success with all gaps below the window |
| Lockout.RedisCountsTheBurst | app/core/auth_lockout.py:68-78 | the Redis counter is exactly the burst and expires a window after its last failure |
| Lockout.CountsAgreeIff | app/core/auth_lockout.py:36-78 | the two forms count alike exactly when the burst is empty, all younger than the window, or all at least a window old |
| Lockout.SlowFailuresTripOnlyRedis | app/core/auth_lockout.py:68-78 | for every n, after n failures half a window apart the next counts n + 1 in Redis and never more than 2 in memory |
| Lockout.BackendFollowsLog | app/core/auth_lockout.py:30-97 | inside a run each account's count depends only on what was recorded for that account |
| Lockout.FullMeansLocked | app/core/auth_lockout.py:149-161 | after a failure that reaches the threshold the account reads locked for the whole lock duration |
| Lockout.LockedIffHeld | app/core/auth_lockout.py:45-97 | in any run an account reads locked exactly while the last thing recorded is a failure that reached the threshold, less than a lock ago; a success or reset ends every lock |
| Lockout.GateAnswers | app/api/routes_auth.py:396-414 | after any run: while held, an attempt with either password is turned away and records nothing; otherwise the right password passes and records a success, the wrong one fails and records a failure |
| Lockout.FullIsHeld | app/core/auth_lockout.py:149-161 | on either backend a failure that fills the window holds the account for the whole lock |
| Lockout.BoundIffLockCoversWindow | app/api/routes_auth.py:396-414 | through the sign-in gate, on either backend, window-long stretches without a success hold at most the capped number of failures exactly when the lock is at least as long as the window |
| Lockout.MemoryBackend.AddFailure | app/core/auth_lockout.py:36-43 | the popleft loop and append produce the specified deque and count |
| Lockout.MemoryBackend.CheckLocked | app/core/auth_lockout.py:50-57 | locked while the stored instant is later than now; a passed lock is dropped |
| Lockout.MemoryBackend.AttemptSignin | app/api/routes_auth.py:396-414 | gate order: a locked account records nothing, a failure counts and may lock, a success clears |
| Lockout.RedisBackend.AttemptSignin | app/core/auth_lockout.py:64-97 | the same gate over Redis keys with expiries |
| RefreshTokens.SweptAnswersLikeHistory | app/core/refresh_tokens.py:58-81 | the swept dictionary answers every key exactly as the unswept history of store, consume and discard with expiry |
| RefreshTokens.RedisAnswersLikeHistoryIff | app/core/refresh_tokens.py:84-110 | Redis answers a key as the history does exactly unless its last operation is a store without lifetime over a live record |
| RefreshTokens.DeadStoreCoversLive | app/core/refresh_tokens.py:58-92 | such a history: memory has ended the key and Redis still answers |
| RefreshTokens.BackendsRotateAlike | app/core/refresh_tokens.py:58-110 | the same plausible calls leave the same lineage, redemptions and answers in memory and in Redis |
| RefreshTokens.RedisBackend.Take | app/core/refresh_tokens.py:93-104 | GETDEL: the live owner, and the key is gone |
| RefreshTokens.MemoryBackend.SweepLocked | app/core/refresh_tokens.py:78-81 | the deletion loop removes exactly the expired entries |
| RefreshTokens.MemoryBackend.Take | app/core/refresh_tokens.py:68-72 | consume sweeps, answers the live owner and removes the entry |
| RefreshTokens.StepKeepsRotation | app/api/routes_auth.py:746-794 | every sign-in, refresh and logout keeps at most one stored token per sign-in, owned by its user, and none of the redeemed ones |
| RefreshTokens.AtMostOneTokenPerSignIn | app/api/routes_auth.py:746-794 | after any run on either backend two redeemable tokens never share a sign-in, each stands for the user who signed in, and no token was redeemed twice |
| RefreshTokens.DeadTokensStayDead | app/core/refresh_tokens.py:168-194 | a spent, revoked or expired token is never redeemable or redeemed again, whatever follows |
| RefreshTokens.LogoutRevokes | app/core/refresh_tokens.py:185-194 | the presented token is worthless from then on, every other token is worth what it was, nothing is redeemed |
| RefreshTokens.LoggedOutIsNeverRedeemed | app/api/routes_auth.py:922-923 | in any run on either backend no token presented at a logout is redeemed afterwards |
| RefreshTokens.SignInIssues | app/core/refresh_tokens.py:153-165 | a sign-in's token is worth exactly its owner until it expires; no other token changes |
| RefreshTokens.RefreshHandsOver | app/api/routes_auth.py:762-788 | exactly a redeemable token of an active user hands its owner on to the new token until that expires; no third token changes |
| RefreshTokens.RefreshRotates | app/api/routes_auth.py:746-794 | a refresh kills the presented token, and issues a live one in the same lineage exactly for a redeemable token of an active user |
| RefreshTokens.AuthRoutes.RefreshToken | app/api/routes_auth.py:762-794 | consume, user check and reissue in that order; a token is issued exactly when both checks pass |
| RefreshTokens.AuthRoutes.RevokeOnLogout | app/api/routes_auth.py:922-923 | a presented refresh token is discarded; without one nothing changes |
| Calendar.DateRoundTrip | app/core/task_service.py:260-265 | a valid date is recovered from its day number |
| Calendar.DayNumberRoundTrip | app/core/task_service.py:111-113 | every day number belongs to a valid date with that number |
| Calendar.DaysBeforeYear | app/core/task_service.py:260-265 | day numbers are the proleptic Gregorian ordinals: 365 days a year, one more every 4, not every 100, but every 400 |
| Calendar.AddMonthsByIndex | app/core/task_service.py:260-265 | adding months gives a valid date in the month that many further on, with the day clamped to its length |
| Calendar.OneMonthOn | app/core/task_service.py:260-265 | one month on is 28 to 31 days later, clamping included |
| Calendar.ThreeMonthsOn | app/core/task_service.py:260-265 | three months on is 89 to 92 days later |
| Calendar.OneYearOn | app/core/task_service.py:260-265 | twelve months on is 365 or 366 days later |
| TaskSchedule.NextRun | app/core/task_service.py:147-183 | daily and weekly: the earliest later time at the hour on an allowed weekday; month-based: the clamped date; always later than now unless a date was given |
| TaskSchedule.IsoSlotIs | app/core/task_service.py:153-159 | a date written in the request is taken at its hour and minute, defaulting to the text's hour and to zero, exactly when it is valid |
| TaskSchedule.EpochIsThursday | app/core/task_service.py:173 | the weekday count is right: 1 January 1970 was a Thursday |
| TaskSchedule.AdvanceBounds | app/core/task_service.py:100-123 | each advance keeps the time of day and moves 1, 7, 28 to 31, 89 to 92 or 365 to 366 days, or a custom recurrence's interval |
| TaskSchedule.AdvanceIsLaterIff | app/core/task_service.py:110-122 | an advance is strictly later exactly unless it is custom with a negative interval |
| TaskSchedule.RepeatedMonths | app/core/task_service.py:114-119 | after n advances the month is n steps on and the day is the least of the first day and all lengths visited |
| TaskSchedule.MonthlyDayKeptIffAtMost28 | app/core/task_service.py:114-115 | a monthly run keeps its day for every n exactly when that day is at most 28 |
| TasksRepository.LocalJsonTasksRepository.Update | app/db/tasks_repository.py:163-181 | the first matching row is patched, validated and stored; a missing row or a failed validation changes nothing |
| TasksRepository.TaskRoutes.Complete | app/api/routes_tasks.py:89-101 | what completion stores: status, last run and advanced next run, or nothing for an unknown id |
| TasksRepository.TaskRoutes.SetStatus | app/api/routes_tasks.py:188-194 | pause and resume store the status alone |
| TasksRepository.LocalJsonTasksRepository.Delete | app/db/tasks_repository.py:183-190 | all rows of that tenant and id go, in order; true exactly when there was one |
| TasksRepository.TaskRoutes.UpdateTask | app/api/routes_tasks.py:68-76 | a PATCH changes the fields it names, never the last and next run |
| TasksRepository.TaskRoutes.DeleteTask | app/api/routes_tasks.py:79-85 | the task is removed, or reported missing |
| TasksRepository.EditOutcome | app/db/tasks_repository.py:163-181 | an edit is accepted exactly when every named value is valid, and then changes what it names, field by field, and nothing else |
| TasksRepository.StatusOutcome | app/api/routes_tasks.py:188-194 | pause and resume change a known status and nothing else |
| TasksRepository.AddOutcome | app/db/tasks_repository.py:77-114 | a created task is stored behind all others exactly when it is sound, and is found by its new id |
| TasksRepository.StoreStaysSound | app/db/tasks_repository.py:56-66 | over every run each stored row keeps its tenant, creator, nonblank title and a known status, priority and recurrence |
| TasksRepository.TouchAppliesToOneRow | app/db/tasks_repository.py:163-181 | a route call changes the one row as specified and no other |
| TasksRepository.RemovedIsGone | app/db/tasks_repository.py:183-190 | a deleted task is not found any more |
| TasksRepository.StoredRowLivesItsOwnLife | app/api/routes_tasks.py:68-111 | however completions, pauses, edits, deletions and creations of any tenants interleave, the stored row of a task that is not deleted is what its own calls made of it |
| TasksRepository.LastCompletionDecides | app/api/routes_tasks.py:89-99 | in any run, after a task's own last call completed it: recurring, active with the advanced run, whatever the status was; otherwise completed with the old next run kept |
| TasksRepository.CompletionsMoveByMonths | app/api/routes_tasks.py:89-101 | after any such run with n completions of a task whose own edits leave its recurrence alone, its stored row stands n month steps on, on the least day seen, at the same local time |
| Chars.StripKeeps | app/rag/chunking.py:45 | stripping loses only whitespace |
| Chars.StripCuts | app/rag/chunking.py:45 | stripping cuts whitespace off both ends, and all of it |
| AnswerChunks.Split | app/core/orchestrator.py:1421-1438 | terminates; chunks concatenate to the text and are cut at the last break of each window or at the limit |
| AnswerChunks.PacingIsUnique | app/core/orchestrator.py:1427-1437 | the cutting conditions admit only one list of chunks |
| AnswerChunks.PacingKeepsText | app/core/orchestrator.py:1421-1438 | chunks cut that way concatenate to the text |
| AnswerChunks.PacedChunksAreWellCut | app/core/orchestrator.py:1428-1436 | each chunk has 1 to limit characters and, unless last, ends in a break or is full with no break after its first character |
| Chunking.ClauseStarts | app/rag/chunking.py:28 | clause positions are strictly increasing and inside the text |
| Chunking.ClauseHeadIffPattern | app/rag/chunking.py:15 | the scanner finds a clause head exactly where whitespace, at most six hashes with whitespace, digit groups joined by single dots, and whitespace stand, and captures that number |
| Chunking.StartsBeginHeads | app/rag/chunking.py:28 | every clause position begins a line with a clause head |
| Chunking.StartsAreComplete | app/rag/chunking.py:28 | no clause head at a line start is missed unless it begins inside one already taken |
| Chunking.ParagraphsAreSplit | app/rag/chunking.py:35 | the paragraphs joined by blank lines are the text, and none holds a blank line |
| Chunking.NonBlankFilters | app/rag/chunking.py:35 | exactly the paragraphs with more than whitespace are kept |
| Chunking.SentencesAreWhole | app/rag/chunking.py:53 | sentences are split at every stop or semicolon followed by whitespace and nowhere else |
| Chunking.SentencesKeepText | app/rag/chunking.py:53 | splitting at sentence ends loses only whitespace |
| Chunking.Bound | app/rag/chunking.py:49-60 | the sentences in order, as many in each piece as fit; nothing but whitespace is lost, each piece fits the limit or is one sentence, and no two neighbours could have been one |
| Chunking.SegmentsKeepText | app/rag/chunking.py:28-35 | the segments hold all of the covered text but whitespace |
| Chunking.ChunkDocument | app/rag/chunking.py:24-46 | in order the chunks hold exactly the non-whitespace characters covered; each is nonempty, fits, and carries its segment's metadata |
| Chunking.SegmentsAreTagged | app/rag/chunking.py:37-45 | with clauses, every segment is tagged with the clause number found where it starts |
| Chunking.NoClausesNoTags | app/rag/chunking.py:33-45 | without clauses no segment carries a clause number |
| Chunking.WholeTextKeptIffNoPreamble | app/rag/chunking.py:28-35 | all text is covered exactly when only whitespace precedes the first clause |
| Citations.MarkerAtIsMarker | app/core/answer_synthesis.py:19 | the marker scanner finds exactly the bracketed S-and-digits pattern |
| Citations.RStripCharsIs | app/core/answer_synthesis.py:810-825 | trailing characters of the set are dropped, all of them and no others |
| Citations.ByUrl | app/core/answer_synthesis.py:811-829 | the first source whose URL without trailing slashes is the given one, none exactly when there is none |
| Citations.PassKeepsMarkersValid | app/core/answer_synthesis.py:821-833 | a pass whose untouched markers are valid leaves only valid markers, for any text |
| Citations.EveryMarkerNamesASource | app/core/answer_synthesis.py:790-834 | for any text every marker in the result names a source of the ledger |
| Citations.UrlPassLeavesOnlyGuarded | app/core/answer_synthesis.py:824-833 | for any text a URL is left only directly after an opening parenthesis |
| Citations.SettledTextIsUnchanged | app/core/answer_synthesis.py:790-834 | text with valid markers, no link, and URLs only in that place comes back unchanged and unflagged |
| CitationScan.SubSplits | app/core/answer_synthesis.py:821-833 | the output of a pass splits at every position that no match swallows |
| CitationScan.PassConcat | app/core/answer_synthesis.py:821-833 | where neither of two texts disturbs the matches of the other, a pass over both is a pass over each |
| SurvivingUrls.UrlEndIffPattern | app/core/answer_synthesis.py:21 | a URL is found at a position exactly when a scheme stands there, then one or more characters but whitespace, `)` and `>`, up to the first of those or the end |
| SurvivingUrls.ReachedIffNotSwallowed | app/core/answer_synthesis.py:21 | the URL pass looks at a position exactly when every earlier URL not in parentheses ends by it |
| SurvivingUrls.UrlLeftIffOneSurvives | app/core/answer_synthesis.py:824-833 | the URL pass leaves a URL exactly when the text has one right after a parenthesis that no earlier URL swallows |
| SurvivingUrls.UrlLeftByValidation | app/core/answer_synthesis.py:790-834 | the same for validation, on the text that enters its last pass |
| SurvivingUrls.SurvivorIsAt | app/core/answer_synthesis.py:824-833 | every surviving URL stands in the output behind what was written for the text before it |
| SurvivingUrls.OpenUrlReplaced | app/core/answer_synthesis.py:824-831 | any other URL that none swallows is replaced by its reference, in any text, and flagged when no source has it |
| Revalidation.LinkPassKeepsIffNoLinks | app/core/answer_synthesis.py:808-822 | the link pass leaves a text alone exactly when it holds no link |
| Revalidation.RevalidationIsQuietIffNoLinks | app/core/answer_synthesis.py:790-834 | validating a result again changes and flags nothing exactly when the result holds no link |
| SurvivingLinks.LinkAtIffPattern | app/core/answer_synthesis.py:20 | a link is found exactly when a non-empty label without `]` stands in brackets, then in parentheses a scheme and one or more characters but whitespace and `)` |
| SurvivingLinks.NoLinkLeftIffNoneSurvives | app/core/answer_synthesis.py:824-833 | the URL pass leaves a link exactly when one is not swallowed, has no replaced URL in its label, and only known ones in its URL |
| SurvivingLinks.RevalidationIsQuietIff | app/core/answer_synthesis.py:790-834 | validating a result again is quiet exactly when no such link stands in the text entering the last pass |
| CitationsInText.SealedIsApart | app/core/answer_synthesis.py:790-834 | text that ends in whitespace with its brackets closed is validated on its own, whatever follows |
| CitationsInText.MarkerPassChecksEach | app/core/answer_synthesis.py:802-806 | in the marker pass every marker is checked on its own, whatever the text around it |
| CitationsInText.MarkerInText | app/core/answer_synthesis.py:790-834 | a marker inside an answer stays exactly when it names a source and otherwise becomes the flagged note; the rest is validated on its own |
| LinksInText.LinkPassReplacesEach | app/core/answer_synthesis.py:808-819 | in the link pass every link that none swallows is replaced, in any text, and flagged when no source has its URL |
| LinksInText.LinkInText | app/core/answer_synthesis.py:790-834 | a link inside an answer becomes its label and the first matching source's id, or the flagged note; the rest is validated on its own |
| LinksInText.UrlInText | app/core/answer_synthesis.py:790-834 | a bare URL inside an answer, less trailing punctuation and slashes, becomes the first matching source's id or the flagged note; the rest is validated on its own |
| LinksInText.ParenthesisedUrlInText | app/core/answer_synthesis.py:790-834 | any URL in parentheses inside an answer passes unflagged whatever the ledger |
| LinksInText.FabricatedLinkSurvives | app/core/answer_synthesis.py:790-834 | for every known link with another URL in parentheses behind it: an unflagged link from a valid reference to that URL comes out, and a second validation would change it |
| LinksInText.FabricatedLinkExample | app/core/answer_synthesis.py:790-834 | one such text and ledger, where no source has the other URL |
| Citations.ValidateCitations | app/core/answer_synthesis.py:790-834 | the three passes in order, with the guarantees above on the result and its flags |

## Left out

- Routing, request models, streaming, the language model, email, web search, satellite data and object storage: input and output without a local algorithm.
- JSON and file encoding, SHA-256, JWT, password hashing and one-time codes: library code, functions with stated assumptions or arguments here.
- Redis and Postgres failures that fall open or fall back to memory: only reachable backends are modelled.
- Threads and other processes between a lockout check and its recording: one call runs at a time.
- Rewriting of sensitive fields before an audit row is hashed: the event is the redacted one.
- Audit events are JSON values with integer numbers; the text form of a value is not modelled.
- Asset relationships, single reads and listings of assets: one filter each.
- The order of equal keys in a listing, and the collation that Postgres uses.
- AssetCalls.EffectIsConfined: attribute values are text, while the service stores any JSON value.
- The regular expressions that read recurrence, hour and dates from a request: their findings are arguments of `NextRun`.
- TaskSchedule.NextRun: hour and weekday of a rule are in range, as the parser produces them.
- Daylight-saving zones and the year limits of Python's datetime.
- TasksRepository.StoredRowLivesItsOwnLife: a completion whose base time lies before year 1 changes nothing, as the service raises; digests of created tasks and edits of a task's time zone are not modelled, and a created task arrives with its defaults filled in.
- TaskSchedule.AdvanceNextRun: the base time must lie in year 1 or later, where Python's datetime starts.
- AnswerChunks.Split: a limit below one is excluded, since the loop would never end; no caller passes one.
- Fields of a stored task that neither validation nor scheduling reads, and the Postgres form of that store.
- Citations.EveryMarkerNamesASource: source ids hold no bracket; the service's own ids are an S and a number.
- Citations.UrlPassLeavesOnlyGuarded: source ids hold no colon, for the same reason; so do the results of `SurvivingUrls`, `Revalidation` and `LinksInText`.
- SurvivingLinks.RevalidationIsQuietIff: source ids hold no bracket, colon, parenthesis or whitespace, for the same reason.
- CitationsInText.MarkerInText: the text before the citation is a part that ends in whitespace with brackets closed, then one without opening bracket or URL scheme; an unclosed bracket or running URL before it can swallow it, which the per-pass results cover. The same holds for the link and URL forms in `LinksInText`.
- The number of equal citation flags before they are deduplicated.
- Password reset, token revocation, keyword classifiers, calculators and emissions: the same patterns again, or tables and formulas.
