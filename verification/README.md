# Logmara verification

A Dafny model of the demanding cores of Logmara's Go backend, with proofs about every input, every run or every
interleaving. `dafny verify dfyconfig.toml` checks the whole project.

| files | core |
|---|---|
| `LikePattern`, `LogFilter` | filter options compiled to SQL clauses with numbered placeholders, evaluated in SQL's three-valued logic |
| `Calendar`, `Decimal`, `Base64`, `Cursor` | the text cursor: base64 over an RFC 3339 instant, a bar and a 64-bit id |
| `Keyset`, `Paging` | following cursors page by page over a table that changes meanwhile |
| `RateLimiter` | the token buckets: refill, eviction, save and restore |
| `PartitionNames`, `Partitions`, `Retention` | calendar partitions of `syslog_logs`: names, creation ahead of time, retention |
| `CloudBridge`, `CloudBridgeRaces` | replicas, a lock with a TTL, a status key and one tunnel; the runs in which it goes wrong |
| `RefreshTokens`, `RefreshSessions`, `JwtRotation` | refresh-token rotation with racing requests; when a login is over; signing-key rotation with a delayed clear |
| `AlertCounters`, `DeviceSilence` | the two firing counters; the per-device silence episodes |
| `Escaping`, `RelayCertificates` | the nested string layers of the rsyslog configuration; certificates, whitelist and allow-list |

Code that changes state is a class or a method with loops, proved against a function of the old state; the main
results are lemmas about those functions and about runs built from them. Concurrency is a transition system whose
steps are the single statements that can interleave. Clocks, the network's answers, failing statements and the
choices of the database are parameters. Floating-point numbers are `real`.

Some promises do not hold of the code as it stands. For those there is a concrete input and the exact condition
under which they do hold:

- a "contains", "starts with" or "ends with" filter finds its value literally exactly when the value has no `%`, `_`
  or backslash (`LikePattern.ContainsExactlyWhenPlain` and its two siblings);
- a batched delete removes expired rows only exactly when no row that must stay shares a ctid with an expired one
  (`Retention.DeletesOnlyExpired`, `Retention.FreshRowDeleted`);
- a run covers a period exactly when the period was free or covered before, so a daily partition inside a coming
  month leaves a gap (`Partitions.WindowCovered`, `Partitions.MixedLeavesGap`);
- tunnels leave the lock's holder exactly when one is started without the lock, or the lock is released or expires
  under one (`CloudBridge.StepSafeExactlyWhen`, `CloudBridge.RunSafeExactlyWhen`); a refresh message checked before a
  step-down and acted on after it does that (`CloudBridgeRaces.RefreshRace`);
- only the lock's holder publishes the status exactly when no replica on standby has a cancelled session left, which
  is lost exactly by releasing the lock before the sessions have returned (`CloudBridge.HolderPublishesExactlyWhen`,
  `CloudBridge.StepDrainedExactlyWhen`); a late session then takes over the leader's status
  (`CloudBridgeRaces.LateSessionTakesStatus`);
- after the identity is deleted a stopped replica stays down in every run exactly when none of its goroutines is at
  work with an identity read before (`CloudBridge.DownForGoodExactlyWhen`, `CloudBridgeRaces.StaleStart`);
- the grace period outlives the old tokens under the bounds of `JwtRotation.GraceCoversLifetime`; in any run at all a
  token validates exactly when it is unexpired and at most one rotation came since, with no clear after it
  (`JwtRotation.ValidatesExactlyWhen`, `JwtRotation.EarlyRotationRefuses`);
- logging out with the newest token does not end a login whose previous token is still recoverable; the login is over
  exactly when no request is pending on it and none of its rows is recoverable (`RefreshSessions.OverExactlyWhen`,
  `RefreshSessions.LogoutRevived`);
- the in-memory counter forgets its cooldown when a window rolls over, and fires exactly then or when the cooldown is
  over (`AlertCounters.LocalFiresAgain`, `AlertCounters.LocalFiresInsideCooldown`), so that with checks more than a
  minute apart silence notices repeat at every check (`DeviceSilence.InMemoryRepeats`); a Redis cooldown of zero never
  ends (`AlertCounters.RedisFiresApart`);
- issuing a certificate for an address already listed leaves an issued certificate that nothing is linked to
  (`RelayCertificates.TidyExactlyWhen`).

## Model

| member | source | states |
|---|---|---|
| `LogFilter.BuildLogWhereClauses` | backend/handler/querybuilder.go:66-247 | For all options the clauses keep exactly the rows the options ask for, said over the operators as clients send them and the row's own columns; placeholders run 1..n in order, each once, and the returned index is n+1 |
| `LogFilter.CompileMeaning` | backend/handler/querybuilder.go:66-247 | The compiled query, evaluated in three-valued logic with its arguments, agrees on every row with a predicate over the raw options that shares no definition with the compiler |
| `LogFilter.FilterMeaning` | backend/handler/querybuilder.go:140-244 | One field filter keeps a row exactly when its operator, under any of its spellings, accepts the value of the column or parsed key; unusable fields and empty value lists are skipped |
| `LogFilter.SameOperator` | backend/handler/querybuilder.go:249-265 | Normalizing an operator keeps its meaning: "not_in" is the complement of the list, "starts_with" and "ends_with" their own patterns, "" equality |
| `LogFilter.TextOperators` | backend/handler/querybuilder.go:168-215 | For a value without pattern characters the text operators are substring, prefix and suffix |
| `LogFilter.AddMeaning` | backend/handler/querybuilder.go:66-247 | Adding a clause with the next placeholders narrows the query by that clause alone and leaves all earlier placeholders reading their own arguments |
| `LogFilter.BuildFieldFilter` | backend/handler/querybuilder.go:140-244 | Appends one filter's clause and arguments, or nothing, and keeps the index one past the arguments |
| `LogFilter.BuildList` | backend/handler/querybuilder.go:115-123 | One consecutive placeholder and one argument for each value of an IN list |
| `LogFilter.BuildScalars` | backend/handler/querybuilder.go:71-113 | The scalar options in the handler's order, each with its own placeholder |
| `LikePattern.ContainsExactlyWhenPlain` | backend/handler/querybuilder.go:168-172 | The unescaped pattern matches exactly the texts that contain the value if and only if the value has no wildcard or backslash |
| `LikePattern.StartsWithExactlyWhenPlain` | backend/handler/querybuilder.go:191-195 | The same for "starts with" |
| `LikePattern.EndsWithExactlyWhenPlain` | backend/handler/querybuilder.go:196-200 | The same for "ends with", including values that end in a backslash and match nothing |
| `LikePattern.SameIsCase` | backend/handler/querybuilder.go:92-96 | Characters match exactly when equal or the two cases of one ASCII letter |
| `Base64.DecodeEncode` | backend/handler/querybuilder.go:327-336 | Decoding undoes unpadded URL-safe encoding (section 5 of RFC 4648) for all bytes |
| `Base64.Vectors` | backend/handler/querybuilder.go:327-330 | The test vectors of section 10 of RFC 4648 without padding, and the two URL-safe characters |
| `Base64.DecodeReadsAlphabet` | backend/handler/querybuilder.go:332-336 | Only characters of the URL-safe alphabet are read, line breaks aside |
| `Calendar.CivilOfDayNumber` | backend/db/db.go:312-332 | Day numbers and civil dates are in bijection over all years, leap years included |
| `Decimal.ParsePrintedInt` | backend/handler/querybuilder.go:327-348 | A printed integer parses back exactly when it fits 64 bits |
| `Decimal.IntShape` | backend/handler/querybuilder.go:327-330 | An integer is written with a minus sign if negative and without leading zeros |
| `Cursor.InstantRoundTrip` | backend/handler/querybuilder.go:327-348 | An instant of years 0 to 9999 survives printing with trailing fraction zeros trimmed (section 5.6 of RFC 3339) to the nanosecond |
| `Cursor.InstantShape` | backend/handler/querybuilder.go:327-330 | An instant is written as date, T, time, fraction and Z, each at its place |
| `Cursor.FractionShape` | backend/handler/querybuilder.go:327-330 | A fraction follows a point, has no trailing zero and spells the nanoseconds |
| `Cursor.InstantSays` | backend/handler/querybuilder.go:332-348 | An instant that is read is the one that is written: a date that exists, a time of that day, a fraction |
| `Cursor.CursorRoundTrip` | backend/handler/querybuilder.go:327-350 | Decoding an encoded cursor gives the same instant and id exactly for four-digit years and 64-bit ids; every other cursor is rejected |
| `Cursor.CursorText` | backend/handler/querybuilder.go:327-350 | A cursor is the base64 text of the instant, a bar and the decimal id |
| `Keyset.OrderBy` | backend/handler/logs.go:126-173 | Taking the first remaining key again and again gives the first keys of the unique ordering of the set |
| `Keyset.RestOfListing` | backend/handler/logs.go:141-150 | What a page leaves out is exactly the listing strictly after its last key |
| `Keyset.WalkReaches` | backend/handler/logs.go:141-195 | A key that matches at every request of a walk is shown, whatever else is inserted or removed between pages |
| `Keyset.WalkContinues` | backend/handler/logs.go:141-195 | A walk shows keys strictly in order across page boundaries, so none twice |
| `Paging.GetLogs` | backend/handler/logs.go:95-204 | The response is the page the filters, the cursor and the limit ask for, or an error for an unreadable cursor and for every negative limit; its rows rise strictly in (timestamp, id) for "timestamp_asc" and fall strictly for the default and "timestamp_desc" |
| `Paging.MoreExactlyWhen` | backend/handler/logs.go:179-182 | A response says there is more exactly when a matching row beyond the cursor is not shown |
| `Paging.PageQueryMeaning` | backend/handler/logs.go:141-173 | With the cursor's two arguments and the LIMIT appended, the query keeps the wanted rows beyond the cursor and the LIMIT placeholder reads the limit |
| `Paging.EffectiveLimit` | backend/handler/logs.go:102-112 | 50 by default, at most 1000, otherwise as requested; a negative limit is passed on |
| `Paging.FollowingIsWalking` | backend/handler/logs.go:141-195 | Following the text cursors is walking the keys |
| `Paging.LogWalkShowsEachRowOnce` | backend/handler/logs.go:126-195 | Over a changing table, following next_cursor from the start shows every row that matches throughout once and in order, and only rows that matched when shown |
| `Paging.LogWalkInOrder` | backend/handler/logs.go:126-139 | All pages of a walk together rise strictly for "timestamp_asc" and fall strictly otherwise |
| `Paging.LogWalkShowsTable` | backend/handler/logs.go:126-195 | Over an unchanging table the walk ends for any limits of at least 1 and the pages joined are the filtered table in order |
| `Paging.NextPageShrinks` | backend/handler/logs.go:179-195 | Each further page has strictly less left to list |
| `RateLimiter.Limiter.Allow` | backend/main.go:245-266 | The new buckets and the answer are those of the specified step |
| `RateLimiter.Limiter.Tick` | backend/main.go:214-234 | Full buckets are dropped and no others |
| `RateLimiter.Limiter.SaveState` | backend/main.go:191-207 | Each bucket is saved with its tokens and its whole second |
| `RateLimiter.Limiter.LoadState` | backend/main.go:163-189 | Exactly the entries not older than the window are restored, refilled for their age and capped |
| `RateLimiter.AllowTakesOne` | backend/main.go:236-266 | A call is admitted exactly when a token is there; it takes one token of its own IP and changes no other level, now or later |
| `RateLimiter.LevelIs` | backend/main.go:236-243 | A stored bucket grows by limit tokens per window, up to the limit |
| `RateLimiter.RestartLevel` | backend/main.go:163-207 | After saving and restoring, every level at every later time is at least what it would have been and at most one second of refill more |
| `RateLimiter.AdmissionBudget` | backend/main.go:214-266 | Over any run the admitted calls and the remaining level come out of the level at the start, the refill, and one second of refill for each restart |
| `RateLimiter.AdmissionBound` | backend/main.go:214-266 | In any interval of any run one IP gets at most limit plus refill of the interval plus one second of refill for each restart in it |
| `RateLimiter.AdmissionRate` | backend/main.go:137-146 | Without restarts, at most limit + limit * (t - s) / window calls in [s, t] |
| `RateLimiter.EvictionUnobservable` | backend/main.go:214-234 | Removing the eviction ticks from a run changes no answer, whatever calls and restarts the run has |
| `RateLimiter.RestartedFullIsDropped` | backend/main.go:179-188 | A restart stores a bucket that is full, and the next tick drops it |
| `RateLimiter.TickDropsNothing` | backend/main.go:214-234 | In a run without restarts no stored bucket is ever full, so eviction finds nothing to drop |
| `RateLimiter.PatientCallerAdmitted` | backend/main.go:236-266 | A caller who waits window/limit between calls is never refused, whatever other callers, ticks and restarts do |
| `PartitionNames.PeriodContains` | backend/db/db.go:312-332 | Each instant lies in the period computed for it, which starts at its truncation |
| `PartitionNames.NextPeriod` | backend/db/db.go:320-332 | next and previous move between neighbouring periods |
| `PartitionNames.PreviousUndoesNext` | backend/db/db.go:320-332 | On aligned dates previous and next undo each other, across month lengths and leap years |
| `PartitionNames.PeriodLength` | backend/db/db.go:320-325 | A month lasts as many days as the Gregorian calendar gives it, a day 24 hours |
| `PartitionNames.NameOfInstant` | backend/db/db.go:334-336 | The name printed for an instant's period parses to the range from its truncation to the next period, which holds the instant |
| `PartitionNames.NameRoundTrip` | backend/db/db.go:1501-1523 | A period's name parses to exactly that period and granularity |
| `PartitionNames.NameShape` | backend/db/db.go:248-251 | A name is syslog_logs_YYYY_MM, followed by _DD for a day |
| `PartitionNames.ReadableNameIsPrinted` | backend/db/db.go:1501-1523 | Every name that parses is the one printed for its own range |
| `Partitions.ActivePartitionGranularity` | backend/db/db.go:272-302 | The granularity of the partition that holds the present, else the configured one |
| `Partitions.CreateAhead` | backend/db/maintenance.go:624-668 | Stepping a start date forward visits the current period and the ones ahead |
| `Partitions.PartitionedTable.CreatePartitions` | backend/db/maintenance.go:603-669 | The catalog after one run, whichever creations fail |
| `Partitions.RunKeeps` | backend/db/maintenance.go:603-669 | A run keeps partitions named by their ranges and pairwise disjoint, whichever creations fail |
| `Partitions.WindowCovered` | backend/db/maintenance.go:603-669 | After a run a period of the window is covered exactly when before it was free or already covered |
| `Partitions.RunCovers` | backend/db/maintenance.go:603-669 | If no finer partition lies ahead, a run covers everything from now to the end of its window |
| `Partitions.WindowReaches` | backend/db/db.go:248-251 | A daily window reaches a week past today, a monthly one three months past this month |
| `Partitions.DropsKeepCover` | backend/db/db.go:1564-1585 | Retention drops leave present and future instants covered, and partitions disjoint |
| `Partitions.AlwaysCovered` | backend/db/maintenance.go:46-75 | If before the first run partitions are aligned and disjoint, none finer than the granularity in use lies ahead, and days end before months still open start, then over any run of maintenance and retention with maintenance at most aheadCount periods apart every instant from the first run on lies in exactly one partition when it arrives |
| `Partitions.LayeredRun` | backend/db/maintenance.go:603-669 | A run keeps every daily partition before any monthly one still open: day runs never pass a coming month, month runs only follow |
| `Partitions.LayeredNoFiner` | backend/db/db.go:272-302 | Where that holds, nothing finer than the granularity in use lies ahead of a covered instant |
| `Partitions.UniformStaysCovered` | backend/db/db.go:272-302 | A database of one granularity keeps it whatever is configured later, and needs no further condition to stay covered |
| `Partitions.MixedLeavesGap` | backend/db/maintenance.go:603-669 | A month in use and one daily partition in the next month leave that month uncovered after a run |
| `Retention.LogStore.CleanupOldLogs` | backend/db/db.go:1531-1590 | Cleanup ends with no row older than retentionDays whole days, whichever drops fail; exactly the partitions that ended by then and could be dropped are gone; a row goes only with its partition or from a place that held an expired row; an unpartitioned table keeps every younger row |
| `Retention.LogStore.DropExpired` | backend/db/db.go:1564-1585 | The partitions that end by the cutoff go with exactly their rows, unless their drop fails |
| `Retention.LogStore.DeleteOldLogsBatched` | backend/db/db.go:1592-1611 | The batches end; the total is the number of rows removed; then nothing is older than the cutoff of that moment; on an unpartitioned table exactly the expired rows are gone |
| `Retention.LogStore.DeleteBatch` | backend/db/db.go:1592-1604 | A batch affects no row exactly when nothing is expired, takes at least as many rows as are expired up to 10,000, and the table shrinks by the rows affected, all from places that held an expired row |
| `Retention.BatchProgress` | backend/db/db.go:1592-1604 | Each nonempty batch leaves strictly fewer expired rows |
| `Retention.DroppedRowsExpired` | backend/db/db.go:1564-1585 | A dropped partition held only rows older than the cutoff |
| `Retention.DeletesOnlyExpired` | backend/db/db.go:1596-1602 | Every batch the database may choose deletes only expired rows exactly when no row that must stay shares a ctid with an expired one |
| `Retention.FreshRowDeleted` | backend/db/db.go:1596-1602 | For every cutoff inside a day, a store of two daily partitions, neither dropped, in which a recent row is deleted with an expired one |
| `CloudBridge.Redis.Acquire` | backend/sharedstate/leader.go:55-78 | Set-if-absent: a free lock is taken for 30 seconds, a held one is left alone |
| `CloudBridge.Redis.Renew` | backend/sharedstate/leader.go:94-106 | Compare-and-extend: the owner's lock then expires 30 seconds from now, any other is left alone |
| `CloudBridge.Redis.Release` | backend/sharedstate/leader.go:110-116 | Compare-and-delete |
| `CloudBridge.RenewalLasts` | backend/sharedstate/leader.go:17-23 | After a renewal at t the owner holds the lock at every time before t + 30 and not at or after it |
| `CloudBridge.NotExtended` | backend/sharedstate/leader.go:94-106 | An absent or foreign lock is not extended, and a failed renewal changes nothing |
| `CloudBridge.LeaderHolds` | backend/sharedstate/leader.go:55-106 | In every interleaving a replica that took the lock holds it for as long as its renewals succeed less than 30 seconds apart |
| `CloudBridge.LockEndsOnlyBy` | backend/sharedstate/leader.go:25-31 | In every run a lock ends only by its owner's release or its TTL |
| `CloudBridge.Agent.Reconcile` | backend/cloudbridge/cloudbridge.go:338-374 | With nothing in between, a reconcile is its read, decision and start: without a store error the tunnel is active exactly when an identity with a CA certificate is stored, and with that state; with one nothing changes |
| `CloudBridge.Agent.TryLead` | backend/cloudbridge/cloudbridge.go:274-284 | One attempt to take the lock is the protocol's step |
| `CloudBridge.Agent.RenewLead` | backend/cloudbridge/cloudbridge.go:316-326 | One renewal is the protocol's step; only a definite loss ends the leadership |
| `CloudBridge.Agent.SetConnected` | backend/cloudbridge/cloudbridge.go:424-470 | Publishes the own status, or clears it only if it is the own one, as the steps of the protocol do |
| `CloudBridge.Agent.StepDown` | backend/cloudbridge/cloudbridge.go:294-300 | The four steps of stepping down: no tunnel is left and only own keys were removed |
| `CloudBridge.StepsDownInOrder` | backend/cloudbridge/cloudbridge.go:294-300 | In every run a replica about to release the lock has stopped its tunnel and then cleared its status |
| `CloudBridge.SessionsConserved` | backend/cloudbridge/cloudbridge.go:472-496 | Over any run a replica has as many sessions as it started and have not returned |
| `CloudBridge.ConnectedStep` | backend/cloudbridge/cloudbridge.go:463-470 | The connected flag is raised by publishes and lowered by clears, and by nothing else |
| `CloudBridge.OnlyLeaderRefreshes` | backend/cloudbridge/cloudbridge.go:376-390 | A refresh message has an effect exactly on a replica that leads |
| `CloudBridge.StepKeepsSafe` | backend/cloudbridge/cloudbridge.go:268-390 | Every step of every replica keeps tunnels with replicas in office and those with an unexpired lock, under the two timing assumptions |
| `CloudBridge.StepSafeExactlyWhen` | backend/cloudbridge/cloudbridge.go:268-390 | A step keeps every active tunnel at the holder of an unexpired lock if and only if it does not start one without the lock, release the lock under one or let it expire under one |
| `CloudBridge.RunSafeExactlyWhen` | backend/cloudbridge/cloudbridge.go:268-390 | The same for all states of a run |
| `CloudBridge.AtMostOneTunnel` | backend/cloudbridge/cloudbridge.go:268-390 | In every interleaving at most one replica has an active tunnel, and it holds the lock |
| `CloudBridgeRaces.RefreshRace` | backend/cloudbridge/cloudbridge.go:376-390 | A run in which a late refresh leaves a tunnel without a lock |
| `CloudBridge.StatusEndsOnlyBy` | backend/cloudbridge/cloudbridge.go:405-438 | In every timely run in which locks are released after the sessions have returned, a status naming a replica ends only by its own clear, the publish of another that holds the lock, or its TTL |
| `CloudBridge.PingingKeepsStatus` | backend/cloudbridge/cloudbridge.go:424-434 | A status published at least every 90 seconds keeps naming its replica |
| `CloudBridge.HolderPublishesExactlyWhen` | backend/cloudbridge/cloudbridge.go:838-854 | Only the lock's holder can publish if and only if no replica on standby has a cancelled session left |
| `CloudBridge.StepDrainedExactlyWhen` | backend/cloudbridge/cloudbridge.go:294-300 | A step loses that if and only if it releases the lock while sessions have not returned |
| `CloudBridgeRaces.LateSessionTakesStatus` | backend/cloudbridge/cloudbridge.go:838-854 | A timely run in which a cancelled session replaces the status of the new leader |
| `CloudBridge.GoneStaysDown` | backend/cloudbridge/cloudbridge.go:338-353 | Once the identity is deleted and no read from before is at work, a replica that acts on a read or is stopped once has no tunnel and starts none again |
| `CloudBridge.DownForGoodExactlyWhen` | backend/cloudbridge/cloudbridge.go:338-390 | With the identity deleted, a replica without a tunnel stays so in every run if and only if none of its goroutines is at work with an identity it read |
| `CloudBridgeRaces.StaleStart` | backend/cloudbridge/cloudbridge.go:338-353 | A run in which the leader starts a tunnel after the deletion and the stop, with what it read before |
| `RefreshTokens.TokenTable.Claim` | backend/handler/auth.go:422-444 | A row is claimed exactly when it is unused and strictly before its expiry, and is then spent |
| `RefreshTokens.TokenTable.Refresh` | backend/handler/auth.go:383-507 | An unused token succeeds exactly before its expiry and is spent and linked; a used one exactly if linked and used in the last 30 seconds; the new row keeps user, device and remember flag; otherwise the table is left alone |
| `RefreshTokens.TokenTable.RevokeSession` | backend/db/sessions.go:73-91 | Ends exactly the user's own unused session and blacklists its access token |
| `RefreshTokens.TokenTable.InvalidateDeviceSessions` | backend/db/sessions.go:103-139 | Spends exactly the unused rows of this user on this device and blacklists exactly their access tokens |
| `RefreshTokens.TokenTable.CleanupExpired` | backend/db/maintenance.go:222-266 | Removes exactly expired rows and those used over a day ago; spends remembered rows past their maximum age and others past their timeout without use |
| `RefreshTokens.StepKeepsSound` | backend/handler/auth.go:422-550 | Every statement of every interleaved request keeps the rotation invariant |
| `RefreshTokens.RotationInvariant` | backend/handler/auth.go:422-550 | From any table with distinct hashes and in every interleaving a row is claimed at most once and a login's live rows number at most one plus its recoveries |
| `RefreshTokens.UsedInTime` | backend/handler/auth.go:422-428 | In every run each claim comes strictly before its row's expiry, each recovery within 30 seconds of its last use |
| `RefreshTokens.ExpiredNeverClaimed` | backend/handler/auth.go:422-428 | A token that expired unused is never claimed, however the run goes on |
| `RefreshTokens.SuccessorContinues` | backend/handler/auth.go:481-493 | Every token issued continues the user, device and remember flag of its session |
| `RefreshTokens.EndSpends` | backend/handler/auth.go:577-584 | Ending spends exactly the unused rows named |
| `RefreshTokens.MaintenanceSteps` | backend/db/maintenance.go:222-233 | The cleanup step removes exactly what the cleanup does; a use of a live session is noted |
| `RefreshTokens.UnusedUnlinked` | backend/handler/auth.go:495-500 | In every interleaving an unused row has no successor, if none had at the start |
| `RefreshTokens.LinkIsFinal` | backend/handler/auth.go:495-500 | A successor link is never changed |
| `RefreshTokens.LinksAcyclic` | backend/handler/auth.go:481-500 | Successor links never form a cycle, if those at the start lead from earlier to later rows |
| `RefreshTokens.EndedYieldsNothing` | backend/handler/auth.go:519-590 | If unused rows had no successor at the start, a row ended by logout, revocation, device invalidation or inactivity can never be claimed or recovered again |
| `RefreshSessions.OverExactlyWhen` | backend/handler/auth.go:519-550 | A login without a live row never has one again, in any interleaving, if and only if no request is pending on it and none of its rows is recoverable |
| `RefreshSessions.OverInRuns` | backend/handler/auth.go:422-550 | The same in every state that a run from any table reaches |
| `RefreshSessions.LogoutRevived` | backend/handler/auth.go:577-584 | A logout right after a rotation that the previous token undoes |
| `JwtRotation.Config.ValidateToken` | backend/auth/auth.go:163-210 | Accepts a token exactly when it is unexpired and its key is the current or the kept previous one of its algorithm |
| `JwtRotation.Config.GenerateToken` | backend/auth/auth.go:118-149 | RS256 under the RSA key if there is one, else HS256 under the primary secret; either way it expires a lifetime from now |
| `JwtRotation.Config.RotateSecret` | backend/auth/auth.go:412-420 | The previous secret becomes the secondary one |
| `JwtRotation.Config.ClearSecondarySecret` | backend/auth/auth.go:422-427 | Only the secondary secret is forgotten |
| `JwtRotation.GraceCoversLifetime` | backend/main.go:99-115 | Grace is at least the lifetime exactly when the value that decides the lifetime is within the stated bounds, for the variable as written and as trimmed |
| `JwtRotation.Defaults` | backend/auth/auth.go:97-111 | 15 minutes without a setting, 30 of grace, and twice the timeout between |
| `JwtRotation.UnexpiredTokensValidate` | backend/main.go:694-704 | Throughout any run whose rotations are more than the grace period and the delay of clears apart, every unexpired token validates |
| `JwtRotation.ValidatesExactlyWhen` | backend/auth/auth.go:163-210 | In any run with new secrets a token validates exactly when it is unexpired and an RSA key signed it, no rotation came since, or exactly one did and no clear fired after it |
| `JwtRotation.EarlyRotationRefuses` | backend/main.go:694-704 | Two runs that refuse unexpired tokens: a second rotation, and the pending clear of an earlier one |
| `AlertCounters.LocalCounterStore.ShouldFire` | backend/alertengine/store.go:40-61 | The in-memory step on one key, leaving the others alone |
| `AlertCounters.RedisCounterStore.ShouldFire` | backend/alertengine/store.go:73-106 | The sequence of Redis commands adds up to one step on one key |
| `AlertCounters.LocalFireBacked` | backend/alertengine/store.go:40-61 | Every fire is backed by threshold events within one window, none counted for an earlier fire |
| `AlertCounters.LocalFiresExactly` | backend/alertengine/store.go:40-61 | A call fires exactly when the events since its window's first call or its last fire reach the threshold and no cooldown of that window runs, all computed from the calls alone |
| `AlertCounters.RedisFireBacked` | backend/alertengine/store.go:73-106 | The same for Redis |
| `AlertCounters.RedisFiresExactly` | backend/alertengine/store.go:73-106 | A call fires exactly when the events since its key was created reach the threshold and every earlier fire lies a positive cooldown back |
| `AlertCounters.RedisFiresApart` | backend/alertengine/store.go:89-104 | Two fires of a key are at least the cooldown apart; without a positive cooldown there is no second one |
| `AlertCounters.LocalFiresApart` | backend/alertengine/store.go:40-61 | Two fires are at least the cooldown apart unless the window rolled over between them |
| `AlertCounters.LocalFiresAgain` | backend/alertengine/store.go:44-59 | The next time the counted events reach the threshold after a fire, the counter fires exactly when the cooldown is over or a window has rolled over since |
| `AlertCounters.LocalFiresInsideCooldown` | backend/alertengine/store.go:44-59 | Two calls a minute and a second apart that both fire inside an hour's cooldown |
| `AlertCounters.RedisWithheld` | backend/alertengine/store.go:89-104 | With a threshold of one, a call that does not fire comes within the cooldown of an earlier fire |
| `AlertCounters.LocalWithheld` | backend/alertengine/store.go:50-59 | The same in memory |
| `AlertCounters.StoresAgree` | backend/alertengine/store.go:40-106 | From fresh state both stores give the same answers until the first window ends |
| `DeviceSilence.Engine.CheckDeviceSilence` | backend/alertengine/silence.go:71-147 | With notifications enabled each watched rule and device takes its own step from the states read at the start, nothing else changes, and the notices are those of the steps in order |
| `DeviceSilence.RecoveryAfterSilence` | backend/alertengine/silence.go:109-120 | A "back online" notice is never first, and between two of them there is a silence notice |
| `DeviceSilence.RecoveryExactlyWhen` | backend/alertengine/silence.go:109-120 | A check says "back online" exactly when an episode is open and the device was seen within the threshold, and the episode is then over |
| `DeviceSilence.SilenceExactlyWhen` | backend/alertengine/silence.go:122-138 | A silence notice is sent exactly when the device is silent and the store fires or an open episode has got worse |
| `DeviceSilence.OpensExactlyWhen` | backend/alertengine/silence.go:122-138 | An episode opens with the first silence notice, dated from when the device was last seen |
| `DeviceSilence.CheckedPair` | backend/alertengine/silence.go:88-145 | After a check of all rules and devices, a watched device that is back was announced once and its episode removed; an unwatched one was left alone |
| `DeviceSilence.RecordedSeverity` | backend/alertengine/silence.go:122-138 | After every check the recorded severity is that of the whole silence so far: error from twice, critical from four times the threshold |
| `DeviceSilence.EpisodeSteady` | backend/db/silence_state.go:41-49 | Within an episode silent_since stays and the severity never falls |
| `DeviceSilence.BypassRaises` | backend/alertengine/silence.go:128-138 | Every notice sent inside the cooldown raises the recorded severity |
| `DeviceSilence.AtMostTwoBypasses` | backend/alertengine/silence.go:128-138 | At most two notices of an episode bypass the cooldown |
| `DeviceSilence.BypassInsideCooldown` | backend/alertengine/silence.go:128-138 | With the answers of either counter store, a notice that bypasses comes within the cooldown of an earlier one that did not |
| `DeviceSilence.SharedNoticesApart` | backend/alertengine/silence.go:128-138 | With the Redis store, notices that do not bypass are at least the cooldown apart |
| `DeviceSilence.InMemoryRepeats` | backend/main.go:922-934 | With the in-memory store and checks more than a minute apart, every check that finds the device silent sends a notice |
| `Escaping.TwoReplacementsAreOnePass` | backend/handler/relay.go:72-76 | Two successive replacements equal one pass that guards each backslash and quote |
| `Escaping.LiteralRoundTrip` | backend/handler/relay.go:69-76 | Reading a literal returns the original string and stops at its closing quote, for every string and whatever follows |
| `Escaping.ListRoundTrip` | backend/handler/relay.go:140-153 | The written peer list reads back as exactly its names, whatever characters they hold |
| `Escaping.JsonInnerReads` | backend/handler/relay.go:838-841 | The JSON text of a label reads back as the label (section 7 of RFC 8259) |
| `Escaping.JsonInnerSafe` | backend/handler/relay.go:838-841 | The JSON text holds no control character, angle bracket, ampersand or line separator |
| `Escaping.NestedRoundTrip` | backend/handler/relay.go:828-844 | Inside an rsyslog literal the nested label never closes the literal, is read as its JSON text, and that text as the label |
| `RelayCertificates.RelayStore.CreateRelayCertificate` | backend/handler/relay.go:464-491 | Issues, then lists the address; fails, with the certificate recorded, when it is listed already |
| `RelayCertificates.RelayStore.GenerateCertificateForWhitelistEntry` | backend/handler/relay.go:500-548 | Issues and links unless the entry is missing or holds an issued certificate |
| `RelayCertificates.RelayStore.RegenerateRelayCertificate` | backend/handler/relay.go:606-668 | Issues, links, and revokes the old certificate if it was issued and near its expiry |
| `RelayCertificates.RelayStore.RevokeRelayCertificate` | backend/db/relay.go:245-248 | Marks the certificate revoked and touches nothing else |
| `RelayCertificates.RelayStore.AddRelayWhitelistEntry` | backend/db/relay.go:74-85 | Adds an entry unless its address is listed |
| `RelayCertificates.RelayStore.DeleteWhitelistedRelay` | backend/handler/relay.go:355-395 | Removes the entry and revokes its certificate |
| `RelayCertificates.RelayStore.GetActiveRelayACLEntries` | backend/db/relay.go:50-70 | The entries whose linked certificate is issued, newest first |
| `RelayCertificates.RelayStore.WriteRelayACL` | backend/handler/relay.go:103-153 | rsyslog reads the written PermittedPeer as exactly the permitted names, and as the sentinel alone when no address is let through; the addresses are those of the active entries |
| `RelayCertificates.PartialKeepsSound` | backend/handler/relay.go:464-668 | A handler cut off after any statement keeps serials unique and certificates linked to at most one entry |
| `RelayCertificates.RunKeepsSound` | backend/handler/relay.go:464-668 | So does every run of requests, each cut off anywhere |
| `RelayCertificates.NameDetermines` | backend/relaypki/pki.go:338-345 | A peer name determines its label and serial, whatever the label holds |
| `RelayCertificates.PermittedExactlyWhenAdmitted` | backend/handler/relay.go:103-151 | A certificate's name is permitted exactly when relaying is enabled and the certificate is issued and linked |
| `RelayCertificates.PeersAre` | backend/handler/relay.go:103-138 | The list holds only such names or only the sentinel, and the sentinel exactly when nothing is admitted |
| `RelayCertificates.PeersDistinct` | backend/db/relay.go:50-70 | No peer is listed twice |
| `RelayCertificates.NewestFirst` | backend/db/relay.go:50-70 | Active entries come newest first |
| `RelayCertificates.AddressExactlyWhen` | backend/db/relay.go:50-70 | An address is let through exactly when its entry is linked to an issued certificate |
| `RelayCertificates.CutOffForGood` | backend/handler/relay.go:562-668 | A certificate once revoked or unlinked is never permitted again in any run |
| `RelayCertificates.RenewalNeverInterrupts` | backend/handler/relay.go:643-661 | After each statement of a renewal the entry holds an issued certificate |
| `RelayCertificates.RenewalSwaps` | backend/handler/relay.go:606-668 | A completed renewal admits a new certificate with the entry's label and shuts out the old one |
| `RelayCertificates.RegeneratesExactlyWhen` | backend/handler/relay.go:606-668 | A renewal takes place exactly when the certificate is linked, signing succeeds, and it is revoked or expires within 30 days |
| `RelayCertificates.GeneratesExactlyWhen` | backend/handler/relay.go:500-548 | A certificate with the entry's label is issued and linked exactly when the entry has none or a revoked one |
| `RelayCertificates.CreateRecords` | backend/handler/relay.go:464-491 | A certificate with the requested label is recorded and the address listed with it, unless it is listed |
| `RelayCertificates.AddRecords` | backend/handler/relay.go:323-348 | Listing an address gives it no certificate |
| `RelayCertificates.RevocationShutsOut` | backend/handler/relay.go:562-586 | Revoking takes exactly that certificate's name off the permitted list |
| `RelayCertificates.RemovalShutsOut` | backend/handler/relay.go:355-395 | Removing an entry takes its address off, shuts its certificate out and leaves the other entries |
| `RelayCertificates.TidyExactlyWhen` | backend/handler/relay.go:464-668 | Completed handlers leave no issued certificate unlinked, except issuing for an address already listed |

## Left out

- The text of SQL statements: clauses are trees, and WHERE, ORDER BY and LIMIT are modelled by their meaning.
- Paging.GetLogs: only the two timestamp sorts, which page by cursor; the severity and hostname sorts page by offset. Failing queries are not modelled, nor rows whose scan fails: the source skips those without an error, so has_more can then be false while rows remain.
- Paging.LogWalkShowsTable: the dashboard's data handler pages in the same way; its own limit rule and filter merge are not modelled, the walk is proved for any limits of at least 1 and any filters.
- LogFilter.CompileMeaning: collation, regular expressions, full-text search and reading a timestamp literal are parameters, and values the database would refuse to read are not errors here.
- LikePattern.EndsWithExactlyWhenPlain: case folding is that of ASCII letters, and a pattern that ends inside an escape matches nothing instead of raising an error.
- Cursor.CursorRoundTrip: cursors in other spellings (zone offsets, one-digit hours) are not read; the program never writes them.
- RateLimiter.AdmissionBound: rounding of floating-point numbers is not modelled.
- Partitions.AlwaysCovered: creations are taken to succeed there; failures, such as rows in the default partition, appear in Partitions.RunKeeps only.
- Retention.LogStore.CleanupOldLogs: the returned total is an estimate in the source for dropped partitions and is not specified; rows inserted during the cleanup are not modelled.
- CloudBridge.StepKeepsSafe: single-server mode, a release or publish that fails, the tunnel's own protocol and the timing of broadcasts are not modelled.
- JwtRotation.UnexpiredTokensValidate: rotation of RSA keys is not modelled.
- RefreshTokens.TokenTable.Refresh: cookies, user look-ups and the silent-refresh header are not modelled; hashes are distinct tokens.
- DeviceSilence.Engine.CheckDeviceSilence: one checker; a failed read of the stored states is not modelled, nor the ignored failures of the delete and the upsert, which would repeat notices. The counter store's answers are a parameter here and composed with the stores in the lemmas on the cooldown.
- Escaping.NestedRoundTrip: labels are sequences of Unicode characters, so invalid UTF-8 is not modelled; of rsyslog's escapes the reader knows the three the configuration uses.
- RelayCertificates.RelayStore.WriteRelayACL: the surrounding configuration text, the file's replacement and rsyslog's restart are not modelled; entries are listed by creation order, ties in created_at aside.
- Session listing, exports, cached counts, materialized views, settings, dashboards, LDAP, audit logging and all HTTP plumbing: outside these cores, or they would only add easy members.
