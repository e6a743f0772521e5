# Internet Identity: verified model of its stateful cores

This project models, in Dafny, the parts of Internet Identity whose state has to stay consistent over
every run, and proves that it does:

- **The archive replication protocol** (`ArchiveProtocol`, `AnchorEntries`, `Codec`). Internet Identity
  numbers its operations and buffers them; the archive polls, appends what it does not have yet and
  acknowledges. Calls overlap, replies arrive late, in any order or not at all. The log is proved to be the
  history, exactly once and in order; reading an anchor page by page is proved to return its part of that
  history while the archive grows.
- **Event statistics over sliding windows** (`EventStats`, `EventWindows`, `EventRuns`). Running totals are updated in
  place by a netted addition and subtraction and two capped clean-ups, one driven by a cursor. They are proved
  to be plain sums over the stored events, and to be exact for everything recorded in the window when the
  clean-ups keep up.
- **The account ledger** (`AccountLedger`, `AccountInvariants`, `AccountRuns`, `AccountViews`,
  `AccountStorage`). Accounts, reference lists, three redundant counters and default accounts are proved to
  agree after every run of the public operations, and each call to show in its caller's listing exactly as it
  should, and in nobody else's.
- **The indices that find an anchor** (`ReverseIndices`, `OpenIdIndex`, `OpenIdReachability`,
  `AnchorStorage`), among them the OpenID index while its keys are migrated in batches between writes.
- **Temporary keys** (`TempKeys`) and **tentative device registration** (`DeviceRegistration`): time-driven
  maps with an expiry queue and a lookup table, for which trace properties are proved. `PasskeyRegistration`
  joins registration and pubkey index.

`Types` has machine words and sets, `Ordered` the iteration order of the B-tree maps.

## How it is built

Code that updates state is a class whose fields are the maps and counters of the source; each method ensures
that the new state, and the result, are those of a function of the old state. What the source promises is then
proved of these functions and of runs of them. Words wrap around at 2^64 and 2^16 where the source's release
build does. A trap undoes the whole message: it is a result of its own, with the state unchanged. Time,
confirmation codes, payloads and the devices to be registered are inputs. Principals derived from public
keys and hashes of origins are represented by what they are derived from, so distinct inputs give distinct
values.

## Where code and expectation differ

The code was followed. Each point below names the results that prove it: the exact condition, a failing case,
or both.

- An event key that is already taken is overwritten, and the weight of the overwritten event stays in the
  totals for ever (`EventRuns.TotalsAlongRun`, `EventRuns.RunAgreesIff`). That is right until the event leaves the
  window and wrong from then on (`EventRuns.RunIsExactIff`, `EventRuns.BurstOutlives`). The 16-bit counter in the key
  makes it happen after 65536 events with one timestamp (`EventRuns.BurstCollides`, `EventRuns.BurstHappens`,
  `EventRuns.MiscountHappens`).
- A window is exact only if at most 100 events were due at the call (`EventRuns.RunIsExactIff`,
  `EventRuns.LullHappens`).
- A temporary key that is added again can be dropped when its first queue entry comes due, before its own
  ten minutes are over (`TempKeys.AddedKeyIsAcceptedIff`, `TempKeys.ReAddedKeyIsRefusedEarly`).
- For the anchor number 2^64-1 the end of the range scan wraps around and its entries are never listed
  (`AnchorEntries.ListingIsHistory`); with a limit of zero the tokens never advance
  (`AnchorEntries.ZeroLimitNeverAdvances`).
- `create_default_account` returns an error after changing state. It keeps the ledger in agreement if and
  only if a read of the default account would succeed, which its only caller checks first
  (`AccountRuns.CreateDefaultNeedsReadFirst`, `AccountRuns.NumberedDefaultIsNotReadable`).
- Setting a default registers the application even when the account turns out not to exist
  (`AccountRuns.FailedDefaultRegisters`).
- A pubkey that was shared for a while can stay without an index entry after the sharing has ended, since only
  keys that are new to an anchor are added; the recovery and credential id indices recover when the anchors are written again
  (`ReverseIndices.SharedPubkeyIsLost`, `ReverseIndices.RewritingHeals`).
- Passkey pubkeys are meant to be unique across anchors, and two anchors can come to share one in exactly three
  ways (`PasskeyRegistration.RunIsExactIff`), after which one of them may be lost (`PasskeyRegistration.SharedIsLost`):
  `register`, and `create_identity` with a method that is not WebAuthn, do not check the first device of the new
  anchor (`PasskeyRegistration.BothRegistered`); `update`, and `replace` under the same key, do not check a recovery
  key that becomes a passkey (`PasskeyRegistration.OneConverted`); and a tentative device is checked when it is
  stored, not when it is confirmed (`PasskeyRegistration.BothConfirmed`).
- The uniqueness check for OpenID credentials looks at full keys only, so during the migration two anchors can
  hold the same credential (`OpenIdIndex.AddingIsSafeIff`, `OpenIdIndex.DuplicateDuringMigration`).
- A batch can make a credential unreachable when two of them depend on one legacy key
  (`OpenIdReachability.BatchKeepsReachableIff`, `OpenIdIndex.SecondAudienceIsLost`).
- A stored credential with an empty audience keeps its legacy key in the index for as long as it is stored
  (`OpenIdIndex.MigratedIsGoneIff`, `OpenIdReachability.EmptyAudienceStays`).
- A tentative registration under an id that another live registration carries takes over the lookup entry
  (`DeviceRegistration.StepKeepsLookupCompleteIff`, `DeviceRegistration.SharedIdIsTakenOver`), and leaving it or letting it
  expire then takes away the entry of the other (`DeviceRegistration.ExitEnds`, `DeviceRegistration.LeavingHidesOther`).

The comments on the migration speak of the byte order of the keys; the model leaves open in which order legacy
keys are found.

## Model

| member | source | states |
|---|---|---|
| Codec.AnchorIndexKeyCodec | src/archive/src/main.rs:209-236 | decoding an encoded index key gives it back, and only the encoding of a key decodes to it, for all 64-bit fields; anything but 24 bytes is refused |
| Codec.AnchorIndexKeyOrder | src/archive/src/main.rs:198-236 | bytewise order of two encoded keys is the order of the fields anchor, timestamp, log index |
| Codec.EventKeyCodec | src/internet_identity/src/stats/event_stats.rs:146-169 | the ten-byte event key encoding round-trips in both directions |
| Codec.EventKeyOrder | src/internet_identity/src/stats/event_stats.rs:83-88 | bytewise order of two encoded event keys is the order of time, then counter |
| ArchiveProtocol.InternetIdentity.Operate | src/internet_identity/src/archive.rs:310-343 | an operation gets the next sequence number and is buffered; with a full buffer it traps and nothing changes |
| ArchiveProtocol.InternetIdentity.Fetch | src/internet_identity/src/storage.rs:1892-1898 | the entries with the smallest sequence numbers, in order, at most the fetch limit |
| ArchiveProtocol.InternetIdentity.Acknowledge | src/internet_identity/src/storage.rs:1901-1911 | exactly the entries with a greater sequence number stay |
| ArchiveProtocol.ArchiveCanister.Write | src/archive/src/main.rs:351-366 | a log entry and its index key with the position in the log |
| ArchiveProtocol.ArchiveCanister.Process | src/archive/src/main.rs:288-326 | what a reply changes, what is acknowledged afterwards and when the gap message is printed, for any reply whatever |
| ArchiveProtocol.FetchServesSlice | src/internet_identity/src/archive.rs:345-354 | a fetch is served the contiguous slice of the history that starts at the lowest buffered entry |
| ArchiveProtocol.WritingAppends | src/archive/src/main.rs:319-323 | writing a list of entries appends its payloads in order and one index key per new log position |
| ArchiveProtocol.FilterKeepsOrder | src/archive/src/main.rs:319-323 | of any entries, in whatever order, the filter keeps those from the expected number on, in that order |
| ArchiveProtocol.FilterDropsArchived | src/archive/src/main.rs:319-323 | the filter on sequence numbers cuts off exactly the part of a slice that is archived already |
| ArchiveProtocol.ProcessingExtendsPrefix | src/archive/src/main.rs:295-326 | from an archive that holds a prefix of the history, any slice that was ever served, however stale, leaves the longer of the two prefixes |
| ArchiveProtocol.StepKeepsInv | src/archive/src/main.rs:254-349 | operations, fetches, replies and acknowledgements, delivered in any order or lost, keep the invariant of the whole system |
| ArchiveProtocol.ArchivingIsExactlyOnce | src/archive/src/main.rs:254-349 | after every run with overlapping fetches the log is the first operations of the history, each once and in order, and the index has exactly one key per log position |
| ArchiveProtocol.NothingIsLost | src/internet_identity/src/storage.rs:1886-1911 | after every run each operation is in the log or buffered, the buffer is one contiguous range that ends at the next sequence number, and every acknowledgement in flight is archived |
| ArchiveProtocol.GapIsUnreachable | src/archive/src/main.rs:302-310 | the branch that reports missing entries is never taken, whatever reply is delivered when |
| ArchiveProtocol.RoundMakesProgress | src/archive/src/main.rs:311-326 | a complete round of fetch and acknowledgement shrinks the buffer by min(limit, buffered), even when everything fetched was archived before |
| ArchiveProtocol.ArchiveCatchesUp | src/internet_identity/src/archive.rs:345-366 | from any reachable state enough rounds empty the buffer and leave the whole history in the log |
| ArchiveProtocol.ZeroLimitArchivesNothing | src/internet_identity/src/archive.rs:345-354 | with a fetch limit of zero no run ever archives anything, so the limit of one in the progress result is needed |
| AnchorEntries.ReadPage | src/archive/src/main.rs:405-484 | one call of get_anchor_entries: decoded token or timestamp, range scan, lookup of the log entries, the token of the next page, and the traps; never more entries than asked for or than the canister allows, and exactly the lesser of both if there is a token |
| AnchorEntries.PageIsListing | src/archive/src/main.rs:449-483 | a page is the beginning of the listing of the anchor; with a token it has exactly `limit` entries and the token is the first key left out, without one it is all the rest |
| AnchorEntries.TrapsIffForeignToken | src/archive/src/main.rs:428-447 | a call traps if and only if its token is not the encoding of an index key of the anchor |
| AnchorEntries.NextPageContinues | src/archive/src/main.rs:428-467 | following a token on an archive that has grown since continues exactly where the last page ended |
| AnchorEntries.PaginationIsComplete | src/archive/src/main.rs:405-484 | following the tokens until there is none reads every entry of the anchor, each once, in key order, although the archive grows and the limit may change between calls |
| AnchorEntries.PaginationTerminates | src/archive/src/main.rs:405-484 | pages with a token hand out as many entries as were asked for in all, fewer than the index holds, so with limits of at least one there are fewer pages than entries |
| AnchorEntries.ZeroLimitNeverAdvances | src/archive/src/main.rs:486-492 | with a limit of zero the token leads to the same empty page for ever |
| AnchorEntries.ReplicationGrowsArchive | src/archive/src/main.rs:351-366 | between two calls of a client the replication only adds keys behind those an anchor already has |
| AnchorEntries.ListingIsHistory | src/archive/src/main.rs:428-467 | the listing of an anchor from a timestamp on is its archived operations since then in the order they happened; the anchor number 2^64-1 gets nothing because its end key wraps |
| AnchorEntries.PagesTellTheHistory | src/archive/src/main.rs:405-484 | the concatenated pages are that part of the history that belongs to the anchor, all of it or, with a timestamp to start from, what happened at that time or later |
| AnchorEntries.ReadingTellsTheHistory | src/archive/src/main.rs:405-484 | along any run of the replication protocol, a client whose calls are made at any points of it and follow the tokens to their end has read exactly what was archived of its anchor by the last call, since the time it asked for |
| EventStats.NextKeyIsSuccessor | src/internet_identity/src/stats/event_stats.rs:109-120 | no key lies between a key and its next key |
| EventStats.EventStatistics.UpdateEventBasedStats | src/internet_identity/src/stats/event_stats.rs:196-235 | one recorded event: both clean-ups, the cursor and every total |
| EventStats.EventStatistics.FindWindowStart | src/internet_identity/src/stats/event_stats.rs:282-300 | the stored cursor or, before there is one, a day before the preceding event |
| EventStats.EventStatistics.EventsToRemoveFrom24h | src/internet_identity/src/stats/event_stats.rs:262-323 | the oldest due events, at most 100, and a cursor behind the last of them |
| EventStats.EventStatistics.PruneEvents | src/internet_identity/src/stats/event_stats.rs:328-343 | the oldest events past retention, at most 100, are removed and returned |
| EventStats.EventStatistics.UpdateAggregations | src/internet_identity/src/stats/event_stats.rs:238-254 | all three kinds of one window are updated, no other total |
| EventStats.EventStatistics.UpdateAggregation | src/internet_identity/src/stats/event_stats.rs:344-407 | each total of a kind and window changes by the weight of the event less that of the removed events, netted first, whatever the order of the map |
| EventStats.EventStatistics.AddEvent | src/internet_identity/src/stats/event_stats.rs:369-387 | what stays to be subtracted is netted against the weight of the new event |
| EventStats.EventStatistics.SubtractAll | src/internet_identity/src/stats/event_stats.rs:389-406 | the saturating subtraction over the pending map; a total that reaches zero disappears |
| EventStats.SumByKey | src/internet_identity/src/stats/event_stats.rs:355-367 | the removed events summed by key, with positive sums only |
| EventWindows.DueIsExpired | src/internet_identity/src/stats/event_stats.rs:282-311 | the cursor range is exactly the counted events that are at least 24h old, with and without a stored cursor |
| EventWindows.CursorSkipsTaken | src/internet_identity/src/stats/event_stats.rs:309-321 | the cursor moves past exactly the events taken, so these and no others stop being counted |
| EventWindows.PruningSparesCounted | src/internet_identity/src/stats/event_stats.rs:211-226 | the 30d pruning never deletes an event that the 24h totals still count, also when both clean-ups are cut short |
| EventWindows.CallMovesWindows | src/internet_identity/src/stats/event_stats.rs:204-235 | after a call the events a window counts are those before plus the new one less those removed |
| EventWindows.CallKeepsTimely | src/internet_identity/src/stats/event_stats.rs:204-235 | what is known of the times of stored and deleted events and of the cursor is kept by every call |
| EventWindows.TotalAfterCall | src/internet_identity/src/stats/event_stats.rs:344-407 | what a total exceeded the plain sum over the events it counts by is carried over unchanged, plus the weight of an overwritten event; the subtraction does not saturate and finds its key |
| EventWindows.CallKeepsAgreementIffFresh | src/internet_identity/src/stats/event_stats.rs:204-209 | a call keeps all totals equal to the plain sums if and only if its event key is not taken |
| EventWindows.WindowIsExactIffCleanUpKeepsUp | src/internet_identity/src/stats/event_stats.rs:262-342 | a call with a fresh key leaves the totals equal to those over the latest events of the last 24h or 30d if and only if at most 100 events were due |
| EventRuns.TotalsAlongRun | src/internet_identity/src/stats/event_stats.rs:196-407 | after every call of any run each total is the plain sum over the events it counts plus the weight of all events ever overwritten, so an excess is never lost again |
| EventRuns.RunAgreesIff | src/internet_identity/src/stats/event_stats.rs:204-209 | after any run the totals agree with the stored events if and only if no event key was ever taken when it was used |
| EventRuns.TotalIsRecorded | src/internet_identity/src/stats/event_stats.rs:196-407 | after every call of any run a total is the sum over all recorded events of its window of time, overwritten or not, plus what the clean-up still owes, plus the overwritten events that have left the window |
| EventRuns.RunIsExactIff | src/internet_identity/src/stats/event_stats.rs:196-407 | after a call of any run the totals of a window equal those over all events recorded in that window of time if and only if at most 100 events were due and no overwritten event has left it |
| EventRuns.RecordedIsCounted | src/internet_identity/src/stats/event_stats/event_aggregations.rs:110-206 | what the totals sum up: the number of delegations of a domain and frontend, the whole seconds of their sessions, and the number of prune events |
| EventRuns.RunningTotalsAreNaiveSums | src/internet_identity/src/stats/event_stats.rs:196-407 | after every call of a run in which equal timestamps are fewer than 2^16 calls apart: totals are plain sums, present if and only if positive, nothing saturates or misses its key, and each window equals what was recorded in it if and only if the clean-up kept up |
| EventRuns.UpdatesExactlyTo | src/internet_identity/src/stats/event_stats.rs:204-235 | the statistics after a call are determined by those before it, in whatever order the map of removed weights is iterated; and there always are some |
| EventRuns.RunsExist | src/internet_identity/src/stats/event_stats.rs:196-201 | every schedule of calls whose times do not run backwards is a run |
| EventRuns.BurstCollides | src/internet_identity/src/stats/event_stats.rs:90-96 | in any run, 65536 calls after one with the same timestamp the event key is taken, and the totals do not agree from then on |
| EventRuns.AtOnceIsExact | src/internet_identity/src/stats/event_stats.rs:204-209 | as long as all calls carry one timestamp, both windows are exact, also after keys were taken |
| EventRuns.BurstOutlives | src/internet_identity/src/stats/event_stats.rs:389-407 | in any run with such a burst a window is inexact after every call that comes a whole window of time later |
| EventRuns.BurstHappens | src/internet_identity/src/stats/event_stats.rs:90-96 | a run with such a burst exists for any time; right after it both windows are exact |
| EventRuns.MiscountHappens | src/internet_identity/src/stats/event_stats.rs:389-407 | and a run in which neither window is exact a month later |
| EventRuns.LullOverloads | src/internet_identity/src/stats/event_stats.rs:309-321 | in any run with more than 100 events at one time and the next event a month later, all of them are due at once and neither window is exact |
| EventRuns.LullHappens | src/internet_identity/src/stats/event_stats.rs:334-337 | and such a run exists |
| TempKeys.TempKeyStore.Add | src/internet_identity/src/state/temp_keys.rs:36-52 | the key is stored and queued with its expiration ten minutes ahead |
| TempKeys.TempKeyStore.Remove | src/internet_identity/src/state/temp_keys.rs:55-59 | the key is removed, its queue entry stays |
| TempKeys.TempKeyStore.Check | src/internet_identity/src/state/temp_keys.rs:64-82 | after the clean-up, whether the key is there, has not expired and belongs to the caller |
| TempKeys.TempKeyStore.PruneExpired | src/internet_identity/src/state/temp_keys.rs:84-102 | takes the due entries off the front of the queue, at most 100, with their keys |
| TempKeys.RunKeepsQueued | src/internet_identity/src/state/temp_keys.rs:36-102 | along every run the queue is sorted and covers every stored key with its expiration |
| TempKeys.PruneLeavesNoExpiredKey | src/internet_identity/src/state/temp_keys.rs:84-102 | stopping at the first entry that is not due leaves no expired key unless 100 entries were taken |
| TempKeys.CheckAcceptsOnlyLatest | src/internet_identity/src/state/temp_keys.rs:64-82 | a check accepts only the principal of the latest add that was not removed, at most ten minutes old |
| TempKeys.AddedKeyIsAcceptedIff | src/internet_identity/src/state/temp_keys.rs:36-102 | whatever happened before an add and whatever happens to other keys after it, the added principal is accepted until it expires if and only if no entry popped since the add is an older one of the same key |
| TempKeys.ReAddedKeyIsRefusedEarly | src/internet_identity/src/state/temp_keys.rs:84-102 | a key added again after five minutes can be refused five minutes later |
| TempKeys.AddedOnceIsAcceptedForTenMinutes | src/internet_identity/src/state/temp_keys.rs:64-102 | a key added once and not removed is accepted for its principal, and for nobody else, until its expiration, whatever else happens |
| DeviceRegistration.TentativeRegistrations.PruneExpired | src/internet_identity/src/anchor_management/tentative_device_registration.rs:354-369 | expired registrations go, with the lookup entries of their ids |
| DeviceRegistration.TentativeRegistrations.EnterDeviceRegistrationMode | src/internet_identity/src/anchor_management/tentative_device_registration.rs:23-62 | the limit, the repeated and the conflicting entry, and the new registration with its lookup entry |
| DeviceRegistration.TentativeRegistrations.ExitDeviceRegistrationMode | src/internet_identity/src/anchor_management/tentative_device_registration.rs:64-76 | registration and lookup entry go |
| DeviceRegistration.TentativeRegistrations.AddTentativeDevice | src/internet_identity/src/anchor_management/tentative_device_registration.rs:78-122 | each refusal in order, or the device pending with its code |
| DeviceRegistration.TentativeRegistrations.AddTentativeSession | src/internet_identity/src/anchor_management/tentative_device_registration.rs:124-165 | each refusal in order, or the session pending with its code |
| DeviceRegistration.TentativeRegistrations.ConfirmTentativeDeviceOrSession | src/internet_identity/src/anchor_management/tentative_device_registration.rs:174-253 | the confirmed device or session, or the counted attempt, and when the registration ends |
| DeviceRegistration.TentativeRegistrations.ReadSession | src/internet_identity/src/anchor_management/tentative_device_registration.rs:272-295 | the confirmed session of an unexpired registration |
| DeviceRegistration.LookupIsAlwaysSound | src/internet_identity/src/anchor_management/tentative_device_registration.rs:354-369 | in every reachable state each lookup entry leads to a live registration with that id, and |lookup| <= |registrations| <= 10000 |
| DeviceRegistration.StepKeepsLookupCompleteIff | src/internet_identity/src/anchor_management/tentative_device_registration.rs:38-59 | a complete lookup table stays complete if and only if the operation does not begin a new registration, below the limit, under an id that a live registration has |
| DeviceRegistration.SharedIdIsTakenOver | src/internet_identity/src/anchor_management/tentative_device_registration.rs:47-58 | two anchors enter with one id, and the live registration of the first cannot be found |
| DeviceRegistration.LookupIsCompleteForDistinctIds | src/internet_identity/src/anchor_management/tentative_device_registration.rs:38-62 | in runs with distinct live ids the table is the exact inverse of the ids |
| DeviceRegistration.PendingStep | src/internet_identity/src/anchor_management/tentative_device_registration.rs:78-253 | one operation either stores the pending device or session with its code, or leaves it alone and counts a wrong code |
| DeviceRegistration.PendingHasOrigin | src/internet_identity/src/anchor_management/tentative_device_registration.rs:78-165 | whatever is pending was stored with its code earlier in the same registration, and the failed attempts are the wrong codes since |
| DeviceRegistration.ConfirmedDeviceWasStored | src/internet_identity/src/anchor_management/tentative_device_registration.rs:174-253 | a device is handed out only if that device and that code were stored earlier in the same unexpired registration |
| DeviceRegistration.DeviceConfirmedIffAwaited | src/internet_identity/src/anchor_management/tentative_device_registration.rs:174-213 | a confirmation hands out a device if and only if that device waits for that code in an unexpired registration |
| DeviceRegistration.EnterAnswers | src/internet_identity/src/anchor_management/tentative_device_registration.rs:23-62 | when entering is refused for the limit of 10000 live registrations, when for another id, and when it is answered with which expiration |
| DeviceRegistration.AddAnswers | src/internet_identity/src/anchor_management/tentative_device_registration.rs:78-165 | each of the four answers to storing a tentative device or session, if and only if the registration before the call is as it says |
| DeviceRegistration.ConfirmAnswers | src/internet_identity/src/anchor_management/tentative_device_registration.rs:174-253 | each of the five answers to a confirmation code, if and only if what is pending before the call is as it says; a session that is confirmed is there afterwards |
| DeviceRegistration.ReadAnswers | src/internet_identity/src/anchor_management/tentative_device_registration.rs:272-295 | a session is handed out if and only if it was confirmed in a registration that has not expired |
| DeviceRegistration.ExitEnds | src/internet_identity/src/anchor_management/tentative_device_registration.rs:64-76 | leaving ends the registration of the anchor and no live one of others; of the lookup entries exactly those under its id and under ids of expired registrations go |
| DeviceRegistration.LeavingHidesOther | src/internet_identity/src/anchor_management/tentative_device_registration.rs:64-76 | an anchor that shares its id with another one and leaves makes that one impossible to find |
| DeviceRegistration.RegisteredIff | src/internet_identity/src/anchor_management/tentative_device_registration.rs:23-76 | an anchor is registered after an operation if and only if it just entered, or was registered before, is not expired, and neither left, nor was confirmed a device, nor used up its attempts |
| DeviceRegistration.RegisteredIffEntered | src/internet_identity/src/anchor_management/tentative_device_registration.rs:23-253 | over every run an anchor is registered with an id and expiration if and only if it entered with them and nothing has ended it since |
| DeviceRegistration.ConfirmedSessionWasStored | src/internet_identity/src/anchor_management/tentative_device_registration.rs:214-295 | a session is handed out only if it was stored, and confirmed with the code issued for it, earlier in the same unexpired registration |
| DeviceRegistration.WrongCodeOnlyIfPending | src/internet_identity/src/anchor_management/tentative_device_registration.rs:187-240 | a wrong code is counted only against something pending, retries_left does not underflow and is zero exactly when the registration is removed |
| DeviceRegistration.AtMostThreeWrongCodes | src/internet_identity/src/anchor_management/tentative_device_registration.rs:187-240 | at most three wrong codes are answered against one issued code; the answer counts down, and the third ends the registration |
| DeviceRegistration.RegistrationIsFixed | src/internet_identity/src/anchor_management/tentative_device_registration.rs:38-59 | no operation changes expiration or id of a live registration |
| AccountInvariants.StoringKeepsNumbers | src/internet_identity/src/storage.rs:1365-1373 | a number handed out next is fresh and ends up in exactly one place of the reference lists |
| AccountInvariants.StoringCounts | src/internet_identity/src/storage.rs:1288-1323 | storing a number moves the true counts of its anchor, its application and in total by what was added, and no other count |
| AccountInvariants.StoringKeepsInv | src/internet_identity/src/storage.rs:1438-1509 | storing a fresh number below the limit keeps counters, numbering, lists and defaults in agreement |
| AccountRuns.RebuildChangesNothing | src/internet_identity/src/storage.rs:1391-1417 | a rebuild leaves every counter as it is |
| AccountRuns.LimitErrorIsGenuine | src/internet_identity/src/account_management.rs:388-414 | from any counter value, right or wrong, creating and updating report the limit only if the lists hold 500 numbered accounts, and leave the counter corrected |
| AccountRuns.CreateAdditionalKeepsInv | src/internet_identity/src/storage.rs:1438-1509 | an additional account keeps the ledger in agreement |
| AccountRuns.CreateDefaultKeepsInv | src/internet_identity/src/storage.rs:1730-1823 | storing the default account keeps the ledger in agreement if a read of it succeeds first |
| AccountRuns.CreateDefaultNeedsReadFirst | src/internet_identity/src/storage.rs:1741-1808 | on its own create_default_account keeps the agreement, and succeeds, if and only if that read would, also for an anchor at its limit; otherwise it returns the error with a number allocated that no list refers to. It keeps the limit if and only if the anchor is below it |
| AccountRuns.NumberedDefaultIsNotReadable | src/internet_identity/src/storage.rs:1741-1808 | after one call that numbers the default account that read fails, and create_default_account would break the agreement |
| AccountRuns.UpdateForOriginKeepsInv | src/internet_identity/src/account_management.rs:228-297 | through update_account_for_origin the agreement is kept in all cases and the missing-account error never occurs |
| AccountRuns.CreateForOriginKeepsInv | src/internet_identity/src/account_management.rs:194-226 | create_account_for_origin keeps the agreement in all cases, traps and errors included |
| AccountRuns.SetDefaultForOriginKeepsInv | src/internet_identity/src/account_management.rs:159-192 | a default is stored only for an account that the list of the anchor refers to |
| AccountRuns.FailedDefaultRegisters | src/internet_identity/src/account_management.rs:164-180 | setting a default that does not exist registers the application of a new origin with no account in it, and changes nothing else |
| AccountRuns.SetLastUsedKeepsInv | src/internet_identity/src/storage.rs:1239-1256 | marking an account as used keeps the agreement |
| AccountRuns.RunsKeepInv | src/internet_identity/src/storage.rs:1288-1323 | over all runs of the public account operations the three counters equal the references in the lists, each number is in exactly one list, defaults exist and no anchor exceeds its limit |
| AccountRuns.DefaultIsReadable | src/internet_identity/src/account_management.rs:122-150 | get_default_account_for_origin never returns its internal-inconsistency error |
| AccountRuns.ListingDropsNothing | src/internet_identity/src/storage.rs:1515-1541 | list_accounts shows every reference of the list, in order |
| AccountViews.AccountsAreBounded | src/internet_identity/src/account_management.rs:388-414 | after any run an anchor has at most 500 numbered accounts and at most twice as many references, in the lists and by its counter alike |
| AccountViews.OthersSeeNothing | src/internet_identity/src/account_management.rs:159-297 | a call changes nothing that another anchor, or the same anchor at another origin, can list or read as its default |
| AccountViews.ListingIsReferences | src/internet_identity/src/storage.rs:1515-1641 | a listing is the reference list with each account's name, seed and last use; without a list it is one synthetic default |
| AccountViews.CreatedIsListed | src/internet_identity/src/account_management.rs:194-226 | a created account is listed last, after exactly what was listed before, under a fresh number |
| AccountViews.UpdatedIsListed | src/internet_identity/src/account_management.rs:228-297 | a successful update changes the one listed account it names, gives the default a fresh number, and nothing else in the listing |
| AccountViews.StoredDefaultIsListed | src/internet_identity/src/storage.rs:1730-1823 | the numbered default takes the place of the default in the listing and keeps its last use |
| AccountViews.StoredDefaultIsRead | src/internet_identity/src/storage.rs:1755-1763 | and it is what is read as the default account afterwards |
| AccountViews.ChosenDefaultIsRead | src/internet_identity/src/account_management.rs:159-192 | setting a default succeeds if and only if the account is referenced and the bookkeeping does not trap, is then what is read back, and changes no listing |
| AccountViews.UsedIsListed | src/internet_identity/src/storage.rs:1239-1256 | using a stored account changes its last use in the listing and nothing else |
| AccountViews.CreateSucceedsIff | src/internet_identity/src/account_management.rs:194-226 | an account can be created if and only if fewer than 500 are in the lists, the lengths are within bounds and the bookkeeping does not trap; a failed call changes nothing |
| AccountViews.UpdateSucceedsIff | src/internet_identity/src/account_management.rs:228-297 | an account can be updated if and only if it is listed, an unnumbered one only below the limit, with the same provisos; a failed call changes nothing |
| AccountViews.CreateAnswers | src/internet_identity/src/account_management.rs:194-219 | each answer to creating an account if and only if name, count in the lists, origin and bookkeeping are as it says; the limit is looked at after the name and before anything can trap, and the counters are rebuilt only when it is reached |
| AccountViews.UpdateAnswers | src/internet_identity/src/account_management.rs:221-297 | each answer to updating an account, among them the trap on an account that is not listed |
| AccountViews.SetDefaultAnswers | src/internet_identity/src/account_management.rs:159-192 | each answer to choosing a default account |
| AccountViews.ReadingAnswers | src/internet_identity/src/account_management.rs:40-157 | listing accounts traps if and only if the origin is too long, reading the default if and only if moreover one is stored; without a stored one the default is the synthetic account |
| AccountStorage.Storage.LookupOrInsertApplication | src/internet_identity/src/storage.rs:1068-1096 | the number of the origin, handed out in sequence when it is new |
| AccountStorage.Storage.AllocateAccountNumber | src/internet_identity/src/storage.rs:1365-1373 | the total goes up by one and is the new number |
| AccountStorage.Storage.CountAccount | src/internet_identity/src/storage.rs:1288-1323 | anchor and application counter of accounts go up |
| AccountStorage.Storage.CountReference | src/internet_identity/src/storage.rs:1288-1323 | the three counters of references go up |
| AccountStorage.Storage.ListReferences | src/internet_identity/src/storage.rs:1376-1388 | as many references, and as many numbered ones, as the lists hold for the anchor |
| AccountStorage.Storage.RebuildCounters | src/internet_identity/src/storage.rs:1391-1417 | the counter of the anchor becomes the number of references in its lists |
| AccountStorage.Storage.CreateAdditionalAccount | src/internet_identity/src/storage.rs:1438-1509 | exactly the new ledger of the specification, counted in the order of the code, or the trap on an over-long origin with nothing changed |
| AccountStorage.Storage.CreateDefaultAccount | src/internet_identity/src/storage.rs:1730-1823 | exactly the new ledger of the specification, on the error path too |
| AccountStorage.Storage.Read | src/internet_identity/src/storage.rs:1548-1641 | the account read for a number or as the default, and the trap on an over-long origin |
| AccountStorage.Storage.UpdateExistingAccount | src/internet_identity/src/storage.rs:1675-1723 | the renamed account, or the error with nothing changed |
| AccountStorage.Storage.SetAccountLastUsed | src/internet_identity/src/storage.rs:1182-1256 | the reference found is marked, otherwise nothing changes |
| AccountStorage.Storage.List | src/internet_identity/src/storage.rs:1515-1541 | the readable accounts of the list in order |
| AccountStorage.Storage.CheckOrRebuildMaxAccounts | src/internet_identity/src/account_management.rs:388-414 | one rebuild, then the second check decides |
| AccountStorage.Storage.CreateAccountForOrigin | src/internet_identity/src/account_management.rs:194-226 | result and new ledger, a trap restoring the old one; the ledger stays in agreement |
| AccountStorage.Storage.UpdateAccountForOrigin | src/internet_identity/src/account_management.rs:228-297 | result and new ledger, a trap restoring the old one; the ledger stays in agreement |
| AccountStorage.Storage.SetDefaultAccountForOrigin | src/internet_identity/src/account_management.rs:159-192 | result and new ledger, or the trap of the bookkeeping, which rolls everything back; the ledger stays in agreement |
| AccountStorage.Storage.GetDefaultAccountForOrigin | src/internet_identity/src/account_management.rs:122-150 | the default account, synthetic where none is stored |
| ReverseIndices.RunsAreSound | src/internet_identity/src/storage.rs:906-1059 | after any writes an indexed pubkey, recovery principal or credential id is held by the anchor it leads to |
| ReverseIndices.WriteKeepsOthers | src/internet_identity/src/storage.rs:933-942 | no write takes a key from the other anchor it is indexed for |
| ReverseIndices.WriteKeepsCompleteIff | src/internet_identity/src/storage.rs:927-958 | a write loses a key from the index if and only if it gives up one that is indexed for it and another anchor holds too |
| ReverseIndices.WriteKeepsExactIff | src/internet_identity/src/storage.rs:906-1059 | from an exact index a write leads to an exact one if and only if the anchor takes no key that another holds |
| ReverseIndices.RunsAreExact | src/internet_identity/src/storage.rs:906-1059 | along every run in which no two anchors share a key the index is the exact inverse of the stored anchors |
| ReverseIndices.RewritingHeals | src/internet_identity/src/storage.rs:992-1004 | recovery principals and credential ids: once keys are no longer shared, writing every anchor again makes the index exact |
| ReverseIndices.RewritingPubkeysHealsIff | src/internet_identity/src/storage.rs:924-958 | pubkeys: writing anchors again leads to an exact index if and only if it was exact already |
| ReverseIndices.SharedPubkeyIsLost | src/internet_identity/src/storage.rs:924-958 | three writes after which no pubkey is shared and one cannot be found |
| OpenIdIndex.WriteKeepsSound | src/internet_identity/src/storage.rs:754-776 | after a write every full key leads to an anchor that holds the credential, whatever is stored |
| OpenIdIndex.WriteKeepsInvIff | src/internet_identity/src/storage.rs:754-776 | a write keeps every credential reachable if and only if the stored anchors are as expected afterwards: audiences present, one holder per key, one credential per issuer and subject |
| OpenIdIndex.MigratedIsGoneIff | src/internet_identity/src/storage.rs:845-886 | a legacy key is gone after its migration if and only if it does not resolve to an empty audience, in which case nothing changes |
| OpenIdIndex.BatchKeepsInv | src/internet_identity/src/storage.rs:811-890 | a batch keeps every credential reachable by its full or its legacy key and removes exactly the legacy keys it collected |
| OpenIdIndex.BatchMakesProgress | src/internet_identity/src/storage.rs:837-890 | a batch removes min(size, remaining) legacy keys, is reported done if and only if its size is zero or fewer keys than that were left before it, and with a positive size only when none is left |
| OpenIdIndex.MigrationKeepsCredentials | src/internet_identity/src/storage.rs:754-890 | any interleaving of batches and writes keeps every credential reachable, never creates a legacy key and gets closer to the end with each batch |
| OpenIdIndex.MigrationEnds | src/internet_identity/src/storage.rs:811-890 | as many batches as there were legacy keys make lookup the exact inverse of the stored anchors, whatever is written meanwhile |
| OpenIdIndex.AddingIsSafeIff | src/internet_identity/src/anchor_management.rs:185-197 | a credential that passes the uniqueness check may be added if and only if it has an audience, the anchor has no other one of its issuer and subject, and its legacy key does not lead to another anchor with the same credential |
| OpenIdIndex.CheckIsExactAfterMigration | src/internet_identity/src/anchor_management.rs:185-197 | after the migration the check is exact |
| OpenIdIndex.DuplicateDuringMigration | src/internet_identity/src/anchor_management.rs:185-197 | during the migration a second anchor can pass the check, and the next batch takes the credential out of its reach |
| OpenIdIndex.WriteKeepsExactIff | src/internet_identity/src/storage.rs:754-776 | from an exact OpenID index a write leads to an exact one if and only if the anchor takes no credential of another |
| OpenIdIndex.ChecksKeepCredentialsUnique | src/internet_identity/src/storage/anchor.rs:788-824 | from an exact index, over every run of checked additions and removals, the index stays exact and no two anchors ever hold the same credential, with nothing assumed of the credentials |
| OpenIdIndex.AddingAppends | src/internet_identity/src/storage/anchor.rs:788-811 | a checked addition appends the credential if and only if the index does not lead from it to an anchor, the anchor does not have it and has fewer than 100; no other anchor changes |
| OpenIdIndex.RemovingTakes | src/internet_identity/src/storage/anchor.rs:813-820 | a removal takes one occurrence of the credential from the anchor and changes no other |
| OpenIdIndex.SecondAudienceIsLost | src/internet_identity/src/storage.rs:845-886 | with two audiences for one issuer and subject a batch leaves the second credential unreachable |
| OpenIdReachability.MigrateOneKeepsReachableIff | src/internet_identity/src/storage.rs:843-886 | migrating a key leaves every credential reachable if and only if the first anchor has no other credential that depends on the legacy key and no other anchor holds the one that takes its place |
| OpenIdReachability.BatchKeepsReachableIff | src/internet_identity/src/storage.rs:811-890 | a batch leaves every credential reachable if and only if each of its keys is safe at the start, in whatever order they come |
| OpenIdReachability.WriteKeepsReachableIff | src/internet_identity/src/storage.rs:754-776 | a write leaves every credential reachable if and only if no other anchor depends on the full key of a credential that is given up or taken |
| OpenIdReachability.RunKeepsReachableIff | src/internet_identity/src/storage.rs:754-890 | along any run of writes and batches every credential is reachable all the time if and only if every step is safe when it is taken; of the stored anchors nothing is expected but audiences |
| OpenIdReachability.EmptyAudienceStays | src/internet_identity/src/storage.rs:845-886 | the legacy key of a credential without an audience stays in the index over every run of writes and batches, as long as the anchor keeps it |
| PasskeyRegistration.StepKeepsExactIff | src/internet_identity/src/main.rs:280-339 | from an exact pubkey index, any step (registering an anchor, adding, updating, replacing or removing a device, storing a tentative one, confirming it) leads to an exact one if and only if it is not one of three unchecked ones that give an anchor a passkey of another: a new anchor through the unchecked endpoints, a device that becomes a passkey in place, a confirmation |
| PasskeyRegistration.ConfirmingKeepsExactIff | src/internet_identity/src/main.rs:220-250 | for a confirmation these are the ones whose code fits a pending, unexpired passkey that is indexed for another anchor by then, on the state before the call |
| PasskeyRegistration.DevicesAfter | src/internet_identity/src/main.rs:280-339 | after any step an anchor has exactly the devices that the step gave it and those it had that the step did not take, with the conditions under which each endpoint does so |
| PasskeyRegistration.RunIsExactIff | src/internet_identity/src/main.rs:280-339 | along any run the pubkey index is the exact inverse of the passkeys of the anchors all the time, and so no passkey is shared, if and only if no step of the run is such a step |
| PasskeyRegistration.RunProjects | src/internet_identity/src/main.rs:200-250 | in every run of these endpoints the registrations go through a run of tentative registration alone, whose operations are those that took effect; so all that is proved over such runs holds here |
| PasskeyRegistration.ChecksKeepPasskeysUnique | src/internet_identity/src/anchor_management.rs:269-275 | over every run in which no passkey is gained without the check, the index is exact and passkeys are unique |
| PasskeyRegistration.SharedIsLost | src/internet_identity/src/storage.rs:906-959 | while two anchors share a passkey the index is not exact, and once the one it leads to removes the passkey, the other cannot be found by it |
| PasskeyRegistration.BothRegistered | src/internet_identity/src/anchor_management/registration.rs:62-118 | two anchors registered with one pubkey share the passkey |
| PasskeyRegistration.OneConverted | src/internet_identity/src/storage/anchor.rs:626-647 | an anchor has a recovery key, another one is registered with its pubkey as a checked passkey, the first updates the key to a passkey: they share it |
| PasskeyRegistration.BothConfirmed | src/internet_identity/src/anchor_management/tentative_device_registration.rs:100-116 | two anchors store and then confirm a device with one pubkey, and share it |
| AnchorStorage.Storage.Synchronize | src/internet_identity/src/storage.rs:906-1059 | owned keys that were given up go, free ones are added; the shape shared by the three indices |
| AnchorStorage.Storage.SyncPubkeys | src/internet_identity/src/storage.rs:906-959 | where each pubkey leads afterwards, on the pubkey fields of the previous and the current passkeys: one that was given up is gone unless it led elsewhere, one that is new to the anchor is found unless it is taken |
| AnchorStorage.Storage.SyncRecoveryPrincipals | src/internet_identity/src/storage.rs:961-1006 | the recovery index afterwards, adding all current keys |
| AnchorStorage.Storage.SyncCredentialIds | src/internet_identity/src/storage.rs:1009-1059 | the credential id index afterwards, adding all current keys |
| AnchorStorage.Storage.SyncOpenIds | src/internet_identity/src/storage.rs:754-776 | the OpenID index afterwards, removing and overwriting without regard to owners |
| AnchorStorage.Storage.Store | src/internet_identity/src/storage.rs:671-718 | the stored anchor, and where each pubkey, credential id, recovery key and OpenID credential leads afterwards |
| AnchorStorage.Storage.Write | src/internet_identity/src/storage.rs:641-721 | accepted if and only if the number is in the range and not beyond the next one, with the error that applies, else nothing changes; where each key of the four indices leads afterwards; every index leads only to anchors that have what was looked up |
| AnchorStorage.Storage.Read | src/internet_identity/src/storage.rs:724-751 | the stored anchor for allocated numbers only, with the error that applies |
| AnchorStorage.Storage.AllocateAnchor | src/internet_identity/src/storage.rs:588-597 | the next number in the range, or nothing when the range is used up |
| AnchorStorage.Storage.AllocateAnchorSafe | src/internet_identity/src/storage.rs:604-638 | the next number in the range with the anchor stored under it and found by all its keys that were free, or nothing changed at all |
| AnchorStorage.Storage.CollectLegacies | src/internet_identity/src/storage.rs:826-838 | min(size, all) different legacy keys |
| AnchorStorage.Storage.MigrateKey | src/internet_identity/src/storage.rs:843-886 | one legacy key replaced by the full key of the first anchor's credential, or dropped; the storage stays valid |
| AnchorStorage.Storage.MigrateKeys | src/internet_identity/src/storage.rs:843-886 | the second phase: the index after the collected keys, and exactly those reported that resolve to no credential |
| AnchorStorage.Storage.MigrateBatch | src/internet_identity/src/storage.rs:811-890 | the index after a batch, which keys were orphans and how many were processed; done if and only if the size is zero or fewer legacy keys than that were left; the storage stays valid |
| AnchorStorage.Storage.FindAudience | src/internet_identity/src/storage.rs:857-862 | the audience of the first credential with that issuer and subject |

## Left out

- Deployment and upgrade of the archive, its status, and the legacy `write_entry`: the archive exists and the
  protocol is the only writer to its log.
- `get_entries`, metrics, HTTP, the record of the last call and the ring of call errors: they only read or
  report.
- The instant between the archive's write and its acknowledging call: the two are one step, as nothing else of
  the archive runs between them.
- Payloads of archived operations are byte strings; Candid and CBOR encodings are not part of this model.
- Archived operations are assumed to be fewer than 2^64, and log positions likewise; account and application
  counters are unbounded numbers, and so are the summed weights of events.
- Event time is at least 30 days after the epoch and does not run backwards; the cursor's reset on upgrade and
  the listing of the top aggregations are not modelled. Domains and frontends of events are abstract.
- Temporary keys are assumed to be added at times whose expiration does not wrap around.
- Confirmation codes are inputs to registration, and for `DeviceRegistration` alone so is whether a pubkey is in
  use; `get_tentative_registration` and the syntax of registration ids are not modelled.
- Of the checks on a device that an anchor gains or changes, and on the anchor itself, all but the uniqueness of its
  pubkey are one input, as is whether an endpoint for new anchors checks that. Leaving registration mode with a new
  device is adding it, and then leaving. A device is its pubkey and whether it is stored as a passkey.
- The bookkeeping after an account operation is reduced to whether it traps; delegations and their signatures
  are not modelled. Account names and origins are byte strings with the source's length limits.
- Cell writes are assumed not to fail, so the storage errors that only they can cause do not occur.
- Names, metadata and creation times of anchors, and the size limits checked before an anchor is written, are
  not modelled; nor is changing the assigned range of anchor numbers.
- OpenID credentials are their keys; the metadata stored with them is not modelled.
- `FlowStates` has the shape of the temporary keys and would repeat their proofs.
- Captchas, rate limits, activity statistics, attribute sharing and the asset and frontend code are not part
  of this model.
