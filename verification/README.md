# Cirrusync: a verified model

Cirrusync keeps a set of DNS records equal to the public address of the host. This project models,
in Dafny, the protocols around its HTTP calls, and proves what they promise over every input, every
interleaving and every way of failing:

- the runtime locks, and any number of processes that take them and write to one DNS account
  (`RuntimeLocks`, `Fleet`, `GuardStability`);
- one synchronisation cycle, its convergence, idempotence, order of visits and deadline
  (`SyncCycle`, `Rotation`, `DnsStore`, `Reports`, `Configuration`);
- the `check` workflow and its proofs of edit permission (`CheckWorkflow`);
- shutdown, and the schedule of retries (`Shutdown`, `Schedule`);
- paged lookups and the zone cache (`Lookup`, `ZoneCache`);
- provider order and the shared time budget of address discovery (`Discovery`);
- the installer's transaction and its source trees (`Installer`, `SourceTrees`);
- version order, the upgrade policy over many runs, and the edit of the version files (`Versions`,
  `UpgradePolicy`, `UpgradeRuns`, `LineText`, `VersionFiles`).

`Text` and `Arithmetic` hold what several of these share. `dafny verify dfyconfig.toml` checks
everything.

## How the outside world enters

Server answers, the clock and failing operations are nondeterministic choices, or parameters that
range over every value.

- A lock file is held by one owner at a time, and dropping the file releases it.
- A request that fails took full effect before its sender saw the error, or none at all.
- `SyncCycle.World` lets every part of the store change at every request, except the part that the
  guard protects. `GuardStability.GuardedPartIsStable` proves of the interleaved processes that this
  is what a guard gives, over any number of their steps; writers that ignore the locks are outside
  both.
- Every zone ID bears one name for good. A configured zone resolves to any ID that bears its name,
  and to no other than its explicit ID if it has one, each time anew; or not at all, which counts as
  a failed request. What a cycle or a check promises is about the IDs that the zones were resolved
  to in it.
- A read awaited by a cycle or a check finds the flag for a write in flight down, and a write finds
  it up: these are preconditions of the requests in `SyncCycle.World`, and every caller meets them.
- A server's retry delay has the type of what the header parser returns, so every report carries
  capped delays.
- Local computation takes no time; requests take any time up to the request timeout.
- Record content is kept up to parsing it as an address. Names are compared without regard to ASCII
  case.
- A rename within one directory is atomic.

## What the proofs found

- `canonical_dns_name` is not idempotent: `"a. ."` needs two passes. `CanonicalNameFixedPoint` says
  for exactly which inputs one pass is enough. Validated names are fixed points.
- The zone cache answers an explicit ID in the spelling that was verified first (`ResolveTwice`),
  and an ID or name with a colon can share a key with another zone: `ColonsMislead` shows a wrong
  answer. `OwnSpellingsExactly` proves that a lookup shares its key only with its own spellings
  exactly when it holds no colon. Validated names and IDs hold none.
- The zone cache answers with a deleted zone until some request meets a 404 for it: resolve a
  validated record, delete its zone, resolve it again (`StaleWindow`). For validated records this is
  the only difference: an answer is the uncached one exactly when it is not a cached ID that was
  deleted with no 404 for it since (`HandleEvent`, `Session`).
- `restore_snapshot` does not check the removal of files that are new
  (`cirrusync-install.sh:220-223`). After a successful rollback the files are exactly the prior ones
  unless such a removal failed: `SuccessCanLeaveNewFile` is a rollback that reports success and
  leaves a new file behind, and `LeftoversExactly` states the condition both ways.
- `promote_source` records the backup's name before it checks that the name is free
  (`cirrusync-install.sh:3065-3067`). With a stale tree under that name, the rollback that follows
  deletes the current source tree. `StaleBackupDestroysTree` shows the input, `SurvivesExactly` gives
  the exact condition.
- A rollback that fails only in its last step, the removal of the recovery data, does not keep that
  data whole, although it sets the flag that preserves it. Everything has been restored by then.
  `FailedRollbackCanLoseItsData` shows such faults; `Rollback` says exactly what is kept.
- A replaced version is found again exactly when the new value has no quote, backslash or line break
  in the sense of Python's `splitlines`; the pattern for values alone excludes only CR and LF.
- The fair shares of address discovery rest on the number of providers fitting 32 bits:
  `SaturationBreaksFairness` is a call that breaks them, for every greater number. A configuration
  allows eight.

## Model

| member | source | states |
|---|---|---|
| Configuration.CanonicalNameFixedPoint | src/config.rs:661-663 | canonicalising twice equals canonicalising once exactly when removing the trailing dots uncovers no trailing white space |
| Configuration.CanonicalNameTwiceExample | src/config.rs:661-663 | an input on which a second pass changes the result |
| Configuration.CanonicalNameShape | src/config.rs:661-663 | a canonical name is lower case, begins with no white space and ends with no dot |
| Configuration.CanonicalNameOf | src/config.rs:661-663 | a name with white space around it and dots behind it is canonicalised to the name in lower case |
| Configuration.CanonicalIdOf | src/config.rs:309-333 | an ID is canonicalised to its lower-case text without white space around it, and to none if nothing is left |
| Text.TrimExactly | src/config.rs:661-663 | trimming removes all white space at both ends and nothing else |
| Text.WhiteSpaceExactly | src/config.rs:661-663 | what trimming removes are the 25 characters with the Unicode property White_Space |
| Text.FoldsExactly | src/config.rs:661-663 | lower-casing identifies two characters exactly if they are one ASCII letter in two cases |
| Configuration.Config.Canonicalize | src/config.rs:309-333 | every record, the account ID and every provider are rewritten to their canonical form, in place, and lists keep their length and order |
| Configuration.Config.Validate | src/config.rs:203-287 | accepts exactly the configurations whose ranges, token path, account ID and providers are acceptable and whose records are valid, have an enabled family and name distinct resources |
| Configuration.ScreenRecords | src/config.rs:250-284 | the record loop names the first offender; everything before it is acceptable |
| Configuration.AcceptedExactly | src/config.rs:572-627 | exactly which records are accepted, character by character: lower-case DNS names, the name the zone or under it, 32 hexadecimal digits, the TTL ranges, TTL 1 with the proxy |
| Configuration.DnsNameExactly | src/config.rs:629-659 | a name is accepted exactly when it has at most 253 characters and every piece between dots is a plain label of at most 63 or a leading asterisk |
| Configuration.ScreenProviders | src/config.rs:524-570 | accepts exactly enough but at most eight providers, each with an acceptable URL, no URL twice |
| Configuration.Config.ScreenSettings | src/config.rs:204-240 | refuses exactly when the interval is outside 60 to 86400, the timeout outside 1 to 120, the token path relative, or the account ID not 32 lower-case hexadecimal digits |
| Configuration.DnsNameExcludes | src/config.rs:629-659 | a validated name has no character outside letters, digits, hyphens, dots and an asterisk |
| Configuration.ValidRecordIsCanonical | src/config.rs:572-627 | an accepted record is a fixed point of canonicalisation |
| Configuration.ValidRecordsAreNamedApart | src/config.rs:250-284 | accepted records name pairwise different resources by their own fields |
| RuntimeLocks.Fnv1aHash | src/updater.rs:1003-1012 | the loop computes the left fold of the FNV-1a step over the bytes |
| RuntimeLocks.FnvVectors | src/updater.rs:1003-1012 | three published test vectors of FNV-1a |
| RuntimeLocks.LockHashExactly | src/updater.rs:977-989 | the lock of a validated record is the hash of its zone, type and name as they are, with NUL between them |
| RuntimeLocks.LockIdentityInjective | src/updater.rs:977-989 | validated records with equal lock identities name the same resource |
| RuntimeLocks.SortedUnique | src/updater.rs:905-911 | sorting and removing duplicates gives a strictly increasing list of the same hashes |
| RuntimeLocks.OrderIsForced | src/updater.rs:905-911 | every process orders a given set of locks in the same way |
| RuntimeLocks.LockOrder | src/updater.rs:892-919 | the lock list is strictly increasing and covers the resource of every record |
| RuntimeLocks.StepKeepsLockInv | src/updater.rs:930-955 | every step of every attempt keeps the link between stages and held files, and keeps somebody to blame for each contended attempt |
| RuntimeLocks.RunKeepsLockInv | src/updater.rs:930-955 | the invariant holds in every state of every run |
| RuntimeLocks.ContendNamesAnother | src/updater.rs:930-955 | an attempt never contends with itself: the file it finds locked belongs to another attempt |
| RuntimeLocks.GuardsAreDisjoint | src/updater.rs:930-955 | two complete guards never share a lock file |
| RuntimeLocks.ContentionHasACause | src/updater.rs:930-955 | an attempt that lost lock h was beaten by one that succeeded or failed at a strictly higher lock |
| RuntimeLocks.SomeAttemptSucceeds | src/updater.rs:930-955 | when attempts fail only by contention, at least one of them succeeds |
| RuntimeLocks.LoneProcessNeverContends | src/updater.rs:905-911 | a process alone never contends, even when two of its records hash alike |
| DnsStore.ServedKeepsOtherSlots | src/updater.rs:804-832 | a write changes nothing outside the slot it is for |
| DnsStore.ServedMatches | src/updater.rs:804-832 | an update or probe keeps the set of matching records; a creation adds one |
| DnsStore.FlatLookupExactly | src/cloudflare.rs:755-816 | a lookup finds none, the only record, or is ambiguous exactly as there are records of the zone, type and name, in any case |
| DnsStore.ConvergedExactly | src/updater.rs:1601-1619 | converged means that the only record of zone, type and name has the address, the TTL and the proxy flag |
| Fleet.RunKeepsFleetInv | src/updater.rs:761-832 | in every reachable state of any number of processes, what each one believes about the store is true and each works only under its guard |
| Fleet.GuardsCoverDifferentResources | src/updater.rs:930-989 | two guards held at once cover different resources |
| Fleet.OneWriterPerResource | src/updater.rs:293-307 | no two processes have writes to one slot in flight |
| Fleet.WritesAreGuarded | src/updater.rs:416-435 | every create, update or probe in flight is for a configured record whose lock file its sender holds |
| Fleet.StepAddsOnlyToEmptySlots | src/updater.rs:761-832 | a step adds a record only to an empty slot and never removes one |
| Fleet.NoDuplicateRecords | src/updater.rs:761-832 | over every run, with lost responses, a slot that starts with at most one record never gets a second |
| Fleet.MissingRecordCanBeCreated | src/updater.rs:761-832 | the steps allow what they should: from the start any process can take its locks and create any missing record it may create |
| Fleet.GuardExcludesInterference | src/updater.rs:930-955 | while a process holds its guard, no step of another changes any slot it may use |
| Fleet.GuardHoldsOverStretch | src/updater.rs:930-955 | the same over any stretch of a run in which the process keeps its guard and does not work |
| GuardStability.GuardedPartIsStable | src/updater.rs:930-955 | over such a stretch the whole part of the store that the guard covers is unchanged |
| Rotation.IndexAt | src/updater.rs:330-332 | the index computation visits each offset of the rotation |
| Rotation.VisitsArePermutation | src/updater.rs:325-332 | each cycle visits the records in a permutation |
| Rotation.FirstVisitsAt | src/updater.rs:330-332 | the visit at each offset is that distance from the first, modulo the number of records |
| Rotation.EveryRecordLeadsOnce | src/updater.rs:325-330 | over n consecutive cursor values each of n records leads exactly once |
| Rotation.EveryRecordIsReached | src/updater.rs:325-332 | of any n consecutive cycles past discovery, before the cursor wraps, each record is the first visit of exactly one |
| Rotation.WrapKeepsOrder | src/updater.rs:325-330 | when the 64-bit cursor wraps, the rotation keeps its order exactly if n divides two to the sixty-fourth |
| Reports.LongestRetryAfter | src/updater.rs:135-141 | the largest delay that any failure asks for, and none exactly if none asks |
| Reports.ClassifiedExactly | src/updater.rs:1538-1559 | error by error, the kind of the failure and its retry delay |
| SyncCycle.World.Send | src/cloudflare.rs:826-904 | one write takes full effect or none within the request timeout; an acknowledged one took effect; it is sent only with the flag for a write in flight up |
| SyncCycle.PlanRecord | src/updater.rs:761-802 | a plan fits the store, in the zone just resolved: nothing to do exactly when converged, update of the only match, creation of a twice-missing record; planning fails only for cause |
| SyncCycle.PlanInZone | src/updater.rs:775-802 | once the zone is resolved, a plan that fits is made unless a lookup fails, the record is ambiguous, or it is missing without leave to create it, with the error that says so; a creation is planned only after two lookups |
| SyncCycle.ServedPlanConverges | src/updater.rs:1601-1619 | carrying out a fitting plan leaves exactly one record with the address, TTL and proxy flag |
| SyncCycle.ExecutePlan | src/updater.rs:804-832 | sends exactly the planned write, touches nothing outside its slot, reports done only if converged, fails only if the request does, and leaves the in-flight flag down |
| SyncCycle.SyncRecord | src/updater.rs:341-356 | a record is planned before the deadline and only then written; at most one write, in its slot of the zone resolved in this visit; done means converged there |
| SyncCycle.CarryOut | src/updater.rs:341-363 | a plan executed before the deadline: at most one write, with the payload the record is owed, counted as created or updated exactly when that write is acknowledged |
| SyncCycle.DifferentSlots | src/config.rs:250-284 | records that are named apart never share a slot, whatever IDs their zones are resolved to |
| SyncCycle.DiscoverRequired | src/updater.rs:713-759 | exactly the families that some record needs are tried, and what is found for a family is of that family |
| SyncCycle.ForRecordExactly | src/updater.rs:1489-1505 | an A record gets the IPv4 address and an AAAA record the IPv6 address, and only those |
| SyncCycle.SyncedExactly | src/updater.rs:1489-1505 | a record is synced exactly when the only record of its zone, type and name carries the address of its own family, its TTL and its proxy flag |
| SyncCycle.OnlyLastCrosses | src/updater.rs:341-356 | every write of a cycle is to a configured slot and touched only a record of that slot; only the last can end after the deadline |
| SyncCycle.EachWriteFulfills | src/updater.rs:804-832 | every write of a cycle goes to the slot of a configured record and carries its type, name, TTL, proxy flag and the address of its family |
| SyncCycle.Updater.constructor | src/updater.rs:251-266 | a validated configuration gives an updater whose records are apart, with its cursor at zero |
| SyncCycle.Updater.VisitRecord | src/updater.rs:341-402 | a visit keeps every other record as synced, in the zone its own was resolved to, and as feasible as it was |
| SyncCycle.Updater.TakeTurn | src/updater.rs:331-402 | every turn keeps the loop's account of counters, writes, time, synced and remaining records |
| SyncCycle.Updater.TakeTurns | src/updater.rs:331-403 | turns are taken in rotation until all are done, a failure calls for a stop, or stop is requested; no turn follows a deadline, a refused token or a rate limit, and nothing else ends the loop early; unless stop was requested before, at least one is taken |
| SyncCycle.Updater.RunCycleUntil | src/updater.rs:314-403 | success means that of every record there is exactly one, in the zone its own was resolved to in this cycle, with the discovered address of its family, TTL and proxy flag, and unchanged + updated + created = records; updated and created are the acknowledged updates and creations; a store that is synced where the zones are found gets no write; every write carries what a configured record is owed, touches no record outside its slot, and ends within one request timeout of the deadline; past discovery the first record of the rotation is visited; the cycle ends early only for a deadline, a refused token, a rate limit or a stop request, which stays visible; failure only for cause |
| SyncCycle.Updater.RunCycles | src/daemon.rs:68-95 | over any number of cycles, each that gets past discovery visits first the record its cursor value calls for, and each that does not accounts for a failed request |
| SyncCycle.Updater.RunTwice | src/updater.rs:314-403 | after a successful cycle, a second that finds the same addresses and the zones where the first found them sends nothing and counts every record unchanged |
| CheckWorkflow.ZoneProofs.constructor | src/updater.rs:1651-1661 | every configured zone is expected, none resolved or proven |
| CheckWorkflow.ZoneProofs.MarkResolved | src/updater.rs:1663-1666 | the latest resolution of a zone counts |
| CheckWorkflow.ZoneProofs.MarkProven | src/updater.rs:1672-1674 | an acknowledged write proves its zone ID |
| CheckWorkflow.ZoneProofs.IsComplete | src/updater.rs:1684-1690 | comparing sizes is enough: complete exactly when every expected zone is resolved to a proven ID |
| CheckWorkflow.ZoneProofs.UnverifiedTargets | src/updater.rs:1692-1715 | one target per distinct unverified key, and none exactly when every expected zone is verified |
| CheckWorkflow.ZoneProofs.TargetsApart | src/updater.rs:1692-1715 | resolved zones share a target exactly if they have one ID, and never with an unresolved one |
| CheckWorkflow.SendAndProve | src/updater.rs:702-711 | a zone is marked proven exactly for acknowledged writes, and the write ends before the deadline |
| CheckWorkflow.HandleExisting | src/updater.rs:552-583 | an existing record is counted once and probed only if its zone is not proven; a probe under the guard changes nothing; with probing allowed, no failure means its zone is proven |
| CheckWorkflow.MildIsHarmless | src/cloudflare.rs:855-880 | a probe that sends back what the record holds, and a creation, leave every record under the guard unchanged |
| CheckWorkflow.CreateMissing | src/updater.rs:641-663 | a creation is sent only if it can finish in time, with the address, TTL and proxy flag of the record, counted exactly when acknowledged, and then proves its zone; in an empty slot under the guard it leaves exactly that record; without faults in an unambiguous slot it does not fail |
| CheckWorkflow.HandleRechecked | src/updater.rs:634-663 | what is found at the second lookup is handled as existing, and what is missing again is created |
| CheckWorkflow.RecheckAndCreate | src/updater.rs:609-663 | counted as created exactly when a creation was acknowledged, which is sent only if the record is missing again and time is left |
| CheckWorkflow.HandleMissing | src/updater.rs:585-663 | a missing record is a permanent failure, creatable, or created after a second lookup, as its configuration and the options say |
| CheckWorkflow.ResolveRecordZone | src/updater.rs:675-700 | a resolution is entered in the proofs, under an ID that bears the name, exactly when it succeeds |
| CheckWorkflow.HandleLooked | src/updater.rs:490-550 | an existing record is probed and a missing one handled; nothing outside its slot changes, and it fails only for cause |
| CheckWorkflow.CheckIndexed | src/updater.rs:490-550 | the check of one record leaves the others as findable as they were and the zones already verified so, also when a zone is resolved to another ID than before |
| CheckWorkflow.StayVerified | src/updater.rs:1663-1690 | resolving a zone to another ID that is proven leaves every zone verified |
| CheckWorkflow.InspectRecord | src/updater.rs:675-700 | the record is looked up in the zone that its configured zone was just resolved to |
| CheckWorkflow.CheckRecord | src/updater.rs:490-550 | one record is inspected and handled; a created one then holds what it is owed; nothing else under the guard changes; without faults a record that can be found or created leaves its zone proven under the ID just resolved |
| CheckWorkflow.CheckTurn | src/updater.rs:497-550 | the check goes on after a record exactly when it brought no deadline, refused token or rate limit |
| CheckWorkflow.CheckInOrder | src/updater.rs:497-550 | the loop checks the records in order and ends early only after a failure that calls for it |
| CheckWorkflow.CheckRecords | src/updater.rs:490-550 | without failures every record is counted, and the proofs mirror what the run did |
| CheckWorkflow.Finalize | src/updater.rs:1718-1741 | edit permission is reported exactly when every expected zone is verified; otherwise a failure is added |
| CheckWorkflow.CheckAndFinalize | src/updater.rs:1718-1741 | no failures only if every expected zone was proven in this run |
| CheckWorkflow.CheckUntil | src/updater.rs:437-488 | edit permission is reported exactly when every configured zone was last resolved to an ID with an acknowledged write in this run; success means existing + creatable + created = records, with none creatable if creations are allowed; every write is for a configured record in a zone its own was resolved to, a creation carries the discovered address of its family, TTL and proxy flag, and all start early enough to finish; under the guard no existing record changes, and without leave to create none is added; a read-only check writes nothing and never succeeds; one that may create and probe fails only for cause |
| CheckWorkflow.PlacedAt | src/updater.rs:490-550 | each write of a check is to the slot of a configured record, in a zone that the record's own was resolved to, carries all it is owed if it is a creation, and under the guard touches nothing else |
| CheckWorkflow.VerifyToken | src/updater.rs:449-470 | the token check passes exactly when no request fails; it ends the check exactly at the deadline or for a token that is refused, not permitted or limited |
| CheckWorkflow.Prelude | src/updater.rs:449-477 | token check and discovery come first, and without addresses the check ends with a failure |
| CheckWorkflow.Check | src/updater.rs:416-435 | without the lock a check writes nothing and does not succeed; it is over within 300 seconds |
| Shutdown.StepKeepsInv | src/daemon.rs:68-95 | every event keeps the flag up from before a request is sent until after its answer and at no other point, and drains only cycles with a write in flight |
| Shutdown.FlagMeansMutation | src/updater.rs:865-881 | at every await of every run, the flag says whether the await is for a write |
| Shutdown.NoMutationIsDropped | src/daemon.rs:78-94 | wherever the signal arrives, the daemon never exits with a write started and unanswered |
| Shutdown.NoMutationAfterSignal | src/updater.rs:331-356 | no write starts after the signal is noticed |
| Shutdown.ShutdownIsPrompt | systemd/cirrusync.service:18-20 | the wait after the signal is at most one request timeout, below the unit's stop timeout |
| Shutdown.DrainingCanOnlyEnd | src/daemon.rs:80-91 | while draining, every event but the passing of time brings the cycle nearer its end or is the exit |
| Shutdown.WriteCanBeCaught | src/daemon.rs:76-94 | at any moment of a write the signal can catch it; then the daemon waits for the answer, starts no other write and exits |
| Schedule.BackoffMonotone | src/daemon.rs:162-175 | for fixed jitter more failures never shorten the backoff |
| Schedule.BackoffFormula | src/daemon.rs:162-175 | the modelled backoff is the saturating product formula of the code |
| Schedule.BackoffExactly | src/daemon.rs:162-175 | the delay after n failures is the percentage of 5 seconds doubled n - 1 times and at most 300; the saturations do not show |
| Schedule.BackoffBounds | src/daemon.rs:153-160 | the backoff is between 2 and 300 seconds |
| Schedule.RetryDelayBounds | src/daemon.rs:129-150 | a retry waits at least 2 seconds, at most the larger of interval and one hour, and no less than any server asked for |
| Schedule.DelaySecondsAreUnderstood | src/cloudflare.rs:1117-1127 | every decimal delay, with white space around it and with or without a plus, is read as itself up to one hour and as one hour beyond it; only what exceeds 64 bits is not read |
| Schedule.RetryAfterExactly | src/cloudflare.rs:1117-1127 | a header is understood exactly when it holds a decimal number of at most 64 bits (delay-seconds, section 10.2.3 of RFC 9110), and then the delay is that number capped at one hour |
| Schedule.NextDelay | src/daemon.rs:97-150 | the wait is the interval after a success; else 300 seconds if the token was refused, the backoff if something may pass by itself, otherwise the interval, or the longest delay a server asked for if that is longer |
| Schedule.WaitIsDue | src/daemon.rs:129-150 | the same of the computed delay, for every report and counter |
| Schedule.AfterCycle | src/daemon.rs:97-110 | one report moves the counter and the schedule on by one cycle |
| Schedule.FailuresExactly | src/daemon.rs:97-103 | the unsaturated counter is n exactly if the last n cycles failed and the one before succeeded |
| Schedule.RunLoop | src/daemon.rs:63-112 | every wait follows from its report and a counter equal to the saturated number of failed cycles since the last success |
| Schedule.ScheduledAt | src/daemon.rs:63-112 | the same for each cycle by number |
| Lookup.ScanPages | src/cloudflare.rs:674-743 | at most 100 requests to any server; against a served list, the paged result of that list, or a request's own error |
| Lookup.ScanPage | src/cloudflare.rs:700-715 | folding one page into the scan is scanning the longer list |
| Lookup.ReadPage | src/cloudflare.rs:684-718 | one request extends the scan by its page, and another follows exactly when the list continues |
| Lookup.FittingListsAreScannedFlat | src/cloudflare.rs:1106-1115 | when the list fits the page limit, paging makes no difference |
| Lookup.RoomOnPages | src/cloudflare.rs:22-24 | the page limit is 5000 zones or 10000 records, one less when pages are not counted |
| Lookup.FindRecord | src/cloudflare.rs:755-816 | the lookup returns what the store holds in the slot: none, the only match, or ambiguous; with failing requests, any success is still that |
| Lookup.FlatScanIsStoreLookup | src/cloudflare.rs:755-816 | scanning a list of the store's records is the same as asking the store |
| Lookup.FindZone | src/cloudflare.rs:674-743 | the lookup returns what a scan of the account's zones gives: not found, inactive only, ambiguous, or the ID |
| Lookup.FlatZoneExactly | src/cloudflare.rs:702-736 | the ID of the only active zone of the name, whatever inactive ones there are; ambiguous exactly for two active ones; the status of the first if none is active; not found exactly if there is none |
| Lookup.FlatZoneIsUniqueActive | src/cloudflare.rs:674-743 | a found ID is that of the only active zone of the name |
| ZoneCache.PlainKeysAreInjective | src/cloudflare.rs:630-634 | lookups by name, and colon-free ones by ID, share a key exactly with lookups that differ in case only |
| ZoneCache.OwnSpellingsExactly | src/cloudflare.rs:630-634 | a lookup shares its key with its own spellings only, exactly when it is by name or holds no colon |
| ZoneCache.OtherCut | src/cloudflare.rs:630-634 | for every lookup by ID with a colon, another of a different ID that has the same key |
| ZoneCache.ColonCollision | src/cloudflare.rs:630-634 | two lookups of different zones that share a key, because an ID has a colon |
| ZoneCache.ColonsMislead | src/cloudflare.rs:625-637 | with such a key cached, a lookup that the account would refuse is answered with the other zone |
| ZoneCache.KindsOfKeyNeverCollide | src/cloudflare.rs:630-675 | explicit-ID and name keys never collide |
| ZoneCache.ValidRecordsArePlain | src/config.rs:572-627 | every validated record is looked up with a colon-free, lower-case key |
| ZoneCache.ExplicitExactly | src/cloudflare.rs:639-664 | an explicit ID is accepted exactly when the account has an active zone of that name and ID, in any case; and which error each other answer gives |
| ZoneCache.EntryIsConfirmed | src/cloudflare.rs:635-672 | every cached ID is that of such a zone, and a cached name has that ID as its only active zone |
| ZoneCache.EntryAgrees | src/cloudflare.rs:635-637 | a cached entry is what the lookup would find now, up to the case of an explicit ID |
| ZoneCache.CanonicalEntryAgrees | src/cloudflare.rs:635-637 | a cached lookup with a lower-case ID is exactly what the account would answer |
| ZoneCache.SpelledGrows | src/cloudflare.rs:665-671 | caching such lookups keeps each of their keys mapped to the ID it was made from |
| ZoneCache.Client.ResolveExplicit | src/cloudflare.rs:625-672 | a hit is answered from the cache; otherwise the ID is accepted and cached exactly when the account confirms its name, ID and activity; if the cache agrees with the account and canonical keys map to their own IDs, the answer to a canonical lookup is exactly the uncached one, and they go on doing so |
| ZoneCache.Client.ResolveNamed | src/cloudflare.rs:674-743 | a hit is answered from the cache; otherwise the ID of the only active zone of the name is answered and cached; if the cache agrees with the account, so does the answer |
| ZoneCache.Client.Resolve | src/cloudflare.rs:613-623 | a lookup with or without an ID is answered as uncached exactly when it is not a hit on an ID that was deleted unnoticed |
| ZoneCache.HitAgreesExactly | src/cloudflare.rs:635-637 | a hit is what the account would answer exactly when its ID was not deleted unnoticed |
| ZoneCache.DeletionGoesUnnoticed | src/cloudflare.rs:906-913 | a deletion by itself makes stale no entry but those of its ID, which the account then no longer knows |
| ZoneCache.NoticeClears | src/cloudflare.rs:906-913 | the eviction after a 404 leaves nothing stale of that ID |
| ZoneCache.Client.Invalidate | src/cloudflare.rs:906-913 | after a 404 no key maps to the ID and every other entry survives; other errors change nothing |
| ZoneCache.EvictionFollowsDeletion | src/cloudflare.rs:906-913 | after a zone is deleted, evicting its ID makes the cache agree with the account again |
| ZoneCache.StaleExactlyWhenGone | src/cloudflare.rs:906-913 | deletion makes stale exactly the entries that eviction removes |
| ZoneCache.Client.ForgetDeleted | src/cloudflare.rs:906-913 | after the eviction a lookup of the deleted zone asks again and reports its absence |
| ZoneCache.StaleWindow | src/cloudflare.rs:625-637 | for every validated record with an ID: looked up, its zone deleted, looked up again, it is answered although the account would report 404 |
| ZoneCache.HandleEvent | src/cloudflare.rs:613-623 | one lookup of a validated record, failed request or deletion: the answer is the uncached one exactly when it is not a hit on an ID that was deleted unnoticed |
| ZoneCache.Session | src/cloudflare.rs:613-743 | from the empty cache, through any sequence of such events, each answer is the uncached one of its moment exactly when it is not an ID deleted with no 404 for it since |
| ZoneCache.ExactAt | src/cloudflare.rs:613-743 | the same for each answer by number; it is exact whenever every deletion before it was noticed |
| ZoneCache.ResolveTwice | src/cloudflare.rs:625-672 | the cached answer equals the uncached one exactly when the spelling is the same |
| Discovery.NextShareIsNoSmaller | src/public_ip.rs:110-118 | whoever keeps to its share leaves at least that share for each later provider |
| Discovery.ShareOf | src/public_ip.rs:114-115 | a share is what is left divided by the providers left, a divisor that saturates at 32 bits |
| Discovery.FairSharesAreOrdered | src/public_ip.rs:98-137 | shares never decrease along the list and none is below the fair one |
| Discovery.PunctualSharesAreFair | src/public_ip.rs:98-137 | on punctual attempts the next share is never below the one before or the fair one |
| Discovery.GivesUpExactly | src/public_ip.rs:108-118 | on punctual attempts the next share is nothing exactly when there are fewer nanoseconds than providers |
| Discovery.TryInOrder | src/public_ip.rs:106-136 | each share is an equal part of what is left at its moment, and the loop gives up early only when that is nothing |
| Discovery.SaturationBreaksFairness | src/public_ip.rs:114-115 | for every number of providers beyond 32 bits, a call that gives its second provider less than its first |
| Discovery.Discover | src/public_ip.rs:98-137 | the first valid answer in order after failed attempts at all before it; the timeout is overrun by at most the last attempt's lag; on punctual attempts the shares are fair and the deadline error occurs exactly when there are fewer nanoseconds than providers |
| Discovery.ResponsiveProviderIsEnough | src/public_ip.rs:98-137 | a provider that answers within the fair share is never passed over |
| Versions.ParseOfPrint | scripts/versioning.py:59-94 | a printed version parses to itself exactly when it is in range |
| Versions.PrintOfParse | scripts/versioning.py:59-94 | whatever parses is what its version prints as; the bound on components is implied by the pattern |
| Versions.TupleOrderIsPrecedence | scripts/versioning.py:51-57 | the order of the dataclass is the precedence of item 11 of Semantic Versioning 2.0.0 |
| Versions.PrecedenceIsTotalOrder | scripts/versioning.py:51-57 | that precedence is a strict total order |
| Versions.CompareReleaseVersions | cirrusync-install.sh:1450-1505 | the shell comparison fails exactly on invalid text and otherwise agrees with the precedence order |
| Versions.BumpIsNext | scripts/versioning.py:78-91 | a bump strictly increases, stays in range and is the least version outside the line it leaves |
| Versions.BumpsExactly | scripts/versioning.py:78-91 | a bump is refused exactly for an unknown component or when no version in range is later, off the line and the same above it |
| UpgradePolicy.ComparisonVersion | cirrusync-install.sh:1625-1664 | the script's floor is the higher of the readable versions, refused exactly when the binary is unreadable without force or source |
| UpgradePolicy.FloorIsHighest | cirrusync-install.sh:1625-1664 | the floor is the highest of the versions that can be read |
| UpgradePolicy.DecidesExactly | cirrusync-install.sh:1612-1708 | exactly when a request proceeds, in terms of floor, candidate, force, commits and completeness; a readable candidate above the floor of a measurable machine always proceeds; exactly when it is a no-op |
| UpgradePolicy.EvaluateUpgradeCandidate | cirrusync-install.sh:1612-1708 | the script's order of tests decides as the policy does: refused exactly for an unreadable candidate, an unmeasurable machine, a downgrade, or a changed commit without a new version; nothing to do exactly when binary and checkout are the candidate and complete |
| UpgradePolicy.RunKeepsFloor | cirrusync-install.sh:2163-2172 | no completed run lowers the floor, with or without force |
| UpgradePolicy.FloorNeverDrops | cirrusync-install.sh:3311-3320 | over any sequence of completed runs the floor never decreases |
| UpgradePolicy.DowngradeIsRefusedForever | cirrusync-install.sh:1700-1702 | a candidate below anything the machine ever had is refused from then on |
| UpgradePolicy.CommitIsIdempotent | cirrusync-install.sh:1679-1699 | after a commit the same request is a no-op |
| UpgradeRuns.Upgrade | cirrusync-install.sh:3303-3320 | deciding, checking the build and running the transaction is a step of the policy's histories unless the rollback fails |
| LineText.LinesOfConcat | scripts/versioning.py:471-475 | joining well-split lines and splitting again gives the same lines |
| LineText.ConcatOfLines | scripts/versioning.py:471-475 | splitting and joining again gives the same text |
| LineText.LineOfBody | scripts/versioning.py:106-111 | a line is its body and an ending, CRLF, LF, CR or none |
| LineText.BreaksExactly | scripts/versioning.py:140-142 | the ten characters at which Python ends a line |
| LineText.AssignmentIsMatched | scripts/versioning.py:114-133 | every text of blanks, key, equals sign, quoted value and comment matches, and is cut at its quotes |
| LineText.MatchedIsAssignment | scripts/versioning.py:114-133 | and nothing else matches |
| LineText.BodyLens | scripts/versioning.py:114-133 | a match is exactly its three parts, and any clean value fits between the outer two |
| LineText.LineLens | scripts/versioning.py:106-133 | with another clean value the line is still one line, has the same ends, and matches with that value |
| VersionFiles.AssignmentIsNothingElse | scripts/versioning.py:142-156 | a line with an assignment is no table header and assigns no other key |
| VersionFiles.HeaderIsRead | scripts/versioning.py:38-43 | every header of blanks, brackets, name and comment is recognised, with its name stripped |
| VersionFiles.ReadIsHeader | scripts/versioning.py:38-43 | and nothing else is |
| VersionFiles.PyTrimExactly | scripts/versioning.py:144-147 | stripping removes the white space at both ends and nothing else |
| VersionFiles.BracketExactly | scripts/versioning.py:151-153 | a line ends a table if its first character that is not white space is a bracket |
| VersionFiles.ManifestPackageAssignment | scripts/versioning.py:135-172 | the loop computes the fold of the line views: exactly one package table and one assignment in it |
| VersionFiles.ManifestFinds | scripts/versioning.py:135-172 | an assignment is found only if there is one package table and in it, before any other header, one line that assigns the key; it is the one on that line |
| VersionFiles.ManifestIsFound | scripts/versioning.py:135-172 | and always then |
| VersionFiles.LockVersionAssignment | scripts/versioning.py:181-250 | the same for the package blocks of the lock file |
| VersionFiles.LockFinds | scripts/versioning.py:181-264 | a version is found only if there are as many package headers as packages, and the table of the one asked for has one name, cirrusync, and one version; it is the one on that line |
| VersionFiles.LockIsFound | scripts/versioning.py:181-264 | and always then |
| VersionFiles.ManifestLookupReads | scripts/versioning.py:135-172 | the reported assignment is the one on the line it names |
| VersionFiles.LockLookupReads | scripts/versioning.py:181-250 | the same for the lock file |
| VersionFiles.ManifestPutGet | scripts/versioning.py:468-475 | scanning again after a replacement finds the same line with the new value exactly when the value is clean |
| VersionFiles.LockPutGet | scripts/versioning.py:468-475 | the same law for one package of the lock file |
| VersionFiles.GetPut | scripts/versioning.py:468-475 | writing back the value that was found changes nothing |
| VersionFiles.PutPut | scripts/versioning.py:468-475 | the second replacement wins, and replacing back restores the text |
| VersionFiles.OnlyTheValueChanges | scripts/versioning.py:468-475 | a replacement changes the characters of the value and no other |
| VersionFiles.BumpRevalidates | scripts/versioning.py:547-555 | the updated pair validates with the new version |
| VersionFiles.ValidatedExactly | scripts/versioning.py:369-465 | a version validates exactly when the parser accepts the files and both hold its text |
| VersionFiles.TargetExactly | scripts/versioning.py:536-556 | if the parser sees the package where it was and has no other objection, a bump of valid files is refused only when their version cannot be bumped |
| VersionFiles.VersionRepository.AtomicWrite | scripts/versioning.py:496-513 | a failed write leaves the old text or the new, never a mixture |
| VersionFiles.VersionRepository.Bump | scripts/versioning.py:536-579 | both files new with a strictly higher version, or refused and untouched, or each file original unless its restoring write failed |
| SourceTrees.PreviousTreeSurvives | cirrusync-install.sh:3058-3075 | without a stale backup, whichever moves fail, the previous tree is whole at the source path or the backup |
| SourceTrees.SuccessRestoresTrees | cirrusync-install.sh:382-415 | a restoration that reports success puts every tree back |
| SourceTrees.FaultlessRestorationSucceeds | cirrusync-install.sh:382-415 | without faults or leftovers the restoration reports success |
| SourceTrees.PromotesExactly | cirrusync-install.sh:3058-3075 | a promotion succeeds exactly when there is a candidate, no tree under the backup's name, and no move it needs fails; then the candidate is in place and the previous tree at the backup |
| SourceTrees.RestoresExactly | cirrusync-install.sh:382-415 | exactly which leftovers and faults make a restoration fail |
| SourceTrees.StaleBackupDestroysTree | cirrusync-install.sh:3064-3067 | the input on which a stale backup costs the current tree |
| SourceTrees.SurvivesExactly | cirrusync-install.sh:3058-3075 | exactly when the previous tree survives every way of failing |
| Installer.Machine.Begin | cirrusync-install.sh:239-313 | files and trees are untouched and the prior state is recorded; which failures leave the transaction unopened, and which leave it open and failed |
| Installer.Machine.Perform | cirrusync-install.sh:3312-3319 | the changes made to files and service up to the first failing step, and success exactly when none fails and the candidate can be promoted |
| Installer.Machine.Apply | cirrusync-install.sh:3312-3318 | a step changes live files or the service and leaves the recorded state as it was |
| Installer.LastChangeDecides | cirrusync-install.sh:3312-3318 | a path is as the last change that touches it leaves it |
| Installer.Machine.PromoteSource | cirrusync-install.sh:3058-3075 | the steps compute the promotion, for every combination of failing moves; PromotesExactly says when it succeeds and what it leaves |
| Installer.Machine.RestoreSourceTree | cirrusync-install.sh:382-415 | the steps compute the restoration, for every combination of failures |
| Installer.Machine.RestoreSnapshot | cirrusync-install.sh:215-237 | one path is as in the snapshot or, if the step failed, as before, and no other path changes |
| Installer.Machine.RestoreFiles | cirrusync-install.sh:341-361 | the same for all five, and success exactly when no saved path failed |
| Installer.LeftoversExactly | cirrusync-install.sh:220-223 | the files are exactly the prior ones unless the removal of a new file failed |
| Installer.SuccessCanLeaveNewFile | cirrusync-install.sh:220-223 | a rollback that reports success and leaves a new file behind |
| Installer.Machine.RestoreService | cirrusync-install.sh:489-536 | success exactly without service faults, and then activity and enablement as recorded; a restart only if nothing failed before |
| Installer.Machine.RestoreEverything | cirrusync-install.sh:341-536 | succeeds exactly when no restoring step fails, and then everything is as recorded |
| Installer.FailedRollbackCanLoseItsData | cirrusync-install.sh:537-545 | faults under which a rollback fails after restoring everything and its recovery data is gone |
| Installer.Machine.Rollback | cirrusync-install.sh:315-545 | success exactly when no checked step fails, and then files, trees and service are as recorded; exactly which recovery data a failed rollback keeps: all of it, unless everything was restored and only its removal failed; the previous tree is whole; restarts only on restored state; no live file is touched if the service cannot be quieted |
| Installer.Machine.Commit | cirrusync-install.sh:547-567 | the new tree stays, and nothing after it can lead to a rollback |
| Installer.Machine.Cleanup | cirrusync-install.sh:162-203 | an open transaction is rolled back and needed recovery data is not removed |
| Installer.Machine.Run | cirrusync-install.sh:3311-3350 | for a failure at any step: committed exactly when nothing fails, every change is made and, in an upgrade, there is a candidate and its moves succeed, with exactly the changes made to files and service and the staged tree; or rolled back to the prior state; or failed with recovery data, which a rollback without faults never does; the previous tree survives until commit |

## Left out

- HTTP, TLS, JSON and TOML decoding: their results are nondeterministic or given.
- File modes, owners, ACLs and symbolic links, in the configuration loader, the lock files and the installer.
- Writers that ignore the locks: the cycle and run results are about stores that only lock holders write in the guarded slots.
- A crash of the process or of the machine in the middle of a write or of a rollback.
- Comments and tags of DNS records, and the exact text of record content.
- Token loading and verification beyond success or failure, and redaction of messages.
- Parsing of provider URLs: whether a URL is acceptable, and its normal form, are given.
- `parse_provider_response` and the special-purpose address tables: an attempt's answer is given, valid or not.
- Mixing of the jitter: any percentage is allowed.
- Accounts, directories and their metadata in the rollback appear only as steps that may fail.
- Git history checks, dependency and toolchain installation, and prompts of the installer.
- Uninstallation.
- Command line, logging and exit codes.
- CheckWorkflow.CheckUntil: states that a check without faults succeeds only for checks that may both create and probe, because the others leave zones unproved by design.
- Configuration.Config.Validate: takes the reading of provider URLs as given.
- SyncCycle.Updater.RunTwice: says nothing about a second cycle that resolves a zone to another ID than the first; that record then belongs in another slot.
- UpgradeRuns.Upgrade: says nothing about a machine whose rollback failed beyond what `Installer.Machine.Rollback` does.
- Installer.Machine.Run: assumes that no stale tree is under the backup's name; SourceTrees.SurvivesExactly treats the other case.
- VersionFiles.VersionRepository.Bump: takes the reading of the files by the TOML parser as given.
