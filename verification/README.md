# A verified model of the phoxal command line's protocols

This project models the parts of the phoxal client and host that hold state,
race with each other, or have to survive failure at any step, and proves what
those parts promise. `dafny verify dfyconfig.toml` checks all of it.

| File | What it models |
|---|---|
| `Reconcile.dfy` | a client's view of the supervisor's append-only sequences: query pages plus a follow stream that may lose, repeat or reorder records; the retry delay |
| `Stores.dfy` | the bounded log and runtime stores and their coalesced change notifications |
| `LogFeed.dfy` | the log feed as one client of both |
| `Sanitizer.dfy` | the terminal text scanner, against a token grammar after sections 5.4, 5.6 and 8.3.89 of ECMA-48 |
| `ReleaseNames.dfy` | the calendar, the sortable timestamp, release names and the default rollback target |
| `Units.dfy` | the systemd units of a bundle and their regeneration in a shared directory |
| `Activation.dfy` | installing and rolling back a release when any step can fail, the undo's steps too |
| `LaunchLocks.dfy` | the build lock and the supervisor lock under any interleaving of CLIs and supervisors |
| `Session.dfy` | the session record and the processes it accounts for |
| `PadRegistry.dfy`, `Joypad.dfy`, `InputFeed.dfy` | manual authority: the controller inventory, the operations on it, and the feed that owes the robot a stop |
| `NativeControl.dfy` | convergence of an orphaned process group against an arbitrary process table |
| `WorldRecovery.dfy` | recoverers of a lost world host racing each other, new hosts and a late adapter |
| `PackageExtraction.dfy`, `ArchiveExtraction.dfy` | resolvers racing to publish one extracted package, and the unpacking itself |

Code that updates state in place is a class or a method with loops, proved
against a function of the old state; what runs concurrently is a transition
system whose steps are single system calls. Outcomes of the operating system,
the network and the user are arguments or nondeterministic choices, so every
contract ranges over all of them. Where a call may fail at any time its failures
are counted, so that an operation that fails has to have a cause. Time, sizes and counters are unbounded except
where the source's width decides the result: 64-bit cursors and revisions, the
saturating size count of an archive.

## Where the code falls short of the plain promise

Each of these is a fact about the code as it is, with the exact condition proved.

- **A repeat at the top of the cursor range.** `follow` compares with a
  saturating successor; an append is the next record exactly while the cursor is
  below the largest 64-bit value (`AppendIsNextExactlyBelowTheTop`,
  `ARepeatIsAcceptedAtTheTop`).
- **A stranded active link.** After a failed activation that had already switched
  the link, a restore whose own switch or removal of the link has no effect is
  followed by the discard all the same. While nothing else installs or rolls back,
  this is the only way an install leaves the link without a whole release
  (`Stranded` in `Host.InstallArchive`; `AnInstallStrandsTheLink` does it).
- **A rollback onto debris.** A discard that stops part-way leaves a directory with
  a valid release name. Rollback selects by name alone and switches before it
  reads, so after the next successful install the default rollback points the link
  at that directory.
  A rollback is safe at every point exactly when the release it switches to is
  whole (`LandsOnDebris` in `Host.RollbackRelease`;
  `ADefaultRollbackLandsOnDebris` does it for any three names). Over any sequence
  of deployments these two are the only exposures (`Deploy`, `DebrisIsExposed`),
  and without a half-done discard only the first is left
  (`CleanDiscardsLeaveNoDebris`).
- **Overlapping installs.** The lock of an install is dropped before its start, its
  observation and its undo, and a rollback's before its start. `Host.UndoInstall`
  holds of any state it meets and says exactly when it is safe: when the link it
  ends on is whole and is not the release it discards.
  `OverlappingInstallsStrandTheLink` is a pair of installs where it is not. The
  contracts of a whole install or rollback assume no other one until its undo is
  over.
- **A supervisor that survives the restore.** The restore ignores its own stop's
  failure. A restore that reports success leaves the failed release's supervisor
  answering exactly when that supervisor was started and the stop had no effect
  (`StillRunning`).
- **A robot left stopped.** Three refusals of an install can leave the supervisor stopped:
  a stop that takes effect and then reports failure; a refused lock when there was
  no release, the candidate cannot be removed or the restart has no effect; and,
  always, the second reading of the active link, which returns past the undo and
  leaves the candidate behind too. `Host.PrepareInstall` gives the exact supervisor
  and candidate of every refusal.
- **An exit without a stop.** The input feed sends its parting stops exactly when
  the command port closes and every observation due until then was delivered: the
  answer of each request, and of a tick that saw a pad arrive, a held one leave or
  the obeyed one gone (`Due`). One that cannot be delivered ends the feed at once:
  what was owed stays owed, and authority that the turn did not revoke stands, with
  the last pad command
  (`Feed.Run`, `WhatTheExitOwes`, `AnUndeliveredAnswerLeavesTheLastCommand`).
- **An abandoned handshake.** A CLI that gives up on a supervisor, or is killed,
  before that supervisor holds its lock or has exited drops the build lock too
  early. From every such moment some further run, without another abandonment,
  replaces the release under the supervisor's lock; every other step leaves all
  such runs safe (`LaunchLocks.SafetyNeedsExactlyPatience`).
- **Years from 10000.** A name produced then is not a release name
  (`ProducedNamesAreValidThroughYear9999`).
- **A runtime named `supervisor`.** Its unit has the name of the supervisor's own
  unit (`SupervisorUnitKeptExactly`).
- **A stale unit that cannot be read** stays behind a regeneration that succeeds
  (the set `unreadable` in `ManagedUnitsAreTheLastBundles`).
- **A resolver that loses late.** A package root published between a resolver's
  second completeness check and its look at the path makes that resolver fail
  over a complete root (`ACompleteRootIsRefusedExactlyThere`,
  `NotEveryResolverSucceeds`).
- **The compare-and-remove window of a recovery.** A file replaced between its
  comparison and its removal is removed although it is a new host's, be it the
  registration or the locked lease (`WorldRecovery.StepKeepsExactly`,
  `AReplacementInTheWindowIsRemoved`, `AReplacedLeaseIsRemoved`).
- **`observe` alone** may leave authority on over an unmapped selection; every
  completed operation of `Joypad` restores the invariant and reports the fall.

## Model

| member | source | states |
|---|---|---|
| Reconcile.Reconciler.constructor | cli/src/reconcile.rs:31-39 | a new reconciler is querying, holds nothing, and its buffer has room for at least one record |
| Reconcile.Reconciler.BeginQuery | cli/src/reconcile.rs:40-43 | following is suspended; cursor and buffer stay |
| Reconcile.Reconciler.LocalDrop | cli/src/reconcile.rs:45-49 | the buffer is lost, the cursor stays, a new query is asked for |
| Reconcile.Reconciler.FollowItem | cli/src/reconcile.rs:51-70 | refines `Follow`: bounded buffering while querying, append of the successor, requery of anything else |
| Reconcile.Reconciler.InstallPage | cli/src/reconcile.rs:73-97 | the draining loop refines `Install`: covered records dropped, the rest replayed, or a requery |
| Reconcile.DrainRequeriesExactlyOnAHole | cli/src/reconcile.rs:73-97 | a page is refused if and only if a buffered record leaves a sequence between it and everything before it; otherwise the replay is exactly the missing tail up to the highest buffered sequence |
| Reconcile.UnbrokenBufferAlwaysInstalls | cli/src/reconcile.rs:73-97 | a follower that lost nothing is never sent back, and exactly the uncovered part of its buffer is replayed |
| Reconcile.InstallKeepsTheSegment | cli/src/reconcile.rs:73-97 | snapshot plus replay is one unbroken stretch of the log ending at the new cursor |
| Reconcile.ApplyKeepsTheSegment | cli/src/reconcile.rs:40-97 | every single event, in any order, keeps the client's view an unbroken stretch ending at its cursor |
| Reconcile.EveryRunShowsOneSegment | cli/src/reconcile.rs:29-98 | so does every run of events: records lost, repeated, reordered, evicted |
| Reconcile.AttachmentShowsOneSegment | cli/src/reconcile.rs:29-98 | from a new attachment, what is shown is gap-free, duplicate-free and authentic |
| Reconcile.CursorNeverRegresses | cli/src/reconcile.rs:51-97 | while page cursors do not regress, the client's does not |
| Reconcile.OnlyTheNextRecordIsAccepted | cli/src/reconcile.rs:51-70 | a live client accepts the record after its cursor, and then shows one more; any other record sends it back to query with nothing lost |
| Reconcile.ALiveClientFollows | cli/src/reconcile.rs:51-70 | a live client that is sent the log's next n records in order shows them all and is still live |
| Reconcile.AQueryingClientKeepsTheNewest | cli/src/reconcile.rs:51-57 | a record that arrives during a query is kept, and at the capacity only the oldest one goes |
| Reconcile.AQueryingClientKeepsTheStream | cli/src/reconcile.rs:51-57 | so a querying client keeps the newest of an unbroken stream, as many as the capacity, and shows what it did |
| Reconcile.APageMeetsTheStream | cli/src/reconcile.rs:73-97 | a page brings a client with an unbroken buffer up to whichever ends later if and only if the buffer begins no later than the page's end |
| Reconcile.AQueryCatchesUp | cli/src/reconcile.rs:40-97 | a client that queries while n records arrive is live afterwards, without a break, if and only if the stream ran no further past the page than the buffer holds |
| Reconcile.AppendIsNextExactlyBelowTheTop | cli/src/reconcile.rs:51-70 | an append is the record after the cursor if and only if the cursor is below the top of the range |
| Reconcile.ARepeatIsAcceptedAtTheTop | cli/src/reconcile.rs:51-70 | at the top a repeat is appended |
| Reconcile.RetryBackoff.constructor | cli/src/reconcile.rs:110-117 | the first delay is the initial one, cut at the maximum |
| Reconcile.RetryBackoff.Reset | cli/src/reconcile.rs:119-121 | counting starts again |
| Reconcile.RetryBackoff.NextDelay | cli/src/reconcile.rs:123-128 | the n-th call returns the n-th delay |
| Reconcile.DelayDoublesUpToTheMaximum | cli/src/reconcile.rs:102-128 | the n-th delay since a reset is the initial one times 2^n, cut at the maximum |
| Stores.LogStore.constructor | cli/src/attach/state/logs.rs:20-27 | an empty store at revision 0 with no notification pending |
| Stores.LogStore.Record | cli/src/attach/state/logs.rs:29-48 | a same-epoch row joins the newest 2000; one notification if none is pending; another epoch changes nothing |
| Stores.LogStore.InstallSnapshot | cli/src/attach/state/logs.rs:50-70 | the loop of records leaves the newest 2000 rows of the page, the revision raised once per row and once more, and at most one notification; an equal page changes nothing |
| Stores.LogStore.Read | cli/src/attach/state/logs.rs:72-111 | a window of the filtered rows in the asked order; only a same-epoch read acknowledges the notification |
| Stores.RuntimeStore.constructor | cli/src/attach/state/runtimes.rs:19-28 | an empty store at revision 0 with no evictions |
| Stores.RuntimeStore.Trim | cli/src/attach/state/runtimes.rs:30-82 | the truncation keeps exactly the newest 4096 rows |
| Stores.RuntimeStore.InstallSnapshot | cli/src/attach/state/runtimes.rs:30-56 | the rows are the newest 4096 of the page, stamped with its eviction count |
| Stores.RuntimeStore.Record | cli/src/attach/state/runtimes.rs:58-82 | a row joins the newest 4096; the eviction count never falls, within the store or along the rows |
| Stores.RuntimeStore.Read | cli/src/attach/state/runtimes.rs:84-110 | a window of the filtered rows in the asked order, newest first when backward; only a same-epoch read acknowledges the notification |
| Stores.LastOfLonger | cli/src/attach/state/logs.rs:29-48 | truncating after each row is truncating once at the end |
| Stores.NoLostOrRepeatedWakeup | cli/src/attach/state/logs.rs:29-111 | over every run of record, install, read and foreign calls: unseen contents imply exactly one notification since the last same-epoch read, never two, and the rows are the newest since the last install |
| Stores.EveryHistoryIsAnnounced | cli/src/attach/state/runtimes.rs:30-110 | from a new store of either kind every history keeps that promise |
| Stores.RevisionsRepeatExactly | cli/src/attach/state/logs.rs:29-70 | each change is one revision up, and two revisions are the same exactly when a multiple of 2^64 changes lies between them |
| Stores.FilterSplits | cli/src/attach/state/logs.rs:72-111 | filtering keeps the matching rows, all of them, in their order |
| Stores.FilterKeepsCounts | cli/src/attach/state/logs.rs:72-111 | a matching row is kept as often as it occurs |
| Stores.ForwardWindowIsTheOldest | cli/src/attach/state/logs.rs:72-111 | reading forward yields the oldest matching rows, oldest first, as many as the limit and the capacity allow |
| Stores.BackwardWindowIsTheNewest | cli/src/attach/state/logs.rs:72-111 | reading backward yields the newest matching rows, newest first |
| LogFeed.ApplyOutcome | cli/src/attach/feeds/logs.rs:82-111 | each outcome reaches the store as its rows: all of snapshot and replay, or the one appended record |
| LogFeed.Query | cli/src/attach/feeds/logs.rs:33-80 | a query and its page keep the store equal to the newest rows of one stretch of the log that ends at the cursor |
| LogFeed.Receive | cli/src/attach/feeds/logs.rs:33-80 | so does each received record, in whatever order; it asks for a requery exactly when it leaves the reconciler querying |
| LogFeed.AskAgain | cli/src/attach/feeds/logs.rs:33-80 | asked only while it has to, a query and its answer extend the run by exactly those two events |
| LogFeed.FollowOne | cli/src/attach/feeds/logs.rs:33-80 | one received record extends the run by exactly its delivery |
| LogFeed.FollowRecords | cli/src/attach/feeds/logs.rs:33-80 | following stops at a requery or at the end of the stream, and extends the run by exactly one delivery for each record it received, in order |
| LogFeed.Cycle | cli/src/attach/feeds/logs.rs:33-80 | one page and the records after it extend the session by exactly that page and that span |
| LogFeed.Feed | cli/src/attach/feeds/logs.rs:33-80 | a whole session is exactly the run that takes the pages in order, each followed by a span of the stream, the spans in order and disjoint; it asks only while it has to and follows only while it need not; it ends out of pages, or live and out of records, and there the store shows the newest 2000 rows of an unbroken stretch of the supervisor's log |
| LogFeed.AppendShows | cli/src/attach/feeds/logs.rs:82-111 | the next record keeps the store at the cursor |
| LogFeed.RunExtends | cli/src/attach/feeds/logs.rs:33-80 | a longer session is a longer run |
| LogFeed.AppendExtendsRows | cli/src/attach/feeds/logs.rs:82-111 | appending a record's row gives the rows of the longer stretch |
| Sanitizer.SkipControlSequence | crates/observation/src/logs.rs:29-36 | the cursor ends past the first final byte, or at the end |
| Sanitizer.SkipSystemString | crates/observation/src/logs.rs:37-46 | the cursor ends past BEL or the string terminator, or at the end |
| Sanitizer.SkipEscape | crates/observation/src/logs.rs:28-51 | at an escape the cursor moves over exactly `SkipLength` characters |
| Sanitizer.SanitizeTerminalText | crates/observation/src/logs.rs:20-63 | the scanning loop computes `Sanitized` |
| Sanitizer.SanitizingKeepsTheVisibleText | crates/observation/src/logs.rs:20-63 | sanitizing a rendered token list yields exactly its text tokens, controls as spaces |
| Sanitizer.EveryTextParses | crates/observation/src/logs.rs:20-63 | every text is the rendering of a well-formed token list |
| Sanitizer.ParseIsUnique | crates/observation/src/logs.rs:20-63 | two well-formed token lists with the same rendering are the same list |
| Sanitizer.TokenIsDetermined | crates/observation/src/logs.rs:28-51 | two tokens that start one text are the same token |
| Sanitizer.SkipLengthOfToken | crates/observation/src/logs.rs:28-51 | at an escape the scanner consumes exactly the token that starts there |
| Sanitizer.SanitizedHasNoControls | crates/observation/src/logs.rs:53-63 | the result has no control character and is no longer than the input |
| Sanitizer.ControlFreeTextIsUnchanged | crates/observation/src/logs.rs:20-63 | text without controls is returned as it is |
| Sanitizer.SanitizingTwiceIsOnce | crates/observation/src/logs.rs:20-63 | sanitizing is idempotent |
| Sanitizer.ClosedTokensSplit | crates/observation/src/logs.rs:20-63 | after a list of closed tokens the scan starts afresh |
| Sanitizer.SanitizingSplitsAtGround | crates/observation/src/logs.rs:20-63 | sanitizing distributes over a concatenation whose first part leaves no escape open |
| Sanitizer.BoundedLogText | crates/observation/src/logs.rs:8-15 | the prefix loop computes `Bounded` |
| Sanitizer.BoundingIsStable | crates/observation/src/logs.rs:8-15 | the result has at most 4097 characters, bounding again changes nothing, and a text is kept exactly when it fits or is already a bounded one |
| Sanitizer.CharacterClasses | crates/observation/src/logs.rs:29-63 | a final byte is a code of columns 4 to 7 without DEL, a control a code of C0, DEL or C1 |
| ReleaseNames.Gmtime | cli/src/application/installation.rs:762-782 | every instant has a valid civil time with that many milliseconds since the Epoch (section 4.16 of POSIX.1-2017 Base Definitions) |
| ReleaseNames.GmtimeInverts | cli/src/application/installation.rs:762-782 | converting the milliseconds of a civil time gives that civil time back |
| ReleaseNames.MonthsAreGregorian | cli/src/application/installation.rs:762-782 | the days before each month are those of the Gregorian calendar's closed form |
| ReleaseNames.DaysAreGregorian | cli/src/application/installation.rs:762-782 | counting by years and months gives the fixed day of the closed form, the Epoch being day 719163 |
| ReleaseNames.EarlierIsFewerMillis | cli/src/application/installation.rs:762-782 | field order of civil times is time order, both ways, and equal times are equal fields |
| ReleaseNames.PaddedOrder | cli/src/application/installation.rs:762-782 | zero-padded numbers of one width sort as numbers |
| ReleaseNames.ColumnsSortAsValues | cli/src/application/installation.rs:762-782 | fixed-width columns sort as their values, are equal for equal values only, and have one length |
| ReleaseNames.TimestampsSortByTime | cli/src/application/installation.rs:762-782 | through year 9999 byte order of timestamps is time order to the millisecond |
| ReleaseNames.SortableTimestampsSort | cli/src/application/installation.rs:762-782 | so do the timestamps of any two clock readings that are not refused |
| ReleaseNames.SortableUtcTimestamp | cli/src/application/installation.rs:762-782 | refused exactly before the Epoch, past the range of the platform's seconds, or when the conversion fails |
| ReleaseNames.ProducedNamesAreValidThroughYear9999 | cli/src/application/installation.rs:749-782 | a produced name passes the name check if and only if its year is at most 9999 |
| ReleaseNames.ReleaseNamesAreSpelled | cli/src/application/installation.rs:749-760 | a release name is eight, six and three digits and eight hexadecimal ones around its fixed separators, and nothing else |
| ReleaseNames.NamesSortByTime | cli/src/application/installation.rs:434-438 | a release installed earlier sorts earlier whatever the digests are |
| ReleaseNames.ReleaseIndex | cli/src/application/installation.rs:712-747 | the index is the valid names of the listing, ascending, once each |
| ReleaseNames.SelectRollbackRelease | cli/src/application/installation.rs:712-747 | a requested release is taken if valid and present; the default is the greatest valid release below the active one; each refusal says what is missing |
| ReleaseNames.RollBackInTime | cli/src/application/installation.rs:712-782 | over releases of known installation times the default target is one of them, not later than the active one, with nothing installed strictly between; it is refused only when nothing was installed earlier |
| Units.RuntimeNamesAreGenerated | cli/src/application/units.rs:29-38 | a runtime's unit name is a generated name, and the supervisor's own exactly for the id `supervisor` |
| Units.RuntimeNamesDiffer | cli/src/application/units.rs:29-38 | two runtimes share a unit name only if they share their id |
| Units.GeneratedNamesAreExact | cli/src/application/units.rs:29-38 | a name counts as generated exactly if it is the target's or that of a runtime not called `supervisor` |
| Units.MarkedExactly | cli/src/application/installation.rs:653-670 | a file is this client's exactly when its first line is the marker, with either line ending |
| Units.RuntimeUnitsAre | cli/src/application/units.rs:204-218 | one marked unit per runtime, in order and with its own body, exactly when every runtime can be launched |
| Units.TheTargetWantsEveryRuntime | cli/src/application/units.rs:138-156 | the target pulls in each runtime's unit, in order and nothing else |
| Units.EveryRuntimeIsInstalled | cli/src/application/units.rs:138-227 | each runtime's own text is installed under its own name unless a later one has its id, and the target's text pulls it in between its neighbours |
| Units.BundleUnitsAreManaged | cli/src/application/units.rs:204-227 | every unit of a bundle carries the marker and a generated name, the target is one of them, and the supervisor's own exactly when a runtime has that id |
| Units.UnitRoot.WriteManagedUnit | cli/src/application/installation.rs:653-670 | success installs the text over nothing or over a marked file; any failure leaves the directory as it was, and has its cause: a foreign file, one that cannot be read, or a call that was not served |
| Units.UnitRoot.WriteUnits | cli/src/application/installation.rs:620-651 | success overlays all units; a failure part-way leaves every file old or managed, and foreign ones alone, and has one of those causes |
| Units.UnitRoot.RemoveStaleUnits | cli/src/application/installation.rs:620-651 | success removes exactly the readable, marked, generated units outside the bundle; a failure removes only such |
| Units.UnitRoot.RegenerateRuntimeUnits | cli/src/application/installation.rs:620-651 | success is overlay and prune; a bundle that cannot be read or named changes nothing; every other failure is in between; each error has its cause, and with every call served, nothing foreign or unreadable in the way it succeeds |
| Units.OrdinaryBundles | cli/src/application/units.rs:204-227 | a bundle's units are all generated names exactly when no runtime is named `supervisor` |
| Units.ManagedUnitsAreTheLastBundles | cli/src/application/installation.rs:620-651 | after any sequence of regenerations the marked generated units are exactly the last bundle's, the unreadable ones aside |
| Units.ForeignFilesAreUntouched | cli/src/application/installation.rs:620-670 | after any sequence of them no foreign file and no supervisor unit has changed |
| Units.RegeneratingTwiceIsOnce | cli/src/application/installation.rs:620-651 | repeating a regeneration changes nothing |
| Units.SupervisorUnitKeptExactly | cli/src/application/units.rs:29-38 | the supervisor's own unit keeps its text if and only if no unit of its name with another text is generated, which takes a runtime named `supervisor` |
| Activation.Host.Stop | cli/src/application/installation.rs:131-156 | only a stop that takes effect stops the supervisor, and one that takes effect may still report failure |
| Activation.Host.Start | cli/src/application/installation.rs:172-199 | starting runs the release the link selects, and nothing new if one is running |
| Activation.Host.Regenerate | cli/src/application/installation.rs:620-651 | the unit directory becomes the release's, or a mixture on a failure part-way |
| Activation.Host.DiscardRelease | cli/src/application/installation.rs:580-583 | a release goes whole or part-way, entry by entry, and each of its crash points is recorded |
| Activation.Host.DiscardCandidate | cli/src/application/installation.rs:823-829 | the candidate is gone, half gone or untouched, exactly as its fault says |
| Activation.Host.Activate | cli/src/application/installation.rs:340-344 | success puts link, units and loaded units on the release; after a failure each of the three is exactly what the steps up to it left |
| Activation.Host.Restore | cli/src/application/installation.rs:585-610 | the exact link and the exact supervisor for every pattern of faults, its ignored stop included; success puts links and units on the previous release, or the link away |
| Activation.Host.UndoInstall | cli/src/application/installation.rs:309-338 | whatever state it meets: the exact link, supervisor, release index and candidates; it is safe throughout if and only if the link it ends on is whole and is not the release it discards |
| Activation.Host.PublishAndActivate | cli/src/application/installation.rs:502-509 | rename and activation, crash-safe at each effect |
| Activation.Host.PrepareInstall | cli/src/application/installation.rs:446-501 | which refusal it is, an old candidate that cannot be removed included, and after each the exact supervisor and candidate: a refusal may leave the robot stopped |
| Activation.Host.StopAndLock | cli/src/application/installation.rs:479-501 | the same from the unpacked candidate on: the restart after a refused lock comes only after a successful removal and over an active release |
| Activation.Host.CommitRelease | cli/src/application/installation.rs:502-538 | from the rename on, success is everything on the new release, a complete undo everything on the previous one, and any undo has its exact link and release index |
| Activation.Host.InstallArchive | cli/src/application/installation.rs:422-539 | for every pattern of failures: which outcome it is, everything on the new release or back on the previous one, the supervisor after every refusal, and the link crash-safe at every point if and only if not `Stranded` |
| Activation.InstallsAreRefusedExactly | cli/src/application/installation.rs:422-501 | each refusal names the first step that failed, and an install gets to its rename exactly with a new name and all of them in order |
| Activation.Host.RollbackRelease | cli/src/application/installation.rs:541-578 | which outcome it is, success exactly without a failing step; success is everything on the target, a restored failure everything on the previous release, and every other end has its exact link; releases are never touched; the link is safe at every point if and only if the target switched to is whole |
| Activation.Deploy | cli/src/application/installation.rs:422-578 | over any sequence of installs and rollbacks the host's index and link are exactly where the steps lead, every crash point is safe if and only if no step is exposed where it happens, and the sequence runs on while the link is safe |
| Activation.Perform | cli/src/application/installation.rs:422-578 | one deployment leads exactly to `After`, and is safe throughout if and only if it is not exposed there |
| Activation.UnexposedEverywhere | cli/src/application/installation.rs:422-578 | a safe sequence exposes nothing at any of its positions |
| Activation.ExposedSomewhere | cli/src/application/installation.rs:422-578 | an unsafe one has a position where the step is exposed at the index it meets |
| Activation.CleanDiscardsLeaveNoDebris | cli/src/application/installation.rs:422-583 | while no discard stops part-way the index holds whole releases at every position, and a step is exposed if and only if it is a stranding install |
| Activation.DebrisIsExposed | cli/src/application/installation.rs:422-583 | from every index: a half-done discard, an install and a rollback to what was left is an exposed sequence, for every rollback that gets as far as its switch |
| Activation.AnInstallIsRolledBack | cli/src/application/installation.rs:422-578 | from any host wholly on one release: an install, the default choice and a rollback, with nothing failing, put everything back on that release and keep the new one in the index |
| Activation.AnInstallStrandsTheLink | cli/src/application/installation.rs:585-610 | a host on which an install ends with the link on a removed release |
| Activation.ADefaultRollbackLandsOnDebris | cli/src/application/installation.rs:712-747 | for any three names in order, a half-done discard and one more install make the default rollback select the debris |
| Activation.OverlappingInstallsStrandTheLink | cli/src/application/installation.rs:502-538 | two overlapping installs, both undone, leave the link on a removed release |
| LaunchLocks.ConsistentIsSafe | cli/src/lock.rs:92-131 | the invariant implies safety: no release replaced under a held supervisor lock, at most one supervisor and it runs the release on disk, no probe ever met a probe or a starting supervisor |
| LaunchLocks.ProbeStepsKeep | cli/src/lock.rs:169-219 | taking the build lock and probing keep the invariant |
| LaunchLocks.PublishStepsKeep | cli/src/application/lifecycle.rs:432-466 | publishing a release, spawning a supervisor and its answering keep the invariant |
| LaunchLocks.SupervisorStepsKeep | cli/src/application/lifecycle.rs:740-792 | a supervisor's taking of its lock and its end keep the invariant |
| LaunchLocks.LeavingKeepsExactly | cli/src/lock.rs:222-228 | a CLI's end keeps it exactly when it abandons no supervisor that is still starting |
| LaunchLocks.StepKeepsExactly | cli/src/application/lifecycle.rs:310-372 | a step keeps the invariant if and only if it does not abandon |
| LaunchLocks.PatientRunsAreSafe | cli/src/application/lifecycle.rs:310-372 | every interleaving of any number of CLIs and supervisors without an abandonment stays safe |
| LaunchLocks.ALaunchSucceeds | cli/src/application/lifecycle.rs:310-372 | from any root with both locks free a launch ends attached to its own supervisor, which holds its lock and serves the release just published |
| LaunchLocks.LaunchesAreRefusedExactly | cli/src/lock.rs:92-219 | a CLI gets the build lock exactly when it is free, and past its probe exactly when no supervisor lives; refused it holds nothing |
| LaunchLocks.AttachedExactlyWhenServed | cli/src/application/lifecycle.rs:740-792 | a waiting CLI is attached exactly once its own supervisor serves, which then holds its lock and runs the release on disk |
| LaunchLocks.EveryPatientInterleavingIsSafe | cli/src/application/build.rs:26-34 | every such run from a fresh root is safe |
| LaunchLocks.AbandonmentIsUnsafe | cli/src/application/lifecycle.rs:740-792 | every abandonment, in any consistent state, can be continued without another to a release replaced under a held supervisor lock |
| LaunchLocks.SafetyNeedsExactlyPatience | cli/src/application/lifecycle.rs:310-372 | after a step every continuation without abandonments is safe if and only if the step is no abandonment |
| LaunchLocks.AnAbandonmentIsReachable | cli/src/application/lifecycle.rs:310-372 | one launch gets to where it can abandon its supervisor |
| Session.Machine.SignalAll | cli/src/application/launcher.rs:485-515 | the signals of a prefix of the groups, all of them on success; it fails only over one that was not served |
| Session.Machine.AllExited | cli/src/application/launcher.rs:472-483 | a pass succeeds if and only if every group is gone |
| Session.Machine.AwaitExit | cli/src/application/launcher.rs:472-483 | success means gone, failure that some process is there after the whole grace; the wait ends |
| Session.Machine.Terminate | cli/src/application/launcher.rs:448-470 | success means every SIGTERM was sent and every process observed gone; the signals are a prefix of all SIGTERMs then all SIGKILLs, with the grace between; it fails only over a signal that was not served, or over a process still there after both rounds and both graces |
| Session.Machine.TerminateStage | cli/src/application/launcher.rs:407-446 | success means every process of the stage seen gone; nothing is killed before the stage's own grace is over |
| Session.Machine.TerminateBoth | cli/src/application/launcher.rs:407-446 | both stages run in the mode's order, whatever became of the first; success means every recorded process seen gone |
| Session.Machine.StopSession | cli/src/application/launcher.rs:400-446 | both stages run, whatever became of the first: runtimes then supervisor, or for a simulation the supervisor first; the record goes only when every recorded process was seen gone; it fails only over a request that was not served or a process that outlived its SIGKILL |
| Session.Machine.StopCommand | cli/src/application/lifecycle.rs:859-874 | after a successful stop no recorded process is alive and no record is left; refused exactly without a readable record; any other failure has the causes of `StopSession` |
| Session.Machine.Launch | cli/src/application/launcher.rs:155-183 | all runtimes or none: a failure has signalled every child it started |
| Session.Machine.Abandon | cli/src/application/launcher.rs:185-195 | every child is signalled |
| Session.Machine.StartSession | cli/src/application/lifecycle.rs:310-372 | succeeds if and only if there is no record of any kind and every request is served; the record names every process this start created that still lives; a start that fails records nothing, and of what it leaves only the supervisor is unsignalled unless it was already writing |
| Session.Machine.StartCommand | cli/src/application/lifecycle.rs:379-411 | whatever happens, no record means no recorded process alive; served throughout it leaves a live session, or none when the runtimes were not ready |
| PadRegistry.TruncateUtf8 | cli/src/joypad/registry.rs:394-403 | the longest prefix within the limit that ends on a character boundary |
| PadRegistry.BaseDeviceId | cli/src/joypad/registry.rs:360-378 | at most 125 bytes, so that a suffix fits |
| PadRegistry.IdentitiesAreExact | cli/src/joypad/registry.rs:360-378 | two pads have one identity exactly when they have the same hardware uuid, or both have none and their names agree as far as an identity holds them |
| PadRegistry.DecimalIsInjective | cli/src/joypad/registry.rs:380-392 | two suffixes are different texts |
| PadRegistry.CandidatesDiffer | cli/src/joypad/registry.rs:380-392 | two candidate ids of one base are different, and different from the base |
| PadRegistry.AssignStableId | cli/src/joypad/registry.rs:380-392 | the id is fresh and the first free one, the suffix is at most the number of entries plus one, and with 64 entries the id fits the selection limit |
| PadRegistry.VictimIsTheOldestDisconnected | cli/src/joypad/registry.rs:321-354 | while a disconnected pad besides the selection is listed, eviction takes the oldest such |
| PadRegistry.VictimIsTheOldestOtherwise | cli/src/joypad/registry.rs:321-354 | with every other pad connected, eviction takes the oldest of those |
| PadRegistry.VictimIsNotTheNewest | cli/src/joypad/registry.rs:321-354 | over the limit there is always a pad to evict, never the one just observed |
| PadRegistry.RetainedLists | cli/src/joypad/registry.rs:321-354 | eviction keeps the recency list exact and the selection |
| PadRegistry.InsertionKeeps | cli/src/joypad/registry.rs:95-140 | adding a pad at the limit keeps that pad, the selection, the bound of 64 and the representation |
| PadRegistry.RewritingKeeps | cli/src/joypad/registry.rs:95-140 | rewriting a known pad drops nothing and only moves it to the end |
| PadRegistry.RetainedKeepsTail | cli/src/joypad/registry.rs:321-354 | eviction leaves a connected tail of the newest pads alone while it is shorter than 64, or 64 long with the selection in it or none |
| PadRegistry.UpdateKeeps | cli/src/joypad/registry.rs:95-140 | rewriting a pad keeps one handle to one connected pad |
| PadRegistry.UnpluggedKeeps | cli/src/joypad/registry.rs:263-280 | disconnecting all unseen pads keeps one handle to one connected pad, and every entry |
| PadRegistry.Registry.constructor | cli/src/joypad/registry.rs:54-61 | an empty registry is safe |
| PadRegistry.Registry.DropVictim | cli/src/joypad/registry.rs:321-350 | one pass of eviction drops exactly the victim |
| PadRegistry.Registry.Prune | cli/src/joypad/registry.rs:321-354 | the eviction loop ends and leaves exactly `Retained` |
| PadRegistry.Registry.Touch | cli/src/joypad/registry.rs:315-319 | the pad becomes the newest, then the limit is enforced |
| PadRegistry.Registry.Observe | cli/src/joypad/registry.rs:95-140 | a pad keeps its id by handle, or by identity when it has no handle; a new one gets a fresh id, drops at most one pad and never the selection |
| PadRegistry.Registry.Connected | cli/src/joypad/registry.rs:143-157 | a ready selection stays with authority over it; an unready one is dropped and the pad adopted if usable, authority off; a fall is reported |
| PadRegistry.Registry.Disconnect | cli/src/joypad/registry.rs:169-190 | the pad loses its handle and, exactly if it was selected, the selection and authority go; a fall is reported, nothing else |
| PadRegistry.Registry.Disconnected | cli/src/joypad/registry.rs:159-167 | no pad has the handle any more and the others are untouched; the selection and authority go exactly if it had that handle |
| PadRegistry.Registry.Select | cli/src/joypad/registry.rs:196-228 | accepted exactly for a known, connected, mapped pad of bounded id, and a refusal says what is wrong with it; authority survives exactly when the selection does |
| PadRegistry.Registry.SetEnabled | cli/src/joypad/registry.rs:230-261 | authority is on afterwards exactly when asked for over a ready selection; a refusal says what is missing, a fall is reported |
| PadRegistry.Registry.RetainSeen | cli/src/joypad/registry.rs:263-280 | every unseen pad is disconnected and kept; the selection goes exactly if it is disconnected then, and authority with it; reported |
| PadRegistry.Registry.ReconcileSelection | cli/src/joypad/registry.rs:282-295 | a ready selection stays with authority over it; otherwise a known fallback is selected, authority off; nothing else ever is |
| PadRegistry.Registry.InvalidateUnreadySelection | cli/src/joypad/registry.rs:297-304 | after it authority implies a ready selection |
| PadRegistry.Registry.InvalidateSelection | cli/src/joypad/registry.rs:306-313 | the selection goes and authority with it |
| Joypad.Pads.constructor | cli/src/joypad/mod.rs:42-59 | opening takes an inventory: only listed pads are connected, the selection is the first usable one or none, and authority is off |
| Joypad.Pads.Poll | cli/src/joypad/mod.rs:66-87 | over any events: what each one does to the inventory and the selection, event by event; authority only falls and its falls are reported if and only if they happen; a handle whose last event was its disconnection is held by no pad, and only announced handles are new; with a backend a change is reported if and only if a pad was announced, or one was disconnected whose handle was held |
| Joypad.Pads.Handle | cli/src/joypad/mod.rs:71-84 | one event: a ready selection and authority over it stay unless the event takes that very pad; without one a usable pad that arrives is selected, authority off; an arrival is noted under one id and below the limit costs no other pad its place, a departure frees its handle only |
| Joypad.ASelectionIsLostExactlyWithItsPad | cli/src/joypad/mod.rs:66-87 | over any events a ready selection and authority over it stay, or authority falls, exactly as some event takes that pad: its disconnection or its announcement without a mapping |
| Joypad.TheFirstOfferIsSelected | cli/src/joypad/mod.rs:66-87 | without a ready selection the first usable pad that arrives, and is not taken again, is selected, authority off |
| Joypad.Pads.Rescan | cli/src/joypad/mod.rs:92-107 | afterwards only listed pads are connected, and all of them while they fit: at most 64 with distinct handles and, at 64 itself, no selection or a listed one; a ready selection stays, with authority over it, if and only if its pad is listed with its mapping; a new selection is the first usable pad of the list, and then there is a ready one if any is usable; falls of authority are reported if and only if they happen |
| Joypad.Pads.Enumerate | cli/src/joypad/mod.rs:96-99 | listed pads that fit are all known afterwards under their handles, the last listed one always is; the ready selection keeps its place and handle, is seen exactly if listed and mapped as listed last; authority and selection are untouched |
| Joypad.RecentGrows | cli/src/joypad/registry.rs:95-140 | the pads observed so far are the newest of the registry in their order, and one more observation drops none of them while they fit |
| Joypad.FirstMappedIsFirst | cli/src/joypad/mod.rs:101-105 | the fallback is the first pad of the list with every control mapped |
| Joypad.Pads.Select | cli/src/joypad/mod.rs:109-123 | with a backend the selection becomes the asked-for usable pad, or is dropped when the refused pad was it; without one nothing changes; falls of authority are reported |
| Joypad.Pads.SetEnabled | cli/src/joypad/mod.rs:125-127 | authority comes on only here, and only over a ready selection |
| Joypad.Pads.Command | cli/src/joypad/mod.rs:135-158 | a command comes from the selected pad exactly under authority with the pad connected; a selection found disconnected is dropped, authority with it, and reported |
| InputFeed.Feed.constructor | cli/src/attach/feeds/input.rs:32-47 | nothing owed |
| InputFeed.Feed.QueueStop | cli/src/attach/feeds/input.rs:120-122 | exactly three stops are owed |
| InputFeed.Feed.PublishStop | cli/src/attach/feeds/input.rs:126-145 | one stop if owed, and a failed one stays owed |
| InputFeed.Feed.Settle | cli/src/attach/feeds/input.rs:58-61 | a revocation queues and sends a stop, in the same turn |
| InputFeed.Feed.OnTick | cli/src/attach/feeds/input.rs:52-71 | exactly what one tick publishes, in which order, and what is owed after it; it ends the feed exactly when a due observation is not delivered, before any pad is obeyed; it is due exactly when a pad arrived, a held one left or the obeyed one is gone, and otherwise the inventory, the selection and authority stay |
| InputFeed.AuthorityFallsExactly | cli/src/attach/feeds/input.rs:52-71 | in a tick authority falls if and only if the obeyed pad left, was announced without its mapping, or is found gone |
| InputFeed.TicksObeyExactly | cli/src/attach/feeds/input.rs:52-71 | a tick obeys a pad if and only if it ends with authority over that pad, the pad is there and nothing due was left undelivered |
| InputFeed.Feed.OnCommand | cli/src/attach/feeds/input.rs:72-92 | a request grants authority only by enabling, a fall of authority queues and sends a stop; every request is answered, and an undelivered answer ends the feed |
| InputFeed.Feed.Part | cli/src/attach/feeds/input.rs:148-158 | closing the port sends three stops whatever their outcome |
| InputFeed.Feed.Run | cli/src/attach/feeds/input.rs:50-94 | over every session: the exact log of stops, commands, grants and revocations, turn by turn, and the exact stops owed at its end; each state follows from the turn and the state before it; three parting stops come last if and only if the port closes and no turn until then was due, by what it brought and the state it met, and not delivered; the other exit is the first such turn and nothing follows it |
| InputFeed.StoryGrows | cli/src/attach/feeds/input.rs:50-94 | one more turn adds exactly what that turn does and owes |
| InputFeed.StoriesDoNotPart | cli/src/attach/feeds/input.rs:148-158 | no turn sends a parting stop |
| InputFeed.WhatTheExitOwes | cli/src/attach/feeds/input.rs:50-94 | a session that ends with a revocation in its last turn owes two or three stops, and after any other turn at most one fewer than before it |
| InputFeed.TheDebtIsPaid | cli/src/attach/feeds/input.rs:120-145 | over any ticks that can send and revoke nothing, one owed stop goes out with each until none is left |
| InputFeed.AnUndeliveredAnswerLeavesTheLastCommand | cli/src/attach/feeds/input.rs:88-92 | a session that ends with authority on, its last action a pad command, and no stop owed |
| InputFeed.NoCommandWithoutAGrant | cli/src/attach/feeds/input.rs:50-94 | between a revocation and any later pad command lies an accepted enable |
| InputFeed.BudgetIsThreeStops | cli/src/attach/feeds/input.rs:120-145 | since the last queueing the budget is three less the stops published, for any pattern of failures: zero exactly after three |
| NativeControl.Control.Validate | crates/host/src/world/process_control.rs:123-171 | passes exactly on an exact match of birth identity, executable and group, freshly observed; every refusal is explained by its last exchange |
| NativeControl.Control.AwaitExit | crates/host/src/world/process_control.rs:110-119 | polls until gone or the budget is used up, and says what it saw last |
| NativeControl.Control.Round | crates/host/src/world/process_control.rs:104-120 | one validated signal, then its wait |
| NativeControl.Control.Escalate | crates/host/src/world/process_control.rs:104-121 | terminate, then kill; success exactly on a group seen gone |
| NativeControl.Control.Converge | crates/host/src/world/process_control.rs:89-122 | for every process table: success if and only if the last thing seen is that the group is gone, every error explained by the exchange that ends the run, at most 24 seconds of waiting, a poll at least every tenth of a second, nothing after a refusal, and the final failure only after both signals and all the time |
| NativeControl.Control.Grace | crates/host/src/world/process_control.rs:97-102 | three seconds, then a look |
| NativeControl.EverySignalIsValidated | crates/host/src/world/process_control.rs:104-109 | each signal goes to the recorded group, seen alive and then validated in the calls directly before, at its exact time |
| NativeControl.AtMostTwoSignals | crates/host/src/world/process_control.rs:104-121 | at most one terminate, then at most one kill |
| NativeControl.ErrorsAreDetermined | crates/host/src/world/process_control.rs:89-171 | a run explains one error at most, and none if the group was seen gone: giving up is never a choice |
| WorldRecovery.StepKeepsExactly | crates/host/src/world/recovery.rs:10-83 | the invariant of any number of recoverers, hosts and an adapter survives a step if and only if that step neither replaces a summary someone took nor a file in the compare-and-remove window |
| WorldRecovery.AdvanceKeeps | crates/host/src/world/recovery.rs:10-93 | every system call of a recoverer keeps it |
| WorldRecovery.AdapterKeepsExactly | crates/host/src/world/evidence.rs:197-212 | an adapter's write keeps it exactly when nobody holds another summary |
| WorldRecovery.ReplaceKeepsExactly | crates/host/src/world/paths.rs:293-312 | a new registration keeps it exactly outside the window |
| WorldRecovery.EveryRunIsSound | crates/host/src/world/recovery.rs:10-93 | every world reached by steps that do not intrude satisfies the invariant |
| WorldRecovery.SuccessReturnsTheSummaryOnDisk | crates/host/src/world/recovery.rs:10-83 | each successful recovery returns the summary on disk, and a registered world is never answered with nothing |
| WorldRecovery.RecoveryNeverOverwrites | crates/host/src/world/paths.rs:84-146 | no step but an adapter's changes a published summary |
| WorldRecovery.FirstSummaryStands | crates/host/src/world/evidence.rs:197-212 | over any schedule, intruded on or not, the first summary stands unless an adapter replaces it |
| WorldRecovery.OnlyRecoveredFilesAreRemoved | crates/host/src/world/recovery.rs:86-93 | registration and lease go only by a recoverer under the lease's lock, after a summary exists, for a dead host, and only the very files it opened |
| WorldRecovery.OneRecovererPerLease | crates/host/src/world/registry.rs:149-188 | no two recoverers are past the probe of one lease |
| WorldRecovery.NoLivingHostIsDeclaredLost | crates/host/src/world/recovery.rs:27-80 | a host-lost summary names a dead host whose native group was seen gone |
| WorldRecovery.EveryRecoveryReturns | crates/host/src/world/recovery.rs:10-83 | however others interleave, a recoverer returns after at most thirteen of its own calls |
| WorldRecovery.RecoveryGoesWell | crates/host/src/world/recovery.rs:10-93 | a recovery that finds its host dead and gets the lease's lock goes well from then on whatever the others do, unless a new host appears or its own calls fail |
| WorldRecovery.AStaleWorldIsRecovered | crates/host/src/world/recovery.rs:10-93 | an attended recovery of a dead host's world ends with registration and lease gone and returns the summary on disk: the one there was, or its own report of that host |
| WorldRecovery.AnAttendedRecoveryEnds | crates/host/src/world/recovery.rs:10-93 | and it does end, within thirteen calls |
| WorldRecovery.ALiveHostIsLeftAlone | crates/host/src/world/registry.rs:164-187 | a living host that holds its lease is answered as live to any number of recoverers, and nothing of it is removed |
| WorldRecovery.NoLockOutlivesItsHolder | crates/host/src/world/registry.rs:149-188 | over any schedule a lease is locked only by a living host or by a recoverer that is at work on it |
| WorldRecovery.StillLiveIsTrue | crates/host/src/world/registry.rs:149-188 | over any schedule, whoever is told that a host lives saw its registration, found a lease held, and then saw that very process alive |
| WorldRecovery.AMissingRegistrationIsAnswered | crates/host/src/world/recovery.rs:18-21 | without a registration a recovery returns the summary there is |
| WorldRecovery.AReplacementInTheWindowIsRemoved | crates/host/src/world/paths.rs:293-312 | what the window costs: the new host's registration is removed |
| WorldRecovery.AReplacedLeaseIsRemoved | crates/host/src/world/recovery.rs:86-93 | in the second window the new host's locked lease is removed and the recovery reports success |
| WorldRecovery.AnOverwrittenSummaryIsReturned | crates/host/src/world/recovery.rs:77-80 | an adapter that replaces a taken summary makes a recovery succeed with one that is not on disk |
| PackageExtraction.StepKeeps | crates/project/src/registry_package.rs:299-370 | every call of a resolver keeps the invariant, a completeness check being three calls |
| PackageExtraction.RootChangesByPublication | crates/project/src/registry_package.rs:335-340 | the root changes only by a rename of a complete tree onto nothing |
| PackageExtraction.EveryScheduleIsSafe | crates/project/src/registry_package.rs:299-370 | over every interleaving and failure an occupied root never changes, and any other changes at most once, into a complete tree |
| PackageExtraction.SuccessNamesACompleteRoot | crates/project/src/registry_package.rs:299-354 | each success names a complete root, for good |
| PackageExtraction.IncompleteRootIsLeftAlone | crates/project/src/registry_package.rs:331-350 | an occupied incomplete root stays as it was and no resolver succeeds |
| PackageExtraction.ACompleteRootIsRefusedExactlyThere | crates/project/src/registry_package.rs:326-354 | over a complete root a served call fails exactly where the path is only asked whether it exists |
| PackageExtraction.ACompleteRootIsAccepted | crates/project/src/registry_package.rs:302-304 | over a complete root a resolver that is not at one of the two existence checks succeeds, with its check's third served call, whatever the others do: before its extraction, after it or after a refused rename |
| PackageExtraction.ACheckAnswersExactly | crates/project/src/registry_package.rs:356-370 | a check makes at most three calls and says yes if and only if the root is complete |
| PackageExtraction.AnUndisturbedResolverSucceedsExactly | crates/project/src/registry_package.rs:299-354 | an undisturbed resolver succeeds if and only if the root is complete or absent, and publishes its own tree exactly in the second case |
| PackageExtraction.FailuresHaveCauses | crates/project/src/registry_package.rs:310-354 | a failed extraction was not served, a corrupt root was there, and one that is not published is absent or its resolver was killed |
| PackageExtraction.EveryResolverReturns | crates/project/src/registry_package.rs:299-370 | however others interleave, a resolver returns after at most thirteen calls |
| PackageExtraction.NotEveryResolverSucceeds | crates/project/src/registry_package.rs:326-335 | two resolvers, one of which fails over the root the other published |
| ArchiveExtraction.AcceptedPathsStayInside | crates/project/src/registry_package.rs:676-697 | an accepted entry resolves below the destination, at its own path under the archive's root |
| ArchiveExtraction.PathsAreAcceptedExactly | crates/project/src/registry_package.rs:676-697 | a path is accepted, with these names, exactly if it is the archive's root followed by them, and each refusal says what is wrong with it |
| ArchiveExtraction.LimitsAreExactBelowTheTop | crates/project/src/registry_package.rs:648-656 | the saturating count keeps to a limit below the top of its range exactly when the true size does |
| ArchiveExtraction.EntryUnpacks | crates/project/src/registry_package.rs:634-664 | one more entry is unpacked exactly when it clashes with none before it, and then the directory holds it too |
| ArchiveExtraction.ContentsComeFromAFile | crates/project/src/registry_package.rs:648-664 | a path has contents exactly when a file entry names it |
| ArchiveExtraction.Examine | crates/project/src/registry_package.rs:634-646 | an entry passes exactly when it is readable, well placed and a file or directory |
| ArchiveExtraction.ExtractEntry | crates/project/src/registry_package.rs:632-664 | one round of the loop keeps what is known of the entries so far; what it refuses no acceptable archive holds |
| ArchiveExtraction.ExtractCheckedArchive | crates/project/src/registry_package.rs:621-672 | success if and only if the archive as a whole is acceptable: entry and size limits, every path inside, no path both file and directory, a manifest of the right identity; the directory then holds exactly the entries, the last of a name winning |

## Left out

- Network, Zenoh sessions, SSH, systemctl, Cargo, tokio and the terminal: they appear as outcomes of steps or as input streams.
- Unit text bodies: `Renderer` supplies them; only the marker line, the names and the `Wants=` lines are modelled.
- Log row formatting: `row` is a parameter of the feed. Cancellation of a feed and the delay between queries are not modelled.
- Float arithmetic of the drive mix and the summaries: a pad command is the handle it is read from.
- `sample()` and what a feed publishes for display. The input feed's opening sample, before any turn: if it is not delivered the feed ends with nothing granted.
- Participants' wall-clock conversion, argument parsing, help and error wording, themes.
- Index download, HTTP limits, checksum of the cached archive, archive pruning, tar and gzip decoding: an archive is its list of entries.
- A full disk or other file-system error while unpacking is folded into an entry's missing `data`; a path below an existing symbolic link cannot occur in a fresh directory that only ever receives files and directories.
- Evidence pruning, log evidence and checkpoint validation of a recovered world; a failing read or an invalid checkpoint is `GiveUp`.
- LaunchLocks, WorldRecovery and PackageExtraction are transition systems on values, since their point is the interleaving; the rewriting of a lock file's diagnostic text in place is not modelled.
- LaunchLocks.EveryPatientInterleavingIsSafe: installs are outside it. They take `state/project.lock` instead of the build lock, and systemd starts their supervisor after that lock is dropped.
- Session.Machine.StartSession: a start that fails before its record is complete can leave processes that are in no record; the contract says which are unsignalled, but nothing accounts for them later. A partly written record blocks the next start.
- Session.Machine.StopSession: process-id reuse, ids that do not fit the platform's type and two stops at once are excluded, since the record is removed by path.
- NativeControl.Control.Converge: identity is what the process table reports; a group whose leader was replaced between its validation and its signal is not distinguished.
- WorldRecovery.AStaleWorldIsRecovered: until it has the lock the recovery is the only one; one that finds another recoverer holding the lock fails, as the source means it to.
- WorldRecovery.FirstSummaryStands: an adapter that overwrites is outside the promise; that the adapter itself creates its summary only if absent is not part of this model.
- PackageExtraction.SuccessNamesACompleteRoot: a user who removes the extraction directory meanwhile is excluded.
- Activation.Host.InstallArchive: power loss between a rename and its directory sync is not distinguished from the rename's having happened; the validation and unpacking of the archive are the one step `prepared`.
- Joypad.Pads.Rescan: with more than 64 listed pads, or 64 and a selection that is not listed, only the last one is shown to stay connected; the selection is never evicted while pads are listed, so one of them has to go.
- ReleaseNames.SortableUtcTimestamp: whether a year fits the platform's civil time is its argument `converted`, and the year itself is unbounded.
- Activation.Deploy: no other install or rollback runs until the undo of the one before is over; the lock does not ensure that, as it is dropped before the undo.
- Units.ManagedUnitsAreTheLastBundles: two regenerations of one directory at once are excluded. An activation regenerates under the install lock, a restore without it, so this rests on the same assumption as `Activation.Deploy`.
- Activation.Host.Stop: the stop of the target that precedes the supervisor's, and whose failure is ignored, is not a step of its own; the runtimes it would stop first are stopped with the supervisor they are part of.
