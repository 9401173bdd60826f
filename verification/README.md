# Cornell Method Notebook: verified models

Dafny models of the parts of the note application that are easy to get wrong:
the update archive and its extraction, the close handshake and the data
operations of the desktop shell, version ordering and the update manifest, log
retention and the diagnostic archive, the migration reconciliation, backup
retention, the single-instance protocol and the staged download.

Each module follows one component. Code that changes things step by step is
modelled by classes and loops proved against functions, and pure code by
functions and lemmas. Protocols are runs of interleaved steps in which timeouts,
crashes, operating-system failures and the other threads choose freely.

`dafny verify dfyconfig.toml` checks everything.

## Modules

| module | what it models |
|---|---|
| TarTrailer | the bounded archive reader with its 1024-byte window, and the judgement on the end of a tar stream |
| ArchivePaths, ArchiveStructure | path and link normalisation, the structural checks, the lexical link chain |
| ArchiveTree, ArchiveExactness | the file tree of an archive, walking it, and when the walk agrees with the lexical chain |
| ArchiveExtract, ArchiveCompare | the two extraction passes into a fresh tree, and the later comparison with the package |
| CloseCoordination, CloseProtocol, CloseProgress | the coordinator object, all interleavings of window event, renderer bridge, waiter and cleanup, and that every request ends |
| DataOperation, DataOperationProgress | restore, pending restore, delete and recovery probe over lock, sidecar, database and rollback, and that every command ends |
| Runs | runs of a system, shared by the three protocols |
| Orders, Decimals, SemVers, MacOsVersions, Manifests | number and version ordering, parsing, printing, duplicate targets |
| Calendar, Timestamps, Crc32, CrcPolynomial, DiagnosticZip, LogRetention | dates, their printed forms, checksum and the polynomial division it is, the archive of the diagnostics, pruning of logs |
| ChunkedBody | the chunked body decoder |
| ReconcileTables, Reconcile, ReconcileOutcome, ReconcileExactness | the separate migration checks and what they amount to |
| RetentionPlan | daily and weekly backup selection and its application |
| InstanceLock, InstanceProgress | lock file, owner marker and socket of competing processes, and how the next one comes to serve |
| StagedDownload | streaming, verifying, publishing and revalidating a package |
| Results, ArchiveErrors, Text, Sorting | shared results and error codes, splitting and joining, stable sorting |

## Where the code and the expectation differ

The code was kept as it is. The members named say exactly when a point matters.

- **Links that pass the checks and lead nowhere.** Targets are resolved
  lexically, so `x/../file` is accepted even when `x` is missing or no directory.
  `ArchiveExactness.SafeTargetsAreExact` gives the exact condition on a link and
  its target: each place from which the target goes on must be an ancestor of the
  link or of the destination. Targets that put `..` first meet it.
- **Extracted archives that the comparison refuses.** The comparison expects
  exactly the listed paths, while extraction makes missing parents. The round
  trip holds if and only if every parent is listed (`ArchiveCompare.ExtractThenCompare`).
- **A sidecar behind a closed window.** Closing does not take the data-operation
  lock, so a command may restart the sidecar between its cleanup and the end of
  the window. `CloseProtocol.DestroyedAfterCleanUp` says so of a run. What
  decides at the cleanup is the command that holds the lock: the slot can be
  filled again if and only if that command is past its quiesce or the application
  is in recovery, and otherwise stays empty for good
  (`DataOperation.EmptiedForGood`). The exit handler runs the cleanup once more
  after `app.exit(0)` (src-tauri/src/main.rs:571-575), which is not modelled.
- **A decision that is delivered and lost.** A closing decision that was
  reported as delivered is followed if and only if the request's thread had not
  given up when it was sent, and the dispatch of that thread does not fail later
  (`CloseProtocol.DeliveredDecision`, for every run). So it is lost after the
  timeout (`CloseProtocol.DecisionAfterTimeout`), and also without one, when the
  page decides before a dispatch that fails
  (`CloseProtocol.DecisionBeforeFailedDispatch`).
- **Restore errors with new data.** Known before the call: only a restore of a
  backup in normal mode has the original in place behind every error other than
  `rollback-failed`; a restore in recovery and a pending restore need not
  (`DataOperation.OriginalKeptExactly`). Afterwards: new data is left exactly
  when the worker succeeded, the restart after it did not come up, and there was
  no way back (recovery, no named backup) or the way back failed
  (`DataOperation.NewDataExactly`). The error code does not tell: workers report
  the same codes over untouched data.
- **Generations wrap.** They name requests uniquely if and only if there are at
  most 2^64 of them (`CloseProtocol.GenerationsUnique`).
- **A mismatch that is never reported.** A target document that does not parse is
  recorded as a mismatch, but the inventory at the end of the reconciliation
  parses every document again and fails. `ReconcileOutcome.ReconcileRows`
  therefore returns only when every document of both databases parses, and no
  result has that mismatch. In the same way a canvas without a text as notebook
  id is a mismatch, but the inventory sorts two or more canvases by these ids and
  fails when such a canvas is on the left of a comparison, which is up to the sort.
- **Extensions that are no text.** Section 7.1.1 of RFC 9112 lets quoted
  extension values hold bytes that are not UTF-8; the decoder refuses such a
  body, and exactly such bodies of the encoding (`ChunkedBody.DecodeUndoesEncode`).
- **A retention run that stops half way.** The check before the deletions is
  all or nothing, the deletions are not: after one that fails, exactly the files
  before it are gone (`RetentionPlan.ExportDirectory.ApplyRetentionPlan`).

## Assumptions

- A restore worker that reports an error, or whose report is missing or cannot
  be read, has left the database as it was; a rollback that reports success has
  put the safety backup back.
- Hash, signature verifier, JSON parser, date parser, UTF-8 decoder and the
  comparison of file names are parameters. Where a theorem needs something of
  them (a hash without collisions, a decoder in which ASCII stands for itself, an order), its
  contract says so.
- Files and directories change only by the modelled steps.

## Model

| member | source | states |
|---|---|---|
| `TarTrailer.LimitedArchiveReader.RecordOutput` | src-tauri/src/update_archive.rs:247-270 | Recording a read of any length slides the 1024-byte window in place so that it holds exactly the last min(1024, total) bytes delivered, and keeps the trailer count and its non-zero flag in step. |
| `TarTrailer.LimitedArchiveReader.Read` | src-tauri/src/update_archive.rs:272-306 | One read into a buffer of any size delivers the next bytes of the stream unchanged; a limit error means the stream is longer than 8 GiB, a zero-length read its end. |
| `TarTrailer.LimitedArchiveReader.BeginTarTrailer` | src-tauri/src/update_archive.rs:214-218 | From this point on the bytes read are counted as trailer, and nothing already seen is lost. |
| `TarTrailer.LimitedArchiveReader.Drain` | src-tauri/src/update_archive.rs:1017-1023 | Reading to the end collects the whole rest of the stream as trailer; which error stops it depends only on the stream length and the decoder, not on how reads are cut. |
| `TarTrailer.LimitedArchiveReader.JudgeTrailer` | src-tauri/src/update_archive.rs:1025-1041 | The verdict from the counter, the flag and the window is the verdict over all delivered bytes. |
| `TarTrailer.LimitedArchiveReader.FinishTarStream` | src-tauri/src/update_archive.rs:1017-1042 | The verdict on the end of an archive is a function of the bytes alone: for every buffer size and every way the decoder cuts its reads the result is the same. |
| `TarTrailer.LimitedArchiveReader.ReadEntries` | src-tauri/src/update_archive.rs:272-306 | Reading the bytes of the entries, in reads of any size, delivers exactly those and fails exactly when they exceed 8 GiB. |
| `TarTrailer.OpenArchive` | src-tauri/src/update_archive.rs:137-212 | A pass gets past the bytes of the entries exactly when they fit the limit, and then stands right behind them; otherwise the error is the limit. |
| `TarTrailer.CloseArchive` | src-tauri/src/update_archive.rs:220-245 | A pass ends well exactly when the trailer verdict is good and nothing follows the decoded stream in the file, whatever the read sizes; the error is that of the verdict, or that bytes follow. |
| `TarTrailer.AcceptedTrailer` | src-tauri/src/update_archive.rs:1017-1042 | An archive end is accepted if and only if at least one 512-byte block follows where the entry iterator stopped, the stream has between 1024 bytes and 8 GiB, everything from there on is zero and the last 1024 bytes of the stream are zero. |
| `ArchivePaths.NormalizedPathIsProper` | src-tauri/src/update_archive.rs:1172-1190 | An accepted path text is exactly the join of its components (plus an optional final slash), and none of them is empty, `.` or `..`. |
| `ArchivePaths.PathsExactly` | src-tauri/src/update_archive.rs:1172-1190 | A text is accepted as a path exactly when it is clean and joins components that are neither empty nor dots, with or without a final slash; components and slash are those. |
| `ArchivePaths.NormalizedTargetIsProper` | src-tauri/src/update_archive.rs:1192-1220 | An accepted link target is relative, has no empty or `.` component, and its text is recovered from its components. |
| `ArchivePaths.TargetsExactly` | src-tauri/src/update_archive.rs:1192-1220 | A text is accepted as a link target exactly when it is clean and joins components that are neither empty nor `.`. |
| `ArchivePaths.OneCharacter` | src-tauri/src/update_archive.rs:1222-1246 | How many bytes each character counts, and that exactly control characters and the backslash are forbidden. |
| `ArchivePaths.RootTextIsRootComponent` | src-tauri/src/update_archive.rs:1528-1530 | The textual prefix test for the application root agrees with asking for the first component. |
| `ArchivePaths.ResolveRelativeSymlinkPath` | src-tauri/src/update_archive.rs:1142-1170 | Resolving a target succeeds exactly when the lexical climb never leaves the application root, gives that destination, and names which of the two errors happened. |
| `ArchivePaths.ClimbStaysInRoot` | src-tauri/src/update_archive.rs:1134-1170 | A successful climb from a path in the application ends at a proper path in the application, for targets of any length. |
| `ArchiveStructure.TrailIsDistinct` | src-tauri/src/update_archive.rs:1100-1132 | A link chain that leads somewhere meets no path twice. |
| `ArchiveStructure.AcceptedChain` | src-tauri/src/update_archive.rs:1044-1132 | In an accepted archive every link chain has at most sixteen links, repeats nothing, stays in the application root, and all but its last element are links. |
| `ArchiveStructure.RevisitMeansCycle` | src-tauri/src/update_archive.rs:1115-1132 | The visited-set test is exact: meeting a path again means the link leads nowhere within any number of hops allowed. |
| `ArchiveStructure.ResolveSymlink` | src-tauri/src/update_archive.rs:1100-1132 | The loop with its visited set and hop counter accepts a link exactly when the lexical chase reaches a non-link entry within sixteen hops. |
| `ArchiveStructure.CheckParents` | src-tauri/src/update_archive.rs:1073-1085 | Accepts exactly the entry lists in which every listed parent is a directory; the error tells whether a file or a link is the parent. |
| `ArchiveStructure.CheckLinks` | src-tauri/src/update_archive.rs:1087-1096 | Accepts exactly when every link resolves. |
| `ArchiveStructure.ValidateArchiveStructure` | src-tauri/src/update_archive.rs:1044-1098 | Accepts exactly the lists with unique paths, all in the application root, directory parents and resolving links; each of the three errors tells which of these fails. |
| `ArchiveStructure.AcceptedMeaning` | src-tauri/src/update_archive.rs:1044-1098 | The accepted lists without the table: where paths may be, that they are distinct, that the root is a listed directory, that what is listed above an entry is a directory, and that links end within sixteen hops. |
| `ArchiveTree.MaterialisedAncestor` | src-tauri/src/update_archive.rs:1427-1452 | In the tree of an accepted archive every proper ancestor of an entry is a real directory, listed or not. |
| `ArchiveTree.OwnerDigit` | src-tauri/src/update_archive.rs:1508-1526 | A mode counts as executable exactly when its owner digit, written in octal, is 1, 3, 5 or 7, whatever the other three digits are. |
| `ArchiveTree.PublishedEntry` | src-tauri/src/update_archive.rs:844-905 | In the published tree a regular entry is a file of its bytes, of mode 0700 when its owner digit is odd and 0600 otherwise, a link has its target, and a listed directory has mode 0700. |
| `ArchiveTree.PublishedPaths` | src-tauri/src/update_archive.rs:1427-1452 | Nothing is published but entries and their ancestors; ancestors that are no entries are directories as the system made them. |
| `ArchiveTree.DotsFirstIsSafe` | src-tauri/src/update_archive.rs:1142-1170 | A target whose `..` components come before its names is safe. |
| `ArchiveTree.SafeTargetAgrees` | src-tauri/src/update_archive.rs:1142-1170 | Through a safe target a walk on the real tree goes where the lexical resolution says, in every accepted archive and with every hop budget. |
| `ArchiveTree.WalkFollowsChase` | src-tauri/src/update_archive.rs:1100-1132 | Following an accepted link step by step on the extracted tree ends at the very entry where the lexical chain ends, when the links of the chain are safe. |
| `ArchiveTree.AcceptedLinksWalk` | src-tauri/src/update_archive.rs:1044-1170 | For archives whose targets put `..` first: every link, walked on the extracted tree, reaches a file or directory inside the application root, the one the checks computed. |
| `ArchiveExactness.UnsafeLinkFails` | src-tauri/src/update_archive.rs:1134-1170 | For every unsafe target there is an accepted archive in which the link leads nowhere on disk. |
| `ArchiveExactness.SafeTargetsAreExact` | src-tauri/src/update_archive.rs:1044-1170 | The lexical checks and the walk agree in every accepted archive holding a link if and only if its target is safe, a condition on the link path and target alone. |
| `ArchiveExactness.UnsafeTargetExample` | src-tauri/src/update_archive.rs:1134-1170 | `x/../file` without an entry `x` passes every check and leads nowhere on the extracted tree. |
| `ArchiveExtract.ConsumeEntry` | src-tauri/src/update_archive.rs:976-1015 | Copying an entry in reads of any size succeeds exactly when the entry and the running total fit the limits and the file takes all of it; it then writes exactly its bytes and adds exactly its length, and in any case writes first bytes of them; the error tells whether limit or file failed. |
| `ArchiveExtract.MeasureEntries` | src-tauri/src/update_archive.rs:793-820 | Measuring succeeds exactly when count, declared sizes and total fit, and returns the entries' specifications in order; the errors tell an entry that is too short from anything too large. |
| `ArchiveExtract.PreflightArchive` | src-tauri/src/update_archive.rs:793-827 | The first pass accepts exactly the packages within the limits, with an accepted structure, whose stream ends well; every error has its cause in the package. |
| `ArchiveExtract.AcceptableMeaning` | src-tauri/src/update_archive.rs:793-827 | The acceptable packages with the limits as numbers: 250000 entries, 1 GiB each and as declared, 8 GiB in all, an accepted structure and end. |
| `ArchiveExtract.CausesRefuse` | src-tauri/src/update_archive.rs:793-906 | What an error of either pass tells of a package is never true of one that the pass accepts. |
| `ArchiveExtract.PlaceIsFree` | src-tauri/src/update_archive.rs:844-890 | When the loop comes to an entry its place is free (or holds the directory made for it) and all its parents are directories. |
| `ArchiveExtract.StagedIsMaterialised` | src-tauri/src/update_archive.rs:829-906 | After all entries are written and the safe modes set, the tree is exactly the tree the archive stands for. |
| `ArchiveExtract.StagingTree.EnsureDirectoryNoFollow` | src-tauri/src/update_archive.rs:1372-1395 | Creates a missing directory unless the system refuses, accepts an existing one, refuses anything else, each with its own code, and changes nothing else. |
| `ArchiveExtract.StagingTree.EnsureParentDirectories` | src-tauri/src/update_archive.rs:1441-1452 | Succeeds exactly when the system refuses none of the ancestors of the path; then exactly these have been added, all directories. |
| `ArchiveExtract.StagingTree.PrepareDirectoryTree` | src-tauri/src/update_archive.rs:1427-1439 | From an empty root it succeeds exactly when the system refuses none of the directories that entries need, and the tree then holds exactly these. |
| `ArchiveExtract.StagingTree.OpenNewRegularFile` | src-tauri/src/update_archive.rs:1462-1494 | A new empty file appears only at a free path below directories, and there unless the system refuses; a taken path has its own code. |
| `ArchiveExtract.StagingTree.CreateSymlink` | src-tauri/src/update_archive.rs:1496-1506 | A link appears only at a free path below directories, and there unless the system refuses. |
| `ArchiveExtract.StagingTree.SetSafeMode` | src-tauri/src/update_archive.rs:1508-1526 | Modes become 0700 or 0600 by kind and owner execute bit (`ArchiveTree.OwnerDigit`) unless the system refuses; contents and targets stay. |
| `ArchiveExtract.StagingTree.WriteEntry` | src-tauri/src/update_archive.rs:844-890 | Writes one entry and nothing else, succeeding exactly when it fits the limits and its declared size and the system makes it, takes its bytes and sets its mode; an error tells which, and leaves nothing or a file with first bytes of the entry. |
| `ArchiveExtract.StagingTree.WriteRegular` | src-tauri/src/update_archive.rs:853-878 | The same for a regular file, through opening, copying, flushing and setting the mode. |
| `ArchiveExtract.StagingTree.SetDirectoryModes` | src-tauri/src/update_archive.rs:899-905 | Exactly the listed directories get the safe mode, if the system sets all of them; implicit parents and everything else keep theirs. |
| `ArchiveExtract.StagingTree.ExtractArchive` | src-tauri/src/update_archive.rs:829-906 | The second pass succeeds exactly when the package still holds the entries of the first pass, within limits, still ends well, and the system writes all of it; the tree is then the archive's tree and no call went through a link; every error has its cause there. |
| `ArchiveExtract.StagingTree.ExtractVerifiedArchive` | src-tauri/src/update_archive.rs:388-458 | A package, read twice and perhaps changed in between, is published, in one step and in full, exactly when it is acceptable and still holds the same entries, the checks of the handle hold, the places are free and the system writes all of it; never a write through a link; an error names its cause and publishes nothing, and leaves nothing unless what was half written could not be removed. What is published is told entry by entry by `ArchiveTree.PublishedEntry` and `ArchiveTree.PublishedPaths`. |
| `ArchiveExtract.StagingTree.FillTemporary` | src-tauri/src/update_archive.rs:419-437 | Between creating and publishing, the temporary directory gets exactly the archive's tree, unless a check of the handle, the package or the system fails. |
| `ArchiveExtract.StagingTree.CleanUpTemporary` | src-tauri/src/update_archive.rs:1416-1425 | The temporary directory goes and the original error is reported, or nothing is added and the failure to remove it is reported. |
| `ArchiveCompare.CollectExtractedTreePaths` | src-tauri/src/update_archive.rs:613-645 | The recursive listing returns exactly what lies below the directory, or fails exactly when something unexpected or something that is no directory, file or link lies there. |
| `ArchiveCompare.CompareExtractedTreeShape` | src-tauri/src/update_archive.rs:555-670 | Accepts exactly the trees with the listed paths and no others, and the right kinds, modes, sizes and link targets. |
| `ArchiveCompare.CompareRegularEntry` | src-tauri/src/update_archive.rs:708-756 | Comparing in pieces of any sizes on both sides accepts exactly the file with the same bytes and the declared size, and tells no file, other bytes, another size and a longer file apart as the code does. |
| `ArchiveCompare.CompareArchiveToExtractedTree` | src-tauri/src/update_archive.rs:672-706 | Accepts exactly when the package still holds the same entries, every file in the tree has the entry's bytes, and the stream ends well; every error has its cause there. |
| `ArchiveCompare.CompareEntriesToExtractedTree` | src-tauri/src/update_archive.rs:679-699 | The loop over the entries: the same without the end of the stream. |
| `ArchiveCompare.RevalidateExtractedArchiveTree` | src-tauri/src/update_archive.rs:470-518 | The package is read twice and the tree looked at three times, and both may change in between: accepted if and only if the checks around it hold, the package is acceptable and still the same, the tree is there and has the shape of the entries before and after, and their contents in between. Without changes: if and only if the tree equals the tree of the entries, with the same paths, kinds, modes, targets and bytes. Every error has its cause there. |
| `ArchiveCompare.ExtractThenCompare` | src-tauri/src/update_archive.rs:470-518 | The tree just extracted is accepted by the comparison if and only if the archive lists every parent directory. |
| `ArchiveCompare.ImplicitParentExample` | src-tauri/src/update_archive.rs:555-611 | An archive with one unlisted parent is accepted and extracted, and its own tree is then refused. |
| `CloseCoordination.CloseCoordinator.BeginRequest` | src-tauri/src/lifecycle.rs:101-126 | A request begins only when exit is not allowed and none is pending; it gets the next generation and a fresh empty channel, otherwise nothing changes. |
| `CloseCoordination.CloseCoordinator.ClaimCloseEventDispatch` | src-tauri/src/lifecycle.rs:128-146 | Claims exactly for the pending request of this generation with a ready bridge and no dispatch so far. |
| `CloseCoordination.CloseCoordinator.ClaimCloseEventDispatchFallback` | src-tauri/src/lifecycle.rs:148-163 | Claims exactly once per request and bridge for a request not yet dispatched. |
| `CloseCoordination.CloseCoordinator.SignalReady` | src-tauri/src/lifecycle.rs:165-183 | A new bridge takes over, and a pending undispatched request is dispatched to it. |
| `CloseCoordination.CloseCoordinator.SignalNotReady` | src-tauri/src/lifecycle.rs:185-199 | Only the bridge's own generation can withdraw it, and then the pending request may be dispatched again. |
| `CloseCoordination.CloseCoordinator.DropBridge` | src-tauri/src/lifecycle.rs:201-212 | The bridge is gone and the pending request may be dispatched again. |
| `CloseCoordination.CloseCoordinator.Resolve` | src-tauri/src/lifecycle.rs:214-228 | Takes the pending request whatever happens, and delivers the decision to its own channel exactly when somebody still listens. |
| `CloseCoordination.CloseCoordinator.ClearRequest` | src-tauri/src/lifecycle.rs:230-236 | Removes the pending request only if it has this generation. |
| `CloseCoordination.CloseCoordinator.SetExitAllowed` | src-tauri/src/lifecycle.rs:238-248 | Changes the permission and nothing else. |
| `CloseCoordination.Channel.Send` | src-tauri/src/lifecycle.rs:223-227 | A message is queued exactly while the receiver lives. |
| `CloseProtocol.GenerationsUnique` | src-tauri/src/lifecycle.rs:101-126 | Wrapping 64-bit generations name requests uniquely if and only if there were at most 2^64 of them. |
| `CloseProtocol.ClearIsOwn` | src-tauri/src/lifecycle.rs:230-236 | In every safe state clearing a request's generation removes that request and never a newer one. |
| `CloseProtocol.PendingDisappears` | src-tauri/src/lifecycle.rs:214-236 | For any step in a safe state: the pending request disappears if and only if the page takes it, its own thread abandons or clears it, or a script dispatched for it fails; otherwise it stays the same request. |
| `CloseProtocol.PendingAppears` | src-tauri/src/lifecycle.rs:101-126 | A request becomes pending by a close request and no other step, exactly when none is pending and exit is not allowed. |
| `CloseProtocol.StaysPending` | src-tauri/src/lifecycle.rs:984-1018 | Over every run: a pending request is still pending if and only if no step of the run was one of those that take it away. |
| `CloseProtocol.TakeableUntil` | src-tauri/src/lifecycle.rs:984-1018 | From every reachable state, an undecided request can be decided by the page until its own thread gives up, the page has decided, or a script for it failed. |
| `CloseProtocol.CoordinatorStep` | src-tauri/src/lifecycle.rs:101-248 | Each step of the protocol leaves the coordinator as the one critical section it runs leaves it; only the failure of a script clears, a success does not (lines 1340-1343). |
| `CloseProtocol.SendMeaning` | src-tauri/src/lifecycle.rs:223-228 | The decision is put into the channel of the request it was taken from exactly while its thread lives, and nothing else changes. |
| `CloseProtocol.StepIsSafe` | src-tauri/src/lifecycle.rs:984-1018 | Every interleaved step (window event, page navigation, evaluation failure, waiter, timeout, cleanup, other commands) keeps the invariant. |
| `CloseProtocol.RunIsSafe` | src-tauri/src/lifecycle.rs:984-1018 | Every state of every run keeps the invariant. |
| `CloseProtocol.CloseGuarantees` | src-tauri/src/lifecycle.rs:984-1018 | For all interleavings: at most one pending request, generations grow, at most one decision per channel, only a closing decision to its own channel closes a window, at most one dispatch and one fallback between bridge invalidations, and a pending request with a ready bridge is dispatched once its opener is past the claim. What takes a pending request away is `CloseProtocol.PendingDisappears`. |
| `CloseProtocol.OthersLeaveIt` | src-tauri/src/lifecycle.rs:1004-1018 | A request's thread is moved on by its own steps only, and its channel by a send to it only. |
| `CloseProtocol.LateDecisionIsLost` | src-tauri/src/lifecycle.rs:1005-1010 | Once a waiter has given up no later step of any kind closes that window on behalf of it. |
| `CloseProtocol.DecisionIsHonoured` | src-tauri/src/lifecycle.rs:1005-1013 | A decision delivered while the waiter still waits is the one it acts on, in every continuation. |
| `CloseProtocol.DeliveredDecision` | src-tauri/src/lifecycle.rs:214-236 | For every run, a closing decision sent to a living receiver, and its thread ended: the window is closed if and only if the thread had not given up at the send, its dispatch did not fail later and its sidecar could be stopped, and kept open by the cleanup if and only if only the last of these failed. |
| `CloseProtocol.SidecarAfter` | src-tauri/src/lifecycle.rs:297-347 | After a slot has been emptied it is occupied if and only if some later restart was not followed by another emptying. |
| `CloseProtocol.DestroyedAfterCleanUp` | src-tauri/src/lifecycle.rs:964-976 | A window about to be destroyed has emptied the sidecar slot, and the slot is occupied again if and only if another command restarted a sidecar since. |
| `CloseProtocol.ExitIsAllowedFirst` | src-tauri/src/lifecycle.rs:964-976 | No new close request can begin behind a window that is being destroyed, unless some command takes the permission back. |
| `CloseProtocol.UndecidedRun` | src-tauri/src/lifecycle.rs:984-1010 | The states the lemmas on the limits start from are reached by every first request. |
| `CloseProtocol.DecisionAfterTimeout` | src-tauri/src/lifecycle.rs:214-236 | A decision taken after the timeout and before the clear is reported as delivered, and the window stays open. |
| `CloseProtocol.DecisionBeforeFailedDispatch` | src-tauri/src/lifecycle.rs:993-1001 | A decision taken before a dispatch that fails is reported as delivered, and the window stays open, without any timeout. |
| `CloseProtocol.DecidedInTime` | src-tauri/src/lifecycle.rs:1004-1013 | An undecided request goes on to the cleanup when the page decides to close. |
| `CloseProtocol.RestartDuringClose` | src-tauri/src/lifecycle.rs:964-976 | A restart between cleanup and destroy leaves a running sidecar behind a closed window. |
| `CloseProgress.OwnSteps` | src-tauri/src/lifecycle.rs:984-1018 | The thread of a request has one kind of step at a time, with any outcome, and waits for no other thread: a waiter without a decision may give up. |
| `CloseProgress.OtherSteps` | src-tauri/src/lifecycle.rs:101-248 | In every safe state the page and the other commands may act at any time, apart from the order of the two halves of a navigation and from deciding without a pending request. |
| `CloseProgress.StepsAreBounded` | src-tauri/src/lifecycle.rs:984-1018 | In every run the thread of a request takes at most eight steps, whatever the others do in between. |
| `CloseProgress.EndsByItself` | src-tauri/src/lifecycle.rs:984-1018 | From every state the thread of a request comes to its end by its own steps alone. |
| `DataOperation.AppState.CleanupSidecar` | src-tauri/src/lifecycle.rs:297-308 | Succeeds when there is nothing to stop; a sidecar that cannot be stopped stays in its slot. |
| `DataOperation.AppState.QuiesceSidecar` | src-tauri/src/lifecycle.rs:316-327 | Needs a sidecar to stop; on failure the slot is unchanged. |
| `DataOperation.AppState.RestartSidecar` | src-tauri/src/lifecycle.rs:329-347 | Fills the empty slot; an occupied slot is never overwritten. |
| `DataOperation.RunIsSafe` | src-tauri/src/lifecycle.rs:439-945 | Every run of competing restore, resume, delete and probe commands, closing windows and sidecar writes keeps the invariant. |
| `DataOperation.WorkersRunAlone` | src-tauri/src/lifecycle.rs:439-945 | Whenever a worker runs, its command holds the operation lock, no sidecar is alive (in recovery too), and no other command holds anything. |
| `DataOperation.EmptiedForGood` | src-tauri/src/lifecycle.rs:297-347 | After a closing window has emptied the slot, some continuation fills it again if and only if the command that holds the lock is past its quiesce or the application is in recovery; otherwise it stays empty in every continuation. |
| `DataOperation.RestoreOutcome` | src-tauri/src/lifecycle.rs:549-665 | A restore succeeds exactly when its worker succeeded and the restart came up, and then on the requested data; a restore of a backup in normal mode with an error other than `rollback-failed` has the original in place. |
| `DataOperation.NewDataExactly` | src-tauri/src/lifecycle.rs:597-945 | An erroring restore leaves the requested data if and only if the worker succeeded, the next restart did not come up, and it was in recovery, no backup was named, or the rollback failed; each of these branches reports its own code. |
| `DataOperation.ModeIsTheFlag` | src-tauri/src/lifecycle.rs:573-588 | The mode of a restore is the recovery flag read under the lock, and neither changes before the command is done. |
| `DataOperation.OriginalKeptExactly` | src-tauri/src/lifecycle.rs:549-945 | For command c in mode m: every finished run with an error other than `rollback-failed` has the original in place if and only if c restores a backup and m is normal. |
| `DataOperation.DeleteOutcome` | src-tauri/src/lifecycle.rs:455-548 | A successful delete leaves emptied data and a stopped sidecar; an error leaves the original unless the worker failed after validation; the sidecar comes back only on untouched data. |
| `DataOperation.AnsweredExactly` | src-tauri/src/lifecycle.rs:439-945 | For every finished command of every run: its answer is that of the reference table over what happened to it (refused, in recovery, quiesced, worker and rollback reports, restarts), and whether the sidecar came back and what data was left are told by the same. |
| `DataOperation.SurroundingSteps` | src-tauri/src/lifecycle.rs:297-347 | What writes of the sidecar, closing windows and other commands change: the database, the slot or the permission, and nothing else. |
| `DataOperation.ExitFollowsOutcome` | src-tauri/src/lifecycle.rs:432-765 | Permission to exit is given by a delete past validation and by entering recovery, withdrawn by leaving recovery, and touched by no other step. |
| `DataOperation.NewDataBehindError` | src-tauri/src/lifecycle.rs:597-945 | In recovery, and for a pending restore without a named safety backup, a worker that succeeds before a sidecar that does not start ends in an error with the new data in place. |
| `DataOperation.ReachesTheWorker` | src-tauri/src/lifecycle.rs:549-596 | The first restore or pending restore reaches its worker, in recovery and in normal mode. |
| `DataOperation.LosesTheOriginal` | src-tauri/src/lifecycle.rs:597-945 | Every restore in recovery and every pending restore has a run that ends in an error other than `rollback-failed` with the original lost. |
| `DataOperationProgress.OpenSteps` | src-tauri/src/lifecycle.rs:439-945 | In every safe state: a command that is not done takes its next step with any outcome of the surroundings and any result its worker can have, and only its first step waits, for the lock. |
| `DataOperationProgress.StepsAreBounded` | src-tauri/src/lifecycle.rs:439-945 | In every run the commands together take at most seven steps each: none runs for ever. |
| `DataOperationProgress.EveryCommandEnds` | src-tauri/src/lifecycle.rs:439-945 | Every command of every reachable state can come to its end: the holder of the lock gives it back, and then it is free for the next. |
| `Orders.ListsReverse` | src-tauri/src/update_manifest.rs:310-322 | Comparing lists element by element is antisymmetric, and equal only for equal lists, whenever the element order is total. |
| `Orders.ListsTransitive` | src-tauri/src/update_manifest.rs:310-322 | It is transitive for lists of any lengths. |
| `Orders.FirstDifference` | src-tauri/src/update_manifest.rs:310-322 | It says Less exactly when there is a first difference that is less, or the first list is a proper prefix. |
| `Decimals.CompareIsNumeric` | src-tauri/src/update_manifest.rs:132-139 | Comparing lengths and then bytes is comparing the numbers, for digit strings of any length. |
| `Decimals.ParseMeaning` | src-tauri/src/update_manifest.rs:101-121 | Parsing accepts exactly the digit strings (without leading zeros where those are forbidden) and keeps the number; with leading zeros forbidden it keeps the text. |
| `Decimals.DecimalOrder` | src-tauri/src/update_manifest.rs:132-139 | The comparison is a total order. |
| `SemVers.IdentifiersRoundTrip` | src-tauri/src/update_manifest.rs:324-354 | A list of texts parses to identifiers exactly when they are valid and print to those texts. |
| `SemVers.PreReleaseRoundTrip` | src-tauri/src/update_manifest.rs:324-354 | The same for the whole pre-release part, absent parts included. |
| `SemVers.BuildMetadataRoundTrip` | src-tauri/src/update_manifest.rs:356-374 | The same for build metadata. |
| `SemVers.CoreRoundTrip` | src-tauri/src/update_manifest.rs:163-214 | The same for the three numbers. |
| `SemVers.RoundTrip` | src-tauri/src/update_manifest.rs:163-276 | A text parses to a version if and only if the version is valid and prints as that text: parsing and printing undo each other both ways, build metadata included. |
| `SemVers.PlainCharacter` | src-tauri/src/update_manifest.rs:324-374 | The characters of identifiers are the letters, the digits and the hyphen. |
| `SemVers.TextMeaning` | src-tauri/src/update_manifest.rs:621-628 | A text is accepted as such exactly when it is not empty and has no control character. |
| `SemVers.IdentifierMeaning` | src-tauri/src/update_manifest.rs:284-293 | Numeric identifiers compare as numbers, others as text, and numeric ones are lower. |
| `SemVers.PreReleaseMeaning` | src-tauri/src/update_manifest.rs:310-322 | A pre-release is lower exactly as Section 11.4 of Semantic Versioning 2.0.0 says. |
| `SemVers.PrecedenceMeaning` | src-tauri/src/update_manifest.rs:220-227 | The precedence is that of Section 11 of Semantic Versioning 2.0.0. |
| `SemVers.PrecedenceReverses` | src-tauri/src/update_manifest.rs:220-256 | Comparing both ways agrees, and equal precedence is exactly equality of the hashed fields. |
| `SemVers.PrecedenceIsTransitive` | src-tauri/src/update_manifest.rs:220-227 | Precedence is transitive, and equal ends mean equal middles. |
| `MacOsVersions.Parse` | src-tauri/src/update_manifest.rs:382-392 | The loop that pops zeros returns the components without trailing zeros (keeping one). |
| `MacOsVersions.ParsesExactly` | src-tauri/src/update_manifest.rs:382-392 | A text parses exactly when every part between its dots is a number. |
| `MacOsVersions.PaddedMeaning` | src-tauri/src/update_manifest.rs:394-406 | The padded comparison is Less exactly at a first smaller component, Equal exactly when all components agree with missing ones read as zero. |
| `MacOsVersions.EqualIsSame` | src-tauri/src/update_manifest.rs:394-418 | On parsed versions comparing Equal and being structurally equal coincide. |
| `MacOsVersions.VersionOrder` | src-tauri/src/update_manifest.rs:408-418 | The comparison is a total order on parsed versions. |
| `MacOsVersions.TrimmedComparison` | src-tauri/src/update_manifest.rs:382-406 | Trimming never changes a comparison. |
| `MacOsVersions.TextComparison` | src-tauri/src/update_manifest.rs:382-418 | Two texts parse to the same version exactly when their numbers agree up to trailing zeros, and compare as the untrimmed numbers do. |
| `Manifests.SameTargetMeansSameHash` | src-tauri/src/update_manifest.rs:470-477 | On normalised releases the hash key of the duplicate set agrees with version equality in every component. |
| `Manifests.NormalizeManifest` | src-tauri/src/update_manifest.rs:493-540 | A manifest is accepted exactly when schema and product match, each release normalises and no two have the same target; an error is that of the header, or names the first release that does not normalise or that clashes with an earlier one. |
| `Manifests.NormalizedIsValid` | src-tauri/src/update_manifest.rs:542-619 | A release that normalises has a valid version, a range that is not empty, a positive size, a lowercase SHA-256 and texts without control characters throughout. |
| `Manifests.NormalizesExactly` | src-tauri/src/update_manifest.rs:542-619 | A raw release normalises to a given release if and only if that release has its texts unchanged, its version and range parsed, a range that is not empty, and artifact and signature in order. |
| `Manifests.SelectedMeaning` | src-tauri/src/update_manifest.rs:493-540 | The selected releases are exactly the normalised ones of the channel `stable`, without a pre-release, for `aarch64-apple-darwin` and in the format `app-archive`. |
| `Calendar.YearOfEraMeaning` | src-tauri/src/diagnostics.rs:1104-1106 | The year-of-era formula gives the year the day falls in, for every day of an era, century leap rules included. |
| `Calendar.CivilFromDaysIsDate` | src-tauri/src/diagnostics.rs:1101-1112 | Every day number from 0 on becomes a valid Gregorian date not before 1970 whose day count is that number. |
| `Calendar.DayNumberIsInverse` | src-tauri/src/diagnostics.rs:1101-1112 | Every valid date from 1970 on is the date of its day count: with the row above, a bijection. |
| `Calendar.CivilOfNextDay` | src-tauri/src/diagnostics.rs:1101-1112 | The next day number is the calendar successor. |
| `Calendar.NegativeDaysExample` | src-tauri/src/diagnostics.rs:1101-1104 | Far before the epoch two day numbers get the same date: the theorems above do not extend below 0. |
| `Calendar.TimestampMeaning` | src-tauri/src/diagnostics.rs:1087-1099 | A timestamp has hour, minute and second in range and stands for exactly its seconds. |
| `Calendar.BackupTimestampIsTimestamp` | src-tauri/src/runtime.rs:1027-1049 | The separately written copy in the backup file name gives the same date and time, for all seconds up to the signed 64-bit maximum. |
| `Calendar.BackupTimestampMeaning` | src-tauri/src/runtime.rs:1027-1049 | Backup names of different seconds differ. |
| `Timestamps.TimestampTextTellsTimes` | src-tauri/src/diagnostics.rs:1087-1099 | The printed timestamps of two times are the same only for the same second and millisecond. |
| `Timestamps.TimestampLayout` | src-tauri/src/diagnostics.rs:1087-1099 | Up to the year 9999 a timestamp has 24 characters, with year, month, day, hour, minute, second and millisecond at their places between the separators. |
| `Timestamps.BackupNameTellsTimes` | src-tauri/src/runtime.rs:1027-1049 | The printed backup names are the same only for the same second and the same random part, though month, day and time run together without separators. |
| `Timestamps.BackupNameLayout` | src-tauri/src/runtime.rs:1027-1049 | Up to the year 9999 a backup name is the prefix, eight digits of date, six digits of time, the random part and the suffix. |
| `Crc32.ComputeChecksum` | src-tauri/src/diagnostics.rs:944-958 | The nested loops compute the checksum fold. |
| `Crc32.BitwiseIsTableDriven` | src-tauri/src/diagnostics.rs:944-958 | For every byte string the bit loop equals the table-driven form in Section 8 of RFC 1952. |
| `Crc32.NumbersAgree` | src-tauri/src/diagnostics.rs:944-958 | The same for bytes and checksum as numbers. |
| `CrcPolynomial.ChecksumIsRemainder` | src-tauri/src/diagnostics.rs:944-958 | A word is the checksum if and only if its complement is the remainder of the message, with its first 32 bits complemented and 32 zeros behind, by the generator polynomial written out in section 8.1.1.6.2 of ITU-T V.42. |
| `CrcPolynomial.ShiftDivides` | src-tauri/src/diagnostics.rs:948-955 | One turn of the bit loop is one step of dividing by that polynomial. |
| `CrcPolynomial.RemaindersAgree` | src-tauri/src/diagnostics.rs:944-958 | There is only one remainder, so that the row above fixes the checksum. |
| `DiagnosticZip.NumberRoundTrip` | src-tauri/src/diagnostics.rs:934-942 | A number that fits its width is read back from its little-endian bytes. |
| `DiagnosticZip.RecordRoundTrip` | src-tauri/src/diagnostics.rs:934-942 | Records of any shape are read back field by field. |
| `DiagnosticZip.ArchiveFile.WriteZipArchive` | src-tauri/src/diagnostics.rs:879-932 | Writes exactly the archive of the content with its checksum, and returns the length of the file. |
| `DiagnosticZip.ArchiveReadsBack` | src-tauri/src/diagnostics.rs:879-932 | Following end record, central header and local header (Section 4.3 of PKWARE APPNOTE.TXT) recovers exact name, content and checksum. |
| `DiagnosticZip.DiagnosticReadsBack` | src-tauri/src/diagnostics.rs:879-958 | The diagnostic archive holds the document under its name with the table-driven checksum. |
| `DiagnosticZip.ArchiveBytes` | src-tauri/src/diagnostics.rs:879-932 | The archive byte by byte: the three signatures, the versions, the fields and their order. |
| `DiagnosticZip.FileNameIs` | src-tauri/src/diagnostics.rs:20 | The bytes of the name are `diagnostic.json`. |
| `LogRetention.LogDirectory.Collect` | src-tauri/src/diagnostics.rs:699-716 | Lists every log once, and fails exactly when anything unsafe or larger than 16 KiB is there, telling which of the two it met. |
| `LogRetention.LogDirectory.DeleteExpired` | src-tauri/src/diagnostics.rs:717-722 | Exactly the expired logs go if none of them is locked; otherwise exactly those before the first locked one. |
| `LogRetention.LogDirectory.DeleteOldest` | src-tauri/src/diagnostics.rs:723-731 | The shortest prefix of the order whose deletion brings the total under the cap goes, and nothing else; a locked log in it stops the deletion right there. |
| `LogRetention.LogDirectory.PruneLogs` | src-tauri/src/diagnostics.rs:693-733 | On success the directory is the logs of the last 14 days before `now`, minus the shortest prefix of them, oldest first, without which the rest fits 20 MiB; a directory with anything unsafe is untouched, and the error says why; after a removal that fails exactly a prefix of the older logs is gone, or all of them and a prefix of the oldest others; without removal failures it succeeds. |
| `LogRetention.CutoffMeaning` | src-tauri/src/diagnostics.rs:698-720 | A log is before the cutoff if and only if it is more than 14 days older than `now`, near the epoch too. |
| `LogRetention.PrunedMeaning` | src-tauri/src/diagnostics.rs:693-733 | No survivor is older than 14 days at `now` or older than a deleted log that is not, survivors total at most 20 MiB, and with one deletion fewer they would not; so a log of the last 14 days goes only for the cap. |
| `LogRetention.PruneIsIdempotent` | src-tauri/src/diagnostics.rs:693-733 | Pruning again at the same time changes nothing. |
| `Sorting.SortMeaning` | src-tauri/src/diagnostics.rs:724 | Sorting orders the list and permutes it. |
| `Sorting.SortIsStable` | src-tauri/src/diagnostics.rs:724 | Elements the order does not tell apart stay in their order. |
| `ChunkedBody.FindLineEnd` | src-tauri/src/runtime.rs:2692 | The window scan finds the first CRLF. |
| `ChunkedBody.DecodeChunkedBody` | src-tauri/src/runtime.rs:2689-2706 | The loop over the shrinking slice terminates on every input and returns what the recursive definition says. |
| `ChunkedBody.DecodesExactly` | src-tauri/src/runtime.rs:2689-2706 | A body decodes to given bytes if and only if it is a list of framed chunks with that data, ended by a zero-size line. |
| `ChunkedBody.SizeLineMeaning` | src-tauri/src/runtime.rs:2693-2694 | A size line of the grammar in Section 7.1 of RFC 9112, with any digits, white space before the semicolon and any extension bytes, is read as its value exactly when the extensions are UTF-8, and otherwise not at all. |
| `ChunkedBody.ParsesExactly` | src-tauri/src/runtime.rs:2694 | A size text is read as a number exactly when it is hexadecimal digits of that value, with or without a plus sign, and fits 64 bits. |
| `ChunkedBody.WhiteSpaceIs` | src-tauri/src/runtime.rs:2694 | The characters that are trimmed are the 25 white space characters of Unicode. |
| `ChunkedBody.TrimExactly` | src-tauri/src/runtime.rs:2694 | Trimming takes the white space off both ends, all of it and nothing else. |
| `ChunkedBody.LineEndIs` | src-tauri/src/runtime.rs:2692 | The line end is the first carriage return followed by a line feed. |
| `ChunkedBody.DecodeUndoesEncode` | src-tauri/src/runtime.rs:2689-2706 | Decoding inverts that encoding for every list of non-empty chunks, every spelling of sizes and whatever follows the last chunk, exactly when all extensions are UTF-8; otherwise it refuses the body. |
| `ChunkedBody.PrintHex` | src-tauri/src/runtime.rs:2694 | Every length has a spelling, so the encoding above exists for every chunk. |
| `Reconcile.ParseCanvasDocument` | scripts/postgres-migration-common.js:360-401 | A document parses exactly when JSON, version, page limits and element identities are in order, with the limits as numbers; each error names what is not. |
| `Reconcile.IndexByKey` | scripts/postgres-migration-common.js:930-936 | The index maps each key to the last row that has it. |
| `Reconcile.Report.CompareIdSets` | scripts/postgres-migration-common.js:905-928 | Adds one mismatch with exactly the missing and the extra ids, and none when the sets agree. |
| `Reconcile.Report.CompareRow` | scripts/postgres-migration-common.js:930-946 | Reports exactly the columns in which a row and its counterpart differ after date normalisation. |
| `Reconcile.Report.CompareScalarRows` | scripts/postgres-migration-common.js:930-946 | Over all rows: a mismatch is added if and only if it is such a difference. |
| `Reconcile.Report.CompareElements` | scripts/postgres-migration-common.js:991-1022 | Reports exactly the ids that only one document has and the fields in which elements of the same id differ. |
| `Reconcile.ElementsReportExactly` | scripts/postgres-migration-common.js:991-1022 | For documents with distinct ids, in terms of the two lists alone: the id sets are reported exactly when an element lacks a counterpart, and a field exactly when it differs between two elements of the same id. |
| `Reconcile.Report.CompareTexts` | scripts/postgres-migration-common.js:975-983 | Reports exactly the differing ones of text hash, parsed document and search text. |
| `Reconcile.Report.ComparePages` | scripts/postgres-migration-common.js:985-989 | Reports exactly the differing ones of width, height and background. |
| `Reconcile.Report.CompareCanvas` | scripts/postgres-migration-common.js:948-1025 | A mismatch is added if and only if it is one of these, a page field or a scalar column that differs, or a target document that does not parse; the source document has to parse. |
| `Reconcile.Report.CompareCanvasRows` | scripts/postgres-migration-common.js:948-1025 | The same over all canvases that have a target; and none is added exactly when all of them agree. |
| `Reconcile.Report.CompareParentIdSets` | scripts/postgres-migration-common.js:1073-1108 | No mismatch is added exactly when all parent id sets agree. |
| `Reconcile.FindNulls` | scripts/postgres-migration-common.js:1027-1045 | Finds exactly the required columns with a missing value. |
| `Reconcile.FindOrphans` | scripts/postgres-migration-common.js:1047-1071 | Finds exactly the tables in which a child row has no parent. |
| `Reconcile.FindDuplicateKeys` | scripts/postgres-migration-common.js:518-525 | Finds exactly the keys counted more than once. |
| `Reconcile.FindDuplicates` | scripts/postgres-migration-common.js:1110-1119 | Finds exactly the tables whose keys are not distinct. |
| `ReconcileOutcome.BuildInventory` | scripts/postgres-migration-common.js:575-605 | Succeeds on readable data whose canvases can be sorted; success means that every canvas document parsed and, of two canvases or more, one had a text id. |
| `ReconcileOutcome.ReconcileRows` | scripts/postgres-migration-common.js:1121-1195 | It passes exactly when there are no mismatches, and exactly when none of the separate checks would find one; it returns whenever both databases are readable and their inventories can be built, and only when every document parses, so that no mismatch is a document that does not; every error has its cause in one of the databases. |
| `ReconcileOutcome.NoMismatchIsSame` | scripts/postgres-migration-common.js:1121-1195 | When nothing is found every target table is a permutation of its source table, record by record (`ReconcileTables.SameRecord`), with the date fields normalised and all others as they are. |
| `ReconcileExactness.SameTablesHaveNoMismatch` | scripts/postgres-migration-common.js:1121-1195 | Conversely, a clean source and permuted tables give nothing to report. |
| `ReconcileExactness.PassIsEquality` | scripts/postgres-migration-common.js:1121-1195 | For readable data, NUL-free link ids and a collision-free hash: nothing is found if and only if the source has no duplicates, orphans or incomplete rows and each target table is a permutation of its source table as records, whose fields are written out table by table and not taken from the list of compared columns. |
| `ReconcileTables.KeyIsPrimary` | scripts/postgres-migration-common.js:905-928 | For NUL-free link ids the joined comparison key stands for the primary key, both ways. |
| `ReconcileTables.SameRecord` | scripts/postgres-migration-common.js:1133-1158 | Two rows of a table are the same record, field by field as the five record types write them out, if and only if they agree in every column that the comparison lists. |
| `ReconcileTables.CompleteMeaning` | scripts/postgres-migration-common.js:1027-1045 | A row is complete, column by column as written out for each table, if and only if none of the required columns is missing. |
| `ReconcileTables.DatesParseMeaning` | scripts/postgres-migration-common.js:930-946 | What readable dates are: each of the six date columns that a table compares is missing or a date. |
| `RetentionPlan.ListingMeaning` | scripts/postgres-backup-common.js:348-378 | The listing is a permutation of what was found, newest first, and by name among equal times. |
| `RetentionPlan.PlanRetention` | scripts/postgres-backup-common.js:380-415 | The two loops plan exactly the selection defined position by position; limits below one are refused. |
| `RetentionPlan.Partition` | scripts/postgres-backup-common.js:380-415 | Kept and deleted partition the entries. |
| `RetentionPlan.KeepsAtMost` | scripts/postgres-backup-common.js:380-415 | At most daily + weekly entries are kept. |
| `RetentionPlan.NewestIsKept` | scripts/postgres-backup-common.js:380-415 | The newest entry is always kept. |
| `RetentionPlan.DaysBeforeAreLater` | scripts/postgres-backup-common.js:388-395 | In a listing the days met before an entry are no earlier than its own, so the first days are the newest. |
| `RetentionPlan.DailyIsNewest` | scripts/postgres-backup-common.js:388-395 | An entry kept for its day is the newest of that day. |
| `RetentionPlan.NewestOfDay` | scripts/postgres-backup-common.js:388-395 | The newest of a day is kept exactly when fewer than `daily` days come before it. |
| `RetentionPlan.WeeklyMeaning` | scripts/postgres-backup-common.js:397-404 | Of the other entries one is kept exactly when it is the first of its week and fewer than `weekly` weeks were met before. |
| `RetentionPlan.PlanningAgain` | scripts/postgres-backup-common.js:380-415 | Planning again on what was kept deletes nothing and keeps all of it. |
| `RetentionPlan.ExportDirectory.ApplyRetentionPlan` | scripts/postgres-backup-common.js:417-458 | A change since the plan stops it with nothing gone; otherwise the files go in order up to the first that cannot be removed, and it succeeds exactly when there is none. |
| `RetentionPlan.ExportDirectory.AssertRetentionPlanUnchanged` | scripts/postgres-backup-common.js:417-451 | The check succeeds exactly when the directory and every file to delete are what they were. |
| `InstanceLock.SettingsDirectory.AtomicWriteInstanceOwner` | src-tauri/src/instance.rs:312-360 | The marker is replaced whole, exactly when one of the next sixteen temporary names is free and the file system does its part, or not at all; no temporary file of the call stays. |
| `InstanceLock.SettingsDirectory.RemoveInstanceOwnerIfMatches` | src-tauri/src/instance.rs:369-373 | Removes the marker exactly when it names the expected owner and the system lets it. |
| `InstanceLock.RunIsSafe` | src-tauri/src/instance.rs:577-613 | Every run of competing, exiting and crashing processes keeps the invariant. |
| `InstanceLock.OnePrimary` | src-tauri/src/instance.rs:577-613 | At most one process is primary; it holds the lock, the marker names it and its bound socket is in place. |
| `InstanceLock.OthersLeaveThePrimaryAlone` | src-tauri/src/instance.rs:69-81 | No step of another process touches the primary's marker, lock or bound socket. |
| `InstanceLock.OnlyStaleSocketsAreReplaced` | src-tauri/src/instance.rs:540-575 | A socket removed before binding has no listener. That a process binds at all is `InstanceLock.ServesWhenFree` and `InstanceLock.ComesToBind`. |
| `InstanceLock.ServesWhenFree` | src-tauri/src/instance.rs:540-575 | A ready process that finds no socket binds and serves; one that finds a socket without a listener removes it, binds and serves. The steps are possible in turn, and the state at the end is told in full. |
| `InstanceLock.ComesToBind` | src-tauri/src/instance.rs:540-575 | For any step in a safe state: a process comes to bind if and only if it found no socket or removed a stale one, and never while a listener is there. |
| `InstanceLock.LeavesBesideListener` | src-tauri/src/instance.rs:540-575 | A process that finds a listener, or cannot tell, leaves without touching the socket. |
| `InstanceLock.ListenersKeepTheirSocket` | src-tauri/src/instance.rs:540-575 | No step but those of its owner changes a socket that has a listener. |
| `InstanceLock.FirstLaunch` | src-tauri/src/instance.rs:577-613 | From a directory without content in the lock file, whatever the old marker, the first launch locks, writes the marker, binds and serves. |
| `InstanceLock.FailedLaunch` | src-tauri/src/instance.rs:577-600 | A lock file with content, or a marker that cannot be written, ends the launch in an error and frees the lock. |
| `InstanceLock.SecondLaunchGivesUp` | src-tauri/src/instance.rs:600-613 | Beside a held lock and nobody that answers, a launch with n retries ends after exactly n + 1 attempts as already running, and changes nothing. |
| `InstanceLock.SecondLaunchFocuses` | src-tauri/src/instance.rs:600-606 | An attempt ends in focusing the other instance exactly when the lock is held and somebody listens. |
| `InstanceLock.DyingStep` | src-tauri/src/instance.rs:69-76 | What the death of a process leaves to the system: the lock goes and the listener goes, in either order, and neither touches marker or files. |
| `InstanceLock.LockStaysAsItIs` | src-tauri/src/instance.rs:398-427 | A fact of the model that the other theorems use: none of its steps writes the lock file, as none of the cited code does. |
| `InstanceLock.LegacyLockRefuses` | src-tauri/src/instance.rs:414-427 | While a lock file with content is there no process becomes primary and the marker is untouched. |
| `InstanceLock.CrashFreesTheLock` | src-tauri/src/instance.rs:398-412 | After a crash of the primary, whether its lock or its listener goes first, nobody gets the lock before it is freed, and the next process that tries then does. |
| `InstanceLock.LeavingCleansUp` | src-tauri/src/instance.rs:69-76 | In every run: once a process that was serving has freed the lock, its marker and its socket are gone, provided its removals succeeded and it was not killed. |
| `InstanceLock.LeavingRun` | src-tauri/src/instance.rs:69-76 | One such run, undisturbed: socket, marker and lock go in this order. |
| `InstanceLock.RemovalsTakeTheirOwn` | src-tauri/src/instance.rs:69-76 | A leaving process takes away its own socket and the marker that names it, each when the system lets it, and nothing else. |
| `InstanceProgress.OwnSteps` | src-tauri/src/instance.rs:540-613 | What each process can do next, place by place and whatever it finds; none ever waits for another one. |
| `InstanceProgress.StepsAreBounded` | src-tauri/src/instance.rs:577-613 | In every run a launch takes at most fourteen steps and its retries, from the first attempt to the end. |
| `InstanceProgress.EveryProcessEnds` | src-tauri/src/instance.rs:69-76 | Every process of every reachable state can come to its end by its own steps, without a crash. |
| `InstanceProgress.AlwaysServable` | src-tauri/src/instance.rs:540-613 | After any run with an empty lock file, crashes included, a process that is not running can come to hold the lock, be named by the marker and serve on its own socket, without another crash. |
| `StagedDownload.AsyncResponseBody.Read` | src-tauri/src/update_download.rs:194-228 | Whatever the chunks of the response and the buffer sizes, each read delivers the next bytes; zero means the end, an error that the body broke off. |
| `StagedDownload.StreamPackageBytes` | src-tauri/src/update_download.rs:801-847 | On success file, digest input and body are the same bytes and the count is their length, within both limits; it succeeds whenever the body and the conditions allow. |
| `StagedDownload.StagingArea.CleanupPart` | src-tauri/src/update_download.rs:856-861 | The part file goes, or the failure to remove it is the error. |
| `StagedDownload.StagingArea.CheckPackage` | src-tauri/src/update_download.rs:509-534 | A streamed package passes exactly when size, digest and signature are right and it can be flushed. |
| `StagedDownload.StagingArea.Publish` | src-tauri/src/update_download.rs:536-552 | The final path appears only when it was free, with the part file's bytes, in one step. |
| `StagedDownload.StagingArea.StreamAndPublish` | src-tauri/src/update_download.rs:480-553 | Success publishes exactly the body; an error publishes nothing and leaves a part file exactly when it could not be removed. |
| `StagedDownload.StagingArea.DownloadAndVerifyArtifact` | src-tauri/src/update_download.rs:459-553 | The whole download: published, hashed and received bytes are the same and were verified; any error leaves packages unchanged, and no part file unless it is `staging-write`. |
| `StagedDownload.StagingArea.HashCachedPackage` | src-tauri/src/update_download.rs:675-695 | Hashing in pieces covers exactly the whole file; it fails exactly when the file is too large or reading it fails, and says which. |
| `StagedDownload.StagingArea.RevalidateCachedArtifact` | src-tauri/src/update_download.rs:555-616 | Verified exactly when directories and file can be read and the bytes are the release's package, missing exactly when nothing is there, an error exactly when something needed cannot be read; only regular files are removable. |
| `StagedDownload.StagingArea.DownloadThenRevalidate` | src-tauri/src/update_download.rs:459-616 | Revalidating right after a successful download says verified, whenever it gets to a verdict. |

## Left out

- Gzip and tar decoding, format detection, SHA-256, signatures, JSON, URL and HTTP handling, name resolution: library calls, kept as parameters or as a list of entries.
- The mode, size and extended-header checks made when a tar header is read (`inspect_entry`): the structure theorems start from entries that passed them, and the predicate `Inspected` says what they use of that.
- Real permissions, no-follow flags, inode identity, case-insensitive names and outside writers: one case-sensitive tree changed by the code's own steps. Directories made by the system get an arbitrary mode.
- Wall-clock time: a timeout may happen at any step at which it is possible.
- Page navigation parsing and script evaluation: any outcome may happen; what reaches the coordinator is modelled.
- Closing a window when exit is already allowed, and window-state saving: one branch without the coordinator.
- Backup, export and integrity operations that neither restore nor delete: they run under the same lock and do not touch the sidecar.
- Starting a sidecar process and storing its handle are one step of `DataOperation`.
- DataOperation.WorkersRunAlone: the sidecar is the occupied slot; what a process does after it was stopped is not modelled.
- Calendar.BackupTimestampIsTimestamp: stated up to the signed 64-bit maximum of seconds, above which the backup name saturates (`Calendar.BackupSaturates`) and the other conversion wraps.
- Timestamps.TimestampTextTellsTimes: the wrap of seconds beyond the signed 64-bit range is not modelled; no clock gets there.
- Timestamps.TimestampLayout: places are told up to the year 9999; the year takes more digits after that.
- Day numbers below 0: callers never produce them, and `Calendar.NegativeDaysExample` shows that the era correction before the floored division does not hold there.
- DiagnosticZip.ArchiveReadsBack, DiagnosticZip.ArchiveBytes: stated for contents and offsets below 2^32, as the 32-bit fields of the format require; the document is capped at 20 MiB before it is written.
- Parsing of log records and log names: a directory entry is a log with its time and size, or unsafe.
- ReconcileOutcome.BuildInventory: whether it succeeds is modelled, with a sort that may compare either way round; row counts, date range and canvas details are not.
- RetentionPlan.ListingMeaning: which file names are exports, and their times, are given.
- ArchiveExtract.StagingTree.WriteEntry: a lookup that fails counts as a path at which nothing can be made; entries cannot fail to be read, apart from the end of the stream.
- ArchiveExtract.StagingTree.ExtractVerifiedArchive: the checks of the staging root, the digest, the package size and the package handle are one outcome, with any error, before the first pass, and the handle's path and contents one each around the second.
- ArchiveExtract.StagingTree.EnsureDirectoryNoFollow: a link above the path counts as something that is no directory; no call of an extraction meets one.
- ArchiveCompare.RevalidateExtractedArchiveTree: reading errors other than a missing file are not modelled, and the tree is one tree during the comparison of contents.
- The samples of ids printed with a mismatch, row counts and the printed inventory of a reconciliation.
- The ISO week key is a parameter: the code adds the time of day before rounding, so it is that week only for some instants.
- Manifests.NormalizeManifest: parsing the artifact's URL is a parameter (`address`); which field of a release is at fault is not told.
- Temporary owner files and socket error kinds in the runs of `InstanceLock`: the first are in the class of the settings directory, the second are one outcome.
- Removing an invalid cached artifact, response header checks and redirects of a download.
- StagedDownload.StagingArea.DownloadAndVerifyArtifact: after an error that could not remove the part file its partial content is not described.
- Update state, selection, provider, recovery and bundle checks, pages and routes: input and output around the parts above.
