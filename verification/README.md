# Verified models of the dryheave core

dryheave runs coding agents on recorded problems, captures what they leave behind, grades it, and keeps
the evidence. This project models, in Dafny, the parts of it whose correctness is a claim about every
input, every run or every crash, and proves those claims. Where the program changes state step by step
(the capture filter, the journal, grading, bundle export and import, the catalog, process ownership,
output capture) the model is a class or a method with loops, proved against a specification; the
specification's own properties are lemmas.

| area | modules |
|---|---|
| Pathname resolution, the reference (section 4.13 of POSIX.1-2017, Base Definitions) | `Pathnames` |
| Capturing a workspace, filtering its links, rebuilding it | `FinalCapture`, `LinkOverlap`, `CaptureBuilding`, `Materialization`, `TreeSelection`, `TreeCapture` |
| Resolving selected assets under several roots | `ProfileCapture` |
| The hash-chained journal, its recovery, checkpoints and summaries | `Journals`, `JournalCodec`, `RunJournals`, `JournalStore` |
| Resumable grading, judge budget, and how processes end | `GradingLog`, `Grading`, `Fates` |
| Assessment and regrading of a run | `RegradeLog`, `Regrading` |
| Bundles: closure, inventory, publication, transfer | `BundleClosure`, `BundleArchive`, `BundleTransfer` |
| Fitting a transcript or a screen into a limit | `FitToLimit`, `ScreenFit` |
| Token accounting | `TokenAccounting` |
| The optimistic authoring catalog | `AuthoringCatalog`, `Authoring` |
| Commit-message conventions | `CommitConvention` |
| Process ownership | `ProcessOwnership` |
| Bounded output capture | `OutputCapture` |
| Fact histories | `FactHistory` |

How the outside is modelled:

- SHA-256 (FIPS 180-4) is taken to be injective: a digest is identified with what was digested. Object
  identifiers are an arbitrary function of the manifest.
- Canonical JSON and its parser are a `Codec` of which only two things are used: parsing inverts encoding,
  and an encoding holds no newline. `LawfulCodecExists` shows that such a codec exists.
- Crashes, failing writes, cancellations, answers, contents and schedules are parameters: functions of a
  clock (`fate`, `answer`, ...), sequences of actions, or arbitrary data. A theorem for all of them is a
  theorem for every such behaviour.
- Shares and thresholds are compared as exact fractions.

## What the proofs found

- The link check never lets a link out of the tree: wherever the tree stands, an accepted link's ordinary
  resolution stays at or below its root at every step, and every relative link of which that holds and
  that reaches something captured is accepted (`SafeIffConfined`).
- The link filter computes the greatest self-consistent set of links on every tree in which no link
  stands where a directory is, and the capture walk produces no other (`PartOfIsDisjoint`). For given paths
  of files, links and directories it loses no link that could stay, whatever the texts of the links, if and
  only if no link stands where a directory is or there is one link at most (`LosesNoneIffLinksApart`,
  `OverlapBreaksGreatest`).
- The capture walk finds exactly what the policy, the rule for ignored files and the entry limit select,
  and the byte limit is spent in the order in which paths are read: a file is captured if and only if it can
  be read and fits what those before it left (`Collector.Walk`, `Collector.TakeAll`, `Capture`).
- The journal does not survive one fault by itself: an error of closing the file descriptor after a
  successful sync leaves the journal open, with its list of events behind the file. Over every sequence of
  actions a run can be opened again if and only if no journal writes a record whole after that
  (`RecoverableIffNeverBreaks`).
- The asset resolver accepts `..` after a regular file, and a regular file with a slash behind it, where
  ordinary resolution fails (`ClimbingFromFile`). What it returns is an ordinary resolution if and only if
  its run is orderly: every component, dropped ones included, is read from a directory, and no link text
  read is empty (`ResolvesIffOrderly`).
- `fit_transcript` misses a count that fits if and only if two actions do not fit and one does
  (`MissesIffOneFits`); it then keeps none (`OneActionIsNotTried`).
- Of a process observed anew while an earlier observation of it is being delivered, the later one is lost
  if and only if it is not delivered by the time the batch is retired (`LatestIsLostIffObservedAnew`,
  `LatestCanBeLost`); the process itself is never lost.
- A cumulative counter is charged, within a segment, the last value it shows there but for what it rose or
  fell unseen: more than that if and only if it fell, in all (`ChargedMoreIffFellUnseen`, `GapCountsTwice`).
- Regressions stay within half the inspections, for every history of given judgments, if and only if none
  calls the fact met, or each calls it unmet at most once and not besides calling it met
  (`BoundHoldsIffOneSided`, `RepeatedFactsBreakTheBound`).
- The catalog's refusal "No small token set covers" is never given (`Convention`).
- Import counts the bundle record and an extension header for every blob, and bounds the number of
  members; export does not. What is exported is accepted if and only if it is within those bounds
  (`RoundTrip`); an export of one object with different files that just fits is not
  (`FullExportIsRefused`).

## Model

| member | source | states |
|---|---|---|
| Pathnames.SplitFaithful | src/dryheave/final_capture.py:150-153 | a text cut at its slashes joins back to itself, no part holds a slash, and the first part is empty exactly for empty or absolute texts |
| Pathnames.JoinFaithful | src/dryheave/final_capture.py:150-153 | parts without slashes, joined, are cut at the same places again |
| Pathnames.WalkSplice | src/dryheave/final_capture.py:175-184 | resolving a link's text and then what follows it is the same as resolving the text spliced in front of what follows |
| Pathnames.ResolvesUnique | src/dryheave/final_capture.py:144-186 | ordinary resolution has at most one result |
| Pathnames.WalkLinkFree | src/dryheave/final_capture.py:162-186 | no prefix of a resolved path is a link |
| Pathnames.DownAndBack | src/dryheave/final_capture.py:162-173 | reading names that go down through directories, none of them a link, leads to where they say, and reading as many `..` after them leads back |
| Pathnames.LinkStandsForItsText | src/dryheave/final_capture.py:174-184 | a link stands for its text, read from its directory or, in a whole namespace, from the root: no more and no less is read in its place |
| Pathnames.WalkIsConfined | src/dryheave/final_capture.py:144-186 | in a tree that stands at a base in a whole namespace, reading succeeds if and only if reading the same in that namespace succeeds and never stands at a path that is not at or below the base; it then ends at the same place |
| FinalCapture.SafeIsOrdinaryResolution | src/dryheave/final_capture.py:144-186 | a link is safe if and only if its text is relative and ordinary resolution in the captured tree, following at most 40 further links, takes it to something captured |
| FinalCapture.SafeIffConfined | src/dryheave/final_capture.py:144-186 | wherever the captured tree stands in a file system, a link is safe if and only if its text is relative and its ordinary resolution there, following at most 40 further links, reaches something captured and never leaves the tree on the way |
| FinalCapture.SafeIsSound | src/dryheave/final_capture.py:144-186 | an accepted link has an unbounded ordinary resolution, to a captured file or a directory, by a path free of links |
| FinalCapture.SafeIsMonotone | src/dryheave/final_capture.py:189-203 | on a tree in which no link stands where something else is, restoring links never makes a safe link unsafe |
| FinalCapture.GreatestIsConsistent | src/dryheave/final_capture.py:189-203 | the union of all mutually safe sets of links is mutually safe and contains each of them |
| FinalCapture.RemovalOrderIrrelevant | src/dryheave/final_capture.py:189-203 | however unsafe links are removed, one or many at a time, where nothing is unsafe any more the greatest consistent set is left |
| FinalCapture.SurvivorsAreConsistent | src/dryheave/final_capture.py:189-203 | on every tree the links that filtering leaves are mutually safe |
| LinkOverlap.LosesNoneIffLinksApart | src/dryheave/final_capture.py:189-203 | for given paths of files, links and directories, filtering loses no link of any mutually safe set, whatever the texts of the links, if and only if no link stands where a directory is or there is one link at most |
| LinkOverlap.OverlapBreaksGreatest | src/dryheave/final_capture.py:189-203 | wherever a link stands above a captured file, another link that leads there can be safe on its own and lost with it |
| CaptureBuilding.SafeLink | src/dryheave/final_capture.py:144-186 | the link check over the capture's lists accepts exactly the safe links of the captured tree |
| CaptureBuilding.Reaches | src/dryheave/final_capture.py:160-186 | the loop over components, resolved path and hops terminates and agrees with ordinary resolution |
| CaptureBuilding.CaptureBuilder.FilterLinks | src/dryheave/final_capture.py:189-203 | terminates; keeps every entry that is not a link and exactly the links that remain when all unsafe ones are removed again and again, in order, with their blobs; if no link stands where something else is, those are the greatest consistent set; reports each link removed; leaves nothing unsafe |
| CaptureBuilding.CaptureBuilder.Round | src/dryheave/final_capture.py:190-203 | one round removes exactly the links that are unsafe among those kept, and is the last if there is none |
| CaptureBuilding.WithoutKeep | src/dryheave/final_capture.py:200-202 | removing one link's entry from the list leaves the list of the other entries |
| Materialization.MaterializeFiles | src/dryheave/final_capture.py:291-319 | refuses an ill-formed record or any unsafe link before writing; stops at an entry whose content is not the recorded one; otherwise the disk holds exactly the captured namespace and contents; a well-formed disjoint record is rebuilt if and only if no link is unsafe and every content is the recorded one |
| Materialization.MadeIsDirectoryPaths | src/dryheave/final_capture.py:305-315 | the directories created are exactly those the link check assumes |
| TreeSelection.WalkedOnce | src/dryheave/final_capture.py:56-107 | a directory is walked with one set of wanted names and at one count of names visited, so what is to be captured is determined by the workspace |
| TreeSelection.SelectedIffAdmitted | src/dryheave/final_capture.py:61-92 | without a rule for ignored files and within the entry limit, what is to be captured is exactly what is there and, with all above it, portable, not excluded, within the depth, no Git metadata and nothing special |
| TreeSelection.SelectedIsAllowed | src/dryheave/final_capture.py:61-107 | whatever the limits and the rule for ignored files, what is to be captured is there, is a file, a directory or a link, and it and all above it are portable, not excluded, within the depth and no Git metadata |
| TreeSelection.SelectedIsNotIgnored | src/dryheave/final_capture.py:94-107 | what the rule for ignored files leaves out of the listing that shows it, or of the names it keeps below a directory of that listing, is not to be captured |
| TreeSelection.CutOffNeedsNames | src/dryheave/final_capture.py:63-66 | the entry limit is reached only if there are more names in the workspace than it allows |
| TreeSelection.CountWithinNames | src/dryheave/final_capture.py:63-66 | counting the names of a directory and below never exceeds the names that there are |
| TreeCapture.Collector.List | src/dryheave/final_capture.py:51-94 | the listing holds exactly the wanted and admitted names up to the entry limit, as what they stand for; every other name is reported; each name read is counted, once |
| TreeCapture.Collector.Walk | src/dryheave/final_capture.py:42-107 | exactly what is to be captured below the directory is found, as what it is, without Git metadata: what the listings show of every directory reached, unless the rule for ignored files leaves it out of that listing; every other path is covered by a report, and every report is true: the name, limit, exclusion or ignore rule it gives does apply; names are counted exactly, and the entry limit holds over the whole walk |
| TreeCapture.Collector.TakeAll | src/dryheave/final_capture.py:109-141 | for any order of the paths found: a directory is listed, and a file or link is captured, with what was read at it, if and only if it can be read and fits what those before it left of the byte limit, and otherwise reported; stored bytes equal the running total and are within the limit |
| TreeCapture.Capture | src/dryheave/final_capture.py:371-379 | the record is well formed, part of the real tree with its contents and modes, within the entry and byte limits; exactly what is to be captured is captured or refused when read, and every path not captured is covered by a true report |
| TreeCapture.CleanIsCapturedWhole | src/dryheave/final_capture.py:371-379 | a workspace within the limits on names, bytes and depth, with nothing excluded, ignored, special, unportable or unreadable, is captured whole and without a report |
| TreeCapture.PartOfIsDisjoint | src/dryheave/final_capture.py:42-107 | a capture that is part of a real tree has no file or link above another captured path |
| TreeCapture.CaptureAndRebuild | src/dryheave/final_capture.py:322-333 | whatever was excluded, unreadable or over a limit, capturing, filtering and rebuilding succeeds, and yields the captured tree and contents with the greatest consistent set of links |
| ProfileCapture.SelectedReader.Resolve | src/dryheave/profile_capture.py:80-122 | the loop over current path, pending parts and links terminates and computes the specified resolution, with its errors |
| ProfileCapture.RootOfIsFirst | src/dryheave/profile_capture.py:80-85 | a path is read under the first of the roots it lies under, and under none only if it lies under none |
| ProfileCapture.ChaseIsSound | src/dryheave/profile_capture.py:86-122 | whatever the resolver reaches exists, is free of links and lies under an allowed root |
| ProfileCapture.ResolveIsSound | src/dryheave/profile_capture.py:80-122 | a returned path is that, and is where ordinary resolution of the same path leads if it leads anywhere |
| ProfileCapture.ChaseIsComplete | src/dryheave/profile_capture.py:86-122 | for any roots: where ordinary resolution within the link limit reaches something, the resolver returns it if and only if every path stepped to and every absolute target lies under a root and is not sensitive; a target with exactly two leading slashes lies under none |
| ProfileCapture.ReaderOfEverythingIsComplete | src/dryheave/profile_capture.py:80-122 | a reader of the whole file system to which nothing is sensitive returns all that ordinary resolution within the link limit reaches, unless a link text has exactly two leading slashes |
| ProfileCapture.WalkRedirect | src/dryheave/profile_capture.py:108-121 | going on from a root or from the link's directory with the normalised text is ordinary resolution through the link |
| ProfileCapture.ResolvesIffOrderly | src/dryheave/profile_capture.py:80-122 | what the resolver returns is an ordinary resolution of what it was given if and only if every component of every text is read from a directory, a slash or dot at the very end included, and no link text read is empty |
| ProfileCapture.ClimbingFromFile | src/dryheave/profile_capture.py:89-121 | two links below a root, `f/..` and `f/` with `f` a regular file, that are accepted although ordinary resolution of them fails |
| Journals.ParseEvents | src/dryheave/journals.py:46-66 | the parsing loop computes the specified reading, with the line number of the first fault |
| Journals.ParsedExactly | src/dryheave/journals.py:46-66 | a file is read as some events and a tail if and only if it is the encoding of those events, a valid chain, followed by that newline-free tail |
| Journals.ChainIsNumbered | src/dryheave/journals.py:46-66 | a chain is valid if and only if its events are numbered from one on, the first names no digest and every other that of the event before it, and no line is over its limit |
| Journals.RecordedUnique | src/dryheave/journals.py:46-66 | a file is the recording of at most one chain and tail |
| Journals.HashPinsPrefix | src/dryheave/journals.py:52-62 | two valid chains with the same digest at the same sequence number agree up to it |
| Journals.EncodeAllInjective | src/dryheave/journals.py:46-66 | different events and newline-free tails give different files |
| Journals.TakeRecorded | src/dryheave/journals.py:74-88 | the first bytes of a recorded file are the lines of a first part of its events and a newline-free piece |
| JournalCodec.LawfulCodecExists | src/dryheave/journals.py:46-66 | an encoder of events with an inverse and without newlines exists |
| RunJournals.AppendKeepsSound | src/dryheave/journals.py:151-186 | an append that succeeds, fails after any number of bytes, fails to sync or fails to close keeps the file the acknowledged chain, at most one record written whole besides, and a torn piece only behind a closed journal; unless the journal did not know of that record and writes another whole |
| RunJournals.AppendedIsKept | src/dryheave/journals.py:151-186 | an append without a fault keeps every acknowledged event and adds one record, of what was given and with the next number, whose line is added to the file |
| RunJournals.OpenRecovers | src/dryheave/journals.py:109-129 | an inactive run can always be opened, and holds exactly the acknowledged events and the one record written whole without being acknowledged, if any |
| RunJournals.OpenLosesNoByte | src/dryheave/journals.py:109-129 | opening removes nothing from the file but a torn piece after the last line, which it keeps aside whole |
| RunJournals.EveryRunIsSound | src/dryheave/journals.py:109-235 | over every interleaving of appends, failures at any byte, of the sync and of the close, snapshots, deaths, reopens and reopens cut short, the file stays sound and acknowledged events stay, unless a journal writes a record whole after failing to close the file |
| RunJournals.CrashSafety | src/dryheave/journals.py:109-186 | the same from an empty run, as the next open sees it; unless closing the file ever failed, the one record besides is the last one attempted |
| RunJournals.SnapshotPinsHistory | src/dryheave/journals.py:188-235 | a snapshot fits on every later open, and everything up to the event it names is unchanged |
| RunJournals.SnapshotDeterminesPrefix | src/dryheave/journals.py:188-235 | two valid chains that a snapshot fits agree on the part it covers |
| RunJournals.SnapshotNamesAllAcknowledged | src/dryheave/journals.py:188-210 | what a completed write stores has the state given, and every valid chain it fits begins with all events acknowledged at that moment |
| RunJournals.OnlyCompletedWritesCount | src/dryheave/journals.py:188-210 | a write that is not completed, or on a closed journal, changes nothing |
| RunJournals.LaterOpensReadAll | src/dryheave/journals.py:188-235 | and so does what every later open reads: all events acknowledged when the snapshot was written |
| RunJournals.RecoverableIffNeverBreaks | src/dryheave/journals.py:109-186 | for every sequence of actions, the run can be opened again if and only if no journal writes a record whole after an error of closing the file |
| RunJournals.BrokenForever | src/dryheave/journals.py:46-66 | a file with a whole line that does not follow the lines before it is never mended |
| RunJournals.CloseFaultBreaksIffWritten | src/dryheave/journals.py:165-186 | in particular, of two appends of which the first fails to close, the second ruins the run if and only if it is written whole |
| RunJournals.SummaryIsLongestPrefix | src/dryheave/journals.py:74-105 | for every byte limit the bounded reader succeeds on a recorded file with the longest prefix of the events whose lines fit; it accepts a checkpoint if and only if it is of the run and fits the whole file or names an event that was not read |
| JournalStore.RunJournal.Append | src/dryheave/journals.py:151-186 | takes exactly the modelled step and returns the record exactly when it is acknowledged |
| JournalStore.RunJournal.WriteSnapshot | src/dryheave/journals.py:188-210 | takes exactly the modelled step, of which `SnapshotNamesAllAcknowledged` says what it stores |
| JournalStore.RunJournal.Checkpoint | src/dryheave/journals.py:198-199 | takes that step with the name of the checkpoint |
| JournalStore.RunJournal.WriteResult | src/dryheave/journals.py:201-202 | takes that step with the name of the result |
| JournalStore.Matches | src/dryheave/journals.py:219-231 | a snapshot is accepted exactly if it belongs to the run and names the line it was written after |
| JournalStore.OpenRun | src/dryheave/journals.py:109-129 | fails with the same error, or yields the same recovered state, as the model's open |
| GradingLog.VerifierStarts | src/dryheave/assessments.py:711-737 | a verifier that left no trace, of a suite nothing of which was begun before this process, may be started without running twice or splitting its suite |
| GradingLog.CallStarts | src/dryheave/assessments.py:405-440 | a call made below the budget keeps every call unique and the announced calls within the budget |
| GradingLog.PhaseStarts | src/dryheave/assessments.py:654-679 | the fact-judging phase may be started only where it was not announced |
| GradingLog.ReasonIsRight | src/dryheave/assessments.py:805-813 | the reason a criterion is left without a score is right: a call was announced, no prompt was accepted, the budget is spent, or there is no judge, in that order |
| GradingLog.SettledVerdicts | src/dryheave/assessments.py:569-651 | a fact is disputed if and only if the judge contradicts a settled inspection and does not come round; a settled contested fact has the inspection's verdict; every judged fact and no other has a result |
| GradingLog.JudgedAsAnswered | src/dryheave/assessments.py:597-651 | at most three calls and no more than the budget; a fact is judged as the first or second call answered, is unjudged only if every answer there was a call for left it out, and a contradiction of the inspection is asked about again while a call is left |
| Grading.Host.VerifyFacts | src/dryheave/assessments.py:707-738 | starts exactly the fresh verifiers and records for each what it returned; every other fact without a result is recorded as interrupted; what was recorded before stays |
| Grading.Host.Measure | src/dryheave/assessments.py:368-396 | starts exactly the metrics commands without intent, records for each what it returned, and records the others as interrupted |
| Grading.Host.JudgeFacts | src/dryheave/assessments.py:597-651 | asks the judge about all facts, about those left unanswered, and about those its answers contest, each time only if there are any and a call is left; the judgments are its own answers, laid over one another; exactly those calls are made, in order |
| Grading.Host.FactPhase | src/dryheave/assessments.py:654-679 | a saved grade is reused, an announced phase is not repeated, and otherwise the verdicts of the judge's answers are recorded once |
| Grading.Host.RubricPhase | src/dryheave/assessments.py:767-817 | at most one rubric call, within what fact judging left of the budget; every criterion without a judgment gets the score it was given or, for the right one of four reasons, none; other results stay |
| Grading.Pass | src/dryheave/assessments.py:682-764 | over any number of processes, each dying or cancelled anywhere: no verifier, metrics command or call runs twice, no suite is split between processes, phase and rubric call start at most once, announced calls stay within the budget, a grade holds verdicts of the judge's own answers or nothing, and what is recorded for a verifier or command that ran is what it returned or that it was interrupted; each process is ended by one failure at most, and unless every process is ended by one, every result is recorded, however the others ended |
| RegradeLog.AllowedKeepsConsistent | src/dryheave/assessments.py:1055-1188 | every event the operations append keeps at most one open regrade, marks backed by assessments, and attempts in order |
| RegradeLog.KeptEverywhere | src/dryheave/assessments.py:1018-1023 | at every moment at most one regrade is unfinished, ordinary assessment finishes no attempt while one is, and a regrade that finishes is complete |
| RegradeLog.CompleteMeans | src/dryheave/assessments.py:1122-1188 | a complete regrade has assessed and marked once every attempt that was captured and is past stopping |
| RegradeLog.MarkedOnce | src/dryheave/assessments.py:1067-1074 | a regrade marks each attempt at most once, ever |
| Regrading.Run.Assess | src/dryheave/assessments.py:1008-1052 | refused, without effect, if and only if a regrade is unfinished; what was finished stays; unless it ends early, every other attempt is finished with an assessment of no regrade; it ends early exactly at the first thing that fails in it |
| Regrading.Run.AssessOne | src/dryheave/assessments.py:862-1005 | records one attempt in exactly the stages it has not reached, in order, or a first part of them if it ends early, up to an assessment of the regrade it belongs to, of content read during this operation, and changes no other attempt |
| Regrading.Run.Regrade | src/dryheave/assessments.py:1122-1188 | refused without effect for another case than the unfinished regrade's, and after no more than reconciling for an unsuitable judge or case; otherwise resumes or starts, keeps assessments it already made, and when it finishes every selected attempt is marked once and carries its assessment; it finishes unless something fails in it, whatever failed before |
| Regrading.Run.Review | src/dryheave/assessments.py:1192-1228 | refused exactly for an attempt that is not finished and assessed, or a finding or capture that does not allow it; otherwise replaces the content of that assessment and nothing else of the run |
| Regrading.History | src/dryheave/assessments.py:1008-1228 | any sequence of assessments, regrades, reviews and runner progress, each ending anywhere, leaves a log that keeps all of this |
| BundleClosure.CollectObjects | src/dryheave/bundles.py:184-200 | returns exactly the objects reachable from the roots if and only if everything they refer to is stored and their total is within the limit, with the right error otherwise |
| BundleClosure.ReachableIsClosed | src/dryheave/bundles.py:184-200 | what was collected from a closed store is closed |
| BundleClosure.TotalMonotone | src/dryheave/bundles.py:193-195 | the size already collected never exceeds that of the whole closure, so stopping early is right |
| BundleClosure.OrderHasNoCycle | src/dryheave/bundles.py:357-370 | objects that can be put in dependency order contain no cycle of references |
| BundleClosure.StuckHasCycle | src/dryheave/bundles.py:359-365 | where every pending object refers to a pending one, there is a cycle |
| BundleClosure.PublishAll | src/dryheave/bundles.py:357-370 | terminates, publishes every object after all it refers to, and raises the cycle error if and only if the references contain a cycle |
| BundleClosure.PublishedSoFarIsClosed | src/dryheave/bundles.py:366-370 | at every intermediate point the references of what is published are published |
| BundleArchive.Emit | src/dryheave/bundles.py:249-262 | the members written are those of the archive, each once, with equal contents of an object's files written once |
| BundleArchive.ExportThenImport | src/dryheave/bundles.py:237-335 | the archive of a closed set of valid objects passes the import's checks, and unpacking recovers the same objects |
| BundleTransfer.RoundTrip | src/dryheave/bundles.py:237-335 | what is exported is accepted on import if and only if the record is no larger than a blob, the members are not too many, and record, manifests and distinct blobs, with an extension header each, are within the bundle limit; then the same objects are recovered |
| BundleTransfer.Preflight | src/dryheave/tar_bounds.py:41-79 | accepts exactly the header sequences within the bounds on their number, total size, extension sizes and extension chains |
| BundleTransfer.HeadersAreBounded | src/dryheave/tar_bounds.py:58-77 | of the headers of any members only number and total size can exceed the bounds |
| BundleTransfer.InventoryCost | src/dryheave/bundles.py:249-262 | what the inventory of a bundle takes up is the record, and per object its manifest and each distinct blob with its extension |
| BundleTransfer.FullExportIsRefused | src/dryheave/bundles.py:193-199 | an export of one object with different files that fills the export limit is refused on import |
| BundleArchive.ImportThenExport | src/dryheave/bundles.py:286-335 | an accepted archive is exactly the archive of the valid, closed objects unpacked from it: nothing else is in it |
| BundleArchive.RootsAreImported | src/dryheave/bundles.py:319-335 | every root that an accepted archive names is among the objects recovered from it |
| BundleArchive.UnpackMembers | src/dryheave/bundles.py:286-316 | accepts exactly the importable archives of distinct members within the extraction bounds |
| BundleArchive.VerifyInventory | src/dryheave/bundles.py:319-335 | accepts exactly when roots and references are listed, each listed object is whole, and nothing more or less is there |
| FitToLimit.KeptIsNested | src/dryheave/judges.py:317-329 | the actions kept for a count are among those kept for a larger one |
| FitToLimit.KeepingGrows | src/dryheave/judges.py:317-329 | so the encoded size grows with the count |
| FitToLimit.KeepingKeepsEnds | src/dryheave/judges.py:317-329 | a count keeps every message and the first half (rounded up) and last half (rounded down) of that many actions, in order |
| FitToLimit.FitTranscript | src/dryheave/judges.py:332-364 | a request that fits is unchanged; else the largest count that fits from the floor up to all but one; else no action; else the emptied form; what is shortened says so |
| FitToLimit.FittedIsHonest | src/dryheave/judges.py:317-364 | what is returned is the request itself if it fits; otherwise it says that it was shortened, with its frame unchanged, and either fits and keeps, in order, all messages and the outermost actions of the largest count that fits of those tried, or no count tried fits, the transcript is gone, and it says so too |
| FitToLimit.MissesIffOneFits | src/dryheave/judges.py:332-364 | of a request over the limit, a fitting count up to all but one is missed if and only if two actions do not fit and one does, and then no action is kept |
| FitToLimit.OneActionIsNotTried | src/dryheave/judges.py:332-364 | a transcript of which one action would fit and none is kept |
| ScreenFit.TrimSuffix | src/dryheave/controllers.py:157-160 | text in front of a screen takes nothing away from it once both are trimmed |
| ScreenFit.TrimIsExact | src/dryheave/controllers.py:157-160 | trimming takes all white space from both ends and nothing else |
| ScreenFit.KeptIsTheLast | src/dryheave/controllers.py:157-160 | what is kept for a count is that many last lines, with a line break between any two of them, trimmed |
| ScreenFit.KeptIsNested | src/dryheave/controllers.py:157-160 | the screen of fewer last lines is never longer encoded |
| ScreenFit.ScreenProjection | src/dryheave/controllers.py:140-173 | all lines if they fit; else the longest run of last lines, short of all, that fits; else the last line alone |
| TokenAccounting.Delta | src/dryheave/metrics.py:223-239 | every delta of any two readings is a valid record, and no counter of it exceeds the later reading |
| TokenAccounting.DeltaIsTheChange | src/dryheave/metrics.py:213-239 | within a segment each counter of a delta is the change between the two readings, hour counts and reasoning included, where both show it and it has not fallen; at a reset it is the reading itself; a part that exceeds its whole is unobserved |
| TokenAccounting.Cumulative | src/dryheave/metrics.py:204-250 | every delta is valid; deltas of a billable counter add up to its last value in each segment but for what was skipped, which is nothing if it was observed throughout; a reset is reported if and only if some billable counter fell |
| TokenAccounting.OneMoreReading | src/dryheave/metrics.py:213-233 | one more reading adds its delta to the sum of the segments' last values |
| TokenAccounting.TokenSum | src/dryheave/metrics.py:19-44 | the total of valid records is a valid record; each category is unobserved or its sum; reasoning over output and incomplete hour counts become unobserved |
| TokenAccounting.HoursWithin | src/dryheave/metrics.py:28-40 | the hour counts of valid cache writes never exceed the cache writes |
| TokenAccounting.CumulativeTotal | src/dryheave/metrics.py:253-272 | from readings to total nothing is refused, and a billable category totals its segments' last values but for what was skipped |
| TokenAccounting.ChargedMoreIffFellUnseen | src/dryheave/metrics.py:213-233 | within a segment a billable counter is charged the last value it shows minus its unseen rises and falls: more than it shows if and only if they are negative in all, exactly that if and only if they cancel out |
| TokenAccounting.NeverChargedMore | src/dryheave/metrics.py:213-233 | a counter that never fell unseen is at no moment charged more than it showed |
| TokenAccounting.GapCountsTwice | src/dryheave/metrics.py:213-233 | four readings, one of them unobserved, whose deltas add up to more than the segment shows |
| AuthoringCatalog.ValidationIsTheLastChange | src/dryheave/mining.py:265-274 | in every history, a candidate has a validation if and only if validating it was the last change to its request, and it carries the request's current revision |
| AuthoringCatalog.AtMostOneValidation | src/dryheave/mining.py:265-274 | at most one candidate of a request has a validation |
| AuthoringCatalog.ChangesOnlyThat | src/dryheave/mining.py:265-341 | a change to a request counts once, changes the decision it is about or adds its gap, forgets every validation, and leaves everything else of the request |
| AuthoringCatalog.FreezeFollowsValidation | src/dryheave/mining.py:447-454 | freezing follows, with no change to the request between, a validation of the same candidate with the very content that is frozen |
| AuthoringCatalog.FrozenForever | src/dryheave/mining.py:319-327 | a frozen decision never changes again |
| AuthoringCatalog.FrozenOnce | src/dryheave/mining.py:435-475 | a candidate is frozen at most once |
| AuthoringCatalog.RevisionCountsChanges | src/dryheave/authoring_catalog.py:355-384 | each stored edit has a revision of its own, so two edits that expect the same revision cannot both be stored |
| AuthoringCatalog.StoredWithinLimits | src/dryheave/authoring_catalog.py:208-221 | every catalog ever stored has its lists within their limits, names a known selection in every request, and each decision in it has what its state asks for and nothing else |
| AuthoringCatalog.CasesAreBounded | src/dryheave/authoring_catalog.py:208-221 | over its whole history a micro-bug request records at most one frozen case and any other at most six |
| Authoring.Workspace.Save | src/dryheave/authoring_catalog.py:375-384 | stores the edited catalog with the next revision if and only if it is acceptable and fits, and otherwise changes nothing |
| Authoring.SnapIsExact | src/dryheave/mining.py:383-404 | there is a snapshot of a draft exactly if it and every file it names can be read, and it holds what stands on disk: the draft, the bytes of every file, and the patch or none |
| Authoring.FrozenAsValidated | src/dryheave/mining.py:435-454 | what is frozen has the same draft and the same bytes in every file as the validation found on disk |
| Authoring.Workspace.CreateRequest | src/dryheave/mining.py:233-254 | succeeds exactly at the expected revision for a free name, a known selection and a catalog that can be stored, with a request of what was given, at its first revision and with nothing decided; conflicts exactly on another revision or a taken name |
| Authoring.Workspace.RecordDecision | src/dryheave/mining.py:304-333 | succeeds exactly when the revision is the expected one, the decision binds no case, its candidate is not frozen, the checks hold and the result can be stored; nothing changes otherwise |
| Authoring.Workspace.RecordGap | src/dryheave/mining.py:336-341 | succeeds exactly at the expected revision for a known request and a catalog that can be stored; the gap is added and every validation of the request forgotten |
| Authoring.Workspace.ValidateProblem | src/dryheave/mining.py:425-475 | validating succeeds exactly for a ready candidate; freezing only if the last change to its request was validating it with the content its draft and files have now: the same draft and the same bytes that the validation found; the candidate then is validated with that content, or frozen under the case made of it |
| CommitConvention.MostCommonCoverMost | src/dryheave/commits.py:300-305 | no choice of tokens covers more subjects than as many of the most common |
| CommitConvention.TokensAreCounted | src/dryheave/commits.py:293-296 | the tokens are those of the prefixed subjects: each occurs as often as there are subjects with it, and subjects without a prefix are left out |
| CommitConvention.Select | src/dryheave/commits.py:297-305 | the greedy vocabulary reaches nine in ten, and no smaller set of tokens does |
| CommitConvention.Convention | src/dryheave/commits.py:293-358 | detected if and only if there are twenty subjects, six in ten prefixed, and some twelve tokens at most cover nine in ten of those; each reason given is true, and one is never given |
| ProcessOwnership.NoProcessIsLost | src/dryheave/process_ownership.py:38-84 | under every interleaving of observing, pruning, delivering and retiring, each process ever observed was delivered or is still to be published, and both limits hold |
| ProcessOwnership.LatestIsLostIffObservedAnew | src/dryheave/process_ownership.py:61-77 | under every schedule, retiring a batch loses the latest observation of a process in it if and only if the process was observed anew since the batch was taken and the last such observation is not delivered |
| ProcessOwnership.LatestKeptIffNeverObservedAnew | src/dryheave/process_ownership.py:61-77 | so the latest observation of every process is kept at every moment if and only if that never happens |
| ProcessOwnership.LatestCanBeLost | src/dryheave/process_ownership.py:61-77 | it does, from every reachable state in which a process is to be published and the limits allow another observation of it: taken for delivery, pruned, observed again with another parent, delivered and retired |
| ProcessOwnership.ProcessOwner.Add | src/dryheave/process_ownership.py:38-55 | a process not owned is owned, known and to be published from then on, unless a limit is reached after pruning |
| ProcessOwnership.ProcessOwner.BeginPublish | src/dryheave/process_ownership.py:61-72 | a batch is exactly what is unpublished, if publishing is due |
| ProcessOwnership.ProcessOwner.EndPublish | src/dryheave/process_ownership.py:74-77 | exactly the processes of a delivered batch are no longer to be published |
| ProcessOwnership.ProcessOwner.Publish | src/dryheave/process_ownership.py:61-77 | with any processes observed while the callback runs: all that was unpublished is delivered and retired if publishing is due and the callback returns, and otherwise it all stays to be published |
| ProcessOwnership.ProcessOwner.Scan | src/dryheave/process_ownership.py:86-114 | terminates; every readable descendant of an owned process is known afterwards, however deep, unless a limit is reached while one is not owned; only processes of the system are added, and going over a limit is remembered exactly then |
| OutputCapture.StoreKeepsCaptured | src/dryheave/processes.py:104-108 | storing what fits keeps the bound and the order, and loses bytes exactly when more were read than fit |
| OutputCapture.Capture.Drain | src/dryheave/processes.py:118-139 | draining moves exactly the bytes, and ends exactly as, what the pipes give says, and reports true exactly when it dropped a byte |
| OutputCapture.DropsIffTooMuchLeft | src/dryheave/processes.py:129-138 | a pipe read to its end loses something exactly if more is left in it than fits, and otherwise all that is left is stored |
| OutputCapture.RunCommand | src/dryheave/processes.py:67-115 | for every schedule: both streams together within the bound; each stored stream a prefix of what was written, and exactly what polls and drain give; the outcome is output_limit if and only if a byte read was dropped, and then the bound is used up; otherwise timeout if and only if the polls ended with a stream open or the command did not exit; a command that exited has everything stored, and one that exits and whose pipes never fall idle is stopped if and only if it writes too much |
| OutputCapture.Capture.Pump | src/dryheave/processes.py:83-110 | the loop over polls moves exactly the bytes, and ends exactly as, the schedule says |
| OutputCapture.BusyIsDecided | src/dryheave/processes.py:83-110 | if every poll before the deadline finds a stream that can be moved, the loop ends by itself, after no more polls than there are bytes and streams, and what the command wrote alone decides how: output_limit if it is more than the bound, all of it stored otherwise |
| FactHistory.ElicitedFacts | src/dryheave/fact_metrics.py:81-94 | exactly the eligible facts that an ordinary exchange cites before any exchange raising them |
| FactHistory.CompletedAreKept | src/dryheave/fact_metrics.py:143-155 | exactly the completed inspections are looked at, in order |
| FactHistory.LossesAreCounted | src/dryheave/fact_metrics.py:143-155 | the losses counted for a fact are exactly the judgments that call it unmet in an inspection where the one before, of another snapshot, calls it met |
| FactHistory.LossesAreBounded | src/dryheave/fact_metrics.py:143-155 | where no inspection calls the fact unmet twice, or both met and unmet, it is lost at most half as often as there are inspections, and less if it is met at the end |
| FactHistory.DistinctIsOneSided | src/dryheave/fact_metrics.py:143-155 | inspections with distinct facts are of that kind |
| FactHistory.BoundHoldsIffOneSided | src/dryheave/fact_metrics.py:143-155 | the bound holds of every history of given lists of judgments if and only if none calls the fact met or all are of that kind |
| FactHistory.RepeatedFactsBreakTheBound | src/dryheave/fact_metrics.py:143-155 | three inspections with repeated facts that exceed the bound |
| FactHistory.Regressions | src/dryheave/fact_metrics.py:143-155 | counts each fact exactly as often as it was met in one completed inspection and unmet in the next on another snapshot |

## Left out

- Real I/O: descriptors, flags, `fsync`, `flock`, subprocess and tar formats appear only by what they do (bytes durable or not, lock held or not, members read or not).
- RunJournals.WriteSnapshot: the size limits of snapshots and results are not modelled; a snapshot that is refused is one not completed.
- Journals.ParseEvents: the timestamp, name and identifier formats of events belong to the parser parameter.
- Creating, listing and inspecting runs, and result files other than as snapshots.
- Pathnames.Walk: permissions, name length limits and special files on the way are not modelled.
- TreeCapture.Collector.Walk: the tree does not change during the walk; contents may be anything when they are read later. Errors that abort the enumeration, link texts that are not UTF-8 among them, and the Git directory's own capture, are not modelled; which paths are portable or ignored is a parameter.
- TreeCapture.Capture: the paths found are read in one order or another, of which sorting is one.
- Materialization.MaterializeFiles: permissions, and link texts that are not UTF-8, are not modelled.
- `SelectedReader._visit`: the running totals, depth limit and collisions of selected assets.
- Grading.Pass: what verifiers, metrics commands and the judge do is a parameter; texts, costs, uncovered findings and evidence files are not modelled. A pass is one attempt within one regrade.
- Regrading.Run.AssessOne: the grading pass inside an assessment is the subject of `Grading`; here an assessment is its regrade, its completion and arbitrary content. Whether the judge and a replacement case are suitable is a parameter.
- Recovery of processes left by an earlier run, which may end an operation like a cancellation, and result files written at the end of an assessment.
- BundleArchive.Emit: which roots are selected for a reference, sensitive classes and aliases are not modelled; member names are structured values.
- BundleTransfer.Preflight: blocks, padding and the records inside extension headers; a member name has an extension header if it is over 100 characters.
- BundleArchive.UnpackMembers: truncated members, non-canonical bundle records and unsafe names are excluded by the types.
- FitToLimit.FitTranscript: maximal from the floor of two actions up, because the program does not try one; `MissesIffOneFits` says exactly when that matters.
- `dialog_projection` and `fit_inspection_to_budget`: the ellipsis they append can make a shorter limit encode to more bytes, so the largest that fits is not what they compute.
- TokenAccounting.CumulativeTotal: grouping of records by session and thread, records counted by response, prices, tiers and cost are not modelled.
- Authoring.Workspace.ValidateProblem: range, draft, voice and case checks are parameters; requests are named by their names, not by the alternative identifier.
- AuthoringCatalog.CasesAreBounded: a case stored for a freeze whose catalog could then not be saved is in no catalog, and not counted.
- Text lengths and formats of catalog records, triage and voice evidence, and persona handling.
- CommitConvention.Convention: prefix tokens and the ranking by count are inputs; rounding of reported shares and floating point are not modelled.
- ProcessOwnership.ProcessOwner.Scan: one consistent view of the processes for the duration of a scan; signals, stopping and cleanup reports are not modelled.
- OutputCapture.RunCommand: time is the sequence of polls, after the last of which the deadline has passed; starting and killing the process and failures of callbacks are not modelled.
- `fact_credits`, `reached_phases`, `attempt_outcome`, budgets and report rows: each says no more than its own expression.
- Prompts, model calls, command lines, HTML, menus, launch plans, secret scanning and configuration screening.
