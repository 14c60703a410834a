# flipr, proved

flipr is a flag store. A write commits to disk, moves a revision, publishes a snapshot for
readers, and appends one record to the oplog; a write that cannot be recorded is put back.
The oplog is never edited: an operator's restore is one more record, carrying the range it
undid, and replay works out which restores still stand and skips what they undid. These
files model that machinery and prove what it keeps.

`dafny verify dfyconfig.toml` checks the whole project.

| file | what it holds |
|---|---|
| `Flags.dfy` | namespaces and their stored names, values, the disk, the snapshot, the value rule |
| `Oplog.dfy` | records, the two-pass replay, and the interpreter it is meant to agree with |
| `TimeTravel.dfy` | two-pass replay is the interpreter, for every well-formed log and every bound |
| `ValueText.dfy` | values written as words and read back |
| `OplogFile.dfy` | lines, the scan, `standing`, the append |
| `LineFormat.dfy` | what a torn record costs the next one, and a line format with the law that decides it |
| `Store.dfy` | the store class and its one write path |
| `Recovery.dfy` | replay, heal, restore, assess and boot on that class |
| `Runs.dfy` | flipr as a state machine over any run, and the invariant every run keeps |
| `Guarantees.dfy` | what runs guarantee of their numbers, checkpoints, and where that stops |
| `Fidelity.dfy` | the live store against the file, and what the numbers can tell of it |
| `Writers.dfy` | writers interleaved step by step, readers at any moment, the writer lock |
| `Polling.dfy` | a number and a snapshot read while writers move them |
| `Reads.dfy` | overlay resolution, listing order, the `unchanged` answer |
| `KnownClients.dfy` | the known client set and its cache |
| `Backoff.dfy`, `Client.dfy` | the Go client's retries, remembered lock, cache and policy |

The write path, recovery, the scan and the client are methods with loops, on classes whose
fields the program updates; each is proved equal to a function of the old state, and the
theorems are about those functions. Two-pass replay is proved against an interpreter that
knows nothing of ranges or skipping: on a Restore to N it goes back to its own state as of N.
The live store is proved against two simpler stores, one that only ever saw deploys and one
that only ever saw the file. A `hide` in a proof only narrows what the verifier unfolds there.

## Where the code and its words part

The code was followed. Each of these is proved.

- "The count never rewinds" (`store.go:823-826`): a number taken by a rolled-back write is
  given again after a wipe (`Guarantees.ANumberIsGivenTwice`). It is spent for good exactly
  when the store stands at the file's highest number (`Guarantees.ANumberIsSpentIffAligned`).
- "Refusing to serve a half-restored store" (`main.go:174-178`): the refusal lasts one boot,
  because the generation that gates the heal is already on disk
  (`Guarantees.AHalfRestoredStoreIsServed`, and for every file
  `Guarantees.ARefusedStoreIsServedByTheNextBoot`).
- "ASSESSED: consistent" (`ctl.go:439`) compares two numbers. A store can pass and hold a flag
  the file never heard of (`Fidelity.AssessPassesAStoreTheFileDoesNotHold`). A store with no
  number missing from its file is the file's (`Fidelity.AWholeFileMeansTheStoreIsItsOwn`); where
  one is missing, the file and the number cannot tell a write rolled back from a process killed
  (`Fidelity.TheFileCannotTell`).
- A later successful write clears the failure note (`store.go:102-106`), and beyond publishing
  the disk it mends nothing but its own namespace (`Fidelity.ADoneWriteMendsOnlyItsOwn`,
  `Fidelity.ANoteIsClearedOverAWrongNamespace`).
- "A kill -9 after the answer loses nothing" (`filelog.go:113-114`): the record is on disk, but
  behind what an earlier kill left of another it is not read back, and no heal accepts the file
  from then on, in any format that frames its records (`LineFormat.ATornRecordTakesTheNextWithIt`; for any line format,
  `Recovery.ARecordBehindATornTail`).
- A caller told `unchanged`, and the cached set of known clients, go by the number
  (`server.go:220-236`, `clients.go:65-66`), which a writer moves before it publishes the
  snapshot. Every write has a moment when the new number is read with the old flags
  (`Polling.EveryWriteHasAMomentBetween`); when a number read at some moment can be trusted is
  `Polling.ANumberHoldsIff`. At rest it can, unless a reload failed: then a restart changes the
  answer under the same number (`Guarantees.OneNumberTwoSnapshots`).
- The client republishes its declarations "again after a wipe" (`clients/go/flipr.go:401`) at once
  or not at all: a check that goes on later has had them taken iff the first one went on, or the
  generation changed once more (`Client.AWipedFliprIsToldAtOnceOrNotAtAll`, with a witness,
  `Client.AMissedPublishIsNotMadeAgain`).
- The backoff's doubling wraps for a ceiling above 2^62 nanoseconds, and only then
  (`Backoff.TheCeilingDecides`).
- `clients/go/flipr.go:466-467` says a flip of an undeclared flag is refused; the store creates
  it (`Guarantees.AnUndeclaredFlagIsCreated`), within the budget
  (`Store.WhatAFlipIsRefusedFor`).

## Model

| member | source | states |
|---|---|---|
| Flags.ParseUndoesRender | store.go:855-864 | a stored name parses back to the namespace it was written for, exactly when the version has no "@" |
| Flags.RenderIsInjective | validate.go:45-48 | two namespaces flipr admits are never filed under one name |
| Flags.ViewServesTheDisk | store.go:219-257 | a namespace looked up in a rebuilt snapshot is the one filed on disk under its name, and is absent only if that is |
| TimeTravel.StandingAfterRestore | filelog.go:295-310 | a new restore stands, and with it exactly those that stood at the revision it goes back to |
| TimeTravel.StandingIsTheOneSet | filelog.go:295-310 | on restores in stamp order, `standing` is the one set in which a restore stands iff no later standing one holds its stamp |
| TimeTravel.BoundIsATruncation | filelog.go:509-513 | for every log, a bounded replay is the unbounded replay of the records at or below the bound |
| TimeTravel.CutSplits | filelog.go:441-447 | the log as it was at a revision holds the numbered records at or below it and none above |
| TimeTravel.ReplayEndsWithTheWrite | filelog.go:313-322 | no restore undoes a write recorded after it |
| TimeTravel.ReplayStepsBack | filelog.go:514-518 | after a restore to N, replay applies just what it would have applied at N |
| TimeTravel.ReplayIsTimeTravel | filelog.go:448-574 | for every well-formed log and every bound, skipping what standing restores undid yields the state the interpreter holds at that bound |
| TimeTravel.AsOfIsForever | filelog.go:53-57 | once every number up to N is taken, the state at N never changes, whatever is appended |
| TimeTravel.TheStateAt | filelog.go:53-57 | the state a log stood for is found again by a bounded replay of any longer log |
| TimeTravel.RestoreLeavesWhatReplayFinds | ctl.go:654-697 | the store a restore builds is the store an unbounded replay builds once its record is appended |
| TimeTravel.TheWayBack | ctl.go:711-718 | restoring to the `from` a restore left gives the state just before it, for any nesting and anything in between |
| TimeTravel.ARestoreGoesBackIff | filelog.go:295-322 | behind a restore whose range takes in every earlier restore, replay picks just what there was at the revision gone back to iff the range, or that revision, takes in every earlier write |
| TimeTravel.AShortRangeIsNotTimeTravel | filelog.go:251-288 | stamp order, which is what the scan looks at, is not enough for the theorem: a range that stops short leaves a write in force |
| ValueText.IntReadsBack | server.go:963-964 | every 64-bit integer reads back from its decimal text |
| ValueText.TextReadsBack | store.go:568-581 | a value survives being recorded as text exactly unless it is a string that spells a bool or an integer, or no value |
| ValueText.WhatTextIsReadAs | store.go:568-581 | the two words are a bool; digits with or without a sign, leading zeros included, are the integer they write in base ten if it fits 64 bits; any other text is itself |
| OplogFile.TheWalkFindsTheLines | filelog.go:324-389 | the walk hands over exactly the lines written, in order, and never a torn tail |
| OplogFile.FileRoundTrip | filelog.go:324-389 | any records written one to a line, with any torn tail after, are read back as they were and none is refused |
| OplogFile.AppendedLineJoinsTheTorn | filelog.go:100-123 | on every file, an appended line joins whatever follows the last newline, and no other line changes |
| OplogFile.AppendedRecordIsLast | filelog.go:100-123 | on every file an append changes no record already there and leaves the file ending whole; on complete lines it adds its record last, and behind a torn tail what the two read as together |
| OplogFile.ReadLine | filelog.go:356-370 | one line and where the next starts, or the end when no newline is left |
| OplogFile.EachRecord | filelog.go:331-389 | the read loop yields the complete lines of the file |
| OplogFile.ScanOplog | filelog.go:255-293 | accepts exactly the files whose Restore stamps ascend, and reports their restores, highest stamp, records and bad lines |
| OplogFile.UndoneBy | filelog.go:315-322 | finds a restore holding the revision iff there is one |
| OplogFile.StandingAt | filelog.go:299-310 | the backward loop computes the standing restores at a bound |
| OplogFile.FileSink.Write | filelog.go:101-123 | the line and its newline at the end of whatever the file holds, or nothing |
| Store.PublishMeans | store.go:487-516 | a value already held is kept, else the first declared stands; the last declaration's metadata stands; other keys are untouched |
| Store.PublishTwiceIsOnce | store.go:463-469 | publishing what is published changes no flag |
| Store.PublishAndFlipCommute | store.go:466-469 | a deploy and a flip of a flag that exists give the same namespace in either order |
| Store.EveryWriteEndsOneOfTwoWays | store.go:669-752 | a write not reported as unrepaired is done, its namespace changed, its number taken and its record last in the file under that number, or leaves every namespace, what readers see and the file as they were; either way readers see the disk |
| Store.UndoIsExact | store.go:754-798 | capture, any change, restore is the identity on the disk, created, emptied and deleted namespaces included |
| Store.FlipIsLetThroughIffItObeys | store.go:400-430 | a flip is let through iff what it leaves has a value, of the kind it had, within the larger of 24 and the prior size; description, expensive mark and other flags are untouched, and a flag it creates has neither |
| Store.WhatAFlipIsRefusedFor | validate.go:166-190 | no value, another kind than the flag holds, or a twenty-fifth flag: each refusal exactly when |
| Store.EveryEndingOfAWrite | store.go:679-752 | for every store, mutation and weather: which ending comes when, and what each leaves of disk, numbers, snapshot and failure note; a refusal leaves everything, a failed commit only the note |
| Store.CaptureNamespace | store.go:757-770 | the namespace as stored, or that there is none |
| Store.RestoreNamespace | store.go:773-798 | puts back what was captured, removing what was not there |
| Store.PublishFlags | store.go:487-516 | the loop over the declared flags is the publish of all of them |
| Store.RunMutation | store.go:388-437 | the three mutators, with their refusals |
| Store.Store.Reload | store.go:219-257 | the snapshot becomes a view of the disk, or stays as it was when the disk cannot be read |
| Store.Store.SetRevision | store.go:811-821 | the number moves on disk and in memory together, or in neither when the commit fails |
| Store.Store.CommitAndPublish | store.go:690-718 | commit and number are one fact, then readers get the new disk |
| Store.Store.UndoUnrecorded | store.go:726-736 | the namespace and the snapshot go back and the number does not |
| Store.Store.RecordOrUndo | store.go:719-751 | recorded with the number the commit took, or undone |
| Store.Store.Transact | store.go:679-752 | the whole new store, outcome and file for every way the volume and the sink can behave, whatever the file ends with |
| Store.Store.Flip | store.go:380-461 | refused exactly as its rules say; the flag handed back is the one the store then holds, with the value asked for, and there is one iff the flip stands; the record says the flip |
| Store.Store.Publish | store.go:476-528 | the count the loop made of the declared flags is handed back, or zero when the write does not stand |
| Store.Store.Retire | store.go:594-620 | the count handed back is of the flags that went, or zero when the write does not stand |
| Recovery.NothingSkippedMeansReplayed | filelog.go:507-573 | with nothing skipped, exactly the records in force were applied, once each and in order, and every one decodes |
| Recovery.FairReplaySkipsOnlyUndecodable | filelog.go:535-554 | on a volume that holds, a replay is refused iff some value in force does not decode |
| Recovery.FairReplayAppliesWhatDecodes | filelog.go:497-573 | on a volume that holds, a replay, refused or not, leaves what the decodable records in force say, numbered by their count |
| Recovery.ReplayRecord | store.go:555-589 | one record replayed through the write path, unrecorded and without the rules |
| Recovery.ApplyLines | filelog.go:497-573 | the second pass applies what the bound and the restores in force leave, counting the rest |
| Recovery.ReplayFileTo | filelog.go:448-574 | succeeds iff stamps ascend, every line parses and nothing in force is left out; reports the count applied and the highest stamp of the whole file |
| Recovery.HealFromFile | filelog.go:397-424 | on every file, a torn one included: a heal that succeeds leaves the store at the file's highest number; one that fails leaves it where the replay got to |
| Recovery.AcceptedMeansRebuilt | filelog.go:391-424 | an accepted replay on a fresh store is the log's own store, its snapshot included |
| Recovery.RestoreGuards | ctl.go:537-609 | what a restore refuses, and in what order |
| Recovery.WhatARestoreIsRefusedFor | ctl.go:537-609 | each refusal exactly when, with everything that spoke before it in order, and none exactly when all is |
| Recovery.HowARestoreEnds | ctl.go:625-697 | done exactly when the replay is accepted and both number and record land, and otherwise the first that did not is named |
| Recovery.Rebuild | ctl.go:625-653 | a fresh store holding the replay of the file up to the revision named |
| Recovery.NumberAndRecord | ctl.go:658-697 | numbered above the store and the file both, with the range up to the number below its own; a commit that fails leaves both as they were |
| Recovery.Restore | ctl.go:528-720 | refused with nothing touched, or a rebuilt store one above where the old one stood, and one record appended only if all of it was done |
| Recovery.Assess | ctl.go:371-441 | passes iff stamps ascend, every line parses and the store's number is the file's highest |
| Recovery.ARecordBehindATornTail | filelog.go:100-123 | for any line format, a record appended behind a torn tail is read back iff the two together read as it; where they read as none, no heal accepts the file |
| LineFormat.ATornRecordTakesTheNextWithIt | filelog.go:100-123 | where a record's text behind part of another's reads as none, a kill leaves the file reading as before it, and the next record appended is read back iff nothing of the killed one had landed; else no heal accepts the file |
| LineFormat.AFramedFormatExists | filelog.go:100-123 | there is a line format that reads back every record and has that law |
| Recovery.Boot | main.go:87-229 | a store that was there is served as it is; one just minted is served iff its heal succeeds |
| Runs.OverlayFollowsFlip | store.go:396-436 | flipping over declarations is declaring under the flip |
| Runs.OverlayFollowsPublish | store.go:487-516 | a deploy over the operator's values is the deploy alone with the operator's values laid over |
| Runs.OverlayFollowsWrite | store.go:380-620 | a recorded write moves the live store as the declared-only and the file-only stores move apart |
| Runs.StepKeepsSound | store.go:679-752 | every event keeps the file well-formed, every stamp at or below the store's number, and each namespace nothing unrecorded has touched what the file and the declarations say, on disk and as served |
| Runs.EveryRunIsSound | filelog.go:43-57 | the invariant holds after every run from a first boot, on no file or one from before stamps |
| Guarantees.WellFormedRestoresAscend | filelog.go:251-254 | no file of any run is refused by the scan |
| Guarantees.ANumberNamesOneRecord | filelog.go:38-43 | stamps strictly ascend in file order across heals and restores |
| Guarantees.RecoveryAcceptsEveryRun | filelog.go:397-424 | on a volume that holds, the file of any run is accepted by a heal and by a restore; a boot on the store of any run is its reopening, and on none its heal |
| Guarantees.AlignedAfter | ctl.go:367-371 | the store's number is the file's highest iff the last event to take a number left it in the file |
| Guarantees.LaterRecordsAreNumberedAbove | store.go:695-711 | a run only appends, and numbers what it appends above everything there was |
| Guarantees.ANumberIsSpentIffAligned | store.go:823-827 | a number shown is never given to a later record in any continuation iff it is the file's highest |
| Guarantees.ANumberIsGivenTwice | store.go:823-827 | a rolled-back flip, a wipe and one more flip: number 1 shown twice, for different flags |
| Guarantees.ACheckpointIsForever | RUNBOOK-restore.md:15-17 | a number shown while it is the file's highest always names the operator state of that moment; once the store stands above it, a restore to it goes ahead and gives back exactly that |
| Guarantees.ARestoreGoesAheadIff | ctl.go:537-609 | in any run a restore goes ahead for exactly the numbers the file reaches below where the store stands |
| Guarantees.AHealAfterARestore | filelog.go:45-57 | a wipe after a restore heals to the store the restore left, number included, even where the store had run ahead of the file |
| Guarantees.TheWayBackFromARestore | ctl.go:711-718 | after any run the number a store stood at when restored is never refused and brings its state back, aligned or not |
| Guarantees.RunWithinAGeneration | store.go:695-711 | within a generation numbers never fall, and equal numbers mean an equal disk |
| Guarantees.UnchangedIsTrueIffReadersSeeTheDisk | server.go:220-236 | equal numbers in one generation mean equal snapshots in every continuation iff readers are being served the disk |
| Guarantees.OneNumberTwoSnapshots | store.go:711-716 | a flip whose reload fails, and a restart: one number, one generation, two snapshots |
| Guarantees.AnUndeclaredFlagIsCreated | store.go:394-430 | a flip of a flag no deploy declared is done, recorded and served |
| Guarantees.AKindIsKept | validate.go:155-187 | a flag with a value keeps its kind through every flip, deploy, failure and crash until its namespace is deleted or the store rebuilt |
| Guarantees.ARefusedStoreIsServedByTheNextBoot | main.go:151-180 | on a volume that holds, a wiped store is served iff restores ascend, every line parses, every record in force decodes and the numbering commits; the boot after serves in any case, lacking just the records that do not decode, or all of them when restores are out of order |
| Guarantees.AHalfRestoredStoreIsServed | main.go:151-180 | one undecodable value, two boots: half the record served under a number the file already holds |
| Fidelity.TheLiveStoreIsWhatTheFileSays | store.go:669-678 | over every run, in a namespace no unrepaired write, crash or unrecorded restore has touched since the last rebuild or its own delete: each flag replay yields is live with that value, each other live flag is as declared, and readers see exactly that |
| Fidelity.ATouchShows | store.go:712-750 | a touch leaves the disk or its readers holding what no record says, unless the write changed nothing |
| Fidelity.ADoneWriteMendsOnlyItsOwn | store.go:102-106 | an unrepaired write is noted; a done or rolled-back one clears the note, a done one republishes the disk, and every other namespace is as the file says afterwards iff its disk already was |
| Fidelity.ANoteIsClearedOverAWrongNamespace | store.go:102-106 | a run that ends with the note clear and a flag served that no record holds |
| Fidelity.ADoneFlipMendsOneFlag | store.go:400-436 | in its own namespace a done flip puts its flag right in store and file, and leaves every other flag of both as it was |
| Fidelity.DeclaredMeansPublishedSince | main.go:103-109 | a flag is declared iff it was published since the store was built and its namespace last deleted |
| Fidelity.ADeployKeepsTheOperatorsValues | store.go:466-469 | a deploy at any time, after a heal included, changes no value the file holds |
| Fidelity.AWholeFileMeansTheStoreIsItsOwn | ctl.go:430-440 | over every run, with no number missing from the file since the store was built, assess passes, the store is exactly the declarations under the replayed file, and readers see it |
| Fidelity.TheFileCannotTell | store.go:719-751 | from any namespace as the file says, a rolled-back write and a crash leave one file, number and generation, and only after the first is it still so |
| Fidelity.AssessPassesAStoreTheFileDoesNotHold | ctl.go:430-440 | a run after which assess passes, the next heal loses a flag being served, and a number is missing |
| Writers.AdvanceIsPartWay | store.go:684-751 | each step of a writer takes the store one step through its own transact, whoever else waits |
| Writers.EveryScheduleIsOrdered | store.go:108-118 | every schedule of any number of writers keeps to the order of the lock |
| Writers.AFreeLockMeansASerialRun | store.go:108-118 | with the lock free, store and file are those of the finished writes done one by one in lock order |
| Writers.AKillAtAnyMomentIsARun | store.go:684-751 | killed at any step of any schedule, what the next process opens is what a run leaves that does the finished writes, at most one write or crash more, and reopens |
| Writers.ReadersNeverGoBack | store.go:112-117 | a reader is always served what some commit left, and a later reader a commit no earlier |
| Writers.AFreeLockMeansReadersSeeTheDisk | store.go:116-117 | with the lock free and nothing unrepaired, readers see the disk |
| Writers.WithoutTheLockAnOlderSnapshotWins | store.go:108-115 | without the lock a schedule ends with every writer done and readers served a value since replaced |
| Polling.ANumberHoldsIff | store.go:711-718 | at any moment of any schedule, the snapshot stays what it is for as long as the number stands, in every continuation, iff the writer holding the lock has nothing different left to publish under it |
| Polling.ANumberReadAtRestIsExact | server.go:220-236 | a number read with the lock free and a snapshot read at any moment after: whenever the number is seen again, that is the snapshot |
| Polling.EveryWriteHasAMomentBetween | server.go:220-236 | every write that is done has a moment at which its number is read with the flags from before it, and ends under that same number with the new ones |
| Reads.LessIsTotal | sort.go:19 | the key order is total and strict |
| Reads.LessIsDictionaryOrder | sort.go:19 | one key is before another where they first differ: it ends there, or has the lower character |
| Reads.ThereIsOneOrder | sort.go:9-11 | two answers holding the same flags are the same answer |
| Reads.Sorted | sort.go:14-21 | each flag of a namespace once, in ascending key order |
| Reads.GetNamespace | store.go:310-340 | nothing for a namespace not held; otherwise, each once and in key order, exactly its own flags as held and, unless it is the global scope, the global ones under its other keys as held |
| Reads.AReadIsItsListing | store.go:287-308 | one flag read by itself is the flag its namespace's listing holds under the key, or none; a namespace not held reads as the global scope |
| Reads.OneAnswer | store.go:310-340 | a snapshot has one answer for a namespace |
| Reads.AFlipIsWhatIsRead | store.go:58-79 | a flip that is done is what its readers read, the whole flag: the service's own, or for the global scope every service without that key; no other read changes |
| Reads.ADeployIsWhatIsRead | store.go:463-516 | a deploy that is done is what its readers read, the whole flag: metadata last declared, the value held or else first declared; no other read changes |
| Reads.EveryRunIsFiled | store.go:400-437 | in every run each flag is filed under its own key, on disk and as served |
| Reads.HandleGetNamespace | server.go:215-256 | `unchanged`, under that number, iff the caller names the store's number and not zero; else the namespace whole under the number, or not found |
| Reads.UnchangedHidesNothing | server.go:220-236 | a caller answered in full and later told `unchanged` holds what it would be answered in full |
| KnownClients.JoinUndoesSplit | clients.go:99-107 | splitting an announcement loses nothing |
| KnownClients.SplitClientReadsWhatIsSaid | clients.go:99-107 | a client is read out of a text exactly when the text is its language, tag and hash with slashes between, none empty or holding a slash, and only white space around |
| KnownClients.ClientKeyIsInjective | clients.go:87-91 | two clients share an entry only if they share language and tag |
| KnownClients.ReadSet | clients.go:81-94 | for every client the hash of the last entry naming it, and refusal iff the switch is on |
| KnownClients.AdmittedMeansListed | clients.go:109-162 | a request is turned away iff the switch is on and its header announces neither this build's tool nor a client the set lists last under its language and tag |
| KnownClients.TheLastEntryDecides | clients.go:81-94 | the hash held for a client is that of the last flag whose text announces it |
| KnownClients.TheLabelSays | clients.go:109-133 | what a request is counted as: absent for a blank header, the tool, a listed client, each exactly when |
| KnownClients.ClientSets.Current | clients.go:72-97 | answers the cached set under the same number, and otherwise the set the snapshot says, cached under its number |
| KnownClients.OneNumberOneSnapshot | clients.go:65-66 | while a process runs numbers never fall and one number is one snapshot, through writes that fail in any way |
| KnownClients.EveryAnswerIsTrue | clients.go:72-97 | every call a process makes between writes, in any sequence from an empty cache, answers the set its snapshot says at that moment |
| KnownClients.ACachedSetStaysTrue | clients.go:65-66 | within a generation a cache hit is a fresh read |
| Backoff.WithDefaults | clients/go/retry.go:60-74 | each field that is set is kept and each other takes its default, the ceiling raised to the base where it falls below |
| Backoff.Wait | clients/go/retry.go:79-91 | the draw brought below the cap, every sleep below it drawn by itself, or none |
| Backoff.TheWaitIsTheOneMeant | clients/go/retry.go:76-91 | the loop computes the base doubled per failure, up to the ceiling, for ceilings to 2^62 |
| Backoff.TheCeilingDecides | clients/go/retry.go:79-91 | for every base and failure count iff the ceiling is at most 2^62 |
| Client.Client.NoteLocked | clients/go/flipr.go:807-829 | a lock is remembered for as long as flipr asked, five seconds if it did not say, thirty at most |
| Client.Client.Rpc | clients/go/flipr.go:701-765 | no request while a lock stands, its deadline included; else the answer of the first attempt not to be asked again, or of the last; one request for a cancelled call or flipr's own 404 or any other 4xx, more for a lost one, an edge's 404, a 429 or a 5xx; the time slept exactly |
| Client.WhatIsAskedAgain | clients/go/retry.go:93-130 | which answers are asked again, by what was answered |
| Client.PauseAfter | clients/go/flipr.go:728-755 | Retry-After as asked up to thirty seconds, and otherwise the backoff |
| Client.Client.Verify | clients/go/flipr.go:373-411 | a check goes on only after an answered ping, and on a changed generation or a first answer only once the declarations are taken; a changed generation drops the cache |
| Client.AWipedFliprIsToldAtOnceOrNotAtAll | clients/go/flipr.go:373-411 | after a new generation is heard, whatever the publishes meet: when the next check goes on, the declarations have been taken since iff the first check went on or the generation changed again |
| Client.ToldAtOnceOrNotAtAll | clients/go/flipr.go:381-409 | over a client's whole life, between one change of generation and the next the declarations are taken straight behind the first or not at all |
| Client.AMissedPublishIsNotMadeAgain | clients/go/flipr.go:381-409 | a publish refused after a generation change: the next check goes on under the new generation with nothing published |
| Client.Client.constructor | clients/go/flipr.go:266-325 | up iff the first ping was answered, under the generation it gave; published iff the declarations were taken; nothing read or cached |
| Client.Client.Fetch | clients/go/flipr.go:414-431 | the cache is the namespace answered, iff one was, or what it was |
| Client.Client.Check | clients/go/flipr.go:336-368 | an answer is known iff the ping was answered, declarations called for were taken, a namespace was there from a cache still good or from the fetch, and it holds the key; on iff its first such flag is true; that namespace is flipr's last word; an unknown one is refused, or held at the value last known, else the declared default |
| Client.Client.Set | clients/go/flipr.go:474-494 | a flip lands iff it was answered, and then drops the cache |

## Left out

- Client.Client.Check: calls are modelled one at a time; a fetch overlapping a Set on another goroutine can store a namespace from before it, so the claim is for calls that do not overlap.
- OplogFile.FileSink.Write: one append lands whole or not at all; part of a line landing, or all of it before a failed fsync, is outside the model.
- Recovery.Restore: a restore that fails at the replay or at numbering leaves a store the operator moves back by hand; the method says so and runs do not include it.
- TimeTravel.ARestoreGoesBackIff: for a range that leaves out an earlier restore no condition is given but `WellFormed`, which no such range meets.
- KnownClients.EveryAnswerIsTrue: calls come between writes; a call during one is a reader of `Polling`.
- Reads.Sorted: the standard library's sort is modelled as insertion into an ordered list.
- Runs hold no unparseable line, because an append is atomic; what an append behind a torn tail does is `Recovery.ARecordBehindATornTail`.
- Runs start from an empty file or one whose records all predate stamps; heals and restores in a run meet a volume that holds. `Recovery.Boot` and `Recovery.Restore` cover the volume that does not.
- Lock and Unlock records are taken to be stamped at or below the store's number; the lock file's polling is left out.
- The revision is unbounded; wrap-around after 2^64 writes is not modelled.
- A value with no kind and a missing value are one value.
- The name, key and reason formats, the expensive-flag text rules and the 24-flag limit on one publish request: single checks before a write.
- HTTP, JSON and protobuf: requests are values, and a record's line format is any that reads back what it wrote. That JSON text also has the law of `LineFormat.Framed` is not derived.
- bbolt: a transaction commits whole or changes nothing. Timestamps, callers and reasons are carried by nothing that is proved.
- The kafka mirror and its replay, metrics, logging, health text, dashboards and shell scripts.
- White space trimmed from announcements is the Latin-1 set.
- Offline writes by the tool are a reopen, a write and a reopen in a run; the boot's own declaration is a publish.
- The client's env mode, its configuration checks, List and Snapshot, and the TypeScript and Python clients.
