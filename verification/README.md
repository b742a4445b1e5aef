# Verified model of the Apiome tooling cores

This project models the parts of the Apiome repository in which a mistake loses data or says something untrue, and
proves what those parts promise. The main results are statements about all inputs, all runs or all reachable states;
a few small ones give the input on which a promise fails.
`dafny verify dfyconfig.toml` checks the whole project.

## What is modelled

**The migration engine** (`apiome-db/src/migrate.ts`).

- `Crc32`, `Checksums` (with `Registers`, `Utf8`): the lookup table and the byte loop, in place on arrays and 32-bit
  words, against the bit-serial CRC-32 of section 8 of RFC 1952; line-ending normalisation, UTF-8 and the signed
  column value.
- `MigrationFiles`: the file name pattern, the version key, and the directory listing with its refusal and its hint.
- `MigrationVersions`: what names and versions are as they are written, and which numbers and keys they have.
- `MigrationState`: the database as a value, namely history rows in rank order and the log of committed scripts, with
  `status`, `apply`, `repair`, `clean` and rows written from outside as steps. Which scripts fail is a parameter of
  the step, so every pattern of failures is covered.
- `MigrationSteps`: what clean, status, apply and repair do, said in terms of rows, files and texts alone.
- `MigrationRuns`: what holds over whole runs: interruption, resumption with the same or with fixed scripts, dry runs,
  refusal of edited scripts, repair, and the failure hint.
- `MigrationRenames`: versions that return under another spelling, and when that makes one run twice.
- `MigrationOrder`: when scripts run in listing order over several applies.
- `MigrationDatabase`: the class whose methods follow the program step by step, with BEGIN, COMMIT and ROLLBACK; each
  method is proved to do what the step on values does.

**Release notes** (`scripts/gen-release-notes.ts`): `ReleaseVersions` (the comparison), `ReleaseNotes` (ranges,
closing a release, the posts), `Changelog` (the fence-aware passes over lines), `ChangelogText` (what the passes do to
documents as they are written).

**Breaking-change documents** (`apiome-ui/lib/breaking-changes-doc.ts`): `BreakingChanges`, `BreakingRules` (the rules written
out, and a reader of the document).

**The legacy documentation inventory** (`scripts/legacy_docs_inventory.py`): `LegacyDocs` (rules, locations, rows),
`LegacyRules` (the rules written out), `LegacyInventory` (printer and parser), `LegacyTree` (moving files and checking
the tree), `LegacyChecks` (what the check reports).

**Links to discussed elements** (`apiome-ui/lib/comment-discussion.ts`): `SelectionAddress`.

**Step outputs** (`mock-action/lib.js`, `mock-action/main.js`): `OutputFile`.

**Connector forms** (`apiome-ui/lib/connector-kinds.ts`): `ConnectorScope`.

**Failure messages** (`apiome-ui/lib/copy-voice.ts`): `CopyVoice`, `CopyVoiceRules` (the patterns read as text).

**Directory facets** (`apiome-browse/lib/browseFacets.ts`): `BrowseFacets`.

`Text`, `Sorting`, `Sequences`, `Bytes` and `Wrappers` hold what several of these share.

The definitions that the main results rest on are pinned down by lemmas that say what they mean without naming them: the form
of a text, the rows of a table, an independent reader, or a sample that is written out.

## Where the code does less than its words say

The model follows the code. In each case below a lemma gives an input that shows it, and where the promise is kept
for other inputs a lemma gives the exact condition.

- The comment on the version key says that `V0.7` keys as `7`. Zero parts are kept (`ZeroPartIsKept`).
- The history is looked up by raw digits and collisions are found by the normalised key. A file that is re-padded
  after it was applied runs a second time (`RepaddedFileRunsTwice`); a run avoids this exactly when no file it commits
  spells a recorded version differently (`KeysStayDistinctExactly`, `RunKeepsKeysExactly`).
- A file that is added with a lower name after higher ones were applied runs after them (`LateLowerFileRunsLast`); the
  scripts have run in listing order exactly when no apply has committed such a file (`LogInOrderExactly`).
- Line endings are ignored unless a CR ending is followed by an empty line that ends with LF (`LineEndingsNormalize`);
  then the checksum can change (`MixedEndingsChangeChecksum`).
- The row that the failure hint tells the operator to insert has checksum 0, which the next status check refuses
  unless that happens to be the file's checksum (`HintRowNeedsRepair`, with an input in `HintRowRefused`).
- The suggested version is not formatted like the files that collided: a collision on `V002` yields `V3`, not `V003`
  (`PaddedCollisionNarrows`). It is as wide as theirs exactly when theirs is as wide as the wider of its key and the
  next number (`SuggestionWidthExactly`); on integer versions the padding never does anything
  (`IntegerSuggestionIsBare`). The number is free all the same (`SuggestionIsFree`).
- The first release closed on a changelog that stops at version 0.0.0 covers nothing (`FirstRangeEmptyExactly`,
  `ZeroReleaseIsEmpty`).
- Archive locations are unique for files of docs folders only (`ArchiveInvertible`, `ArchiveCanCollide`).
- An inventory loses a path that is empty, has a backquote or has a line break (`InventoryRoundTripExactly`,
  `BackquotedPathIsLost`).
- A list field filled with nothing but commas and white space, with a comma among them, becomes an empty list and then
  disappears (`ScopeRoundTripExactly`, `SingleCommaIsLost`); a required checkbox is reported missing even when ticked
  (`NothingMissingExactly`, `TickedCheckboxIsReported`); a cadence of zero seconds, and no other, does not come back
  (`CadenceRoundTripExactly`).
- The promise that a rewritten message names a next action holds for the default action, not for every action
  (`RewritingNamesActionExactly`, `CustomActionMayNameNone`); a message of nothing but punctuation, or one that
  is given an action naming none, is rewritten differently the second time (`RewritingIdempotentExactly`,
  `DotsRewrittenTwice`).
- An output value that holds its own delimiter as a line is cut off (`DelimiterInValueTruncates`,
  `ReadAllWrittenExactly`, `ValueIsDelimiter`).

## Model

| member | source | states |
|---|---|---|
| Crc32.BuildTable | apiome-db/src/migrate.ts:155-165 | every table entry is eight shifts of its index through the reflected polynomial |
| Crc32.ShiftLinear | apiome-db/src/migrate.ts:160 | a shift of the register is linear over exclusive or |
| Crc32.TableStep | apiome-db/src/migrate.ts:178 | one table lookup advances the register exactly as the eight message bits do one by one |
| Crc32.TableCrc | apiome-db/src/migrate.ts:174-180 | for every byte sequence the table-driven loop returns the bit-serial CRC-32 |
| Crc32.BurstSeparates | apiome-db/src/migrate.ts:175-180 | from one register state, two different runs of up to 32 bits never end in the same state |
| Crc32.BurstChangesCrc | apiome-db/src/migrate.ts:175-180 | messages that differ only within 32 consecutive bits, anywhere, have different checksums |
| Crc32.WindowEditChangesCrc | apiome-db/src/migrate.ts:175-180 | an edit within four consecutive bytes always changes the checksum |
| Crc32.LineFeedCrc | apiome-db/src/migrate.ts:155-180 | the checksum of a single line feed, as an unsigned number |
| Checksums.ComputeChecksum | apiome-db/src/migrate.ts:172-181 | the method returns the signed bit-serial CRC-32 of the UTF-8 bytes of the normalised text |
| Checksums.SignedFaithful | apiome-db/src/migrate.ts:180 | the signed value fits the integer column and two values are equal exactly when the 32 bits are |
| Checksums.SignedResidue | apiome-db/src/migrate.ts:180 | the stored integer is the 32-bit word up to a multiple of 2^32 |
| Checksums.OctetsInjective | apiome-db/src/migrate.ts:174 | different texts have different bytes |
| Checksums.OctetsOfAscii | apiome-db/src/migrate.ts:174 | an ASCII text has its own codes for bytes |
| Checksums.SmallEditDetected | apiome-db/src/migrate.ts:172-181 | normalised texts of one length that differ within four consecutive bytes never share a checksum |
| Checksums.LineEndingsNormalize | apiome-db/src/migrate.ts:168-173 | a text normalises to its lines joined by LF exactly when no CR ending meets an empty line ended by LF |
| Checksums.LineEndingsIgnored | apiome-db/src/migrate.ts:168-173 | texts with the same lines and different, non-merging line endings have one checksum |
| Checksums.UniformEndingsNeverMerge | apiome-db/src/migrate.ts:168-173 | converting a whole text to one kind of ending never merges two endings |
| Checksums.MixedEndingsChangeChecksum | apiome-db/src/migrate.ts:168-180 | one script whose checksum changes with its line endings, because two of them merge |
| Utf8.DecodeEncode | apiome-db/src/migrate.ts:174 | the bytes of a text determine the text |
| Utf8.EncodedSamples | apiome-db/src/migrate.ts:174 | the bytes of one character of each length |
| MigrationFiles.ScanIsPattern | apiome-db/src/migrate.ts:25-73 | a name reads as version and title exactly when it has the form of the pattern, and in one way only |
| MigrationVersions.MigrationNameExactly | apiome-db/src/migrate.ts:25-57 | a name belongs to a migration exactly when it has the form `V<version>__<title>.sql` |
| MigrationVersions.VersionsAreSpelled | apiome-db/src/migrate.ts:25 | a version is exactly groups of digits with a dot or an underscore between each two |
| MigrationVersions.TitleExactly | apiome-db/src/migrate.ts:25 | a title is exactly a text that is not empty and stays on one line |
| MigrationVersions.ParsedNameExactly | apiome-db/src/migrate.ts:67-73 | parsing gives the version as written and the title with spaces for underscores |
| MigrationVersions.KeyOfSpelled | apiome-db/src/migrate.ts:81-86 | the key of a version as written is its numbers in decimal, in order, with dots between them |
| MigrationFiles.KeysComparePartNumbers | apiome-db/src/migrate.ts:81-86 | two versions have one key exactly when their parts are the same numbers, however padded and separated |
| MigrationFiles.ZeroPartIsKept | apiome-db/src/migrate.ts:76-86 | `0.7` and `7` have different keys, against the comment |
| MigrationFiles.SuggestNextVersion | apiome-db/src/migrate.ts:92-100 | the loop returns one more than the largest first number, padded to the width given |
| MigrationFiles.GroupByVersion | apiome-db/src/migrate.ts:123-129 | the grouping loop collects, per key in order of first occurrence, exactly the files that claim it |
| MigrationFiles.CollisionsMeaning | apiome-db/src/migrate.ts:130-134 | the groups reported are exactly the keys with more than one claimant, each with all of them |
| MigrationVersions.ClaimantsExactly | apiome-db/src/migrate.ts:123-129 | the claimants of a key are the files with that key, each as often as listed |
| MigrationVersions.ClaimantsIsFilter | apiome-db/src/migrate.ts:123-129 | the claimants of a key are the files with that key, in listing order |
| MigrationVersions.KeysInOrder | apiome-db/src/migrate.ts:123-130 | keys come in the order in which they first occur |
| MigrationFiles.NoCollisions | apiome-db/src/migrate.ts:130-131 | nothing is reported exactly when the keys of the files are pairwise different |
| MigrationFiles.ListMigrationFiles | apiome-db/src/migrate.ts:111-151 | the listing succeeds exactly when no two files share a key, and returns all migration files in name order |
| MigrationFiles.ListingComplete | apiome-db/src/migrate.ts:121 | the listing is sorted and holds each migration file as often as the directory, and nothing else |
| MigrationFiles.RawVersionsDiffer | apiome-db/src/migrate.ts:102-150 | in a listing that is not refused no two files have one raw version |
| MigrationFiles.SuggestionIsFree | apiome-db/src/migrate.ts:89-100 | the suggested version is well formed and no listed file claims it under any padding |
| MigrationVersions.SuggestionIsLeast | apiome-db/src/migrate.ts:92-100 | the suggestion, as a number, is above every first number and just one above some, or 1 |
| MigrationFiles.SuggestionWidthExactly | apiome-db/src/migrate.ts:88-100 | the suggestion is as wide as a colliding version exactly when that is as wide as the wider of its key and the next number |
| MigrationFiles.IntegerSuggestionIsBare | apiome-db/src/migrate.ts:88-100 | for an integer version the suggestion is the bare next number, as wide as the version exactly when it has as many digits |
| MigrationFiles.PaddedCollisionNarrows | apiome-db/src/migrate.ts:88-100 | a collision of two files on `V002` suggests `3` |
| MigrationFiles.ListingInNumericOrder | apiome-db/src/migrate.ts:102-121 | integer versions of one width are listed in strictly increasing numeric order |
| MigrationState.LatestIffRecorded | apiome-db/src/migrate.ts:279-282 | the lookup finds a version exactly when some row records its application, and then finds such a row |
| MigrationState.NextRankExactly | apiome-db/src/migrate.ts:324-329 | a number is the next rank exactly when it is above all ranks and one above some rank, or 1 in an empty table |
| MigrationState.PendingExactly | apiome-db/src/migrate.ts:286-293 | in every state that keeps the invariant a file counts as applied exactly when a script of its version has been committed |
| MigrationState.CommitKeepsInv | apiome-db/src/migrate.ts:331-358 | committing a pending script and its row together keeps the invariant |
| MigrationState.ApplyKeepsInv | apiome-db/src/migrate.ts:360-396 | an apply keeps the invariant, whichever scripts fail |
| MigrationState.RepairKeepsCommitted | apiome-db/src/migrate.ts:425-444 | repair keeps every row that records an application, in order, apart from its checksum |
| MigrationState.NextKeepsInv | apiome-db/src/migrate.ts:324-477 | status, apply, repair, clean and outside failed rows each keep the invariant |
| MigrationSteps.CleanStartsOver | apiome-db/src/migrate.ts:466-477 | after a committed clean every run goes as on a new database |
| MigrationSteps.CleanedDatabaseIsNew | apiome-db/src/migrate.ts:466-477 | after a committed clean nothing is left, all listed files are pending, and an unhindered apply runs exactly them |
| MigrationSteps.FailedCleanKeepsAll | apiome-db/src/migrate.ts:466-475 | a clean that does not commit changes nothing |
| MigrationSteps.StatusReadsLastSuccess | apiome-db/src/migrate.ts:279-306 | the status check passes exactly when versions do not collide and the last success on record for each listed version has no checksum or that of the file |
| MigrationSteps.SplitExactly | apiome-db/src/migrate.ts:284-308 | a listed file is pending exactly when no success is on record for its version, and applied otherwise |
| MigrationSteps.SplitIsFilter | apiome-db/src/migrate.ts:284-308 | applied and pending files each come in listing order, each as often as listed |
| MigrationSteps.StatusKeepsHistory | apiome-db/src/migrate.ts:272-281 | a status check changes no history and creates a missing table only when asked |
| MigrationSteps.RefusalExactly | apiome-db/src/migrate.ts:130-149 | collisions are refused first, all of them; of edited files the first in the listing is named |
| MigrationSteps.DryRunAnswers | apiome-db/src/migrate.ts:364-374 | a dry run answers what is pending and what is applied |
| MigrationSteps.RefusedApplyKeepsHistory | apiome-db/src/migrate.ts:365-374 | a refused apply changes no row, runs no script and answers the refusal of the status check |
| MigrationSteps.CommitRecords | apiome-db/src/migrate.ts:336-353 | a committed script leaves its text in the log and one success row with its version, title, name and checksum |
| MigrationSteps.RepairKeepsSuccesses | apiome-db/src/migrate.ts:425-444 | a repair keeps every successful row, in order, and drops the others |
| MigrationSteps.RepairRowExactly | apiome-db/src/migrate.ts:433-443 | a repaired row carries the checksum of the listed file of its version, if there is one, and is otherwise as it was |
| MigrationSteps.RemovedExactly | apiome-db/src/migrate.ts:426-432 | the ranks reported as removed are exactly those of the failed rows |
| MigrationSteps.RemovedInOrder | apiome-db/src/migrate.ts:426-432 | they are reported in row order |
| MigrationSteps.RealignedExactly | apiome-db/src/migrate.ts:433-443 | the files reported as realigned are exactly the listed ones with an out-of-date success row |
| MigrationSteps.RepairAnswers | apiome-db/src/migrate.ts:411-450 | a committed repair answers with both reports and touches nothing but rows |
| MigrationSteps.FailedRepairKeepsHistory | apiome-db/src/migrate.ts:411-449 | a repair that is refused or does not commit changes no row and no effect |
| MigrationState.ReachableInv | apiome-db/src/migrate.ts:324-477 | in every reachable state committed scripts are those of the versioned success rows in rank order, ranks strictly increase, and no version was committed twice since the last clean |
| MigrationRuns.CommitFirstPending | apiome-db/src/migrate.ts:377-380 | committing the first pending file takes it off the pending list, moves no other file and causes no mismatch |
| MigrationRuns.CommitPendingPrefix | apiome-db/src/migrate.ts:377-380 | after any number of commits exactly the later pending files are pending |
| MigrationRuns.InterruptedApply | apiome-db/src/migrate.ts:374-395 | an interruption leaves exactly the pending scripts before the first failing one committed, old rows untouched, and names the failing file |
| MigrationRuns.ResumeReachesSameState | apiome-db/src/migrate.ts:360-396 | applying again after an interruption ends in the state of one uninterrupted apply, history included |
| MigrationRuns.AttemptsConverge | apiome-db/src/migrate.ts:360-396 | after any number of interrupted attempts the apply that gets through ends in that same state; then nothing is pending and applying changes nothing |
| MigrationRuns.ResumeAfterFix | apiome-db/src/migrate.ts:377-391 | after an interruption the failing and later scripts may be changed; applying then ends in the state of one uninterrupted apply of the changed directory, as long as what was committed stays as it is and first |
| MigrationRuns.FixedTextsKeep | apiome-db/src/migrate.ts:383-391 | changing only texts of scripts that are not applied meets that condition |
| MigrationRuns.FixesConverge | apiome-db/src/migrate.ts:360-396 | the same over any number of failed tries, each of its own directory |
| MigrationRuns.DryRunPreviews | apiome-db/src/migrate.ts:364-372 | a dry run changes nothing and announces exactly what an unhindered apply commits |
| MigrationRuns.StatusPassesExactly | apiome-db/src/migrate.ts:272-309 | the status check passes exactly when versions do not collide and no applied file differs from its recorded checksum |
| MigrationRuns.FirstMismatchExact | apiome-db/src/migrate.ts:286-306 | the file named in a refusal is the first edited one in listing order |
| MigrationRuns.RunRecordsWhatRan | apiome-db/src/migrate.ts:338-352 | over every run without a repair the recorded checksums are those of the texts that ran |
| MigrationRuns.ReachableChecksums | apiome-db/src/migrate.ts:338-352 | in every reachable state, after repairs too, each row that records an application has a checksum |
| MigrationRuns.PassingMeansRecorded | apiome-db/src/migrate.ts:294-295 | where the status check passes, the recorded checksum of an applied file is that of its present text |
| MigrationRuns.EditOfAppliedScriptRefused | apiome-db/src/migrate.ts:268-306 | after every run, repairs included: once a directory passes, editing an applied file within four bytes of normalised text makes the check refuse for a checksum mismatch, naming that file if no other text changed |
| MigrationRuns.EditOfTextThatRanRefused | apiome-db/src/migrate.ts:268-306 | after every run without a repair, a file that differs within four bytes from the text that ran is refused, for a checksum mismatch unless versions collide |
| MigrationRuns.RepairRestoresStatus | apiome-db/src/migrate.ts:407-451 | after a repair no failed row is left, the status check passes, and the split into applied and pending, the effects and the rows, checksums aside, are as before |
| MigrationRuns.SecondRepairIdle | apiome-db/src/migrate.ts:411-451 | a second repair changes nothing and reports nothing realigned or removed |
| MigrationRuns.HintRowNeedsRepair | apiome-db/src/migrate.ts:385-390 | with the hinted row the status check refuses exactly when the file's checksum is not 0, and passes after a repair |
| MigrationRuns.HintRowRefused | apiome-db/src/migrate.ts:385-390 | a directory and a hinted row that the status check refuses |
| MigrationRenames.KeyRanMeansRespelled | apiome-db/src/migrate.ts:75-86 | the key of a pending file has been committed exactly when the file spells the version of some history row differently |
| MigrationRenames.KeysStayDistinctExactly | apiome-db/src/migrate.ts:75-86 | an apply, whichever scripts fail, keeps committed keys distinct exactly when no file it commits spells a recorded version differently |
| MigrationRenames.ListingKeepsKeysExactly | apiome-db/src/migrate.ts:75-86 | for an apply in which nothing fails the condition can be read off the listing and the history beforehand |
| MigrationRenames.RunKeepsKeysExactly | apiome-db/src/migrate.ts:286-293 | no state of a run has a key committed twice exactly when no step commits a respelled file |
| MigrationRenames.AgreeingRunKeepsKeys | apiome-db/src/migrate.ts:286-293 | a run whose listings never respell a recorded version commits no key twice |
| MigrationRenames.RepaddedFileRunsTwice | apiome-db/src/migrate.ts:287-292 | a concrete run commits one version twice under two paddings |
| MigrationOrder.StepKeepsOrderExactly | apiome-db/src/migrate.ts:286-380 | a step keeps the scripts in listing order exactly when it commits no file that comes before one on record as applied |
| MigrationOrder.RunKeepsOrderExactly | apiome-db/src/migrate.ts:286-380 | a run keeps listing order in all its states exactly when no step does so |
| MigrationOrder.LogInOrderExactly | apiome-db/src/migrate.ts:286-380 | since the last clean the scripts have run in listing order exactly when no apply committed a file before one recorded by then |
| MigrationOrder.LateLowerFileRunsLast | apiome-db/src/migrate.ts:286-380 | a run in which `V1__a.sql`, added late, runs after `V2__a.sql` |
| MigrationDatabase.Database.constructor | apiome-db/src/migrate.ts:256-258 | a new database has no history table, no rows and no effects |
| MigrationDatabase.Database.Begin | apiome-db/src/migrate.ts:340 | opening a transaction remembers the state and changes nothing |
| MigrationDatabase.Database.CommitTransaction | apiome-db/src/migrate.ts:353 | a commit keeps all changes since BEGIN |
| MigrationDatabase.Database.Rollback | apiome-db/src/migrate.ts:354-356 | a rollback returns to the remembered state |
| MigrationDatabase.Database.EnsureHistoryTable | apiome-db/src/migrate.ts:185-212 | the table exists afterwards and existing rows stay |
| MigrationDatabase.Database.FetchApplied | apiome-db/src/migrate.ts:223-254 | returns all rows in rank order and creates the table only when asked |
| MigrationDatabase.Database.RowsByVersion | apiome-db/src/migrate.ts:279-282 | the loop keeps, per version, the last successful row |
| MigrationDatabase.Database.GetMigrationStatus | apiome-db/src/migrate.ts:272-309 | answers the status of the rows and refuses collisions before touching the database |
| MigrationDatabase.Database.Partition | apiome-db/src/migrate.ts:284-308 | the loop splits the files or stops at the first mismatch |
| MigrationDatabase.Database.NextInstalledRank | apiome-db/src/migrate.ts:324-329 | the rank is above every rank in the table and one above some rank, or 1 when the table is empty |
| MigrationDatabase.Database.ApplyOneFile | apiome-db/src/migrate.ts:331-358 | effect and row appear together, or, wherever the transaction fails, the state is as before |
| MigrationDatabase.Database.ApplyFiles | apiome-db/src/migrate.ts:376-394 | the loop commits exactly the files before the first failure |
| MigrationDatabase.Database.ApplyPendingMigrations | apiome-db/src/migrate.ts:360-396 | state and answer are those of the apply step, dry runs and refusals included |
| MigrationDatabase.Database.FilesByVersion | apiome-db/src/migrate.ts:416-418 | the loop maps each listed version to its file |
| MigrationDatabase.Database.RepairOne | apiome-db/src/migrate.ts:425-444 | one row is deleted, realigned or kept, and no other row is touched |
| MigrationDatabase.Database.RepairEach | apiome-db/src/migrate.ts:425-444 | the loop deletes the failed rows, realigns the others and reports both, in row order |
| MigrationDatabase.Database.RepairHistory | apiome-db/src/migrate.ts:411-451 | state and answer are those of the repair step; a failed transaction leaves the rows alone |
| MigrationDatabase.Database.CleanDatabase | apiome-db/src/migrate.ts:466-477 | a committed clean leaves no table, no row and no effect; one that does not commit changes nothing |
| ReleaseVersions.CompareAsWritten | scripts/gen-release-notes.ts:105-120 | of two versions as written the comparison is the difference of the numbers at the first place, from the left, where they differ, and 0 exactly when there is none |
| ReleaseVersions.DottedExactly | scripts/gen-release-notes.ts:142 | a version is exactly numerals with a dot between each two |
| ReleaseVersions.CompareVersions | scripts/gen-release-notes.ts:112-120 | the loop decides as that comparison does |
| ReleaseVersions.CompareMeaning | scripts/gen-release-notes.ts:112-120 | zero exactly when all numbers agree, trailing zeros aside; otherwise the difference at the first that differs |
| ReleaseVersions.CompareFlips | scripts/gen-release-notes.ts:112-120 | swapping the versions negates the result |
| ReleaseVersions.CompareTransitive | scripts/gen-release-notes.ts:112-120 | the comparison is transitive, strictly if either part is strict |
| ReleaseNotes.RangeCounts | scripts/gen-release-notes.ts:161-178 | a range holds exactly the sections in `(after, through]`, each as often as the changelog, newest first |
| ReleaseNotes.PostKeepsTies | scripts/gen-release-notes.ts:174-177 | sections of versions that compare as equal stay in changelog order |
| ReleaseNotes.NewestIsNewest | scripts/gen-release-notes.ts:519 | the section taken as newest is in the changelog and none is above it |
| ReleaseNotes.CloseSucceedsExactly | scripts/gen-release-notes.ts:510-522 | closing succeeds exactly when the name is free and some section is above everything closed |
| ReleaseNotes.CloseRecords | scripts/gen-release-notes.ts:518-531 | a close records what was asked for and the range from the last closed version, or 0.0.0, to a newest one |
| ReleaseNotes.CloseRefusals | scripts/gen-release-notes.ts:515-522 | a close is refused for its name first, and else for the lack of a new version |
| ReleaseNotes.CloseKeepsChain | scripts/gen-release-notes.ts:514-531 | a close keeps ranges contiguous, ends increasing and names unique, and appends one release |
| ReleaseNotes.RunKeepsChain | scripts/gen-release-notes.ts:510-532 | the same over every run of attempts, whatever the changelogs; the first range starts at 0.0.0 |
| ReleaseNotes.ExactlyOnePost | scripts/gen-release-notes.ts:453-481 | a version above the start of the first range belongs to exactly one post, any other to none |
| ReleaseNotes.PostsPartitionChangelog | scripts/gen-release-notes.ts:453-481 | all posts together hold each such section as often as the changelog, and nothing else |
| ReleaseNotes.EverySectionPostedOnce | scripts/gen-release-notes.ts:451-532 | after any run from an empty manifest every section above 0.0.0 is posted as often as it is in the changelog |
| ReleaseNotes.ClosingMovesUnreleased | scripts/gen-release-notes.ts:478-532 | closing turns the unreleased post into the release's post and leaves the unreleased post empty |
| ReleaseNotes.ClosedPostsOverRuns | scripts/gen-release-notes.ts:451-532 | whatever is closed later, a closed release's post is the same on every changelog that keeps the sections up to the last version closed by then |
| ReleaseNotes.ClosedPostStable | scripts/gen-release-notes.ts:451-532 | sections added above the last closed version never change a closed release's post, over any later run |
| ReleaseNotes.FirstRangeEmptyExactly | scripts/gen-release-notes.ts:518-528 | a first release covers nothing exactly when no section is above 0.0.0 |
| ReleaseNotes.ZeroReleaseIsEmpty | scripts/gen-release-notes.ts:518-528 | a changelog and a close whose release covers nothing |
| Changelog.MatchHeadingExactly | scripts/gen-release-notes.ts:126 | a line is a heading of a version and date exactly when it has the heading's form |
| Changelog.CarveKeepsLines | scripts/gen-release-notes.ts:147-156 | every line is kept once and in order: first the lines before any section, then the sections |
| Changelog.CarveStartsAtHeadings | scripts/gen-release-notes.ts:148-152 | sections start exactly at the version headings outside fences |
| Changelog.CarveReadsHeadings | scripts/gen-release-notes.ts:150-152 | each section has the version and date of its heading |
| Changelog.ParseChangelog | scripts/gen-release-notes.ts:136-159 | the one-pass loop returns exactly those sections whose version is numeric, in order |
| ChangelogText.WrittenChangelogRead | scripts/gen-release-notes.ts:136-159 | a changelog that is written out, below any preamble, reads back as exactly its numeric sections, with versions, dates and bodies |
| Changelog.Flush | scripts/gen-release-notes.ts:141-145 | the open section is added exactly when its version is numeric |
| Changelog.MapProseLines | scripts/gen-release-notes.ts:210-222 | the pass transforms exactly the lines outside fences |
| Changelog.MapProseKeepsFences | scripts/gen-release-notes.ts:203-222 | a transformation that neither makes nor removes fences keeps each line's place and fence status, and all fenced lines |
| ChangelogText.FenceExactly | scripts/gen-release-notes.ts:215 | a line is a fence exactly when it is white space, three backquotes or tildes, and anything |
| ChangelogText.InFenceExactly | scripts/gen-release-notes.ts:211-218 | a line stands inside a fence exactly when an odd number of fences come before it |
| Changelog.MapProseCompose | scripts/gen-release-notes.ts:210-222 | two passes are one pass with the composed transformation |
| Changelog.DemoteHeadingsTwice | scripts/gen-release-notes.ts:245-249 | demoting a document by a and then by b is demoting it by a + b, the cap at six included |
| ChangelogText.DemotedHeadingLine | scripts/gen-release-notes.ts:238-249 | outside fences, a line of one to six `#`, white space and a rest gets `levels` more `#`, six at most, and is else kept |
| ChangelogText.OtherLineKept | scripts/gen-release-notes.ts:238-249 | every other line, and every line inside a fence, stays as it is |
| Changelog.DemoteHeadingsKeepsFences | scripts/gen-release-notes.ts:238-249 | demoting keeps the number of lines and each line's fence status |
| BreakingChanges.WidenExactly | apiome-ui/lib/breaking-changes-doc.ts:38-56 | a change of enumeration is a widening exactly when it keeps every old value and adds one |
| BreakingRules.NarrowExactly | apiome-ui/lib/breaking-changes-doc.ts:38-56 | a change of enumeration is a narrowing exactly when it drops a value and adds none |
| BreakingRules.SchemaClassExactly | apiome-ui/lib/breaking-changes-doc.ts:64-73 | a modified schema is breaking exactly when a key other than its description changed |
| BreakingChanges.ClassifyModifiedSchema | apiome-ui/lib/breaking-changes-doc.ts:64-73 | the method returns that class |
| BreakingRules.PropertyClassExactly | apiome-ui/lib/breaking-changes-doc.ts:17-134 | a modified property is breaking exactly when some changed key is not description, title or example, not a nullability change other than true to false, and not a widened enumeration |
| BreakingRules.OnlyTheseMayPass | apiome-ui/lib/breaking-changes-doc.ts:17-134 | a list with any key besides description, title, example, nullable and enum is breaking, and one of the first three alone is not |
| BreakingChanges.ClassifyModifiedProperty | apiome-ui/lib/breaking-changes-doc.ts:75-134 | early returns and loop give that class |
| BreakingChanges.NotBreakingKeepsContract | apiome-ui/lib/breaking-changes-doc.ts:75-134 | what is not breaking keeps every old enumeration value and never revokes nullability |
| BreakingChanges.BuildBreakingChangesBullets | apiome-ui/lib/breaking-changes-doc.ts:168-230 | the three loops and the sort give the sorted bullets of the diffs that are not redundant |
| BreakingChanges.FoundOnceSorted | apiome-ui/lib/breaking-changes-doc.ts:221-229 | sorting keeps each bullet as often as found and orders by identifier, then text |
| BreakingChanges.OneBulletPerDiff | apiome-ui/lib/breaking-changes-doc.ts:136-219 | every bullet occurs exactly as often as there are additions and removals that have it and are not announced by their own class, and modifications that have it |
| BreakingChanges.EveryDiffIsCovered | apiome-ui/lib/breaking-changes-doc.ts:136-219 | each diff that is not redundant has its bullet, with the right category |
| BreakingRules.RedundantExactly | apiome-ui/lib/breaking-changes-doc.ts:136-155 | an addition or removal is left out exactly when it is of a property of a class that is itself added, or removed, in the same list |
| BreakingRules.ModifiedCategoryExactly | apiome-ui/lib/breaking-changes-doc.ts:197-218 | a modification is printed as breaking exactly when the rule for its kind says so, and else as other |
| BreakingRules.BulletReads | apiome-ui/lib/breaking-changes-doc.ts:175-181 | a bullet is the identifier in backquotes, a dash and the line of the diff |
| BreakingChanges.RedundantRemovalIsAnnounced | apiome-ui/lib/breaking-changes-doc.ts:136-180 | a removal left out as redundant is covered by its class's bullet |
| BreakingChanges.PushSection | apiome-ui/lib/breaking-changes-doc.ts:267-273 | the loop adds one item per text, or the note that there is none |
| BreakingChanges.GenerateMarkdown | apiome-ui/lib/breaking-changes-doc.ts:242-294 | the pushed lines give the document of the bullets |
| BreakingRules.DocumentRead | apiome-ui/lib/breaking-changes-doc.ts:242-294 | read line by line, the document has under each heading exactly the texts of that category's bullets, in order |
| BreakingRules.TextsExactly | apiome-ui/lib/breaking-changes-doc.ts:247-249 | the texts of a category are those of its bullets and of no others |
| BreakingRules.TextsCount | apiome-ui/lib/breaking-changes-doc.ts:247-249 | every bullet is printed under some heading |
| BreakingRules.TextsInOrder | apiome-ui/lib/breaking-changes-doc.ts:247-249 | the texts of a category come in the order of its bullets |
| BreakingRules.TitleReads | apiome-ui/lib/breaking-changes-doc.ts:254-262 | the lines above the first section |
| BreakingRules.FinalNewlineExactly | apiome-ui/lib/breaking-changes-doc.ts:293 | line feeds at the end become one |
| BreakingChanges.DocumentIgnoresOrder | apiome-ui/lib/breaking-changes-doc.ts:165-294 | permuting additions, removals or modifications leaves the text of the document as it is |
| LegacyDocs.ArchiveInvertible | scripts/legacy_docs_inventory.py:271-284 | a file's origin can be read off its archive location exactly when it came from a docs folder |
| LegacyDocs.ArchiveCanCollide | scripts/legacy_docs_inventory.py:282-284 | two paths outside docs folders that share a location |
| LegacyRules.ArchiveLocationExactly | scripts/legacy_docs_inventory.py:271-284 | a file under `docs/` goes to the archive's `repository` folder, one under a package's `docs/` to the package's |
| LegacyRules.NameOfExactly | scripts/legacy_docs_inventory.py:241 | the name of a path is its last component |
| LegacyRules.ContainsExactly | scripts/legacy_docs_inventory.py:254-260 | a path contains a part exactly when it is something, the part and something more |
| LegacyRules.FirstRuleDecides | scripts/legacy_docs_inventory.py:231-268 | of the rules in order, written out, the first that applies decides whether and why a file stays |
| LegacyRules.ExcludedExactly | scripts/legacy_docs_inventory.py:46 | the trees that are not inventoried |
| LegacyRules.ReferencedStays | scripts/legacy_docs_inventory.py:244-249 | a file that code points at stays, but for one README |
| LegacyRules.ArchivableGoes | scripts/legacy_docs_inventory.py:258-259 | a file of an archivable folder that no earlier rule keeps is archived |
| LegacyRules.RowExactly | scripts/legacy_docs_inventory.py:298-309 | place, disposition, page and note of a row follow from the path and the rule |
| LegacyRules.PrintedColumns | scripts/legacy_docs_inventory.py:340-343 | how place, page and disposition are printed |
| LegacyRules.PrintedOrder | scripts/legacy_docs_inventory.py:340-343 | the order of the columns |
| LegacyRules.BreaksExactly | scripts/legacy_docs_inventory.py:357 | the characters at which the inventory's text is split into lines |
| LegacyRules.PrintedCounts | scripts/legacy_docs_inventory.py:322-330 | how the counts are printed |
| LegacyDocs.Classify | scripts/legacy_docs_inventory.py:287-310 | the loop gives each path its row, in path order |
| LegacyDocs.MovedComesFromDocs | scripts/legacy_docs_inventory.py:231-310 | whatever the rules move comes from a docs folder and goes to its archive location |
| LegacyDocs.MovedInjective | scripts/legacy_docs_inventory.py:271-310 | no two moved files go to one place |
| LegacyDocs.ParseRenderedRow | scripts/legacy_docs_inventory.py:340-361 | parsing a printed row gives the row |
| LegacyDocs.ParsedPathFree | scripts/legacy_docs_inventory.py:358-361 | a parsed path is not empty and has no backquote |
| LegacyInventory.SplitJoinedLines | scripts/legacy_docs_inventory.py:344-357 | lines without breaks come back from the joined text |
| LegacyInventory.ParseInventory | scripts/legacy_docs_inventory.py:347-362 | the loop returns the rows among the lines, in order |
| LegacyInventory.InventoryRoundTrip | scripts/legacy_docs_inventory.py:313-362 | classified rows of paths the inventory can hold come back from the printed inventory |
| LegacyInventory.InventoryRoundTripExactly | scripts/legacy_docs_inventory.py:313-362 | they come back exactly when every path is not empty and free of backquotes and line breaks |
| LegacyInventory.BackquotedPathIsLost | scripts/legacy_docs_inventory.py:340-361 | a path that does not come back |
| LegacyTree.FileTree.ApplyInventory | scripts/legacy_docs_inventory.py:416-434 | the tree after moving and writing, or up to a refused move |
| LegacyChecks.CheckExactly | scripts/legacy_docs_inventory.py:390-413 | on a tree with a printed inventory the check passes exactly when every file is at its place and no original is back, and otherwise names exactly those files |
| LegacyChecks.NoInventoryReported | scripts/legacy_docs_inventory.py:400-405 | a missing inventory, or one without rows, is reported alone |
| LegacyChecks.RemovalIsReported | scripts/legacy_docs_inventory.py:407-409 | after an apply, removing any inventoried file makes the check report it |
| LegacyChecks.ReturnIsReported | scripts/legacy_docs_inventory.py:410-412 | after an apply, a file put back at an archived one's path is reported exactly unless its name is README.md, CHANGELOG.md or AGENTS.md |
| LegacyTree.FileTree.Check | scripts/legacy_docs_inventory.py:390-413 | the loop returns the problems of the tree, in row order |
| LegacyTree.MoveAllExactly | scripts/legacy_docs_inventory.py:427-430 | all moves happen exactly when no destination is taken, and then each file is at its row's place with its text and nothing else changes |
| LegacyTree.ApplySucceedsExactly | scripts/legacy_docs_inventory.py:416-434 | on tracked Markdown files an apply goes through exactly when no archived file's destination is taken |
| LegacyTree.ReportsAreNoPlaces | scripts/legacy_docs_inventory.py:431-433 | writing the two reports overwrites no row's file |
| LegacyChecks.MarkdownExactly | scripts/legacy_docs_inventory.py:173 | the files listed are those whose paths end in `.md` |
| LegacyChecks.ReportsWritten | scripts/legacy_docs_inventory.py:431-433 | an apply that goes through writes both reports |
| LegacyTree.CheckPassesAfterApply | scripts/legacy_docs_inventory.py:390-434 | after an apply that goes through the check reports nothing |
| LegacyTree.ApplyKeepsTexts | scripts/legacy_docs_inventory.py:416-434 | after an apply every tracked file is, unchanged, where its row says |
| SelectionAddress.UnescapeEscape | apiome-ui/lib/comment-discussion.ts:546 | decoding a token by section 4 of RFC 6901 undoes encoding it |
| SelectionAddress.PointerSample | apiome-ui/lib/comment-discussion.ts:544-547 | how two tokens with a slash and a tilde are written |
| SelectionAddress.ReadBuiltPointer | apiome-ui/lib/comment-discussion.ts:544-547 | the exact tokens of a pointer are read back, empty lists and empty tokens included |
| SelectionAddress.DecodeEncodedComponent | apiome-ui/lib/comment-discussion.ts:555-559 | percent-decoding, by section 2.1 of RFC 3986, undoes percent-encoding |
| SelectionAddress.EncodedAloneExactly | apiome-ui/lib/comment-discussion.ts:557 | a part is left alone exactly when it is letters, digits and the nine marks that need no encoding |
| SelectionAddress.EncodedSamples | apiome-ui/lib/comment-discussion.ts:557 | how the slash and the bar are encoded |
| SelectionAddress.SerializedParts | apiome-ui/lib/comment-discussion.ts:555-559 | version, pointer and entity stand in this order, with bars between them |
| SelectionAddress.EncodedFree | apiome-ui/lib/comment-discussion.ts:555-559 | an encoded part never holds the separator |
| SelectionAddress.ReadSerialized | apiome-ui/lib/comment-discussion.ts:544-559 | version id, tokens and entity id are recovered from every serialised address |
| SelectionAddress.AddressExactly | apiome-ui/lib/comment-discussion.ts:571-604 | a thread has an address exactly when its kind has a place on the canvas and the names it needs are there |
| SelectionAddress.AddressDeterminesElement | apiome-ui/lib/comment-discussion.ts:571-604 | a thread's address tells its version, its id and its element with kind and names |
| SelectionAddress.SameAddressSameElement | apiome-ui/lib/comment-discussion.ts:571-604 | two threads have one link exactly when version, id and element are the same |
| OutputFile.StepFile.SetOutput | mock-action/main.js:53-78 | after any sequence of calls the file reads back as exactly the outputs set so far, in order, exactly when no value holds its delimiter as a line; earlier text stays |
| OutputFile.PrintedEntry | mock-action/lib.js:237-239 | an entry as it is written |
| OutputFile.ReadWrittenEntry | mock-action/lib.js:226-239 | an entry followed by anything is read back exactly when no line of its value equals the delimiter |
| OutputFile.ReadAllWrittenExactly | mock-action/lib.js:226-239 | a file of entries reads back as exactly their outputs exactly when no line of any value equals its delimiter |
| OutputFile.ReadAllWritten | mock-action/lib.js:226-239 | the whole file reads back as exactly the outputs set, in order, whatever the values look like |
| OutputFile.DelimiterInValueTruncates | mock-action/lib.js:226-239 | a value with its delimiter as a line is not read back |
| OutputFile.ValueIsDelimiter | mock-action/lib.js:226-239 | an output that is not read back |
| ConnectorScope.ScopeFromForm | apiome-ui/lib/connector-kinds.ts:313-333 | the loop gives the scope of the fields' contributions |
| ConnectorScope.FormFromScope | apiome-ui/lib/connector-kinds.ts:342-351 | the loop gives the form values of the stored scope |
| ConnectorScope.EntryExactly | apiome-ui/lib/connector-kinds.ts:315-331 | a ticked checkbox, the items of a list text and any other trimmed text are sent; blank text and an unticked checkbox are not |
| ConnectorScope.ItemsOfText | apiome-ui/lib/connector-kinds.ts:326-330 | the items of a list text are the trimmed texts between commas, in order, where there is any |
| ConnectorScope.FillExactly | apiome-ui/lib/connector-kinds.ts:344-349 | what each stored value fills into the form |
| ConnectorScope.BuildScopeAt | apiome-ui/lib/connector-kinds.ts:304-333 | a key is in the scope exactly when its field contributes, with that field's value, and no other key is |
| ConnectorScope.ScopeToValuesAt | apiome-ui/lib/connector-kinds.ts:335-351 | the same for the form values filled from a scope |
| ConnectorScope.ListOfJoined | apiome-ui/lib/connector-kinds.ts:326-348 | splitting a joined list gives the list |
| ConnectorScope.NoItemExactly | apiome-ui/lib/connector-kinds.ts:324-331 | a list text yields no item exactly when it holds nothing but commas and white space |
| ConnectorScope.OnlyCommasExactly | apiome-ui/lib/connector-kinds.ts:321-331 | a list field gets an empty list exactly when its value holds a comma and otherwise commas and white space |
| ConnectorScope.ScopeRoundTripExactly | apiome-ui/lib/connector-kinds.ts:313-351 | form to scope to form to scope gives the first scope exactly when no list field's value is commas and white space with a comma |
| ConnectorScope.SingleCommaIsLost | apiome-ui/lib/connector-kinds.ts:313-351 | a form whose scope does not come back |
| ConnectorScope.MissingFields | apiome-ui/lib/connector-kinds.ts:376-393 | the loop reports the base URL and the required empty fields, in order |
| ConnectorScope.MissingExactly | apiome-ui/lib/connector-kinds.ts:386-392 | the titles reported are those of required fields without a text, in order |
| ConnectorScope.MissingBaseUrl | apiome-ui/lib/connector-kinds.ts:382-385 | a required blank base URL is reported first, under its own name |
| ConnectorScope.BlankExactly | apiome-ui/lib/connector-kinds.ts:389-390 | a field is blank exactly when it has no text or one of white space alone |
| ConnectorScope.NothingMissingExactly | apiome-ui/lib/connector-kinds.ts:366-393 | nothing is reported exactly when the base URL is there if required, no checkbox is required and every required field is in the scope |
| ConnectorScope.TickedCheckboxIsReported | apiome-ui/lib/connector-kinds.ts:386-391 | a ticked required checkbox that is reported missing |
| ConnectorScope.CadenceRoundTripExactly | apiome-ui/lib/connector-kinds.ts:395-414 | a cadence comes back from its form value exactly unless it is zero seconds |
| ConnectorScope.CadenceShown | apiome-ui/lib/connector-kinds.ts:399-411 | a cadence is shown as its number of seconds, and none as `default` |
| CopyVoice.StrippedAtDash | apiome-ui/lib/copy-voice.ts:95-118 | stripping failure clauses works separately on the two sides of the dash |
| CopyVoiceRules.ClauseIsStripped | apiome-ui/lib/copy-voice.ts:99-118 | a failure clause, its opening, white space and whole word, is replaced by one space |
| CopyVoiceRules.FailurePhrases | apiome-ui/lib/copy-voice.ts:99-100 | the openings of a failure clause |
| CopyVoiceRules.FailureAloneNamesNone | apiome-ui/lib/copy-voice.ts:95-118 | a message of one failure clause and punctuation names no action, whatever its word is |
| CopyVoiceRules.FailedToUpdateNamesNone | apiome-ui/lib/copy-voice.ts:95-98 | `Failed to update.` does not count as advice |
| CopyVoiceRules.SaysPhraseExactly | apiome-ui/lib/copy-voice.ts:106-117 | a phrase is found exactly where it stands alone, in any case of letters |
| CopyVoiceRules.NamesActionExactly | apiome-ui/lib/copy-voice.ts:106-118 | a message names an action exactly when it says one of the listed phrases outside its failure clauses |
| CopyVoice.NamesAtDash | apiome-ui/lib/copy-voice.ts:99-118 | a text joined by the dash names an action exactly when one of its sides does |
| CopyVoice.BareNamesAlike | apiome-ui/lib/copy-voice.ts:137-139 | dropping trailing punctuation neither adds nor hides an action |
| CopyVoice.RewritingNamesActionExactly | apiome-ui/lib/copy-voice.ts:120-140 | the result names an action exactly when the message was blank, or it or the appended action names one |
| CopyVoiceRules.RewrittenExactly | apiome-ui/lib/copy-voice.ts:131-140 | what the result is: the stock sentence, the trimmed message, or the message without its end punctuation, a dash and the action |
| CopyVoice.DefaultRewritingNamesAction | apiome-ui/lib/copy-voice.ts:120-140 | with the default action every message comes out naming an action |
| CopyVoice.CustomActionMayNameNone | apiome-ui/lib/copy-voice.ts:129-140 | a message and action for which it does not |
| CopyVoice.BareEmptyExactly | apiome-ui/lib/copy-voice.ts:139 | dropping trailing punctuation leaves nothing exactly of a text whose every character is dropped punctuation or white space |
| CopyVoice.RewritingIdempotentExactly | apiome-ui/lib/copy-voice.ts:131-140 | for any action a second rewriting changes nothing exactly when the message is blank, names an action, or holds a character other than dropped punctuation while the action names one |
| CopyVoice.DotsRewrittenTwice | apiome-ui/lib/copy-voice.ts:131-140 | a message that is rewritten differently the second time |
| CopyVoice.VoiceFailureGuarantee | apiome-ui/lib/copy-voice.ts:162-178 | for any action: rules come out as written; blank messages and operational failures come out naming an action exactly when blank, or the message or the action names one |
| CopyVoiceRules.OperationalExactly | apiome-ui/lib/copy-voice.ts:148-160 | a message reports a failed operation exactly when it says one of the listed phrases or holds a status code |
| CopyVoice.DefaultVoiceNamesAction | apiome-ui/lib/copy-voice.ts:162-178 | with the default action blank messages and operational failures always come out naming an action |
| BrowseFacets.NormalizeTwice | apiome-browse/lib/browseFacets.ts:197-200 | normalising a value twice is normalising it once |
| BrowseFacets.NormalizeExactly | apiome-browse/lib/browseFacets.ts:197-200 | white space around a value and letter case do not matter, a lower-case value is its own normal form, and a blank one is none |
| BrowseFacets.CollectEntityValues | apiome-browse/lib/browseFacets.ts:253-262 | the loop returns the normalised values of the axis, in order of first occurrence |
| BrowseFacets.TokensExactly | apiome-browse/lib/browseFacets.ts:247-262 | those are exactly the normal forms of the raw values, each once, blank ones left out |
| BrowseFacets.CarriesExactly | apiome-browse/lib/browseFacets.ts:253-262 | an entity carries a paradigm exactly when its protocols list it, and a format when its formats do |
| BrowseFacets.CountEntity | apiome-browse/lib/browseFacets.ts:283-285 | the inner loop counts one entity once under each of its values |
| BrowseFacets.CountValues | apiome-browse/lib/browseFacets.ts:281-287 | the nested loops count, per value, the entities that carry it |
| BrowseFacets.ComputeFacetOptions | apiome-browse/lib/browseFacets.ts:277-301 | the method returns the counted values in the order of the axis |
| BrowseFacets.OptionsAgreeWithFilter | apiome-browse/lib/browseFacets.ts:264-325 | the options are exactly the normal values with a non-empty filter result, each once, each with the length of that result, in the order of the axis |
| BrowseFacets.OptionsInOrder | apiome-browse/lib/browseFacets.ts:295-300 | formats come by falling count, paradigms by their place in the canonical list, unknown ones last |
| BrowseFacets.FilterExactly | apiome-browse/lib/browseFacets.ts:313-325 | the narrowed list holds exactly the entities that list the chosen values, each as often as before |
| BrowseFacets.FilterKeepsOrder | apiome-browse/lib/browseFacets.ts:313-325 | narrowing keeps the order |
| BrowseFacets.FacetsCompose | apiome-browse/lib/browseFacets.ts:313-325 | filtering on both axes is filtering on one and then on the other, in either order |
| BrowseFacets.ToggleTwiceExactly | apiome-browse/lib/browseFacets.ts:327-349 | two clicks restore the axis exactly when it was clear or held that value; the other axis is untouched |
| BrowseFacets.ChipCountBounds | apiome-browse/lib/browseFacets.ts:264-349 | clicking a chip shows at most as many entries as the chip says, and exactly as many when nothing else is chosen |

## Left out

- PostgreSQL, the file system and git: directories and trees are maps, and the transactions that fail are parameters, which also covers overlong names and rank overflow.
- Scripts with transaction control of their own, or with effects outside the application schema, which `clean` would not undo.
- MigrationState.ReachableInv: rows written from outside are failed ones or carry no version, as a baseline row does, at ranks not yet taken; a success row inserted by hand is the subject of `HintRowNeedsRepair` alone.
- Concurrent migration clients: the code takes no lock, so one client at a time is assumed.
- Errors of reading a directory or a file, the history columns for user, time and duration, the names of table and schema, and the gate that disables `clean`.
- Error texts: a refusal carries the colliding groups, the suggested version or the file, not the sentence built from them.
- Numbers above 2^53: versions and release numbers are natural numbers.
- Order of texts: JavaScript compares UTF-16 code units, the model Unicode scalar values; they differ only above U+FFFF. Lone surrogates do not occur in the model.
- Letter case beyond ASCII, in lower-casing and in case-insensitive patterns.
- ReleaseVersions.CompareVersions: only for dotted numerals, which is what the changelog parser lets through; a hand-edited manifest with other texts would compare by not-a-number.
- The text of a post, What's new documents, link rewriting and the command line of the release-notes script.
- Changelog.DemoteHeadingsTwice: for numbers of levels that are not negative, as the script uses.
- `compareSchemas` and `formatPropertyDiffLine` are not part of this model; the line of a diff is an arbitrary function of the diff. Enumeration values are texts, and other kinds of diff items do not occur.
- How code references to a document are found, the word lists for area pages and notes, and the wording around the inventory's table: they are parameters that hold no line breaks and, for page names, no brackets.
- LegacyTree.FileTree.Check: a path exists only as a file, not as a directory.
- LegacyInventory.InventoryRoundTrip: only for wording without line breaks and page names without brackets, as the script's own lists are.
- LegacyTree.FileTree.ApplyInventory: the text of the allow-list is a parameter.
- OutputFile.ReadWrittenEntry: for names without `<`, `=` and line feeds, as the action's own names are. The reader of the runner is not part of this repository; the model reads line by line up to the delimiter, and takes LF alone as a line end.
- That a random delimiter is unlikely to occur in a value: the model states what follows when it does not occur, and when it does.
- SelectionAddress.AddressDeterminesElement: names that are absent and names that are empty are not told apart; the code treats them alike.
- BreakingRules.DocumentRead: for bullets and labels without line feeds; a text with one would run on into lines of its own.
- ChangelogText.WrittenChangelogRead: for bodies that are trimmed, close their fences and hold no version heading outside them, which is what a body is once it has been read.
- CopyVoiceRules.ClauseIsStripped: for a clause at the start of a text; elsewhere the code looks for one at each word boundary in turn, as the model does.
- Comment counts, query parameters and the rest of the discussion module, which would only add easy members.
- ConnectorScope.ScopeRoundTripExactly: for fields with distinct keys, as every connector kind has. Stored values other than texts, lists of texts and booleans, such as numbers, are left out.
- ConnectorScope.NothingMissingExactly: for checkbox fields that hold booleans, as the form fills them.
- ConnectorScope.CadenceRoundTripExactly: whole seconds; texts that `Number` accepts besides runs of digits do not arise from a stored cadence.
- The catalogue of connectors, credentials, labels and probing.
- Word counts, empty-list wording and banned titles of the copy rules.
- BrowseFacets.OptionsAgreeWithFilter: `localeCompare` is any total preorder, and the canonical paradigms are a parameter. A value named like a member of every JavaScript object, such as `constructor`, would be ranked by that member; the model ranks it as unknown. Labels are left out.
