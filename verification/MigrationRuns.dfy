/** What interruption, resumption, edits and repair do to a run of migrations. */
module MigrationRuns {
  import opened Wrappers
  import opened MigrationFiles
  import opened Checksums
  import opened MigrationState

  // ------------------------------------------------------------------ resumption

  lemma {:induction false} CommitAllConcat(db: Db, dir: Dir, a: seq<string>, b: seq<string>)
    ensures CommitAll(db, dir, a + b) == CommitAll(CommitAll(db, dir, a), dir, b)
    decreases a
  {
    if a == [] {
      assert a + b == b;
    } else {
      assert (a + b)[1..] == a[1..] + b;
      CommitAllConcat(Commit(db, dir, a[0]), dir, a[1..], b);
    }
  }

  /** A commit that concerns none of `files` does not change which of them are pending or mismatched. */
  lemma {:induction false} CommitElsewhere(db: Db, dir: Dir, file: string, files: seq<string>)
    requires forall f :: f in files ==> RawVersion(f) != RawVersion(file)
    ensures var rows := Commit(db, dir, file).rows;
      && Pending(rows, files) == Pending(db.rows, files)
      && Applied(rows, files) == Applied(db.rows, files)
      && FirstMismatch(rows, dir, files) == FirstMismatch(db.rows, dir, files)
  {
    if files != [] {
      LatestAfterCommit(db, dir, file, RawVersion(files[0]));
      CommitElsewhere(db, dir, file, files[1..]);
    }
  }

  /** A commit of another version changes nothing for a file. */
  lemma OtherUnchanged(db: Db, dir: Dir, file: string, other: string)
    requires RawVersion(other) != RawVersion(file)
    ensures IsApplied(Commit(db, dir, file).rows, other) == IsApplied(db.rows, other)
    ensures Mismatched(Commit(db, dir, file).rows, dir, other) == Mismatched(db.rows, dir, other)
  {
    hide Commit, RawVersion, CurrentChecksum, RowFor, Latest;
    LatestAfterCommit(db, dir, file, RawVersion(other));
  }

  /** A committed file is applied, with the checksum of its text. */
  lemma CommittedMatches(db: Db, dir: Dir, file: string)
    ensures IsApplied(Commit(db, dir, file).rows, file) && !Mismatched(Commit(db, dir, file).rows, dir, file)
  {
    hide Commit, RawVersion, CurrentChecksum, Latest;
    LatestAfterCommit(db, dir, file, RawVersion(file));
  }

  /** Committing the first pending file takes it off the pending list and causes no mismatch. */
  lemma {:induction false} CommitFirstPending(db: Db, dir: Dir, files: seq<string>)
    requires RawDistinct(files) && Pending(db.rows, files) != []
    requires FirstMismatch(db.rows, dir, files) == None
    ensures var rows := Commit(db, dir, Pending(db.rows, files)[0]).rows;
      && Pending(rows, files) == Pending(db.rows, files)[1..]
      && FirstMismatch(rows, dir, files) == None
  {
    hide Commit, RawVersion, IsApplied, Mismatched;
    var file, rest := Pending(db.rows, files)[0], files[1..];
    forall f | f in rest ensures RawVersion(f) != RawVersion(files[0]) {
      var j :| 0 <= j < |rest| && rest[j] == f;
      assert files[j + 1] == f;
    }
    assert RawDistinct(rest) by {
      assert forall i :: 0 <= i < |rest| ==> rest[i] == files[i + 1];
    }
    hide RawDistinct;
    if IsApplied(db.rows, files[0]) {
      PendingMembers(db.rows, rest);
      assert Pending(db.rows, files) == Pending(db.rows, rest) && file in Pending(db.rows, rest);
      OtherUnchanged(db, dir, file, files[0]);
      CommitFirstPending(db, dir, rest);
    } else {
      CommittedMatches(db, dir, file);
      CommitElsewhere(db, dir, file, rest);
      assert Pending(db.rows, files)[1..] == Pending(db.rows, rest);
    }
  }

  /** After the first `k` pending files are committed, exactly the others are pending, and no file mismatches. */
  lemma {:induction false} CommitPendingPrefix(db: Db, dir: Dir, files: seq<string>, k: nat)
    requires RawDistinct(files) && k <= |Pending(db.rows, files)|
    requires FirstMismatch(db.rows, dir, files) == None
    ensures var rows := CommitAll(db, dir, Pending(db.rows, files)[..k]).rows;
      && Pending(rows, files) == Pending(db.rows, files)[k..]
      && FirstMismatch(rows, dir, files) == None
    decreases k
  {
    hide Pending, FirstMismatch, Commit, RawDistinct;
    var pending := Pending(db.rows, files);
    if k == 0 {
      assert pending[..0] == [] && pending[0..] == pending;
    } else {
      CommitFirstPending(db, dir, files);
      CommitPendingPrefix(Commit(db, dir, pending[0]), dir, files, k - 1);
      assert pending[..k][1..] == pending[1..][..k - 1];
      assert pending[1..][k - 1..] == pending[k..];
    }
  }

  lemma {:induction false} ProgressStops(pending: seq<string>, failing: set<string>)
    ensures var k := Progress(pending, failing);
      && (forall i :: 0 <= i < k ==> pending[i] !in failing)
      && (k < |pending| ==> pending[k] in failing)
  {
    if pending != [] && pending[0] !in failing {
      ProgressStops(pending[1..], failing);
      assert forall i :: 0 < i < 1 + Progress(pending[1..], failing) ==> pending[i] == pending[1..][i - 1];
    }
  }

  /** The scripts and texts of the files, as a commit log. */
  function Effects(dir: Dir, files: seq<string>): seq<Effect> {
    seq(|files|, i requires 0 <= i < |files| => Effect(files[i], TextOf(dir, files[i])))
  }

  lemma {:induction false} CommitAllEffects(db: Db, dir: Dir, files: seq<string>)
    ensures CommitAll(db, dir, files).effects == db.effects + Effects(dir, files)
    ensures CommitAll(db, dir, files).hasTable == db.hasTable
    ensures db.rows <= CommitAll(db, dir, files).rows
    ensures |CommitAll(db, dir, files).rows| == |db.rows| + |files|
    decreases files
  {
    hide TextOf, RowFor;
    if files != [] {
      var db', first := Commit(db, dir, files[0]), Effect(files[0], TextOf(dir, files[0]));
      assert db'.effects == db.effects + [first] && db.rows <= db'.rows && |db'.rows| == |db.rows| + 1;
      assert db'.hasTable == db.hasTable;
      hide Commit;
      CommitAllEffects(db', dir, files[1..]);
      assert Effects(dir, files) == [first] + Effects(dir, files[1..]);
      hide Effects;
      assert db.effects + [first] + Effects(dir, files[1..]) == db.effects + ([first] + Effects(dir, files[1..]));
    }
  }

  /**
   * An apply that is interrupted leaves exactly the pending files before the interruption committed,
   * in order, and reports the file that failed; the rows already there stay.
   */
  lemma InterruptedApply(db: Db, dir: Dir, failing: set<string>)
    requires StatusOf(db.rows, dir).Ok?
    ensures var pending := StatusOf(db.rows, dir).value.pending;
            var (db', outcome) := Apply(db, dir, false, failing);
            exists k :: 0 <= k <= |pending|
              && (forall i :: 0 <= i < k ==> pending[i] !in failing)
              && db'.effects == db.effects + Effects(dir, pending[..k])
              && db.rows <= db'.rows && |db'.rows| == |db.rows| + k
              && (if k < |pending| then pending[k] in failing && outcome == Failed(pending[k])
                  else outcome == Done(pending, StatusOf(db.rows, dir).value.applied, false))
  {
    var pending := Pending(db.rows, Files(dir));
    var k := Progress(pending, failing);
    var (db', outcome) := Apply(db, dir, false, failing);
    assert outcome == if k < |pending| then Failed(pending[k]) else Done(pending, Applied(db.rows, Files(dir)), false);
    hide Effects, CommitAll, Apply, Pending, Applied, Progress, FirstMismatch, Files, DistinctKeys;
    ApplyCommits(db, dir, failing);
    ProgressStops(pending, failing);
    CommitAllEffects(WithTable(db), dir, pending[..k]);
  }

  lemma {:induction false} ProgressUnhindered(pending: seq<string>)
    ensures Progress(pending, {}) == |pending|
  {
    if pending != [] {
      ProgressUnhindered(pending[1..]);
    }
  }

  lemma ApplyCommits(db: Db, dir: Dir, failing: set<string>)
    ensures StatusOf(db.rows, dir).Ok? <==>
      DistinctKeys(Files(dir)) && FirstMismatch(db.rows, dir, Files(dir)) == None
    ensures StatusOf(db.rows, dir).Ok? ==>
      var pending := Pending(db.rows, Files(dir));
      && StatusOf(db.rows, dir).value.pending == pending
      && Apply(db, dir, false, failing).0 == CommitAll(WithTable(db), dir, pending[..Progress(pending, failing)])
  {}

  /** Applying from where any number of pending files are committed ends where applying from the start does. */
  lemma ResumeFrom(db: Db, dir: Dir, k: nat)
    requires StatusOf(db.rows, dir).Ok? && k <= |Pending(db.rows, Files(dir))|
    ensures var db' := CommitAll(WithTable(db), dir, Pending(db.rows, Files(dir))[..k]);
      && StatusOf(db'.rows, dir).Ok?
      && Apply(db', dir, false, {}).0 == Apply(db, dir, false, {}).0
  {
    hide Apply, StatusOf, DistinctKeys, FirstMismatch, Files, Pending, Progress, CommitAll;
    var files := Files(dir);
    var pending := Pending(db.rows, files);
    var start := WithTable(db);
    var db' := CommitAll(start, dir, pending[..k]);
    ApplyCommits(db, dir, {});
    ApplyCommits(db', dir, {});
    ListedRawDistinct(dir);
    CommitPendingPrefix(start, dir, files, k);
    ProgressUnhindered(pending);
    ProgressUnhindered(pending[k..]);
    CommitAllEffects(start, dir, pending[..k]);
    CommitAllConcat(start, dir, pending[..k], pending[k..]);
    assert pending[..k] + pending[k..] == pending;
    assert pending[..|pending|] == pending && pending[k..][..|pending[k..]|] == pending[k..];
  }

  /** Applying again after an interruption ends in the very state one uninterrupted apply ends in. */
  lemma ResumeReachesSameState(db: Db, dir: Dir, failing: set<string>)
    requires StatusOf(db.rows, dir).Ok?
    ensures var db' := Apply(db, dir, false, failing).0;
      && StatusOf(db'.rows, dir).Ok?
      && Apply(db', dir, false, {}).0 == Apply(db, dir, false, {}).0
  {
    hide Apply, StatusOf, Pending;
    ApplyCommits(db, dir, failing);
    ResumeFrom(db, dir, Progress(Pending(db.rows, Files(dir)), failing));
  }

  /** The files that an apply with these failures commits. */
  function CommittedBy(db: Db, dir: Dir, failing: set<string>): seq<string> {
    var pending := Pending(db.rows, Files(dir));
    pending[..Progress(pending, failing)]
  }

  /** What was committed stands first among what is pending in `dir'`, with the same texts. */
  predicate Keeps(db: Db, dir: Dir, failing: set<string>, dir': Dir) {
    && CommittedBy(db, dir, failing) <= Pending(db.rows, Files(dir'))
    && forall f :: f in CommittedBy(db, dir, failing) ==> TextOf(dir', f) == TextOf(dir, f)
  }

  lemma {:induction false} CommitAllSameTexts(db: Db, dir: Dir, dir': Dir, files: seq<string>)
    requires forall f :: f in files ==> TextOf(dir', f) == TextOf(dir, f)
    ensures CommitAll(db, dir', files) == CommitAll(db, dir, files)
    decreases files
  {
    hide TextOf;
    if files != [] {
      CommitAllSameTexts(Commit(db, dir, files[0]), dir, dir', files[1..]);
    }
  }

  /**
   * The failing script, and whatever comes after it, may be fixed, renamed, added or removed before applying
   * again: as long as the scripts already committed are left as they are, first in the listing, the state
   * reached is that of one uninterrupted apply of the fixed directory.
   */
  lemma ResumeAfterFix(db: Db, dir: Dir, failing: set<string>, dir': Dir)
    requires StatusOf(db.rows, dir).Ok? && StatusOf(db.rows, dir').Ok? && Keeps(db, dir, failing, dir')
    ensures var db' := Apply(db, dir, false, failing).0;
      && StatusOf(db'.rows, dir').Ok?
      && Apply(db', dir', false, {}).0 == Apply(db, dir', false, {}).0
  {
    hide Apply, StatusOf, Pending, Progress, TextOf, CommitAll;
    var committed, pending' := CommittedBy(db, dir, failing), Pending(db.rows, Files(dir'));
    ApplyCommits(db, dir, failing);
    assert committed == pending'[..|committed|];
    CommitAllSameTexts(WithTable(db), dir, dir', committed);
    ResumeFrom(db, dir', |committed|);
  }

  /** Changing only the texts of scripts that did not commit is such a fix. */
  lemma FixedTextsKeep(db: Db, dir: Dir, failing: set<string>, dir': Dir)
    requires StatusOf(db.rows, dir).Ok? && dir'.names == dir.names
    requires forall f :: f in Files(dir) && (IsApplied(db.rows, f) || f in CommittedBy(db, dir, failing)) ==>
      TextOf(dir', f) == TextOf(dir, f)
    ensures StatusOf(db.rows, dir').Ok? && Keeps(db, dir, failing, dir')
  {
    hide StatusOf, TextOf, DistinctKeys, Files, Progress;
    StatusPassesExactly(db.rows, dir);
    StatusPassesExactly(db.rows, dir');
    assert Files(dir') == Files(dir) by {
      SameNamesSameFiles(dir, dir');
    }
    PendingMembers(db.rows, Files(dir));
    forall f | f in Files(dir) ensures !Mismatched(db.rows, dir', f) {
      assert !Mismatched(db.rows, dir, f);
    }
  }

  lemma SameNamesSameFiles(dir: Dir, dir': Dir)
    requires dir'.names == dir.names
    ensures Files(dir') == Files(dir)
  {}

  /** The state after a series of attempts, each stopped by its own failures. */
  function Attempts(db: Db, dir: Dir, failures: seq<set<string>>): Db
    decreases failures
  {
    if failures == [] then db else Attempts(Apply(db, dir, false, failures[0]).0, dir, failures[1..])
  }

  /**
   * However often an apply is interrupted, the apply that finally gets through reaches the effects,
   * history rows and ranks of one uninterrupted apply; then nothing is pending and applying changes nothing.
   */
  lemma {:induction false} AttemptsConverge(db: Db, dir: Dir, failures: seq<set<string>>)
    requires StatusOf(db.rows, dir).Ok?
    ensures var db' := Apply(Attempts(db, dir, failures), dir, false, {}).0;
      && db' == Apply(db, dir, false, {}).0
      && StatusOf(db'.rows, dir).Ok? && StatusOf(db'.rows, dir).value.pending == []
      && forall failing :: Apply(db', dir, false, failing).0 == db'
    decreases failures
  {
    if failures == [] {
      var files := Files(dir);
      var pending := Pending(db.rows, files);
      ListedRawDistinct(dir);
      ProgressUnhindered(pending);
      assert pending[..|pending|] == pending;
      CommitPendingPrefix(WithTable(db), dir, files, |pending|);
      CommitAllEffects(WithTable(db), dir, pending);
      var db' := CommitAll(WithTable(db), dir, pending);
      forall failing ensures Apply(db', dir, false, failing).0 == db' {
        assert Pending(db'.rows, files) == [];
      }
    } else {
      ResumeReachesSameState(db, dir, failures[0]);
      AttemptsConverge(Apply(db, dir, false, failures[0]).0, dir, failures[1..]);
    }
  }

  /** A try at applying a directory, as it then is, with its own failures. */
  datatype Try = Try(dir: Dir, failing: set<string>)

  function Tries(db: Db, tries: seq<Try>): Db
    decreases tries
  {
    if tries == [] then db else Tries(Apply(db, tries[0].dir, false, tries[0].failing).0, tries[1..])
  }

  /** Every try is of a directory that passes, and commits nothing that `last` does not keep. */
  predicate Consistent(db: Db, tries: seq<Try>, last: Dir)
    decreases tries
  {
    tries == [] ||
      (&& StatusOf(db.rows, tries[0].dir).Ok? && Keeps(db, tries[0].dir, tries[0].failing, last)
       && Consistent(Apply(db, tries[0].dir, false, tries[0].failing).0, tries[1..], last))
  }

  /** However often scripts fail and are fixed, the last apply ends where one apply of the last directory ends. */
  lemma {:induction false} FixesConverge(db: Db, tries: seq<Try>, last: Dir)
    requires StatusOf(db.rows, last).Ok? && Consistent(db, tries, last)
    ensures Apply(Tries(db, tries), last, false, {}).0 == Apply(db, last, false, {}).0
    decreases tries
  {
    hide Apply, StatusOf, Keeps;
    if tries != [] {
      ResumeAfterFix(db, tries[0].dir, tries[0].failing, last);
      FixesConverge(Apply(db, tries[0].dir, false, tries[0].failing).0, tries[1..], last);
    }
  }

  /** A dry run changes nothing, and announces exactly the files that an unhindered apply then commits. */
  lemma DryRunPreviews(db: Db, dir: Dir, failing: set<string>)
    ensures Apply(db, dir, true, failing).0 == db
    ensures Apply(db, dir, true, failing).1.Done? ==>
      var announced := Apply(db, dir, true, failing).1.applied;
      && Apply(db, dir, false, {}).1.Done? && Apply(db, dir, false, {}).1.applied == announced
      && Apply(db, dir, false, {}).0.effects == db.effects + Effects(dir, announced)
  {
    var pending := Pending(db.rows, Files(dir));
    ProgressUnhindered(pending);
    assert pending[..|pending|] == pending;
    CommitAllEffects(WithTable(db), dir, pending);
  }

  // ------------------------------------------------------------------ what steps commit

  /** The files that a step commits. */
  function CommittedIn(db: Db, step: Step): seq<string> {
    if step.ApplyStep? && !step.dryRun && StatusOf(db.rows, step.dir).Ok? then CommittedBy(db, step.dir, step.failing)
    else []
  }

  lemma CommittedAreListed(db: Db, dir: Dir, failing: set<string>)
    ensures forall f :: f in CommittedBy(db, dir, failing) ==> f in Files(dir)
  {
    PendingMembers(db.rows, Files(dir));
  }

  lemma {:induction false} CommittedRowsMembers(rows: seq<Row>)
    ensures forall r :: r in CommittedRows(rows) <==> r in rows && Committed(r)
  {
    if rows != [] {
      var n := |rows| - 1;
      CommittedRowsMembers(rows[..n]);
      assert rows == rows[..n] + [rows[n]];
    }
  }

  lemma RowOfEffect(db: Db, i: nat) returns (j: nat)
    requires Inv(db) && i < |db.effects|
    ensures j < |db.rows| && Committed(db.rows[j])
    ensures db.rows[j].version == Some(RawVersion(db.effects[i].script)) && db.rows[j].script == db.effects[i].script
  {
    CommittedRowsMembers(db.rows);
    var row := CommittedRows(db.rows)[i];
    assert row in db.rows;
    j :| 0 <= j < |db.rows| && db.rows[j] == row;
  }

  lemma EffectOfRow(db: Db, j: nat) returns (i: nat)
    requires Inv(db) && j < |db.rows| && Committed(db.rows[j])
    ensures i < |db.effects|
    ensures db.rows[j].version == Some(RawVersion(db.effects[i].script)) && db.rows[j].script == db.effects[i].script
  {
    CommittedRowsMembers(db.rows);
    var rows := CommittedRows(db.rows);
    assert db.rows[j] in rows;
    i :| 0 <= i < |rows| && rows[i] == db.rows[j];
  }

  lemma RunTwo(db: Db, s: Step, t: Step)
    ensures Run(db, [s, t]) == Next(Next(db, s), t)
  {
    hide Next;
    assert [s, t][1..] == [t] && [t][1..] == [];
    assert Run(db, [s, t]) == Run(Next(db, s), [t]) == Run(Next(Next(db, s), t), []);
  }

  lemma CommitOne(db: Db, dir: Dir, file: string)
    ensures CommitAll(db, dir, [file]) == Commit(db, dir, file)
  {
    hide Commit;
    assert [file][1..] == [];
  }

  // ------------------------------------------------------------------ status and edits

  lemma {:induction false} FirstMismatchExact(rows: seq<Row>, dir: Dir, files: seq<string>)
    ensures FirstMismatch(rows, dir, files) == None <==> forall f :: f in files ==> !Mismatched(rows, dir, f)
    ensures FirstMismatch(rows, dir, files).Some? ==>
      exists i :: 0 <= i < |files|
        && FirstMismatch(rows, dir, files) == Some(files[i]) && Mismatched(rows, dir, files[i])
        && forall j :: 0 <= j < i ==> !Mismatched(rows, dir, files[j])
  {
    if files != [] {
      FirstMismatchExact(rows, dir, files[1..]);
      if Mismatched(rows, dir, files[0]) {
        assert files[0] in files;
      } else if FirstMismatch(rows, dir, files[1..]).Some? {
        var i :| 0 <= i < |files[1..]| && FirstMismatch(rows, dir, files[1..]) == Some(files[1..][i])
          && Mismatched(rows, dir, files[1..][i]) && forall j :: 0 <= j < i ==> !Mismatched(rows, dir, files[1..][j]);
        assert files[i + 1] in files;
        forall j | 0 <= j < i + 1 ensures !Mismatched(rows, dir, files[j]) {
          assert j > 0 ==> files[j] == files[1..][j - 1];
        }
      }
    }
  }

  /**
   * The status check passes exactly when no two files claim one version and no applied file has a
   * checksum other than the recorded one.
   */
  lemma StatusPassesExactly(rows: seq<Row>, dir: Dir)
    ensures StatusOf(rows, dir).Ok? <==>
      DistinctKeys(Files(dir)) && forall f :: f in Files(dir) ==> !Mismatched(rows, dir, f)
  {
    FirstMismatchExact(rows, dir, Files(dir));
  }

  /** Every row that records an application has the checksum of the text that ran. */
  predicate ChecksumsOfWhatRan(db: Db) {
    && |CommittedRows(db.rows)| == |db.effects|
    && forall i :: 0 <= i < |db.effects| ==>
         CommittedRows(db.rows)[i].checksum == Some(Checksum(db.effects[i].sql))
  }

  lemma {:induction false} CommitAllRecords(db: Db, dir: Dir, files: seq<string>)
    requires ChecksumsOfWhatRan(db)
    ensures ChecksumsOfWhatRan(CommitAll(db, dir, files))
    decreases files
  {
    if files != [] {
      var row := RowFor(db.rows, dir, files[0]);
      assert (db.rows + [row])[..|db.rows|] == db.rows;
      assert CommittedRows(db.rows + [row]) == CommittedRows(db.rows) + [row];
      CommitAllRecords(Commit(db, dir, files[0]), dir, files[1..]);
    }
  }

  lemma NextRecordsWhatRan(db: Db, step: Step)
    requires ChecksumsOfWhatRan(db) && !step.RepairStep?
    ensures ChecksumsOfWhatRan(Next(db, step))
  {
    match step
    case StatusStep(_, _) =>
    case CleanStep(_) =>
    case ApplyStep(dir, dryRun, failing) =>
      if DistinctKeys(Files(dir)) && StatusOf(db.rows, dir).Ok? && !dryRun {
        var pending := Pending(db.rows, Files(dir));
        CommitAllRecords(WithTable(db), dir, pending[..Progress(pending, failing)]);
      }
    case OutsideRow(row) =>
      if !Committed(row) {
        AddRowKeepsCommitted(db.rows, row);
      }
  }

  /** In every run without a repair the history holds the checksums of the texts that ran. */
  lemma {:induction false} RunRecordsWhatRan(db: Db, steps: seq<Step>)
    requires ChecksumsOfWhatRan(db)
    requires forall i :: 0 <= i < |steps| ==> !steps[i].RepairStep?
    ensures ChecksumsOfWhatRan(Run(db, steps))
    decreases steps
  {
    if steps != [] {
      NextRecordsWhatRan(db, steps[0]);
      RunRecordsWhatRan(Next(db, steps[0]), steps[1..]);
    }
  }

  lemma {:induction false} LatestIsCommitted(rows: seq<Row>, v: string) returns (i: nat)
    requires Latest(rows, v).Some?
    ensures i < |CommittedRows(rows)| && CommittedRows(rows)[i] == Latest(rows, v).value
    ensures CommittedRows(rows)[i].version == Some(v)
  {
    var n := |rows| - 1;
    if Records(rows[n], v) {
      i := |CommittedRows(rows[..n])|;
    } else {
      i := LatestIsCommitted(rows[..n], v);
    }
  }

  /** Every row that records an application carries a checksum. */
  predicate ChecksumsPresent(rows: seq<Row>) {
    forall i :: 0 <= i < |CommittedRows(rows)| ==> CommittedRows(rows)[i].checksum.Some?
  }

  lemma {:induction false} CommitAllKeepsChecksums(db: Db, dir: Dir, files: seq<string>)
    requires ChecksumsPresent(db.rows)
    ensures ChecksumsPresent(CommitAll(db, dir, files).rows)
    decreases files
  {
    hide CurrentChecksum, DescriptionOf, NextRank, RawVersion;
    if files != [] {
      var row := RowFor(db.rows, dir, files[0]);
      CommittedSnoc(db.rows, row);
      assert ChecksumsPresent(db.rows + [row]);
      hide ChecksumsPresent, CommittedRows, RowFor;
      CommitAllKeepsChecksums(Commit(db, dir, files[0]), dir, files[1..]);
    }
  }

  lemma NextKeepsChecksums(db: Db, step: Step)
    requires ChecksumsPresent(db.rows)
    ensures ChecksumsPresent(Next(db, step).rows)
  {
    match step
    case StatusStep(_, _) =>
    case CleanStep(_) =>
    case ApplyStep(dir, dryRun, failing) =>
      if DistinctKeys(Files(dir)) && StatusOf(db.rows, dir).Ok? && !dryRun {
        var pending := Pending(db.rows, Files(dir));
        CommitAllKeepsChecksums(WithTable(db), dir, pending[..Progress(pending, failing)]);
      }
    case RepairStep(dir, _) =>
      RepairKeepsCommitted(db.rows, dir);
    case OutsideRow(row) =>
      if !Committed(row) {
        AddRowKeepsCommitted(db.rows, row);
      }
  }

  /** In every reachable state each row that records an application carries a checksum. */
  lemma {:induction false} ReachableChecksums(db: Db, steps: seq<Step>)
    requires ChecksumsPresent(db.rows)
    ensures ChecksumsPresent(Run(db, steps).rows)
    decreases steps
  {
    hide ChecksumsPresent;
    if steps != [] {
      NextKeepsChecksums(db, steps[0]);
      ReachableChecksums(Next(db, steps[0]), steps[1..]);
    }
  }

  /** A refusal that is not a version collision names a listed file whose checksum differs. */
  lemma RefusalNamesMismatch(rows: seq<Row>, dir: Dir, file: string)
    requires DistinctKeys(Files(dir)) && file in Files(dir) && Mismatched(rows, dir, file)
    ensures StatusOf(rows, dir).Err? && StatusOf(rows, dir).error.ChecksumMismatch?
    ensures Mismatched(rows, dir, StatusOf(rows, dir).error.file) && StatusOf(rows, dir).error.file in Files(dir)
  {
    hide Mismatched, DistinctKeys;
    FirstMismatchExact(rows, dir, Files(dir));
  }

  /** Where the check passes, the recorded checksum of an applied file is that of its present text. */
  lemma PassingMeansRecorded(rows: seq<Row>, dir: Dir, file: string)
    requires ChecksumsPresent(rows) && StatusOf(rows, dir).Ok?
    requires file in Files(dir) && IsApplied(rows, file)
    ensures Latest(rows, RawVersion(file)).value.checksum == Some(CurrentChecksum(dir, file))
  {
    hide Files, DistinctKeys, CurrentChecksum, RawVersion, StatusOf;
    StatusPassesExactly(rows, dir);
    var i := LatestIsCommitted(rows, RawVersion(file));
    assert !Mismatched(rows, dir, file);
  }

  /**
   * After any run at all, take a directory that passes the status check and edit an applied file inside
   * four consecutive normalised bytes: the check then refuses for a checksum mismatch, and names that very
   * file unless other files were edited too.
   */
  lemma EditOfAppliedScriptRefused(steps: seq<Step>, dir: Dir, dir': Dir, file: string, at: nat)
    requires StatusOf(Run(EMPTY, steps).rows, dir).Ok? && dir'.names == dir.names
    requires file in Files(dir) && IsApplied(Run(EMPTY, steps).rows, file)
    requires SmallEdit(TextOf(dir, file), TextOf(dir', file), at)
    ensures var r := StatusOf(Run(EMPTY, steps).rows, dir');
      && r.Err? && r.error.ChecksumMismatch?
      && ((forall f :: f in Files(dir) && f != file ==> TextOf(dir', f) == TextOf(dir, f)) ==> r.error.file == file)
  {
    var rows := Run(EMPTY, steps).rows;
    ReachableChecksums(EMPTY, steps);
    SmallEditDetected(TextOf(dir, file), TextOf(dir', file), at);
    assert CurrentChecksum(dir, file) != CurrentChecksum(dir', file);
    PassingMeansRecorded(rows, dir, file);
    StatusPassesExactly(rows, dir);
    assert Mismatched(rows, dir', file);
    RefusalNamesMismatch(rows, dir', file);
    forall f | f in Files(dir) && f != file && TextOf(dir', f) == TextOf(dir, f) ensures !Mismatched(rows, dir', f) {
      assert !Mismatched(rows, dir, f);
    }
  }

  /**
   * After any repair-free run, if a listed file's version was committed with a text that the present
   * text changes only inside four consecutive normalised bytes, the status check refuses, and unless
   * versions collide it refuses for a checksum mismatch.
   */
  lemma EditOfTextThatRanRefused(steps: seq<Step>, dir: Dir, file: string, i: nat, at: nat)
    requires forall k :: 0 <= k < |steps| ==> !steps[k].RepairStep?
    requires file in Files(dir)
    requires i < |Run(EMPTY, steps).effects|
    requires RawVersion(Run(EMPTY, steps).effects[i].script) == RawVersion(file)
    requires SmallEdit(Run(EMPTY, steps).effects[i].sql, TextOf(dir, file), at)
    ensures StatusOf(Run(EMPTY, steps).rows, dir).Err?
    ensures DistinctKeys(Files(dir)) ==> StatusOf(Run(EMPTY, steps).rows, dir).error.ChecksumMismatch?
  {
    var db := Run(EMPTY, steps);
    ReachableInv(EMPTY, steps);
    RunRecordsWhatRan(EMPTY, steps);
    PendingExactly(db, file);
    var j := LatestIsCommitted(db.rows, RawVersion(file));
    assert RawVersion(db.effects[j].script) == RawVersion(db.effects[i].script);
    assert j == i;
    SmallEditDetected(db.effects[i].sql, TextOf(dir, file), at);
    assert Mismatched(db.rows, dir, file);
    if DistinctKeys(Files(dir)) {
      RefusalNamesMismatch(db.rows, dir, file);
    }
  }

  // ------------------------------------------------------------------ repair

  lemma {:induction false} FileOfListed(files: seq<string>, i: nat)
    requires RawDistinct(files) && i < |files|
    ensures FileOf(files, RawVersion(files[i])) == Some(files[i])
  {
    var n := |files| - 1;
    if i < n {
      FileOfListed(files[..n], i);
    }
  }

  lemma RepairRowKeeps(row: Row, dir: Dir)
    ensures RepairRow(row, dir).(checksum := None) == row.(checksum := None)
  {}

  lemma {:induction false} LatestAfterRepair(rows: seq<Row>, dir: Dir, v: string)
    ensures Latest(RepairRows(rows, dir), v)
         == match Latest(rows, v) { case None => None case Some(row) => Some(RepairRow(row, dir)) }
  {
    hide RepairRow;
    if rows != [] {
      var n := |rows| - 1;
      RepairRowKeeps(rows[n], dir);
      LatestAfterRepair(rows[..n], dir, v);
      var rest := RepairRows(rows[..n], dir);
      if rows[n].success {
        assert (rest + [RepairRow(rows[n], dir)])[..|rest|] == rest;
      } else {
        assert RepairRows(rows, dir) == rest;
      }
    }
  }

  lemma {:induction false} SplitAfterRepair(rows: seq<Row>, dir: Dir, files: seq<string>)
    ensures Applied(RepairRows(rows, dir), files) == Applied(rows, files)
    ensures Pending(RepairRows(rows, dir), files) == Pending(rows, files)
  {
    if files != [] {
      LatestAfterRepair(rows, dir, RawVersion(files[0]));
      SplitAfterRepair(rows, dir, files[1..]);
    }
  }

  /**
   * After a repair no failed row is left, the status check passes, and the listed files are split into
   * applied and pending as before; the effects and the rows that record applications are the same, apart
   * from checksums.
   */
  lemma RepairRestoresStatus(db: Db, dir: Dir)
    requires DistinctKeys(Files(dir))
    ensures var db' := Repair(db, dir, true).0;
      && (forall i :: 0 <= i < |db'.rows| ==> db'.rows[i].success)
      && StatusOf(db'.rows, dir) == Ok(Status(Applied(db.rows, Files(dir)), Pending(db.rows, Files(dir))))
      && db'.effects == db.effects
      && |CommittedRows(db'.rows)| == |CommittedRows(db.rows)|
      && forall i :: 0 <= i < |CommittedRows(db.rows)| ==>
           CommittedRows(db'.rows)[i].(checksum := None) == CommittedRows(db.rows)[i].(checksum := None)
  {
    var files, rows' := Files(dir), RepairRows(db.rows, dir);
    ListedRawDistinct(dir);
    forall i | 0 <= i < |rows'| ensures rows'[i].success {
      RepairRowsOrigin(db.rows, dir, rows'[i]);
    }
    forall f | f in files ensures !Mismatched(rows', dir, f) {
      var i :| 0 <= i < |files| && files[i] == f;
      FileOfListed(files, i);
      LatestAfterRepair(db.rows, dir, RawVersion(f));
      LatestIffRecorded(db.rows, RawVersion(f));
    }
    StatusPassesExactly(rows', dir);
    SplitAfterRepair(db.rows, dir, files);
    RepairKeepsCommitted(db.rows, dir);
  }

  lemma RepairedRowIsRight(row: Row, dir: Dir)
    ensures Realigns(RepairRow(row, dir), dir) == None && RepairRow(row, dir).success == row.success
  {
    hide CurrentChecksum, FileOf, Files;
  }

  lemma SnocRealigned(rows: seq<Row>, row: Row, dir: Dir)
    ensures Realigned(rows + [row], dir)
         == Realigned(rows, dir) + match Realigns(row, dir) { case None => [] case Some(file) => [file] }
    ensures RemovedFailed(rows + [row]) == RemovedFailed(rows) + if row.success then [] else [row.rank]
  {
    hide Realigns;
    assert (rows + [row])[..|rows|] == rows;
  }

  lemma {:induction false} RepairLeavesNothing(rows: seq<Row>, dir: Dir)
    ensures Realigned(RepairRows(rows, dir), dir) == [] && RemovedFailed(RepairRows(rows, dir)) == []
  {
    hide Realigns, RepairRow, Realigned, RemovedFailed;
    if rows == [] {
      NothingRealigned(dir);
    } else {
      var n := |rows| - 1;
      RepairLeavesNothing(rows[..n], dir);
      var rest := RepairRows(rows[..n], dir);
      if rows[n].success {
        RepairedRowIsRight(rows[n], dir);
        SnocRealigned(rest, RepairRow(rows[n], dir), dir);
      } else {
        assert rest + [] == rest;
      }
    }
  }

  lemma NothingRealigned(dir: Dir)
    ensures Realigned([], dir) == [] && RemovedFailed([]) == []
  {}

  lemma {:induction false} RepairUnneeded(rows: seq<Row>, dir: Dir)
    requires Realigned(rows, dir) == [] && RemovedFailed(rows) == []
    ensures RepairRows(rows, dir) == rows
  {
    if rows != [] {
      var n := |rows| - 1;
      assert rows[n].success && Realigns(rows[n], dir) == None;
      assert RepairRow(rows[n], dir) == rows[n];
      hide Realigns, RepairRow;
      RepairUnneeded(rows[..n], dir);
      assert rows == rows[..n] + [rows[n]];
    }
  }

  /** A second repair finds nothing to realign or remove, and changes nothing. */
  lemma SecondRepairIdle(db: Db, dir: Dir)
    requires DistinctKeys(Files(dir))
    ensures var db' := Repair(db, dir, true).0; Repair(db', dir, true) == (db', Repaired([], []))
  {
    RepairLeavesNothing(db.rows, dir);
    RepairUnneeded(RepairRows(db.rows, dir), dir);
  }

  // ------------------------------------------------------------------ rows entered by hand

  /** The row that the failure hint tells the operator to insert: a success with checksum 0. */
  function HintRow(rows: seq<Row>, file: string, description: string): Row {
    Row(NextRank(rows), Some(RawVersion(file)), description, file, Some(0), true)
  }

  lemma LatestSnoc(rows: seq<Row>, row: Row, v: string)
    ensures Latest(rows + [row], v) == if Records(row, v) then Some(row) else Latest(rows, v)
  {
    assert (rows + [row])[..|rows|] == rows;
  }

  lemma MismatchWithHintRow(rows: seq<Row>, dir: Dir, file: string, description: string, f: string)
    ensures Mismatched(rows + [HintRow(rows, file, description)], dir, f) <==>
      if RawVersion(f) == RawVersion(file) then CurrentChecksum(dir, f) != 0 else Mismatched(rows, dir, f)
  {
    hide Latest, CurrentChecksum, RawVersion, NextRank;
    LatestSnoc(rows, HintRow(rows, file, description), RawVersion(f));
  }

  /**
   * With the hinted row in place the status check refuses exactly when the file's checksum is not 0;
   * after a repair it no longer does.
   */
  lemma HintRowNeedsRepair(db: Db, dir: Dir, file: string, description: string)
    requires StatusOf(db.rows, dir).Ok? && file in Files(dir)
    ensures var rows := db.rows + [HintRow(db.rows, file, description)];
      && (StatusOf(rows, dir).Err? <==> CurrentChecksum(dir, file) != 0)
      && StatusOf(RepairRows(rows, dir), dir).Ok?
  {
    hide Files, StatusOf, Mismatched, CurrentChecksum, RawVersion, HintRow, RepairRows, DistinctKeys;
    var rows := db.rows + [HintRow(db.rows, file, description)];
    StatusPassesExactly(db.rows, dir);
    StatusPassesExactly(rows, dir);
    ListedRawDistinct(dir);
    forall f | f in Files(dir)
      ensures Mismatched(rows, dir, f) <==> f == file && CurrentChecksum(dir, file) != 0
    {
      MismatchWithHintRow(db.rows, dir, file, description, f);
      var i :| 0 <= i < |Files(dir)| && Files(dir)[i] == f;
      var j :| 0 <= j < |Files(dir)| && Files(dir)[j] == file;
    }
    RepairRestoresStatus(db.(rows := rows), dir);
  }

  /** The hinted row for a script of one line feed makes the next status check refuse. */
  lemma HintRowRefused()
    ensures var file := "V7__a.sql";
      var dir := Dir([file], map[file := "\n"]);
      && StatusOf([], dir) == Ok(Status([], [file]))
      && StatusOf([HintRow([], file, "a")], dir).Err?
  {
    hide Scan, Listing, DistinctKeys, HintRow, Checksum;
    var file := "V7__a.sql";
    var dir := Dir([file], map[file := "\n"]);
    assert Matches(file, "7", "a");
    ScanIsPattern(file, "7", "a");
    OneFileListing(file);
    OneFileDistinct(file);
    assert Files(dir) == [file] && [file][1..] == [];
    assert FirstMismatch([], dir, [file]) == None;
    assert Pending([], [file]) == [file] && Applied([], [file]) == [];
    LineFeedChecksum();
    HintRowNeedsRepair(EMPTY, dir, file, "a");
    assert EMPTY.rows + [HintRow([], file, "a")] == [HintRow([], file, "a")];
  }

  lemma OneFileDistinct(file: string)
    ensures DistinctKeys([file])
  {}
}
