/**
 * The order in which scripts run over several applies. Each apply runs its files in listing order, but a file
 * that is added later with a lower name runs after the higher ones that were there before.
 */
module MigrationOrder {
  import opened Sorting
  import opened MigrationFiles
  import opened Checksums
  import opened MigrationState
  import opened MigrationRuns
  import opened MigrationRenames

  /** The scripts have run in the order in which they are listed. */
  predicate LogInOrder(effects: seq<Effect>) {
    forall i, j :: 0 <= i < j < |effects| ==> LexLeq(effects[i].script, effects[j].script)
  }

  /** No file comes before one that is on record as applied: a check on names and history alone. */
  predicate NoneComesBefore(rows: seq<Row>, files: seq<string>) {
    forall f, i :: f in files && 0 <= i < |rows| && Committed(rows[i]) ==> LexLeq(rows[i].script, f)
  }

  lemma {:induction false} PendingSorted(rows: seq<Row>, files: seq<string>)
    requires Sorted(files, LexLeq)
    ensures Sorted(Pending(rows, files), LexLeq)
  {
    hide LexLeq, IsApplied;
    if files != [] {
      PendingSorted(rows, files[1..]);
      PendingMembers(rows, files[1..]);
      var rest := Pending(rows, files[1..]);
      forall j | 0 <= j < |rest| ensures LexLeq(files[0], rest[j]) {
        assert rest[j] in files[1..];
      }
    }
  }

  lemma AppendedInOrder(earlier: seq<Effect>, dir: Dir, files: seq<string>)
    requires LogInOrder(earlier) && Sorted(files, LexLeq)
    ensures LogInOrder(earlier + Effects(dir, files)) <==>
      forall i, j :: 0 <= i < |earlier| && 0 <= j < |files| ==> LexLeq(earlier[i].script, files[j])
  {
    hide LexLeq, TextOf;
    var n, all := |earlier|, earlier + Effects(dir, files);
    assert forall i :: 0 <= i < n ==> all[i] == earlier[i];
    assert forall j :: 0 <= j < |files| ==> all[n + j].script == files[j];
    if LogInOrder(all) {
      forall i, j | 0 <= i < n && 0 <= j < |files| ensures LexLeq(earlier[i].script, files[j]) {
        assert LexLeq(all[i].script, all[n + j].script);
      }
    }
    if forall i, j :: 0 <= i < n && 0 <= j < |files| ==> LexLeq(earlier[i].script, files[j]) {
      forall i, j | 0 <= i < j < |all| ensures LexLeq(all[i].script, all[j].script) {
        if j >= n {
          assert all[j].script == files[j - n];
          assert i >= n ==> all[i].script == files[i - n];
        }
      }
    }
  }

  /** The committed files come before no script that has run exactly when they come before none on record. */
  lemma RecordedMeansRan(db: Db, files: seq<string>)
    requires Inv(db)
    ensures NoneComesBefore(db.rows, files) <==>
      forall i, j :: 0 <= i < |db.effects| && 0 <= j < |files| ==> LexLeq(db.effects[i].script, files[j])
  {
    hide Inv, LexLeq, RawVersion;
    if NoneComesBefore(db.rows, files) {
      forall i, j | 0 <= i < |db.effects| && 0 <= j < |files| ensures LexLeq(db.effects[i].script, files[j]) {
        var r := RowOfEffect(db, i);
        assert files[j] in files && Committed(db.rows[r]);
      }
    }
    if forall i, j :: 0 <= i < |db.effects| && 0 <= j < |files| ==> LexLeq(db.effects[i].script, files[j]) {
      forall f, r | f in files && 0 <= r < |db.rows| && Committed(db.rows[r]) ensures LexLeq(db.rows[r].script, f) {
        var i := EffectOfRow(db, r);
        var j :| 0 <= j < |files| && files[j] == f;
      }
    }
  }

  /** One step keeps the log in order exactly when it commits no file that comes before a recorded script. */
  lemma StepKeepsOrderExactly(db: Db, step: Step)
    requires Inv(db) && LogInOrder(db.effects)
    ensures LogInOrder(Next(db, step).effects) <==> NoneComesBefore(db.rows, CommittedIn(db, step))
  {
    hide Inv, LexLeq, LogInOrder, StatusOf;
    match step
    case ApplyStep(dir, dryRun, failing) =>
      if !dryRun && StatusOf(db.rows, dir).Ok? {
        var committed := CommittedBy(db, dir, failing);
        hide Apply, CommitAll, Progress, Files;
        ApplyCommits(db, dir, failing);
        CommitAllEffects(WithTable(db), dir, committed);
        ListingComplete(dir.names, "");
        assert Sorted(Files(dir), LexLeq) by {
          FilesSorted(dir);
        }
        PendingSorted(db.rows, Files(dir));
        AppendedInOrder(db.effects, dir, committed);
        RecordedMeansRan(db, committed);
      } else {
        RefusedApplyKeepsLog(db, step);
      }
    case CleanStep(_) => NothingInOrder();
    case StatusStep(_, _) =>
    case RepairStep(_, _) =>
    case OutsideRow(_) =>
  }

  lemma FilesSorted(dir: Dir)
    ensures Sorted(Files(dir), LexLeq)
  {
    ListingComplete(dir.names, "");
  }

  lemma RefusedApplyKeepsLog(db: Db, step: Step)
    requires step.ApplyStep? && (step.dryRun || StatusOf(db.rows, step.dir).Err?)
    ensures Next(db, step).effects == db.effects
  {}

  lemma NothingInOrder()
    ensures LogInOrder(EMPTY.effects)
  {}

  // ------------------------------------------------------------------ over whole runs

  /** No step of the run commits a file that comes before one recorded by then. */
  predicate NeverComesBefore(db: Db, steps: seq<Step>)
    decreases steps
  {
    steps == [] ||
      (NoneComesBefore(db.rows, CommittedIn(db, steps[0])) && NeverComesBefore(Next(db, steps[0]), steps[1..]))
  }

  /** In every state of the run the scripts since the last clean have run in listing order. */
  predicate InOrderThroughout(db: Db, steps: seq<Step>)
    decreases steps
  {
    LogInOrder(db.effects) && (steps == [] || InOrderThroughout(Next(db, steps[0]), steps[1..]))
  }

  /** A run keeps listing order throughout exactly when no step commits a file before a recorded one. */
  lemma {:induction false} RunKeepsOrderExactly(db: Db, steps: seq<Step>)
    requires Inv(db) && LogInOrder(db.effects)
    ensures InOrderThroughout(db, steps) <==> NeverComesBefore(db, steps)
    decreases steps
  {
    hide Inv, LogInOrder, NoneComesBefore, Next, CommittedIn;
    if steps != [] {
      NextKeepsInv(db, steps[0]);
      StepKeepsOrderExactly(db, steps[0]);
      if LogInOrder(Next(db, steps[0]).effects) {
        RunKeepsOrderExactly(Next(db, steps[0]), steps[1..]);
      } else {
        assert !InOrderThroughout(Next(db, steps[0]), steps[1..]);
      }
    }
  }

  predicate Cleanless(steps: seq<Step>) {
    forall i :: 0 <= i < |steps| ==> !steps[i].CleanStep?
  }

  lemma NextExtendsLog(db: Db, step: Step)
    requires !step.CleanStep?
    ensures db.effects <= Next(db, step).effects
  {
    if step.ApplyStep? && !step.dryRun && StatusOf(db.rows, step.dir).Ok? {
      hide Apply, StatusOf, Pending, Progress, CommitAll;
      ApplyCommits(db, step.dir, step.failing);
      CommitAllEffects(WithTable(db), step.dir, CommittedBy(db, step.dir, step.failing));
    }
  }

  /** Without a clean a log that is in order at the end has been in order throughout. */
  lemma {:induction false} OrderAtEnd(db: Db, steps: seq<Step>)
    requires Cleanless(steps)
    ensures db.effects <= Run(db, steps).effects
    ensures LogInOrder(Run(db, steps).effects) <==> InOrderThroughout(db, steps)
    decreases steps
  {
    hide LexLeq, Next;
    if steps != [] {
      NextExtendsLog(db, steps[0]);
      OrderAtEnd(Next(db, steps[0]), steps[1..]);
    }
  }

  /**
   * Since the last clean the scripts have run in listing order exactly when no apply has committed a file that
   * comes before one recorded by then.
   */
  lemma LogInOrderExactly(steps: seq<Step>)
    requires Cleanless(steps)
    ensures LogInOrder(Run(EMPTY, steps).effects) <==> NeverComesBefore(EMPTY, steps)
  {
    NothingInOrder();
    OrderAtEnd(EMPTY, steps);
    RunKeepsOrderExactly(EMPTY, steps);
  }

  // ------------------------------------------------------------------ a run out of order

  lemma OneAndTwo()
    ensures IsVersion("1") && IsVersion("2") && VersionKey("1") != VersionKey("2")
  {
    PartsOfDigits("1");
    PartsOfDigits("2");
    assert "1"[..0] == "" && "2"[..0] == "";
    assert PartNumbers("1")[0] == 1 && PartNumbers("2")[0] == 2;
    KeysComparePartNumbers("1", "2");
  }

  /** The second apply, of a directory to which a lower file has been added, runs just that file. */
  lemma LowerFileIsPending(db: Db, dir: Dir, low: string, high: string)
    requires Files(dir) == [low, high] && DistinctKeys([low, high])
    requires !IsApplied(db.rows, low) && IsApplied(db.rows, high) && !Mismatched(db.rows, dir, high)
    ensures Apply(db, dir, false, {}).0 == Commit(WithTable(db), dir, low)
  {
    hide IsApplied, Mismatched, DistinctKeys, Files, Commit, FirstMismatch, Apply, StatusOf;
    var files := [low, high];
    PendingOfTwo(db.rows, low, high);
    UnappliedMatches(db.rows, dir, low);
    FirstMismatchExact(db.rows, dir, files);
    ApplyCommits(db, dir, {});
    ProgressUnhindered([low]);
    assert [low][..1] == [low] && [low][1..] == [];
    CommitOne(WithTable(db), dir, low);
  }

  lemma PendingOfTwo(rows: seq<Row>, low: string, high: string)
    requires !IsApplied(rows, low) && IsApplied(rows, high)
    ensures Pending(rows, [low, high]) == [low]
  {
    hide IsApplied;
    assert [low, high][1..] == [high] && [high][1..] == [];
    assert Pending(rows, [high]) == [] + Pending(rows, []);
  }

  lemma UnappliedMatches(rows: seq<Row>, dir: Dir, file: string)
    requires !IsApplied(rows, file)
    ensures !Mismatched(rows, dir, file)
  {}

  lemma LowerFileAdded(low: string, high: string)
    requires Matches(low, "1", "a") && Matches(high, "2", "a") && LexLeq(low, high)
    ensures var a, b := Dir([high], map[high := ""]), Dir([low, high], map[low := "", high := ""]);
      var db := Commit(WithTable(EMPTY), a, high);
      && Files(b) == [low, high] && DistinctKeys([low, high])
      && !IsApplied(db.rows, low) && IsApplied(db.rows, high) && !Mismatched(db.rows, b, high)
  {
    hide Latest, VersionKey, Scan, IsMigrationFilename, KeyOf, RawVersion, Listing, Checksum, Matches, LexLeq;
    var a, b := Dir([high], map[high := ""]), Dir([low, high], map[low := "", high := ""]);
    OneAndTwo();
    ReadName(low, "1", "a");
    ReadName(high, "2", "a");
    TwoFilesListed(low, high);
    NothingLatest("1");
    LatestAfterCommit(WithTable(EMPTY), a, high, "1");
    LatestAfterCommit(WithTable(EMPTY), a, high, "2");
  }

  lemma LowerFileRunsLast(low: string, high: string)
    requires Matches(low, "1", "a") && Matches(high, "2", "a") && LexLeq(low, high)
    ensures var a, b := Dir([high], map[high := ""]), Dir([low, high], map[low := "", high := ""]);
      Run(EMPTY, [ApplyStep(a, false, {}), ApplyStep(b, false, {})]).effects == [Effect(high, ""), Effect(low, "")]
  {
    var a, b := Dir([high], map[high := ""]), Dir([low, high], map[low := "", high := ""]);
    hide Apply, Matches, LexLeq, IsApplied, Mismatched, Files, DistinctKeys, RowFor;
    assert IsVersion("2") by {
      OneAndTwo();
    }
    NothingLatest("2");
    OneFileApply(EMPTY, high, "2");
    var db := Commit(WithTable(EMPTY), a, high);
    LowerFileAdded(low, high);
    LowerFileIsPending(db, b, low, high);
    RunTwo(EMPTY, ApplyStep(a, false, {}), ApplyStep(b, false, {}));
  }

  const LOW := "V1__a.sql"
  const HIGH := "V2__a.sql"

  lemma LowAndHigh()
    ensures Matches(LOW, "1", "a") && Matches(HIGH, "2", "a")
  {
    OneAndTwo();
  }

  lemma LowBeforeHigh()
    ensures LexLeq(LOW, HIGH)
  {
    assert LOW[0] == HIGH[0] == 'V' && LOW[1..][0] == '1' && HIGH[1..][0] == '2';
    assert LexLeq(LOW[1..], HIGH[1..]);
  }

  /** `V1__a.sql`, added after `V2__a.sql` was applied, runs after it. */
  lemma LateLowerFileRunsLast()
    ensures exists a: Dir, b: Dir ::
      Run(EMPTY, [ApplyStep(a, false, {}), ApplyStep(b, false, {})]).effects == [Effect(HIGH, ""), Effect(LOW, "")]
  {
    hide LOW, HIGH, Run, LexLeq, Matches;
    LowAndHigh();
    LowBeforeHigh();
    LowerFileRunsLast(LOW, HIGH);
  }
}
