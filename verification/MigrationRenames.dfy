/**
 * Versions that return under another spelling. The history is keyed by raw digits and collisions are found by
 * the normalised key, so a script that was committed as version `7` does not keep version `07` from running.
 */
module MigrationRenames {
  import opened Wrappers
  import opened MigrationFiles
  import opened MigrationState
  import opened MigrationRuns

  // ------------------------------------------------------------------ renames

  /** No two committed scripts have the same version, however it is padded. */
  predicate KeysDiffer(effects: seq<Effect>) {
    forall i, j :: 0 <= i < j < |effects| ==> KeyOf(effects[i].script) != KeyOf(effects[j].script)
  }

  predicate KeyRan(effects: seq<Effect>, k: string) {
    exists i :: 0 <= i < |effects| && KeyOf(effects[i].script) == k
  }

  lemma {:induction false} PendingKeysDiffer(rows: seq<Row>, files: seq<string>)
    requires DistinctKeys(files)
    ensures DistinctKeys(Pending(rows, files))
  {
    hide KeyOf, IsApplied;
    if files != [] {
      PendingKeysDiffer(rows, files[1..]);
      PendingMembers(rows, files[1..]);
      var rest := Pending(rows, files[1..]);
      forall j | 0 <= j < |rest| ensures KeyOf(files[0]) != KeyOf(rest[j]) {
        assert rest[j] in files[1..];
      }
    }
  }

  lemma AddedKeysDiffer(earlier: seq<Effect>, dir: Dir, files: seq<string>)
    requires KeysDiffer(earlier) && DistinctKeys(files)
    ensures KeysDiffer(earlier + Effects(dir, files)) <==> forall f :: f in files ==> !KeyRan(earlier, KeyOf(f))
  {
    hide KeyOf;
    var n, all := |earlier|, earlier + Effects(dir, files);
    if KeysDiffer(all) {
      forall f | f in files ensures !KeyRan(earlier, KeyOf(f)) {
        var j :| 0 <= j < |files| && files[j] == f;
        assert all[n + j].script == f;
        assert forall i :: 0 <= i < n ==> all[i] == earlier[i];
      }
    }
    if forall f :: f in files ==> !KeyRan(earlier, KeyOf(f)) {
      forall i, j | 0 <= i < j < |all| ensures KeyOf(all[i].script) != KeyOf(all[j].script) {
        if i < n <= j {
          assert files[j - n] in files && KeyOf(earlier[i].script) != KeyOf(files[j - n]);
        } else if n <= i {
          assert KeyOf(files[i - n]) != KeyOf(files[j - n]);
        }
      }
    }
  }

  /** The key of a version as a row holds it; a text that is no version counts as having the empty key. */
  function KeyOfVersion(v: string): string {
    if IsVersion(v) then VersionKey(v) else ""
  }

  lemma KeyOfFile(file: string)
    ensures KeyOf(file) == KeyOfVersion(RawVersion(file))
  {
    if Scan(file).Some? {
      ScanIsPattern(file, Scan(file).value.0, Scan(file).value.1);
    }
  }

  /** The file spells the version of a row that records an application with other digits or separators. */
  predicate Respells(file: string, row: Row) {
    Committed(row) && KeyOf(file) == KeyOfVersion(row.version.value) && RawVersion(file) != row.version.value
  }

  /** No file spells a recorded version differently than its row does: a check on names and history alone. */
  predicate NoneRespelled(rows: seq<Row>, files: seq<string>) {
    forall f, i :: f in files && 0 <= i < |rows| ==> !Respells(f, rows[i])
  }

  /** The key of a pending file has been committed exactly when the file respells some row. */
  lemma KeyRanMeansRespelled(db: Db, file: string)
    requires Inv(db) && !IsApplied(db.rows, file)
    ensures KeyRan(db.effects, KeyOf(file)) <==> exists j :: 0 <= j < |db.rows| && Respells(file, db.rows[j])
  {
    hide Inv, KeyOf, RawVersion, KeyOfVersion, IsApplied;
    PendingExactly(db, file);
    if KeyRan(db.effects, KeyOf(file)) {
      var i :| 0 <= i < |db.effects| && KeyOf(db.effects[i].script) == KeyOf(file);
      var j := RowOfEffect(db, i);
      KeyOfFile(db.effects[i].script);
      assert Respells(file, db.rows[j]);
    }
    if j :| 0 <= j < |db.rows| && Respells(file, db.rows[j]) {
      var i := EffectOfRow(db, j);
      KeyOfFile(db.effects[i].script);
    }
  }

  /** With committed keys distinct, a file that is already applied respells no row. */
  lemma AppliedRespellsNone(db: Db, file: string)
    requires Inv(db) && KeysDiffer(db.effects) && IsApplied(db.rows, file)
    ensures NoneRespelled(db.rows, [file])
  {
    hide Inv, KeyOf, RawVersion, KeyOfVersion, IsApplied;
    PendingExactly(db, file);
    KeyOfFile(file);
    forall j | 0 <= j < |db.rows| ensures !Respells(file, db.rows[j]) {
      if Respells(file, db.rows[j]) {
        var own :| 0 <= own < |db.effects| && RawVersion(db.effects[own].script) == RawVersion(file);
        var i := EffectOfRow(db, j);
        KeyOfFile(db.effects[i].script);
        KeyOfFile(db.effects[own].script);
      }
    }
  }

  /**
   * An apply, whichever scripts fail, commits no version under two spellings exactly when no file that it
   * commits spells a recorded version differently than the history does.
   */
  lemma KeysStayDistinctExactly(db: Db, dir: Dir, failing: set<string>)
    requires Inv(db) && StatusOf(db.rows, dir).Ok? && KeysDiffer(db.effects)
    ensures KeysDiffer(Apply(db, dir, false, failing).0.effects) <==>
      NoneRespelled(db.rows, CommittedBy(db, dir, failing))
  {
    hide Inv, KeyOf, KeysDiffer, KeyRan, DistinctKeys, Apply, Files, Respells, IsApplied;
    var pending, committed := Pending(db.rows, Files(dir)), CommittedBy(db, dir, failing);
    ApplyCommits(db, dir, failing);
    CommitAllEffects(WithTable(db), dir, committed);
    PendingKeysDiffer(db.rows, Files(dir));
    PrefixKeysDiffer(pending, |committed|);
    AddedKeysDiffer(db.effects, dir, committed);
    PendingMembers(db.rows, Files(dir));
    forall f | f in committed ensures f in pending && !IsApplied(db.rows, f) {}
    forall f | f in committed
      ensures KeyRan(db.effects, KeyOf(f)) <==> exists j :: 0 <= j < |db.rows| && Respells(f, db.rows[j])
    {
      KeyRanMeansRespelled(db, f);
    }
  }

  lemma PrefixKeysDiffer(files: seq<string>, k: nat)
    requires DistinctKeys(files) && k <= |files|
    ensures DistinctKeys(files[..k])
  {}

  /** For an apply in which nothing fails, the check can be made on the whole listing beforehand. */
  lemma ListingKeepsKeysExactly(db: Db, dir: Dir)
    requires Inv(db) && StatusOf(db.rows, dir).Ok? && KeysDiffer(db.effects)
    ensures KeysDiffer(Apply(db, dir, false, {}).0.effects) <==> NoneRespelled(db.rows, Files(dir))
  {
    hide Inv, KeysDiffer, Apply, Files, Respells, IsApplied, StatusOf;
    var files, pending := Files(dir), Pending(db.rows, Files(dir));
    KeysStayDistinctExactly(db, dir, {});
    ProgressUnhindered(pending);
    assert pending[..|pending|] == pending;
    PendingMembers(db.rows, files);
    forall f, j | f in files && IsApplied(db.rows, f) && 0 <= j < |db.rows| ensures !Respells(f, db.rows[j]) {
      AppliedRespellsNone(db, f);
      assert f in [f];
    }
  }

  // ------------------------------------------------------------------ over whole runs

  /** No step of the run commits a file that respells a version recorded by then. */
  predicate NeverRespells(db: Db, steps: seq<Step>)
    decreases steps
  {
    steps == [] || (NoneRespelled(db.rows, CommittedIn(db, steps[0])) && NeverRespells(Next(db, steps[0]), steps[1..]))
  }

  /** In no state of the run has a version been committed under two spellings since the last clean. */
  predicate KeysDifferThroughout(db: Db, steps: seq<Step>)
    decreases steps
  {
    KeysDiffer(db.effects) && (steps == [] || KeysDifferThroughout(Next(db, steps[0]), steps[1..]))
  }

  lemma StepKeepsKeysExactly(db: Db, step: Step)
    requires Inv(db) && KeysDiffer(db.effects)
    ensures KeysDiffer(Next(db, step).effects) <==> NoneRespelled(db.rows, CommittedIn(db, step))
  {
    hide Inv, KeysDiffer, Respells;
    match step
    case ApplyStep(dir, dryRun, failing) =>
      if !dryRun && StatusOf(db.rows, dir).Ok? {
        KeysStayDistinctExactly(db, dir, failing);
      }
    case CleanStep(_) => NothingDiffers();
    case StatusStep(_, _) =>
    case RepairStep(_, _) =>
    case OutsideRow(_) =>
  }

  lemma NothingDiffers()
    ensures KeysDiffer(EMPTY.effects)
  {}

  /** A run commits no version under two spellings exactly when no step commits a respelled file. */
  lemma {:induction false} RunKeepsKeysExactly(db: Db, steps: seq<Step>)
    requires Inv(db) && KeysDiffer(db.effects)
    ensures KeysDifferThroughout(db, steps) <==> NeverRespells(db, steps)
    decreases steps
  {
    hide Inv, KeysDiffer, NoneRespelled, Next, CommittedIn;
    if steps != [] {
      NextKeepsInv(db, steps[0]);
      StepKeepsKeysExactly(db, steps[0]);
      if KeysDiffer(Next(db, steps[0]).effects) {
        RunKeepsKeysExactly(Next(db, steps[0]), steps[1..]);
      } else {
        assert !KeysDifferThroughout(Next(db, steps[0]), steps[1..]);
      }
    }
  }

  /** Every directory applied in the run spells the versions recorded by then as the history does. */
  predicate ListingsAgree(db: Db, steps: seq<Step>)
    decreases steps
  {
    steps == [] ||
      (&& (steps[0].ApplyStep? ==> NoneRespelled(db.rows, Files(steps[0].dir)))
       && ListingsAgree(Next(db, steps[0]), steps[1..]))
  }

  /** If the directories of a run never respell a recorded version, no version is committed twice. */
  lemma {:induction false} AgreeingRunKeepsKeys(db: Db, steps: seq<Step>)
    requires Inv(db) && KeysDiffer(db.effects) && ListingsAgree(db, steps)
    ensures KeysDiffer(Run(db, steps).effects)
    decreases steps
  {
    hide Inv, KeysDiffer, Respells, Next, StatusOf;
    if steps != [] {
      var step := steps[0];
      if step.ApplyStep? {
        CommittedAreListed(db, step.dir, step.failing);
      }
      assert NoneRespelled(db.rows, CommittedIn(db, step));
      NextKeepsInv(db, step);
      StepKeepsKeysExactly(db, step);
      AgreeingRunKeepsKeys(Next(db, step), steps[1..]);
    }
  }

  // ------------------------------------------------------------------ a run that commits one version twice

  lemma OneFileApply(db: Db, name: string, version: Version)
    requires Matches(name, version, "a") && Latest(db.rows, version) == None
    ensures var dir := Dir([name], map[name := ""]);
      Apply(db, dir, false, {}).0 == Commit(WithTable(db), dir, name) && RawVersion(name) == version
  {
    hide KeyOf, Scan, Listing;
    var dir := Dir([name], map[name := ""]);
    ScanIsPattern(name, version, "a");
    OneFileListing(name);
    assert Files(dir) == [name];
    assert [name][1..] == [];
    assert Pending(db.rows, [name]) == [name];
    assert FirstMismatch(db.rows, dir, [name]) == None;
    ProgressUnhindered([name]);
    assert [name][..1] == [name];
    assert CommitAll(WithTable(db), dir, [name]) == Commit(WithTable(db), dir, name);
  }

  lemma SevenPadded()
    ensures IsVersion("7") && IsVersion("07") && VersionKey("7") == VersionKey("07")
  {
    PartsOfDigits("7");
    PartsOfDigits("07");
    LeadingZero("7");
    KeysComparePartNumbers("7", "07");
  }

  const BEFORE := "V7__a.sql"
  const AFTER := "V07__a.sql"

  lemma BeforeAndAfter()
    ensures Matches(BEFORE, "7", "a") && Matches(AFTER, "07", "a")
  {
    SevenPadded();
  }

  /** A run that commits one version twice: `V7__a.sql` is applied, then renamed to `V07__a.sql`. */
  lemma RepaddedFileRunsTwice()
    ensures exists a: Dir, b: Dir ::
      Run(EMPTY, [ApplyStep(a, false, {}), ApplyStep(b, false, {})]).effects == [Effect(BEFORE, ""), Effect(AFTER, "")]
    ensures KeyOf(BEFORE) == KeyOf(AFTER)
  {
    hide BEFORE, AFTER, Apply, Latest, VersionKey, KeyOf, Matches, Run, RowFor;
    var a, b := Dir([BEFORE], map[BEFORE := ""]), Dir([AFTER], map[AFTER := ""]);
    SevenPadded();
    BeforeAndAfter();
    ReadName(BEFORE, "7", "a");
    ReadName(AFTER, "07", "a");
    NothingLatest("7");
    NothingLatest("07");
    OneFileApply(EMPTY, BEFORE, "7");
    var start := WithTable(EMPTY);
    LatestAfterCommit(start, a, BEFORE, "07");
    OneFileApply(Commit(start, a, BEFORE), AFTER, "07");
    RunTwo(EMPTY, ApplyStep(a, false, {}), ApplyStep(b, false, {}));
  }

  lemma NothingLatest(v: string)
    ensures Latest([], v) == None
  {}
}
