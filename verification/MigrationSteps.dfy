/**
 * What each step of the migration engine does, said in terms of rows, files and texts alone.
 */
module MigrationSteps {
  import opened Wrappers
  import opened Sorting
  import opened MigrationFiles
  import opened Checksums
  import opened MigrationState
  import opened MigrationRuns

  // ------------------------------------------------------------------ clean

  /** After a committed clean everything goes as it does on a new database. */
  lemma CleanStartsOver(db: Db, later: seq<Step>)
    ensures Run(db, [CleanStep(true)] + later) == Run(EMPTY, later)
  {
    assert ([CleanStep(true)] + later)[1..] == later;
  }

  /** After a committed clean all listed files are pending, and an unhindered apply runs exactly them. */
  lemma CleanedDatabaseIsNew(db: Db, dir: Dir)
    requires DistinctKeys(Files(dir))
    ensures var cleaned := Next(db, CleanStep(true));
      && !cleaned.hasTable && cleaned.rows == [] && cleaned.effects == []
      && StatusOf(cleaned.rows, dir) == Ok(Status([], Files(dir)))
      && Apply(cleaned, dir, false, {}).0.effects == Effects(dir, Files(dir))
  {
    hide DistinctKeys, Files, Apply;
    var files := Files(dir);
    NothingApplied(dir, files);
    ApplyCommits(EMPTY, dir, {});
    ProgressUnhindered(files);
    assert files[..|files|] == files;
    CommitAllEffects(WithTable(EMPTY), dir, files);
    assert [] + Effects(dir, files) == Effects(dir, files);
  }

  lemma {:induction false} NothingApplied(dir: Dir, files: seq<string>)
    ensures Applied([], files) == [] && Pending([], files) == files && FirstMismatch([], dir, files) == None
  {
    hide CurrentChecksum, RawVersion;
    if files != [] {
      NothingApplied(dir, files[1..]);
      assert files == [files[0]] + files[1..];
    }
  }

  /** A clean that does not commit changes nothing. */
  lemma FailedCleanKeepsAll(db: Db)
    ensures Next(db, CleanStep(false)) == db
  {}

  // ------------------------------------------------------------------ status and apply

  /** A status check changes no history; it creates a missing table only when asked, and not for a refused listing. */
  lemma StatusKeepsHistory(db: Db, dir: Dir, createTable: bool)
    ensures var db' := Next(db, StatusStep(dir, createTable));
      && db'.rows == db.rows && db'.effects == db.effects
      && (db'.hasTable <==> db.hasTable || (createTable && DistinctKeys(Files(dir))))
  {}

  /** Row `i` is the last success on record for the version `v`. */
  predicate IsLastSuccess(rows: seq<Row>, v: string, i: int) {
    && 0 <= i < |rows| && rows[i].success && rows[i].version == Some(v)
    && forall j :: i < j < |rows| ==> !(rows[j].success && rows[j].version == Some(v))
  }

  lemma {:induction false} LatestExactly(rows: seq<Row>, v: string, i: int)
    requires IsLastSuccess(rows, v, i)
    ensures Latest(rows, v) == Some(rows[i])
  {
    var n := |rows| - 1;
    if i < n {
      assert IsLastSuccess(rows[..n], v, i);
      LatestExactly(rows[..n], v, i);
    }
  }

  lemma {:induction false} LatestTaken(rows: seq<Row>, v: string) returns (i: nat)
    requires Latest(rows, v).Some?
    ensures IsLastSuccess(rows, v, i)
  {
    var n := |rows| - 1;
    if Records(rows[n], v) {
      i := n;
    } else {
      i := LatestTaken(rows[..n], v);
      assert rows[..n][i] == rows[i];
    }
  }

  /** The last success on record for the version carries no checksum, or this one. */
  ghost predicate AgreesWithRecord(rows: seq<Row>, v: string, checksum: int) {
    forall i :: IsLastSuccess(rows, v, i) ==> rows[i].checksum == None || rows[i].checksum == Some(checksum)
  }

  lemma MatchesExactly(rows: seq<Row>, dir: Dir, f: string)
    ensures !Mismatched(rows, dir, f) <==> AgreesWithRecord(rows, RawVersion(f), Checksum(TextOf(dir, f)))
  {
    hide Checksum, TextOf, RawVersion, Latest;
    var v := RawVersion(f);
    forall i | IsLastSuccess(rows, v, i) ensures Latest(rows, v) == Some(rows[i]) {
      LatestExactly(rows, v, i);
    }
    if Latest(rows, v).Some? {
      var i := LatestTaken(rows, v);
    }
  }

  /**
   * The status check passes exactly when no two files have one version key and the last success on record for
   * a listed file's version carries no checksum or that of the file as it is.
   */
  lemma StatusReadsLastSuccess(rows: seq<Row>, dir: Dir)
    ensures StatusOf(rows, dir).Ok? <==>
      && DistinctKeys(Files(dir))
      && forall f :: f in Files(dir) ==> AgreesWithRecord(rows, RawVersion(f), Checksum(TextOf(dir, f)))
  {
    hide StatusOf, DistinctKeys, Files, Checksum, Mismatched, AgreesWithRecord;
    StatusPassesExactly(rows, dir);
    forall f | f in Files(dir)
      ensures !Mismatched(rows, dir, f) <==> AgreesWithRecord(rows, RawVersion(f), Checksum(TextOf(dir, f)))
    {
      MatchesExactly(rows, dir, f);
    }
  }

  /** A listed file is pending exactly when no success is on record for its version, and applied otherwise. */
  lemma SplitExactly(rows: seq<Row>, dir: Dir, file: string)
    requires StatusOf(rows, dir).Ok? && file in Files(dir)
    ensures var status := StatusOf(rows, dir).value;
      && (file in status.pending <==> forall i :: !IsLastSuccess(rows, RawVersion(file), i))
      && (file in status.applied <==> file !in status.pending)
  {
    hide DistinctKeys, Files, RawVersion, FirstMismatch, IsLastSuccess;
    PendingMembers(rows, Files(dir));
    if Latest(rows, RawVersion(file)).Some? {
      var i := LatestTaken(rows, RawVersion(file));
    } else {
      forall i ensures !IsLastSuccess(rows, RawVersion(file), i) {
        if IsLastSuccess(rows, RawVersion(file), i) {
          LatestExactly(rows, RawVersion(file), i);
        }
      }
    }
  }

  /** Applied and pending files each come in listing order, each file as often as it is listed. */
  lemma {:induction false} SplitIsFilter(rows: seq<Row>, files: seq<string>)
    ensures Applied(rows, files) == Filter(files, (f: string) => IsApplied(rows, f))
    ensures Pending(rows, files) == Filter(files, (f: string) => !IsApplied(rows, f))
  {
    hide IsApplied;
    if files != [] {
      SplitIsFilter(rows, files[1..]);
    }
  }

  /** Files come before `i` in the listing without disagreeing with the record, and file `i` disagrees. */
  predicate FirstToDisagree(rows: seq<Row>, dir: Dir, i: int) {
    && 0 <= i < |Files(dir)| && Mismatched(rows, dir, Files(dir)[i])
    && forall j :: 0 <= j < i ==> !Mismatched(rows, dir, Files(dir)[j])
  }

  /** Collisions are refused before mismatches, with all of them; of mismatches the first in the listing is named. */
  lemma RefusalExactly(rows: seq<Row>, dir: Dir)
    requires StatusOf(rows, dir).Err?
    ensures !DistinctKeys(Files(dir)) ==>
      StatusOf(rows, dir).error == DuplicateVersions(CollisionIn(Files(dir)))
    ensures DistinctKeys(Files(dir)) ==>
      exists i :: FirstToDisagree(rows, dir, i) && StatusOf(rows, dir).error == ChecksumMismatch(Files(dir)[i])
  {
    hide DistinctKeys, Files, Mismatched;
    FirstMismatchExact(rows, dir, Files(dir));
    if DistinctKeys(Files(dir)) {
      var i :| 0 <= i < |Files(dir)| && FirstMismatch(rows, dir, Files(dir)) == Some(Files(dir)[i])
        && Mismatched(rows, dir, Files(dir)[i]) && forall j :: 0 <= j < i ==> !Mismatched(rows, dir, Files(dir)[j]);
      assert FirstToDisagree(rows, dir, i);
    }
  }

  /** A dry run answers what is pending and what is applied; any other apply of an accepted listing has a table. */
  lemma DryRunAnswers(db: Db, dir: Dir, failing: set<string>)
    ensures StatusOf(db.rows, dir).Ok? ==>
      var status := StatusOf(db.rows, dir).value;
      Apply(db, dir, true, failing) == (db, Done(status.pending, status.applied, true))
    ensures DistinctKeys(Files(dir)) ==> Apply(db, dir, false, failing).0.hasTable
  {
    hide DistinctKeys, Files, FirstMismatch, Applied;
    if DistinctKeys(Files(dir)) && StatusOf(db.rows, dir).Ok? {
      var pending := Pending(db.rows, Files(dir));
      CommitAllEffects(WithTable(db), dir, pending[..Progress(pending, failing)]);
    }
  }

  /** An apply that is refused, as the status check refuses, changes no row and runs no script. */
  lemma RefusedApplyKeepsHistory(db: Db, dir: Dir, dryRun: bool, failing: set<string>)
    requires StatusOf(db.rows, dir).Err?
    ensures var (db', outcome) := Apply(db, dir, dryRun, failing);
      && outcome == Refused(StatusOf(db.rows, dir).error)
      && db'.rows == db.rows && db'.effects == db.effects
  {}

  /** What one committed script leaves behind: its text in the log, and a success row with its name parts. */
  lemma CommitRecords(db: Db, dir: Dir, file: string, version: string, title: string)
    requires Matches(file, version, title) && file in dir.text
    ensures var db' := Commit(db, dir, file);
      && db'.effects == db.effects + [Effect(file, dir.text[file])]
      && |db'.rows| == |db.rows| + 1 && db'.rows[..|db.rows|] == db.rows
      && var row := db'.rows[|db.rows|];
         && row.success && row.script == file && row.version == Some(version)
         && row.checksum == Some(Checksum(dir.text[file]))
         && |row.description| == |title|
         && forall i :: 0 <= i < |title| ==> row.description[i] == (if title[i] == '_' then ' ' else title[i])
  {
    hide Checksum, NextRank;
    DescriptionOfTitle(file, version, title);
  }

  lemma DescriptionOfTitle(file: string, version: string, title: string)
    requires Matches(file, version, title)
    ensures RawVersion(file) == version && DescriptionOf(file) == Spaces(title)
  {
    hide Scan, Spaces;
    ScanIsPattern(file, version, title);
  }

  // ------------------------------------------------------------------ repair

  lemma {:induction false} FileOfListedOnly(files: seq<string>, v: string)
    ensures FileOf(files, v).Some? ==> FileOf(files, v).value in files && RawVersion(FileOf(files, v).value) == v
    ensures FileOf(files, v).None? ==> forall f :: f in files ==> RawVersion(f) != v
  {
    hide RawVersion;
    if files != [] {
      FileOfListedOnly(files[..|files| - 1], v);
      assert files == files[..|files| - 1] + [files[|files| - 1]];
    }
  }

  /**
   * Where no two files have one version key, a repaired row carries the checksum of the listed file of its
   * version, if there is one, and is otherwise as it was.
   */
  lemma RepairRowExactly(row: Row, dir: Dir)
    requires row.success && DistinctKeys(Files(dir))
    ensures forall f :: f in Files(dir) && row.version == Some(RawVersion(f)) ==>
      RepairRow(row, dir) == row.(checksum := Some(Checksum(TextOf(dir, f))))
    ensures (forall f :: f in Files(dir) ==> row.version != Some(RawVersion(f))) ==> RepairRow(row, dir) == row
  {
    hide Files, Checksum, TextOf, RawVersion, DistinctKeys;
    if row.version.Some? {
      FileOfListedOnly(Files(dir), row.version.value);
      forall f | f in Files(dir) && row.version == Some(RawVersion(f))
        ensures FileOf(Files(dir), row.version.value) == Some(f)
      {
        ListedFileFound(dir, f);
      }
    }
  }

  lemma ListedFileFound(dir: Dir, f: string)
    requires DistinctKeys(Files(dir)) && f in Files(dir)
    ensures FileOf(Files(dir), RawVersion(f)) == Some(f)
  {
    ListedRawDistinct(dir);
    var i :| 0 <= i < |Files(dir)| && Files(dir)[i] == f;
    FileOfListed(Files(dir), i);
  }

  /** The successful rows, in order. */
  function Successes(rows: seq<Row>): seq<Row> {
    Filter(rows, (r: Row) => r.success)
  }

  /** A repair keeps every successful row, a row without a version included, in order, and drops the others. */
  lemma {:induction false} RepairKeepsSuccesses(rows: seq<Row>, dir: Dir)
    ensures |RepairRows(rows, dir)| == |Successes(rows)|
    ensures forall i :: 0 <= i < |Successes(rows)| ==> RepairRows(rows, dir)[i] == RepairRow(Successes(rows)[i], dir)
  {
    hide RepairRow;
    if rows != [] {
      var n := |rows| - 1;
      RepairKeepsSuccesses(rows[..n], dir);
      assert rows == rows[..n] + [rows[n]];
      FilterSnoc(rows[..n], rows[n], (r: Row) => r.success);
      SameFilter(rows, (r: Row) => r.success);
      SameFilter(rows[..n], (r: Row) => r.success);
    }
  }

  lemma SameFilter(rows: seq<Row>, keep: Row -> bool)
    requires forall r :: keep(r) == r.success
    ensures Filter(rows, keep) == Successes(rows)
  {
    FilterSame(rows, keep, (r: Row) => r.success);
  }

  predicate IsFailedRank(rows: seq<Row>, rank: int) {
    exists i :: 0 <= i < |rows| && rows[i].rank == rank && !rows[i].success
  }

  lemma FailedRankSnoc(rows: seq<Row>, row: Row, rank: int)
    ensures IsFailedRank(rows + [row], rank) <==> IsFailedRank(rows, rank) || (row.rank == rank && !row.success)
  {
    var all, n := rows + [row], |rows|;
    assert all[n] == row && forall i :: 0 <= i < n ==> all[i] == rows[i];
  }

  /** The ranks reported as removed are exactly those of the failed rows. */
  lemma {:induction false} RemovedExactly(rows: seq<Row>, rank: int)
    ensures rank in RemovedFailed(rows) <==> IsFailedRank(rows, rank)
  {
    hide IsFailedRank;
    if rows == [] {
      NoFailedRank(rank);
    } else {
      var n := |rows| - 1;
      RemovedExactly(rows[..n], rank);
      FailedRankSnoc(rows[..n], rows[n], rank);
      assert rows == rows[..n] + [rows[n]];
    }
  }

  lemma NoFailedRank(rank: int)
    ensures !IsFailedRank([], rank)
  {}

  /** They are reported in row order. */
  lemma {:induction false} RemovedInOrder(rows: seq<Row>)
    requires RanksIncrease(rows)
    ensures forall i, j :: 0 <= i < j < |RemovedFailed(rows)| ==> RemovedFailed(rows)[i] < RemovedFailed(rows)[j]
  {
    if rows != [] {
      var n := |rows| - 1;
      var front, removed := rows[..n], RemovedFailed(rows[..n]);
      RemovedInOrder(front);
      forall i | 0 <= i < |removed| ensures removed[i] < rows[n].rank {
        RemovedExactly(front, removed[i]);
        var j :| 0 <= j < |front| && front[j].rank == removed[i] && !front[j].success;
        assert rows[j] == front[j];
      }
    }
  }

  /** A successful row records the file's version with another checksum, or none. */
  predicate OutOfDate(row: Row, dir: Dir, f: string) {
    row.success && row.version == Some(RawVersion(f)) && row.checksum != Some(Checksum(TextOf(dir, f)))
  }

  /** The files reported as realigned are exactly the listed ones for which some row is out of date. */
  lemma {:induction false} RealignedExactly(rows: seq<Row>, dir: Dir)
    requires DistinctKeys(Files(dir))
    ensures forall f :: f in Realigned(rows, dir) <==>
      f in Files(dir) && exists i :: 0 <= i < |rows| && OutOfDate(rows[i], dir, f)
  {
    hide DistinctKeys, Files, OutOfDate, Realigns;
    if rows != [] {
      var n := |rows| - 1;
      var front := rows[..n];
      RealignedExactly(front, dir);
      RealignsExactly(rows[n], dir);
      forall f ensures f in Realigned(rows, dir) <==>
        f in Files(dir) && exists i :: 0 <= i < |rows| && OutOfDate(rows[i], dir, f)
      {
        if f in Realigned(front, dir) {
          var i :| 0 <= i < |front| && OutOfDate(front[i], dir, f);
          assert rows[i] == front[i];
        }
        if f in Files(dir) {
          if i :| 0 <= i < n && OutOfDate(rows[i], dir, f) {
            assert front[i] == rows[i];
          }
        }
      }
    }
  }

  lemma RealignsExactly(row: Row, dir: Dir)
    requires DistinctKeys(Files(dir))
    ensures forall f :: Realigns(row, dir) == Some(f) <==> f in Files(dir) && OutOfDate(row, dir, f)
  {
    hide Files, Checksum, TextOf, RawVersion, DistinctKeys;
    if row.success && row.version.Some? {
      FileOfListedOnly(Files(dir), row.version.value);
      forall f | f in Files(dir) && row.version == Some(RawVersion(f))
        ensures FileOf(Files(dir), row.version.value) == Some(f)
      {
        ListedFileFound(dir, f);
      }
    }
  }

  /** A repair that commits answers with both reports and touches nothing but the rows. */
  lemma RepairAnswers(db: Db, dir: Dir)
    requires DistinctKeys(Files(dir))
    ensures var (db', outcome) := Repair(db, dir, true);
      && outcome == Repaired(Realigned(db.rows, dir), RemovedFailed(db.rows))
      && db'.rows == RepairRows(db.rows, dir) && db'.effects == db.effects && db'.hasTable
  {}

  /** A repair that is refused, or that does not commit, leaves rows and effects as they are. */
  lemma FailedRepairKeepsHistory(db: Db, dir: Dir, commits: bool)
    requires !commits || !DistinctKeys(Files(dir))
    ensures var (db', outcome) := Repair(db, dir, commits);
      && db'.rows == db.rows && db'.effects == db.effects
      && outcome == if DistinctKeys(Files(dir)) then RolledBack else RepairRefused(CollisionIn(Files(dir)))
  {}
}
