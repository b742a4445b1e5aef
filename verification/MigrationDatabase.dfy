/**
 * The database the migration client works on, with its transactions. Every method is proved to make
 * exactly the step of the state machine in `MigrationState`.
 */
module MigrationDatabase {
  import opened Wrappers
  import opened MigrationFiles
  import opened Checksums
  import opened MigrationState

  /** Where the transaction of a script fails: while the script runs, at the history row, or at COMMIT. */
  datatype Failure = InScript | AtHistoryRow | AtCommit

  function DeleteRank(rows: seq<Row>, rank: int): seq<Row> {
    if rows == [] then []
    else (if rows[0].rank == rank then [] else [rows[0]]) + DeleteRank(rows[1..], rank)
  }

  function UpdateChecksum(rows: seq<Row>, rank: int, checksum: int): seq<Row> {
    if rows == [] then []
    else [if rows[0].rank == rank then rows[0].(checksum := Some(checksum)) else rows[0]]
         + UpdateChecksum(rows[1..], rank, checksum)
  }

  predicate NoRank(rows: seq<Row>, rank: int) {
    forall i :: 0 <= i < |rows| ==> rows[i].rank != rank
  }

  lemma {:induction false} DeletesOneRow(a: seq<Row>, row: Row, b: seq<Row>)
    requires NoRank(a, row.rank) && NoRank(b, row.rank)
    ensures DeleteRank(a + [row] + b, row.rank) == a + b
  {
    if a == [] {
      assert (a + [row] + b)[1..] == b;
      EditsNoRow(b, row.rank, 0);
    } else {
      assert (a + [row] + b)[1..] == a[1..] + [row] + b;
      DeletesOneRow(a[1..], row, b);
    }
  }

  lemma {:induction false} UpdatesOneRow(a: seq<Row>, row: Row, b: seq<Row>, checksum: int)
    requires NoRank(a, row.rank) && NoRank(b, row.rank)
    ensures UpdateChecksum(a + [row] + b, row.rank, checksum) == a + [row.(checksum := Some(checksum))] + b
  {
    if a == [] {
      assert (a + [row] + b)[1..] == b;
      EditsNoRow(b, row.rank, checksum);
    } else {
      assert (a + [row] + b)[1..] == a[1..] + [row] + b;
      UpdatesOneRow(a[1..], row, b, checksum);
    }
  }

  lemma {:induction false} EditsNoRow(rows: seq<Row>, rank: int, checksum: int)
    requires NoRank(rows, rank)
    ensures DeleteRank(rows, rank) == rows
    ensures UpdateChecksum(rows, rank, checksum) == rows
  {
    if rows != [] {
      EditsNoRow(rows[1..], rank, checksum);
    }
  }

  lemma CommitNothing(db: Db, dir: Dir)
    ensures CommitAll(db, dir, []) == db
  {}

  lemma PartitionNext(rows: seq<Row>, dir: Dir, files: seq<string>, i: nat)
    requires i < |files|
    ensures Applied(rows, files[i..])
         == (if IsApplied(rows, files[i]) then [files[i]] else []) + Applied(rows, files[i + 1..])
    ensures Pending(rows, files[i..])
         == (if IsApplied(rows, files[i]) then [] else [files[i]]) + Pending(rows, files[i + 1..])
    ensures FirstMismatch(rows, dir, files[i..])
         == if Mismatched(rows, dir, files[i]) then Some(files[i]) else FirstMismatch(rows, dir, files[i + 1..])
  {
    hide IsApplied, Mismatched;
    assert files[i..][1..] == files[i + 1..];
  }

  lemma PartitionEnd(rows: seq<Row>, dir: Dir, files: seq<string>)
    ensures Applied(rows, files[|files|..]) == Pending(rows, files[|files|..]) == []
    ensures FirstMismatch(rows, dir, files[|files|..]) == None
  {}

  class Database {
    var hasTable: bool
    var rows: seq<Row>
    var effects: seq<Effect>
    /** What ROLLBACK returns to, while a transaction is open. */
    var saved: Option<Db>

    function State(): Db
      reads this
    {
      Db(hasTable, rows, effects)
    }

    /** No transaction is open; a missing table holds no rows; ranks are a primary key, read in order. */
    predicate Valid()
      reads this
    {
      saved == None && (!hasTable ==> rows == []) && RanksIncrease(rows)
    }

    constructor ()
      ensures Valid() && State() == EMPTY
    {
      hasTable, rows, effects, saved := false, [], [], None;
    }

    method Begin()
      requires saved == None
      modifies this
      ensures saved == Some(old(State())) && State() == old(State())
    {
      saved := Some(State());
    }

    method CommitTransaction()
      modifies this
      ensures saved == None && State() == old(State())
    {
      saved := None;
    }

    method Rollback()
      requires saved.Some?
      modifies this
      ensures saved == None && State() == old(saved).value
    {
      hasTable, rows, effects := saved.value.hasTable, saved.value.rows, saved.value.effects;
      saved := None;
    }

    method EnsureHistoryTable()
      requires Valid()
      modifies this
      ensures Valid() && State() == WithTable(old(State()))
    {
      hasTable := true;
    }

    /** The history rows in rank order; none when there is no table. */
    method FetchApplied(createTable: bool) returns (applied: seq<Row>)
      requires Valid()
      modifies this
      ensures Valid() && State() == if createTable then WithTable(old(State())) else old(State())
      ensures applied == rows
    {
      if createTable {
        EnsureHistoryTable();
      }
      if !hasTable {
        return [];
      }
      return rows;
    }

    /** The successful rows by version; a later row replaces an earlier one of the same version. */
    static method RowsByVersion(applied: seq<Row>) returns (byVersion: map<string, Row>)
      ensures forall v :: v in byVersion <==> Latest(applied, v).Some?
      ensures forall v :: v in byVersion ==> Latest(applied, v) == Some(byVersion[v])
    {
      byVersion := map[];
      for i := 0 to |applied|
        invariant forall v :: v in byVersion <==> Latest(applied[..i], v).Some?
        invariant forall v :: v in byVersion ==> Latest(applied[..i], v) == Some(byVersion[v])
      {
        assert applied[..i + 1][..i] == applied[..i];
        var row := applied[i];
        if row.version.Some? && row.success {
          byVersion := byVersion[row.version.value := row];
        }
      }
      assert applied[..|applied|] == applied;
    }

    /** Which files are applied and which are pending, or why the directory is refused. */
    method GetMigrationStatus(dir: Dir, createTable: bool) returns (r: Result<Status, Refusal>)
      requires Valid()
      modifies this
      ensures Valid() && State() == Next(old(State()), StatusStep(dir, createTable))
      ensures r == StatusOf(old(rows), dir)
    {
      var listing := ListMigrationFiles(dir.names);
      if listing.Err? {
        return Err(DuplicateVersions(listing.error));
      }
      var files := listing.value;
      var appliedRows := FetchApplied(createTable);
      var byVersion := RowsByVersion(appliedRows);
      r := Partition(dir, files, appliedRows, byVersion);
    }

    /** The status loop: sort the files into applied and pending, and stop at the first edited one. */
    static method Partition(dir: Dir, files: seq<string>, appliedRows: seq<Row>, byVersion: map<string, Row>)
      returns (r: Result<Status, Refusal>)
      requires forall v :: v in byVersion <==> Latest(appliedRows, v).Some?
      requires forall v :: v in byVersion ==> Latest(appliedRows, v) == Some(byVersion[v])
      ensures r == match FirstMismatch(appliedRows, dir, files) {
                     case Some(file) => Err(ChecksumMismatch(file))
                     case None => Ok(Status(Applied(appliedRows, files), Pending(appliedRows, files)))
                   }
    {
      hide Checksum, TextOf, RawVersion, Latest, Applied, Pending, FirstMismatch;
      var applied, pending := [], [];
      assert files[0..] == files;
      for i := 0 to |files|
        invariant applied + Applied(appliedRows, files[i..]) == Applied(appliedRows, files)
        invariant pending + Pending(appliedRows, files[i..]) == Pending(appliedRows, files)
        invariant FirstMismatch(appliedRows, dir, files[i..]) == FirstMismatch(appliedRows, dir, files)
      {
        var file := files[i];
        PartitionNext(appliedRows, dir, files, i);
        var version := RawVersion(file);
        if version !in byVersion {
          pending := pending + [file];
        } else {
          applied := applied + [file];
          var checksum := ComputeChecksum(TextOf(dir, file));
          var row := byVersion[version];
          if row.checksum.Some? && row.checksum.value != checksum {
            return Err(ChecksumMismatch(file));
          }
        }
      }
      PartitionEnd(appliedRows, dir, files);
      assert applied + [] == applied && pending + [] == pending;
      return Ok(Status(applied, pending));
    }

    /** The rank for a new row: above all ranks in the table, and no higher than it has to be. */
    method NextInstalledRank() returns (rank: int)
      ensures forall i :: 0 <= i < |rows| ==> rows[i].rank < rank
      ensures rows == [] ==> rank == 1
      ensures rows != [] ==> exists i :: 0 <= i < |rows| && rows[i].rank == rank - 1
    {
      rank := NextRank(rows);
      NextRankExactly(rows, rank);
    }

    /** Run one script and record it, in one transaction: both happen or neither does. */
    method ApplyOneFile(dir: Dir, file: string, failure: Option<Failure>) returns (ok: bool)
      requires Valid() && hasTable
      modifies this
      ensures Valid() && hasTable
      ensures ok <==> failure == None
      ensures State() == if failure == None then Commit(old(State()), dir, file) else old(State())
    {
      var sql := TextOf(dir, file);
      var checksum := ComputeChecksum(sql);
      Begin();
      effects := effects + [Effect(file, sql)];
      if failure == Some(InScript) {
        Rollback();
        return false;
      }
      var rank := NextInstalledRank();
      MaxRankBounds(rows);
      NextRankExactly(rows, rank);
      rows := rows + [Row(rank, Some(RawVersion(file)), DescriptionOf(file), file, Some(checksum), true)];
      if failure.Some? {
        Rollback();
        return false;
      }
      CommitTransaction();
      return true;
    }

    /** Apply the pending files in order, up to the first whose transaction fails. */
    method ApplyPendingMigrations(dir: Dir, dryRun: bool, failures: map<string, Failure>) returns (r: ApplyOutcome)
      requires Valid()
      modifies this
      ensures Valid()
      ensures (State(), r) == Apply(old(State()), dir, dryRun, failures.Keys)
    {
      hide FirstMismatch, CommitAll, Listing, DistinctKeys;
      var status := GetMigrationStatus(dir, !dryRun);
      if status.Err? {
        return Refused(status.error);
      }
      var pending := status.value.pending;
      if pending == [] {
        CommitNothing(State(), dir);
        return Done([], status.value.applied, dryRun);
      }
      if dryRun {
        return Done(pending, status.value.applied, true);
      }
      EnsureHistoryTable();
      var count := ApplyFiles(dir, pending, failures);
      if count < |pending| {
        return Failed(pending[count]);
      }
      assert pending[..|pending|] == pending;
      return Done(pending[..count], status.value.applied, false);
    }

    /** The apply loop: commit file after file and stop at the first failure. */
    method ApplyFiles(dir: Dir, pending: seq<string>, failures: map<string, Failure>) returns (count: nat)
      requires Valid() && hasTable
      modifies this
      ensures Valid()
      ensures count == Progress(pending, failures.Keys)
      ensures State() == CommitAll(old(State()), dir, pending[..count])
    {
      hide RawVersion, TextOf, Checksum, DescriptionOf, NextRank, Commit;
      ghost var k := Progress(pending, failures.Keys);
      count := 0;
      while count < |pending|
        invariant Valid() && hasTable && count <= k
        invariant Progress(pending[count..], failures.Keys) == k - count
        invariant CommitAll(State(), dir, pending[count..k]) == CommitAll(old(State()), dir, pending[..k])
        decreases |pending| - count
      {
        var file := pending[count];
        assert pending[count..][0] == file && pending[count..][1..] == pending[count + 1..];
        var ok := ApplyOneFile(dir, file, if file in failures then Some(failures[file]) else None);
        if !ok {
          return;
        }
        assert pending[count..k][0] == file && pending[count..k][1..] == pending[count + 1..k];
        count := count + 1;
      }
    }

    /** The listed files by version. */
    static method FilesByVersion(files: seq<string>) returns (byVersion: map<string, string>)
      ensures forall v :: v in byVersion <==> FileOf(files, v).Some?
      ensures forall v :: v in byVersion ==> FileOf(files, v) == Some(byVersion[v])
    {
      byVersion := map[];
      for i := 0 to |files|
        invariant forall v :: v in byVersion <==> FileOf(files[..i], v).Some?
        invariant forall v :: v in byVersion ==> FileOf(files[..i], v) == Some(byVersion[v])
      {
        assert files[..i + 1][..i] == files[..i];
        byVersion := byVersion[RawVersion(files[i]) := files[i]];
      }
      assert files[..|files|] == files;
    }

    /** Repair one row of the table: delete it if it failed, else realign its checksum to its file. */
    method RepairOne(dir: Dir, row: Row, byVersion: map<string, string>, ghost before: seq<Row>, ghost after: seq<Row>)
      returns (realigned: Option<string>)
      requires rows == before + [row] + after && NoRank(before, row.rank) && NoRank(after, row.rank)
      requires forall v :: v in byVersion <==> FileOf(Files(dir), v).Some?
      requires forall v :: v in byVersion ==> FileOf(Files(dir), v) == Some(byVersion[v])
      modifies this`rows
      ensures rows == before + (if row.success then [RepairRow(row, dir)] else []) + after
      ensures realigned == Realigns(row, dir)
    {
      hide Checksum, TextOf, FileOf, Files, DeleteRank, UpdateChecksum, NoRank;
      realigned := None;
      if !row.success {
        DeletesOneRow(before, row, after);
        rows := DeleteRank(rows, row.rank);
        assert before + [] + after == before + after;
        return;
      }
      if row.version.Some? && row.version.value in byVersion {
        var file := byVersion[row.version.value];
        var checksum := ComputeChecksum(TextOf(dir, file));
        if row.checksum != Some(checksum) {
          UpdatesOneRow(before, row, after, checksum);
          rows := UpdateChecksum(rows, row.rank, checksum);
          realigned := Some(file);
        }
      }
    }

    /** The repair loop over the rows as they were read. */
    method RepairEach(dir: Dir, applied: seq<Row>, byVersion: map<string, string>)
      returns (realigned: seq<string>, removedFailed: seq<int>)
      requires rows == applied && RanksIncrease(applied)
      requires forall v :: v in byVersion <==> FileOf(Files(dir), v).Some?
      requires forall v :: v in byVersion ==> FileOf(Files(dir), v) == Some(byVersion[v])
      modifies this`rows
      ensures rows == RepairRows(applied, dir)
      ensures realigned == Realigned(applied, dir) && removedFailed == RemovedFailed(applied)
    {
      hide FileOf, Files, NoRank, RepairRow, Realigns, RanksIncrease, RepairRows, Realigned, RemovedFailed;
      RepairNothing(dir);
      realigned, removedFailed := [], [];
      assert applied[..0] == [] && applied[0..] == applied && [] + applied == applied;
      for i := 0 to |applied|
        invariant rows == RepairRows(applied[..i], dir) + applied[i..]
        invariant realigned == Realigned(applied[..i], dir)
        invariant removedFailed == RemovedFailed(applied[..i])
      {
        var row := applied[i];
        RepairNext(applied, dir, i);
        RanksBefore(applied, dir, i);
        assert rows == RepairRows(applied[..i], dir) + [row] + applied[i + 1..];
        var file := RepairOne(dir, row, byVersion, RepairRows(applied[..i], dir), applied[i + 1..]);
        if file.Some? {
          realigned := realigned + [file.value];
        }
        if !row.success {
          removedFailed := removedFailed + [row.rank];
        }
      }
      assert applied[..|applied|] == applied;
      assert RepairRows(applied, dir) + [] == RepairRows(applied, dir);
    }

    /** Delete the failed rows and bring the other checksums up to date, all or nothing. */
    method RepairHistory(dir: Dir, commits: bool) returns (r: RepairOutcome)
      requires Valid()
      modifies this
      ensures Valid()
      ensures (State(), r) == Repair(old(State()), dir, commits)
    {
      hide FileOf, Listing, DistinctKeys, RanksIncrease, RepairRows, Realigned, RemovedFailed;
      var applied := FetchApplied(true);
      var listing := ListMigrationFiles(dir.names);
      if listing.Err? {
        return RepairRefused(listing.error);
      }
      var byVersion := FilesByVersion(listing.value);
      Begin();
      var realigned, removedFailed := RepairEach(dir, applied, byVersion);
      if !commits {
        Rollback();
        return RolledBack;
      }
      RepairKeepsRanks(applied, dir);
      CommitTransaction();
      return Repaired(realigned, removedFailed);
    }

    /** Forget all effects and the whole history, all or nothing. */
    method CleanDatabase(commits: bool)
      requires Valid()
      modifies this
      ensures Valid() && State() == Next(old(State()), CleanStep(commits))
      ensures commits ==> !hasTable && rows == [] && effects == []
      ensures !commits ==> State() == old(State())
    {
      Begin();
      effects := [];
      hasTable, rows := false, [];
      if commits {
        CommitTransaction();
      } else {
        Rollback();
      }
    }
  }

  lemma RepairNothing(dir: Dir)
    ensures RepairRows([], dir) == [] && Realigned([], dir) == [] && RemovedFailed([]) == []
  {}

  /** What one more row adds to the repaired rows and to the two reports. */
  lemma RepairNext(applied: seq<Row>, dir: Dir, i: nat)
    requires i < |applied|
    ensures var row := applied[i];
      && applied[i..] == [row] + applied[i + 1..]
      && RepairRows(applied[..i + 1], dir)
         == RepairRows(applied[..i], dir) + (if row.success then [RepairRow(row, dir)] else [])
      && Realigned(applied[..i + 1], dir)
         == Realigned(applied[..i], dir) + (match Realigns(row, dir) { case None => [] case Some(file) => [file] })
      && RemovedFailed(applied[..i + 1]) == RemovedFailed(applied[..i]) + (if row.success then [] else [row.rank])
  {
    hide RepairRow, Realigns;
    assert applied[..i + 1][..i] == applied[..i];
  }

  /** What is already repaired and what is still to come leave the rank of row `i` to it alone. */
  lemma RanksBefore(applied: seq<Row>, dir: Dir, i: nat)
    requires RanksIncrease(applied) && i < |applied|
    ensures NoRank(RepairRows(applied[..i], dir), applied[i].rank) && NoRank(applied[i + 1..], applied[i].rank)
  {
    var rest := RepairRows(applied[..i], dir);
    forall j | 0 <= j < |rest| ensures rest[j].rank != applied[i].rank {
      RepairRowsOrigin(applied[..i], dir, rest[j]);
    }
  }
}
