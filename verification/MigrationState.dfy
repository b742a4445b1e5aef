/**
 * The migration engine as a state machine: what status, apply, repair and clean do to a database,
 * and what holds in every state that any run of them can reach.
 */
module MigrationState {
  import opened Wrappers
  import opened MigrationFiles
  import opened Checksums

  // ------------------------------------------------------------------ state

  /** A row of the history table. */
  datatype Row = Row(rank: int, version: Option<string>, description: string, script: string,
                     checksum: Option<int>, success: bool)

  /** A script whose transaction has committed since the last clean: its file and the text that ran. */
  datatype Effect = Effect(script: string, sql: string)

  /** The database: the history table, in rank order, and the committed scripts, in commit order. */
  datatype Db = Db(hasTable: bool, rows: seq<Row>, effects: seq<Effect>)

  const EMPTY := Db(false, [], [])

  /** A scripts directory: its entries in the order they are read, and their contents. */
  datatype RawDir = Dir(names: seq<string>, text: map<string, string>)

  type Dir = d: RawDir | forall n :: n in d.names ==> n in d.text witness Dir([], map[])

  function Files(dir: Dir): seq<string> {
    Listing(dir.names)
  }

  function TextOf(dir: Dir, file: string): string {
    if file in dir.text then dir.text[file] else ""
  }

  function CurrentChecksum(dir: Dir, file: string): int {
    Checksum(TextOf(dir, file))
  }

  // ------------------------------------------------------------------ status

  /** A successful row for the version `v`. */
  predicate Records(row: Row, v: string) {
    row.success && row.version == Some(v)
  }

  /** The last successful row for the version `v`: later rows replace earlier ones in the lookup. */
  function Latest(rows: seq<Row>, v: string): Option<Row> {
    if rows == [] then None
    else
      var n := |rows| - 1;
      if Records(rows[n], v) then Some(rows[n]) else Latest(rows[..n], v)
  }

  predicate IsApplied(rows: seq<Row>, file: string) {
    Latest(rows, RawVersion(file)).Some?
  }

  function Applied(rows: seq<Row>, files: seq<string>): seq<string> {
    if files == [] then []
    else (if IsApplied(rows, files[0]) then [files[0]] else []) + Applied(rows, files[1..])
  }

  function Pending(rows: seq<Row>, files: seq<string>): seq<string> {
    if files == [] then []
    else (if IsApplied(rows, files[0]) then [] else [files[0]]) + Pending(rows, files[1..])
  }

  /** The file is applied, and the recorded checksum is present and not that of the file as it is now. */
  predicate Mismatched(rows: seq<Row>, dir: Dir, file: string) {
    && IsApplied(rows, file)
    && Latest(rows, RawVersion(file)).value.checksum.Some?
    && Latest(rows, RawVersion(file)).value.checksum.value != CurrentChecksum(dir, file)
  }

  function FirstMismatch(rows: seq<Row>, dir: Dir, files: seq<string>): Option<string> {
    if files == [] then None
    else if Mismatched(rows, dir, files[0]) then Some(files[0])
    else FirstMismatch(rows, dir, files[1..])
  }

  datatype Status = Status(applied: seq<string>, pending: seq<string>)

  datatype Refusal = DuplicateVersions(collision: Collision) | ChecksumMismatch(file: string)

  /** What the status check answers on the rows `rows`. */
  function StatusOf(rows: seq<Row>, dir: Dir): Result<Status, Refusal> {
    if !DistinctKeys(Files(dir)) then Err(DuplicateVersions(CollisionIn(Files(dir))))
    else
      match FirstMismatch(rows, dir, Files(dir))
      case Some(file) => Err(ChecksumMismatch(file))
      case None => Ok(Status(Applied(rows, Files(dir)), Pending(rows, Files(dir))))
  }

  // ------------------------------------------------------------------ apply

  function MaxRank(rows: seq<Row>): Option<int> {
    if rows == [] then None
    else
      var last := rows[|rows| - 1].rank;
      match MaxRank(rows[..|rows| - 1])
      case None => Some(last)
      case Some(m) => Some(if last > m then last else m)
  }

  function NextRank(rows: seq<Row>): int {
    match MaxRank(rows)
    case None => 1
    case Some(m) => m + 1
  }

  function DescriptionOf(file: string): string {
    match ParseMigrationName(file)
    case None => ""
    case Some(m) => m.description
  }

  /** The row that records the successful run of a file. */
  function RowFor(rows: seq<Row>, dir: Dir, file: string): Row {
    Row(NextRank(rows), Some(RawVersion(file)), DescriptionOf(file), file, Some(CurrentChecksum(dir, file)), true)
  }

  /** One committed transaction: the script's effect and its row, together. */
  function Commit(db: Db, dir: Dir, file: string): Db {
    db.(rows := db.rows + [RowFor(db.rows, dir, file)], effects := db.effects + [Effect(file, TextOf(dir, file))])
  }

  function CommitAll(db: Db, dir: Dir, files: seq<string>): Db
    decreases files
  {
    if files == [] then db else CommitAll(Commit(db, dir, files[0]), dir, files[1..])
  }

  /** How many of the pending files commit before the first whose transaction fails. */
  function Progress(pending: seq<string>, failing: set<string>): (k: nat)
    ensures k <= |pending|
  {
    if pending == [] || pending[0] in failing then 0 else 1 + Progress(pending[1..], failing)
  }

  datatype ApplyOutcome =
    | Done(applied: seq<string>, skipped: seq<string>, dryRun: bool)
    | Refused(refusal: Refusal)
    | Failed(file: string)

  function WithTable(db: Db): Db {
    db.(hasTable := true)
  }

  /** `apply`, when the transactions of the files in `failing` do not commit. */
  function Apply(db: Db, dir: Dir, dryRun: bool, failing: set<string>): (Db, ApplyOutcome) {
    if !DistinctKeys(Files(dir)) then (db, Refused(DuplicateVersions(CollisionIn(Files(dir)))))
    else
      var db' := if dryRun then db else WithTable(db);
      match StatusOf(db.rows, dir)
      case Err(refusal) => (db', Refused(refusal))
      case Ok(Status(applied, pending)) =>
        if dryRun then (db, Done(pending, applied, true))
        else
          var k := Progress(pending, failing);
          (CommitAll(db', dir, pending[..k]),
           if k < |pending| then Failed(pending[k]) else Done(pending, applied, false))
  }

  // ------------------------------------------------------------------ repair

  /** The listed file of a version: the last one, were there several. */
  function FileOf(files: seq<string>, v: string): Option<string> {
    if files == [] then None
    else
      var n := |files| - 1;
      if RawVersion(files[n]) == v then Some(files[n]) else FileOf(files[..n], v)
  }

  /** The file a row's checksum has to be realigned to, if any. */
  function Realigns(row: Row, dir: Dir): Option<string> {
    if row.success && row.version.Some? then
      match FileOf(Files(dir), row.version.value)
      case None => None
      case Some(file) => if row.checksum == Some(CurrentChecksum(dir, file)) then None else Some(file)
    else None
  }

  function RepairRow(row: Row, dir: Dir): Row {
    match Realigns(row, dir)
    case None => row
    case Some(file) => row.(checksum := Some(CurrentChecksum(dir, file)))
  }

  function RepairRows(rows: seq<Row>, dir: Dir): seq<Row> {
    if rows == [] then []
    else
      var n := |rows| - 1;
      RepairRows(rows[..n], dir) + if rows[n].success then [RepairRow(rows[n], dir)] else []
  }

  function Realigned(rows: seq<Row>, dir: Dir): seq<string> {
    if rows == [] then []
    else
      var n := |rows| - 1;
      Realigned(rows[..n], dir) +
      match Realigns(rows[n], dir)
      case None => []
      case Some(file) => [file]
  }

  function RemovedFailed(rows: seq<Row>): seq<int> {
    if rows == [] then []
    else
      var n := |rows| - 1;
      RemovedFailed(rows[..n]) + if rows[n].success then [] else [rows[n].rank]
  }

  datatype RepairOutcome =
    | Repaired(realigned: seq<string>, removedFailed: seq<int>)
    | RepairRefused(collision: Collision)
    | RolledBack

  /** `repair`; its transaction either commits or leaves the rows alone. */
  function Repair(db: Db, dir: Dir, commits: bool): (Db, RepairOutcome) {
    if !DistinctKeys(Files(dir)) then (WithTable(db), RepairRefused(CollisionIn(Files(dir))))
    else if !commits then (WithTable(db), RolledBack)
    else (WithTable(db).(rows := RepairRows(db.rows, dir)), Repaired(Realigned(db.rows, dir), RemovedFailed(db.rows)))
  }

  // ------------------------------------------------------------------ runs

  /** Add a row where its rank puts it. */
  function AddRow(rows: seq<Row>, row: Row): seq<Row> {
    if rows == [] then [row]
    else
      var n := |rows| - 1;
      if rows[n].rank < row.rank then rows + [row] else AddRow(rows[..n], row) + [rows[n]]
  }

  /** A row that records a script as applied. */
  predicate Committed(row: Row) {
    row.success && row.version.Some?
  }

  datatype Step =
    | StatusStep(dir: Dir, createTable: bool)
    | ApplyStep(dir: Dir, dryRun: bool, failing: set<string>)
    | RepairStep(dir: Dir, commits: bool)
    | CleanStep(commits: bool)
    | OutsideRow(row: Row)

  /** Outside the program only failed rows and rows without a version appear, at ranks not yet taken. */
  function Next(db: Db, step: Step): Db {
    match step
    case StatusStep(dir, createTable) =>
      if createTable && DistinctKeys(Files(dir)) then WithTable(db) else db
    case ApplyStep(dir, dryRun, failing) => Apply(db, dir, dryRun, failing).0
    case RepairStep(dir, commits) => Repair(db, dir, commits).0
    case CleanStep(commits) => if commits then EMPTY else db
    case OutsideRow(row) =>
      if db.hasTable && !Committed(row) && (forall i :: 0 <= i < |db.rows| ==> db.rows[i].rank != row.rank)
      then db.(rows := AddRow(db.rows, row)) else db
  }

  function Run(db: Db, steps: seq<Step>): Db
    decreases steps
  {
    if steps == [] then db else Run(Next(db, steps[0]), steps[1..])
  }

  // ------------------------------------------------------------------ the invariant

  function CommittedRows(rows: seq<Row>): seq<Row> {
    if rows == [] then []
    else
      var n := |rows| - 1;
      CommittedRows(rows[..n]) + if Committed(rows[n]) then [rows[n]] else []
  }

  predicate RanksIncrease(rows: seq<Row>) {
    forall i, j :: 0 <= i < j < |rows| ==> rows[i].rank < rows[j].rank
  }

  /** Row by row, the history names the scripts that ran. */
  predicate Matching(rows: seq<Row>, effects: seq<Effect>) {
    && |rows| == |effects|
    && forall i :: 0 <= i < |rows| ==>
         rows[i].script == effects[i].script && rows[i].version == Some(RawVersion(effects[i].script))
  }

  predicate VersionsDiffer(effects: seq<Effect>) {
    forall i, j :: 0 <= i < j < |effects| ==> RawVersion(effects[i].script) != RawVersion(effects[j].script)
  }

  /**
   * The ranks are strictly increasing; the committed scripts are exactly those of the rows that record
   * an application, in rank order; and no version has been committed twice.
   */
  predicate Inv(db: Db) {
    && (!db.hasTable ==> db.rows == [])
    && RanksIncrease(db.rows)
    && Matching(CommittedRows(db.rows), db.effects)
    && VersionsDiffer(db.effects)
  }

  lemma {:induction false} MaxRankBounds(rows: seq<Row>)
    ensures forall i :: 0 <= i < |rows| ==> rows[i].rank < NextRank(rows)
  {
    if rows != [] {
      var n := |rows| - 1;
      MaxRankBounds(rows[..n]);
      assert forall i :: 0 <= i < n ==> rows[..n][i] == rows[i];
    }
  }

  /** The rank `r` is 1 in an empty table, and one above the largest rank otherwise. */
  predicate IsNextRank(rows: seq<Row>, r: int) {
    && (forall i :: 0 <= i < |rows| ==> rows[i].rank < r)
    && (rows == [] ==> r == 1)
    && (rows != [] ==> exists i :: 0 <= i < |rows| && rows[i].rank == r - 1)
  }

  /** There is just one such rank, and it is the one a new row gets. */
  lemma {:induction false} NextRankExactly(rows: seq<Row>, r: int)
    ensures IsNextRank(rows, r) <==> r == NextRank(rows)
  {
    MaxRankBounds(rows);
    if rows != [] {
      var i := MaxRankTaken(rows);
    }
  }

  lemma {:induction false} MaxRankTaken(rows: seq<Row>) returns (i: nat)
    requires rows != []
    ensures i < |rows| && rows[i].rank == NextRank(rows) - 1
  {
    var n := |rows| - 1;
    MaxRankNone(rows[..n]);
    match MaxRank(rows[..n])
    case None =>
      i := n;
    case Some(m) =>
      if rows[n].rank >= m {
        i := n;
      } else {
        i := MaxRankTaken(rows[..n]);
        assert rows[..n][i] == rows[i];
      }
  }

  lemma MaxRankNone(rows: seq<Row>)
    ensures MaxRank(rows) == None <==> rows == []
  {}

  /** Some application of the version `v` is on record. */
  predicate HasVersion(rows: seq<Row>, v: string) {
    exists i :: 0 <= i < |rows| && rows[i].version == Some(v)
  }

  lemma {:induction false} LatestIffRecorded(rows: seq<Row>, v: string)
    ensures Latest(rows, v).Some? <==> HasVersion(CommittedRows(rows), v)
    ensures Latest(rows, v).Some? ==> Latest(rows, v).value in rows && Records(Latest(rows, v).value, v)
  {
    if rows != [] {
      var n := |rows| - 1;
      LatestIffRecorded(rows[..n], v);
      var rest, all := CommittedRows(rows[..n]), CommittedRows(rows);
      assert forall i :: 0 <= i < |rest| ==> all[i] == rest[i];
      if Records(rows[n], v) {
        assert all[|rest|].version == Some(v);
      } else if HasVersion(all, v) {
        var i :| 0 <= i < |all| && all[i].version == Some(v);
        assert i < |rest|;
        assert rest[i].version == Some(v);
      }
    }
  }

  /** A script of the version `v` has been committed. */
  predicate Ran(effects: seq<Effect>, v: string) {
    exists i :: 0 <= i < |effects| && RawVersion(effects[i].script) == v
  }

  /** A listed file is pending exactly when no script of its version has been committed. */
  lemma PendingExactly(db: Db, file: string)
    requires Inv(db)
    ensures IsApplied(db.rows, file) <==> Ran(db.effects, RawVersion(file))
  {
    var v, rows := RawVersion(file), CommittedRows(db.rows);
    LatestIffRecorded(db.rows, v);
    if HasVersion(rows, v) {
      var i :| 0 <= i < |rows| && rows[i].version == Some(v);
      assert RawVersion(db.effects[i].script) == v;
    }
    if Ran(db.effects, v) {
      var i :| 0 <= i < |db.effects| && RawVersion(db.effects[i].script) == v;
      assert rows[i].version == Some(v);
    }
  }

  /** Committing a pending file keeps the invariant. */
  lemma CommitKeepsInv(db: Db, dir: Dir, file: string)
    requires Inv(db) && db.hasTable && !IsApplied(db.rows, file)
    ensures Inv(Commit(db, dir, file))
  {
    PendingExactly(db, file);
    hide RawVersion, CurrentChecksum, DescriptionOf, TextOf, NextRank, IsApplied, Ran, CommittedRows;
    hide RanksIncrease, Matching, VersionsDiffer;
    var row, effect := RowFor(db.rows, dir, file), Effect(file, TextOf(dir, file));
    MaxRankBounds(db.rows);
    RankAppended(db.rows, row);
    CommittedSnoc(db.rows, row);
    MatchAppended(CommittedRows(db.rows), db.effects, row, effect);
    NewVersionDiffers(db.effects, effect);
  }

  lemma RankAppended(rows: seq<Row>, row: Row)
    requires RanksIncrease(rows) && forall i :: 0 <= i < |rows| ==> rows[i].rank < row.rank
    ensures RanksIncrease(rows + [row])
  {}

  lemma MatchAppended(rows: seq<Row>, effects: seq<Effect>, row: Row, effect: Effect)
    requires Matching(rows, effects)
    requires row.script == effect.script && row.version == Some(RawVersion(effect.script))
    ensures Matching(rows + [row], effects + [effect])
  {
    hide RawVersion;
  }

  lemma CommittedSnoc(rows: seq<Row>, row: Row)
    ensures CommittedRows(rows + [row]) == CommittedRows(rows) + if Committed(row) then [row] else []
  {
    hide Committed;
    assert (rows + [row])[..|rows|] == rows;
  }

  lemma NewVersionDiffers(effects: seq<Effect>, effect: Effect)
    requires VersionsDiffer(effects) && !Ran(effects, RawVersion(effect.script))
    ensures VersionsDiffer(effects + [effect])
  {
    hide RawVersion;
    forall i, j | 0 <= i < j < |effects + [effect]|
      ensures RawVersion((effects + [effect])[i].script) != RawVersion((effects + [effect])[j].script)
    {
      if j == |effects| {
        assert effects[i] == (effects + [effect])[i];
      }
    }
  }

  lemma LatestAfterCommit(db: Db, dir: Dir, file: string, v: string)
    ensures Latest(Commit(db, dir, file).rows, v)
         == if v == RawVersion(file) then Some(RowFor(db.rows, dir, file)) else Latest(db.rows, v)
  {
    assert Commit(db, dir, file).rows[..|db.rows|] == db.rows;
  }

  predicate RawDistinct(files: seq<string>) {
    forall i, j :: 0 <= i < j < |files| ==> RawVersion(files[i]) != RawVersion(files[j])
  }

  lemma ListedRawDistinct(dir: Dir)
    requires DistinctKeys(Files(dir))
    ensures RawDistinct(Files(dir))
  {
    var files := Files(dir);
    forall i, j | 0 <= i < j < |files| ensures RawVersion(files[i]) != RawVersion(files[j]) {
      ListingComplete(dir.names, files[i]);
      ListingComplete(dir.names, files[j]);
      assert files[i] in multiset(files) && files[j] in multiset(files);
      RawVersionsDiffer(files, i, j);
    }
  }

  lemma {:induction false} PendingMembers(rows: seq<Row>, files: seq<string>)
    ensures forall f :: f in Pending(rows, files) <==> f in files && !IsApplied(rows, f)
    ensures forall f :: f in Applied(rows, files) <==> f in files && IsApplied(rows, f)
    ensures RawDistinct(files) ==> RawDistinct(Pending(rows, files))
  {
    if files != [] {
      PendingMembers(rows, files[1..]);
      var rest := Pending(rows, files[1..]);
      if RawDistinct(files) {
        forall j | 0 <= j < |rest| ensures RawVersion(files[0]) != RawVersion(rest[j]) {
          assert rest[j] in files[1..];
        }
      }
    }
  }

  lemma StaysPending(db: Db, dir: Dir, file: string, other: string)
    requires RawVersion(file) != RawVersion(other) && !IsApplied(db.rows, other)
    ensures !IsApplied(Commit(db, dir, file).rows, other)
  {
    LatestAfterCommit(db, dir, file, RawVersion(other));
  }

  /** Committing any part of what is pending, in order, keeps the invariant. */
  lemma {:induction false} CommitAllKeepsInv(db: Db, dir: Dir, files: seq<string>)
    requires Inv(db) && db.hasTable && RawDistinct(files)
    requires forall f :: f in files ==> !IsApplied(db.rows, f)
    ensures Inv(CommitAll(db, dir, files))
    decreases files
  {
    hide Inv, IsApplied;
    if files != [] {
      CommitKeepsInv(db, dir, files[0]);
      var db' := Commit(db, dir, files[0]);
      forall f | f in files[1..] ensures !IsApplied(db'.rows, f) {
        var j :| 0 <= j < |files[1..]| && files[1..][j] == f;
        assert files[j + 1] == f;
        StaysPending(db, dir, files[0], f);
      }
      CommitAllKeepsInv(db', dir, files[1..]);
    }
  }

  lemma {:induction false} RepairRowsOrigin(rows: seq<Row>, dir: Dir, row: Row)
    requires row in RepairRows(rows, dir)
    ensures exists j :: 0 <= j < |rows| && rows[j].success && row == RepairRow(rows[j], dir)
  {
    var n := |rows| - 1;
    if row in RepairRows(rows[..n], dir) {
      RepairRowsOrigin(rows[..n], dir, row);
      var j :| 0 <= j < n && rows[..n][j].success && row == RepairRow(rows[..n][j], dir);
      assert row == RepairRow(rows[j], dir);
    }
  }

  lemma {:induction false} RepairKeepsRanks(rows: seq<Row>, dir: Dir)
    requires RanksIncrease(rows)
    ensures RanksIncrease(RepairRows(rows, dir))
  {
    if rows != [] {
      var n := |rows| - 1;
      RepairKeepsRanks(rows[..n], dir);
      var rest := RepairRows(rows[..n], dir);
      forall i | 0 <= i < |rest| ensures rest[i].rank < rows[n].rank {
        RepairRowsOrigin(rows[..n], dir, rest[i]);
      }
    }
  }

  /** Repair keeps every row that records an application, apart from its checksum. */
  lemma {:induction false} RepairKeepsCommitted(rows: seq<Row>, dir: Dir)
    ensures |CommittedRows(RepairRows(rows, dir))| == |CommittedRows(rows)|
    ensures forall i :: 0 <= i < |CommittedRows(rows)| ==>
      CommittedRows(RepairRows(rows, dir))[i] == RepairRow(CommittedRows(rows)[i], dir)
  {
    if rows != [] {
      var n := |rows| - 1;
      RepairKeepsCommitted(rows[..n], dir);
      var rest := RepairRows(rows[..n], dir);
      RepairRowRecords(rows[n], dir);
      hide RepairRow, Committed;
      if rows[n].success {
        CommittedSnoc(rest, RepairRow(rows[n], dir));
      } else {
        assert RepairRows(rows, dir) == rest;
      }
    }
  }

  lemma RepairRowRecords(row: Row, dir: Dir)
    ensures Committed(RepairRow(row, dir)) == Committed(row)
    ensures !row.success ==> !Committed(row)
  {
    hide Files, CurrentChecksum;
  }

  lemma {:induction false} AddRowKeepsRanks(rows: seq<Row>, row: Row)
    requires RanksIncrease(rows)
    requires forall i :: 0 <= i < |rows| ==> rows[i].rank != row.rank
    ensures RanksIncrease(AddRow(rows, row))
    ensures forall r :: r in AddRow(rows, row) <==> r in rows || r == row
  {
    if rows != [] {
      var n := |rows| - 1;
      assert rows == rows[..n] + [rows[n]];
      if rows[n].rank >= row.rank {
        AddRowKeepsRanks(rows[..n], row);
        var rest := AddRow(rows[..n], row);
        forall i | 0 <= i < |rest| ensures rest[i].rank < rows[n].rank {
          assert rest[i] in rest;
        }
      }
    }
  }

  lemma {:induction false} AddRowKeepsCommitted(rows: seq<Row>, row: Row)
    requires !Committed(row)
    ensures CommittedRows(AddRow(rows, row)) == CommittedRows(rows)
  {
    hide Committed;
    if rows == [] || rows[|rows| - 1].rank < row.rank {
      assert rows == [] ==> rows + [row] == [row];
      CommittedSnoc(rows, row);
    } else {
      var n := |rows| - 1;
      AddRowKeepsCommitted(rows[..n], row);
      CommittedSnoc(AddRow(rows[..n], row), rows[n]);
    }
  }

  lemma ApplyKeepsInv(db: Db, dir: Dir, dryRun: bool, failing: set<string>)
    requires Inv(db)
    ensures Inv(Apply(db, dir, dryRun, failing).0)
  {
    if DistinctKeys(Files(dir)) && StatusOf(db.rows, dir).Ok? && !dryRun {
      var pending := Pending(db.rows, Files(dir));
      ListedRawDistinct(dir);
      PendingMembers(db.rows, Files(dir));
      CommitAllKeepsInv(WithTable(db), dir, pending[..Progress(pending, failing)]);
    }
  }

  /** Every step keeps the invariant. */
  lemma NextKeepsInv(db: Db, step: Step)
    requires Inv(db)
    ensures Inv(Next(db, step))
  {
    hide Apply, RawVersion, Files, DistinctKeys, RepairRow;
    match step
    case StatusStep(_, _) =>
    case ApplyStep(dir, dryRun, failing) => ApplyKeepsInv(db, dir, dryRun, failing);
    case RepairStep(dir, _) =>
      hide RanksIncrease, CommittedRows, RepairRows;
      RepairKeepsRanks(db.rows, dir);
      RepairKeepsCommitted(db.rows, dir);
      RepairKeepsMatch(CommittedRows(db.rows), CommittedRows(RepairRows(db.rows, dir)), db.effects, dir);
      RepairsNothing(dir);
    case CleanStep(_) =>
    case OutsideRow(row) =>
      if Next(db, step) != db {
        hide RanksIncrease, CommittedRows, AddRow, Matching, Committed;
        AddRowKeepsRanks(db.rows, row);
        AddRowKeepsCommitted(db.rows, row);
      }
  }

  lemma RepairsNothing(dir: Dir)
    ensures RepairRows([], dir) == []
  {}

  lemma RepairKeepsMatch(rows: seq<Row>, repaired: seq<Row>, effects: seq<Effect>, dir: Dir)
    requires Matching(rows, effects) && |repaired| == |rows|
    requires forall i :: 0 <= i < |rows| ==> repaired[i] == RepairRow(rows[i], dir)
    ensures Matching(repaired, effects)
  {
    hide RawVersion, Files, CurrentChecksum;
  }

  /** The invariant holds in every state that any run from an empty database reaches. */
  lemma {:induction false} ReachableInv(db: Db, steps: seq<Step>)
    requires Inv(db)
    ensures Inv(Run(db, steps))
    decreases steps
  {
    if steps != [] {
      NextKeepsInv(db, steps[0]);
      ReachableInv(Next(db, steps[0]), steps[1..]);
    }
  }
}
