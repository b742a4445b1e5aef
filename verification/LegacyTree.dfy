/** Applying the inventory to a file tree, and checking a tree against its inventory. */
module LegacyTree {
  import opened Text
  import opened LegacyDocs
  import opened LegacyInventory

  type Files = map<string, string>

  // ------------------------------------------------------------------ moving

  function Moved(files: Files, row: Row): Files
    requires row.path in files
  {
    (files - {row.path})[row.location := files[row.path]]
  }

  /** `git mv` refuses a missing source and an existing destination. */
  predicate CanMove(files: Files, row: Row) {
    row.path in files && row.location !in files
  }

  /** The tree after moving the rows that change place, in order, up to a refused move. */
  function MoveAll(files: Files, rows: seq<Row>): (Files, bool)
    decreases rows
  {
    if rows == [] then (files, true)
    else if rows[0].location == rows[0].path then MoveAll(files, rows[1..])
    else if !CanMove(files, rows[0]) then (files, false)
    else MoveAll(Moved(files, rows[0]), rows[1..])
  }

  /** The tree after an apply: all moves made, then both reports written. */
  function Apply(files: Files, rows: seq<Row>, t: Template, allowlist: string): (Files, bool) {
    var (moved, ok) := MoveAll(files, rows);
    if ok then (moved[INVENTORY := RenderInventory(rows, t)][ALLOWLIST := allowlist], true) else (moved, false)
  }

  // ------------------------------------------------------------------ checking

  datatype Problem = NoInventory | NoRows | MissingAt(row: Row) | IsBack(row: Row)

  function RowProblems(files: Files, row: Row): seq<Problem> {
    (if row.location in files then [] else [MissingAt(row)])
    + (if row.location != row.path && row.path in files && NameOf(row.path) !in ALWAYS_ALLOWED then [IsBack(row)]
       else [])
  }

  function AllProblems(files: Files, rows: seq<Row>): seq<Problem> {
    if rows == [] then [] else RowProblems(files, rows[0]) + AllProblems(files, rows[1..])
  }

  /** What the check reports about a tree. */
  function Problems(files: Files): seq<Problem> {
    if INVENTORY !in files then [NoInventory]
    else
      var rows := ParsedRows(SplitLines(files[INVENTORY]));
      if rows == [] then [NoRows] else AllProblems(files, rows)
  }

  /** A working tree whose files the inventory script moves, writes and checks. */
  class FileTree {
    var files: Files

    constructor (initial: Files)
      ensures files == initial
    {
      files := initial;
    }

    /** Move what is to be archived, file by file, then write both reports; a refused move ends it. */
    method ApplyInventory(paths: seq<string>, referenced: set<string>, w: Wording, t: Template,
        allowlist: seq<Row> -> string)
      returns (ok: bool)
      modifies this
      ensures (files, ok) ==
        Apply(old(files), Rows(paths, referenced, w), t, allowlist(Rows(paths, referenced, w)))
    {
      hide Rows, RenderInventory;
      var rows := Classify(paths, referenced, w);
      assert rows[0..] == rows;
      for i := 0 to |rows|
        invariant MoveAll(files, rows[i..]) == MoveAll(old(files), rows)
      {
        assert rows[i..][1..] == rows[i + 1..];
        var row := rows[i];
        if row.location != row.path {
          if !CanMove(files, row) {
            return false;
          }
          files := Moved(files, row);
        }
      }
      assert rows[|rows|..] == [];
      files := files[INVENTORY := RenderInventory(rows, t)];
      files := files[ALLOWLIST := allowlist(rows)];
      return true;
    }

    /** Verify the inventory in the tree against the tree. */
    method Check() returns (problems: seq<Problem>)
      ensures problems == Problems(files)
    {
      hide ParsedRows, SplitLines, RowProblems;
      if INVENTORY !in files {
        return [NoInventory];
      }
      var rows := ParseInventory(files[INVENTORY]);
      if |rows| == 0 {
        return [NoRows];
      }
      problems := [];
      assert rows[0..] == rows;
      for i := 0 to |rows|
        invariant problems + AllProblems(files, rows[i..]) == AllProblems(files, rows)
      {
        assert rows[i..][1..] == rows[i + 1..];
        problems := problems + RowProblems(files, rows[i]);
      }
      assert rows[|rows|..] == [];
      assert problems + [] == problems;
    }
  }

  // ------------------------------------------------------------------ the check passes after an apply

  predicate IsMarkdown(path: string) {
    |path| >= 3 && path[|path| - 3..] == ".md"
  }

  /** What the listing of tracked files gives: each Markdown file outside the excluded roots once. */
  predicate Tracked(paths: seq<string>, files: Files) {
    && (forall i, j :: 0 <= i < j < |paths| ==> paths[i] != paths[j])
    && (forall i :: 0 <= i < |paths| ==>
          paths[i] in files && IsMarkdown(paths[i]) && !StartsWithAny(paths[i], EXCLUDED_ROOTS))
  }

  predicate MovesAway(row: Row) {
    row.location != row.path
  }

  /** No archived file's destination is taken. */
  predicate NoClash(files: Files, rows: seq<Row>) {
    forall i :: 0 <= i < |rows| && MovesAway(rows[i]) ==> rows[i].location !in files
  }

  /** Rows of different files that never move into each other's places. */
  predicate Separate(rows: seq<Row>) {
    && (forall i, j :: 0 <= i < j < |rows| ==> rows[i].path != rows[j].path)
    && (forall i, j :: 0 <= i < j < |rows| && MovesAway(rows[i]) && MovesAway(rows[j]) ==>
          rows[i].location != rows[j].location)
    && (forall i, j :: 0 <= i < |rows| && 0 <= j < |rows| && MovesAway(rows[i]) ==> rows[i].location != rows[j].path)
  }

  predicate IsSource(rows: seq<Row>, p: string) {
    exists i :: 0 <= i < |rows| && rows[i].path == p
  }

  predicate IsDestination(rows: seq<Row>, p: string) {
    exists i :: 0 <= i < |rows| && MovesAway(rows[i]) && rows[i].location == p
  }

  /** Every row's file is at its place with its text. */
  predicate Placed(files: Files, moved: Files, rows: seq<Row>) {
    forall i :: 0 <= i < |rows| ==>
      rows[i].path in files && rows[i].location in moved && moved[rows[i].location] == files[rows[i].path]
  }

  /** No file that was moved is still at its old place. */
  predicate Gone(moved: Files, rows: seq<Row>) {
    forall i :: 0 <= i < |rows| && MovesAway(rows[i]) ==> rows[i].path !in moved
  }

  /** The files of no row are as they were. */
  predicate OthersKept(files: Files, moved: Files, rows: seq<Row>) {
    forall p :: p in files && !IsSource(rows, p) ==> p in moved && moved[p] == files[p]
  }

  predicate NothingElse(files: Files, moved: Files, rows: seq<Row>) {
    forall p :: p in moved ==> p in files || IsDestination(rows, p)
  }

  /** The rows' files are carried to their places and nothing else changes. */
  predicate Carried(files: Files, moved: Files, rows: seq<Row>) {
    Placed(files, moved, rows) && Gone(moved, rows) && OthersKept(files, moved, rows) && NothingElse(files, moved, rows)
  }

  lemma ConsSource(rows: seq<Row>, p: string)
    requires rows != []
    ensures IsSource(rows, p) <==> rows[0].path == p || IsSource(rows[1..], p)
    ensures IsDestination(rows, p) <==> (MovesAway(rows[0]) && rows[0].location == p) || IsDestination(rows[1..], p)
  {
    if i :| 0 <= i < |rows| && rows[i].path == p && i > 0 {
      assert rows[1..][i - 1].path == p;
    }
    if i :| 0 <= i < |rows| && MovesAway(rows[i]) && rows[i].location == p && i > 0 {
      assert rows[1..][i - 1].location == p;
    }
    if i :| 0 <= i < |rows[1..]| && rows[1..][i].path == p {
      assert rows[i + 1].path == p;
    }
    if i :| 0 <= i < |rows[1..]| && MovesAway(rows[1..][i]) && rows[1..][i].location == p {
      assert rows[i + 1].location == p;
    }
  }

  lemma CarriedStay(files: Files, moved: Files, rows: seq<Row>)
    requires Separate(rows) && rows != [] && !MovesAway(rows[0])
    requires rows[0].path in files && Carried(files, moved, rows[1..])
    ensures Carried(files, moved, rows)
  {
    var rest := rows[1..];
    assert forall i :: 0 < i < |rows| ==> rows[i] == rest[i - 1];
    assert !IsSource(rest, rows[0].path) by {
      assert forall i :: 0 <= i < |rest| ==> rest[i] == rows[i + 1];
    }
    forall p ensures IsSource(rows, p) <==> rows[0].path == p || IsSource(rest, p) { ConsSource(rows, p); }
    forall p ensures IsDestination(rows, p) <==> IsDestination(rest, p) { ConsSource(rows, p); }
  }

  lemma MovedAt(files: Files, row: Row, p: string)
    requires CanMove(files, row) && MovesAway(row)
    ensures p in Moved(files, row) <==> p == row.location || (p in files && p != row.path)
    ensures p in Moved(files, row) && p != row.location ==> Moved(files, row)[p] == files[p]
    ensures Moved(files, row)[row.location] == files[row.path]
  {}

  lemma CarriedMoveRows(files: Files, moved: Files, rows: seq<Row>)
    requires Separate(rows) && rows != [] && MovesAway(rows[0]) && CanMove(files, rows[0])
    requires forall i :: 0 <= i < |rows| ==> rows[i].path in files
    requires Carried(Moved(files, rows[0]), moved, rows[1..])
    ensures Placed(files, moved, rows) && Gone(moved, rows)
  {
    hide Moved;
    var row, rest := rows[0], rows[1..];
    assert forall i :: 0 <= i < |rest| ==> rest[i] == rows[i + 1];
    MovedAt(files, row, row.location);
    MovedAt(files, row, row.path);
    assert !IsSource(rest, row.location) && !IsDestination(rest, row.path);
    forall i | 0 <= i < |rows|
      ensures rows[i].location in moved && moved[rows[i].location] == files[rows[i].path]
      ensures MovesAway(rows[i]) ==> rows[i].path !in moved
    {
      if i > 0 {
        assert rest[i - 1] == rows[i];
        MovedAt(files, row, rows[i].path);
      }
    }
  }

  lemma CarriedMoveOthers(files: Files, moved: Files, rows: seq<Row>)
    requires rows != [] && MovesAway(rows[0]) && CanMove(files, rows[0])
    requires Carried(Moved(files, rows[0]), moved, rows[1..])
    ensures OthersKept(files, moved, rows) && NothingElse(files, moved, rows)
  {
    hide Moved, IsSource, IsDestination;
    var row := rows[0];
    forall p | p in files && !IsSource(rows, p) ensures p in moved && moved[p] == files[p] {
      ConsSource(rows, p);
      MovedAt(files, row, p);
    }
    forall p | p in moved && p !in files ensures IsDestination(rows, p) {
      ConsSource(rows, p);
      MovedAt(files, row, p);
    }
  }

  lemma CarriedMove(files: Files, moved: Files, rows: seq<Row>)
    requires Separate(rows) && rows != [] && MovesAway(rows[0]) && CanMove(files, rows[0])
    requires forall i :: 0 <= i < |rows| ==> rows[i].path in files
    requires Carried(Moved(files, rows[0]), moved, rows[1..])
    ensures Carried(files, moved, rows)
  {
    hide *;
    CarriedMoveRows(files, moved, rows);
    CarriedMoveOthers(files, moved, rows);
    CarriedIs(files, moved, rows);
  }

  lemma CarriedIs(files: Files, moved: Files, rows: seq<Row>)
    ensures Carried(files, moved, rows) <==>
      && Placed(files, moved, rows) && Gone(moved, rows)
      && OthersKept(files, moved, rows) && NothingElse(files, moved, rows)
  {}

  /** Moves all happen exactly when no destination is taken, and then carry every file to its row's place. */
  lemma {:induction false} MoveAllExactly(files: Files, rows: seq<Row>)
    requires Separate(rows) && forall i :: 0 <= i < |rows| ==> rows[i].path in files
    ensures MoveAll(files, rows).1 <==> NoClash(files, rows)
    ensures MoveAll(files, rows).1 ==> Carried(files, MoveAll(files, rows).0, rows)
    decreases rows
  {
    hide Carried;
    if rows == [] {
      CarriedNothing(files);
    } else {
      var row, rest := rows[0], rows[1..];
      assert forall i :: 0 <= i < |rest| ==> rest[i] == rows[i + 1];
      if !MovesAway(row) {
        MoveAllExactly(files, rest);
        AllOrRest(files, rows);
        if MoveAll(files, rows).1 {
          CarriedStay(files, MoveAll(files, rows).0, rows);
        }
      } else if CanMove(files, row) {
        var next := Moved(files, row);
        MoveAllExactly(next, rest);
        NoClashAfterMove(files, rows);
        if MoveAll(files, rows).1 {
          CarriedMove(files, MoveAll(files, rows).0, rows);
        }
      }
    }
  }

  lemma CarriedNothing(files: Files)
    ensures Carried(files, files, [])
  {}

  lemma AllOrRest(files: Files, rows: seq<Row>)
    requires rows != [] && !MovesAway(rows[0])
    ensures NoClash(files, rows) <==> NoClash(files, rows[1..])
  {
    assert forall i :: 0 < i < |rows| ==> rows[i] == rows[1..][i - 1];
    assert forall i :: 0 <= i < |rows[1..]| ==> rows[1..][i] == rows[i + 1];
  }

  lemma NoClashAfterMove(files: Files, rows: seq<Row>)
    requires Separate(rows) && rows != [] && MovesAway(rows[0]) && CanMove(files, rows[0])
    ensures NoClash(files, rows) <==> NoClash(Moved(files, rows[0]), rows[1..])
  {
    var next, rest := Moved(files, rows[0]), rows[1..];
    assert forall i :: 0 <= i < |rest| ==> rest[i] == rows[i + 1];
    forall i | 0 <= i < |rest| && MovesAway(rest[i])
      ensures rest[i].location in next <==> rows[i + 1].location in files
    {
      assert rows[i + 1].location != rows[0].path && rows[i + 1].location != rows[0].location;
    }
    if NoClash(next, rest) {
      forall i | 0 <= i < |rows| && MovesAway(rows[i]) ensures rows[i].location !in files {
        if i > 0 {
          assert rest[i - 1].location !in next;
        }
      }
    }
  }

  lemma LocationInArchive(path: string)
    ensures "docs/archive/" <= ArchiveLocation(path)
  {
    hide IndexOf;
    assert "docs/archive/repository/"[..13] == "docs/archive/";
  }

  lemma TrackedNotInArchive(path: string)
    requires !StartsWithAny(path, EXCLUDED_ROOTS)
    ensures !("docs/archive/" <= path)
  {
    assert EXCLUDED_ROOTS[2] == "docs/archive/";
  }

  lemma RowsSeparate(paths: seq<string>, files: Files, referenced: set<string>, w: Wording)
    requires Tracked(paths, files)
    ensures Separate(Rows(paths, referenced, w))
    ensures forall i :: 0 <= i < |paths| ==> Rows(paths, referenced, w)[i].path in files
  {
    hide RowOf, ArchiveLocation, InDocsFolder, StartsWithAny, IsMarkdown;
    var rows := Rows(paths, referenced, w);
    forall i | 0 <= i < |rows| ensures rows[i].path == paths[i] {
      PathOfRow(paths[i], referenced, w);
    }
    forall i, j | 0 <= i < j < |rows| && MovesAway(rows[i]) && MovesAway(rows[j])
      ensures rows[i].location != rows[j].location
    {
      if rows[i].location == rows[j].location {
        MovedInjective(paths[i], paths[j], referenced, w);
      }
    }
    forall i, j | 0 <= i < |rows| && 0 <= j < |rows| && MovesAway(rows[i]) ensures rows[i].location != rows[j].path {
      MovedComesFromDocs(paths[i], referenced, w);
      LocationInArchive(paths[i]);
      TrackedNotInArchive(paths[j]);
    }
  }

  /** An apply goes through exactly when no archived file's destination is taken. */
  lemma ApplySucceedsExactly(files: Files, paths: seq<string>, referenced: set<string>, w: Wording, t: Template,
      allowlist: string)
    requires Tracked(paths, files)
    ensures Apply(files, Rows(paths, referenced, w), t, allowlist).1 <==> NoClash(files, Rows(paths, referenced, w))
  {
    hide RenderInventory, NoClash, MoveAll;
    RowsSeparate(paths, files, referenced, w);
    MoveAllExactly(files, Rows(paths, referenced, w));
  }

  lemma MovedPathIsNoReport(path: string, referenced: set<string>, w: Wording)
    requires RowOf(path, referenced, w).location != path && IsMarkdown(path) && !StartsWithAny(path, EXCLUDED_ROOTS)
    ensures path != INVENTORY && path != ALLOWLIST
  {
    hide RowOf, StartsWithAny;
    TrackedNotInArchive(path);
    assert "docs/archive/" <= INVENTORY;
    assert ALLOWLIST[|ALLOWLIST| - 3..] == "txt";
  }

  lemma {:induction false} NoProblems(files: Files, rows: seq<Row>)
    requires forall i :: 0 <= i < |rows| ==>
      rows[i].location in files && (MovesAway(rows[i]) ==> rows[i].path !in files)
    ensures AllProblems(files, rows) == []
  {
    hide NameOf;
    if rows != [] {
      NoProblems(files, rows[1..]);
    }
  }

  /**
   * After an apply that goes through, on any tracked files the inventory can hold, the check reports no
   * problem.
   */
  lemma CheckPassesAfterApply(files: Files, paths: seq<string>, referenced: set<string>, w: Wording, t: Template,
      allowlist: string)
    requires Tracked(paths, files) && paths != [] && Clean(w)
    requires forall i :: 0 <= i < |paths| ==> Recordable(paths[i])
    requires NoClash(files, Rows(paths, referenced, w))
    ensures Problems(Apply(files, Rows(paths, referenced, w), t, allowlist).0) == []
  {
    hide RowOf, ParsedRows, SplitLines, RenderInventory, Clean, Recordable, IsMarkdown, StartsWithAny;
    hide NoClash, Separate, MoveAll;
    var rows := Rows(paths, referenced, w);
    RowsSeparate(paths, files, referenced, w);
    MoveAllExactly(files, rows);
    InventoryRoundTrip(paths, referenced, w, t);
    var moved := MoveAll(files, rows).0;
    var after := moved[INVENTORY := RenderInventory(rows, t)][ALLOWLIST := allowlist];
    assert INVENTORY != ALLOWLIST by { ReportsDiffer(); }
    forall i | 0 <= i < |rows|
      ensures rows[i].location in after && (MovesAway(rows[i]) ==> rows[i].path !in after)
    {
      PathOfRow(paths[i], referenced, w);
      if MovesAway(rows[i]) {
        MovedPathIsNoReport(paths[i], referenced, w);
      }
    }
    NoProblems(after, rows);
  }

  lemma ReportsDiffer()
    ensures INVENTORY != ALLOWLIST
  {
    assert INVENTORY[0] == 'd' && ALLOWLIST[0] == 's';
  }

  lemma OriginalOfRootFile(name: string)
    requires Free(name, '/') && name != "repository"
    ensures OriginalOf("docs/archive/" + name) == name + "/docs/"
  {
    var location := "docs/archive/" + name;
    assert location[13..] == name;
    IndexOfFirst(name, '/');
    assert name[..|name|] == name;
  }

  lemma InventoryIsNoOriginal()
    ensures !IsMarkdown(OriginalOf(INVENTORY))
  {
    hide OriginalOf;
    var name := "INVENTORY.md";
    assert INVENTORY == "docs/archive/" + name;
    assert name[0] == 'I' && "repository"[0] == 'r';
    OriginalOfRootFile(name);
    var back := name + "/docs/";
    assert back[|back| - 1] == '/' && ".md"[2] == 'd';
  }

  /** No row's place is one of the two reports. */
  lemma ReportsAreNoPlaces(path: string, referenced: set<string>, w: Wording)
    requires IsMarkdown(path) && !StartsWithAny(path, EXCLUDED_ROOTS)
    ensures RowOf(path, referenced, w).location != INVENTORY && RowOf(path, referenced, w).location != ALLOWLIST
  {
    hide RowOf, OriginalOf, ArchiveLocation, InDocsFolder, StartsWithAny;
    TrackedNotInArchive(path);
    assert "docs/archive/" <= INVENTORY;
    assert "docs/archive/"[0] == 'd' && ALLOWLIST[0] == 's';
    assert ALLOWLIST[|ALLOWLIST| - 3..] == "txt";
    if RowOf(path, referenced, w).location != path {
      MovedComesFromDocs(path, referenced, w);
      LocationInArchive(path);
      ArchiveInvertible(path);
      InventoryIsNoOriginal();
    }
  }

  /** No text is lost: after an apply every tracked file is found, unchanged, where its row says. */
  lemma ApplyKeepsTexts(files: Files, paths: seq<string>, referenced: set<string>, w: Wording, t: Template,
      allowlist: string, i: nat)
    requires Tracked(paths, files) && NoClash(files, Rows(paths, referenced, w)) && i < |paths|
    ensures var (after, _) := Apply(files, Rows(paths, referenced, w), t, allowlist);
      var place := Rows(paths, referenced, w)[i].location;
      place in after && after[place] == files[paths[i]]
  {
    hide RowOf, RenderInventory, NoClash, Separate, MoveAll, IsMarkdown, StartsWithAny;
    RowsSeparate(paths, files, referenced, w);
    MoveAllExactly(files, Rows(paths, referenced, w));
    PathOfRow(paths[i], referenced, w);
    ReportsAreNoPlaces(paths[i], referenced, w);
  }
}
