/** What the inventory check reports: exactly the files that are missing and the originals that are back. */
module LegacyChecks {
  import opened LegacyDocs
  import opened LegacyInventory
  import opened LegacyTree
  import opened LegacyRules

  /** A Markdown file is one whose path ends in `.md`. */
  lemma MarkdownExactly(path: string)
    ensures IsMarkdown(path) <==> exists stem :: path == stem + ".md"
  {
    if IsMarkdown(path) {
      assert path == path[..|path| - 3] + ".md";
    }
    if stem :| path == stem + ".md" {
      assert path[|path| - 3..] == ".md";
    }
  }

  /** The row's file is not at its place. */
  predicate IsMissing(files: Files, row: Row) {
    row.location !in files
  }

  /** The file was moved and something is at its old place, other than an index file or a changelog. */
  predicate HasReturned(files: Files, row: Row) {
    row.location != row.path && row.path in files && !IsAllowedName(row.path)
  }

  /** The problems of some rows are exactly those of each row, and there are none only if no row has one. */
  lemma {:induction false} RowsReportExactly(files: Files, rows: seq<Row>)
    ensures forall r :: MissingAt(r) in AllProblems(files, rows) <==> r in rows && IsMissing(files, r)
    ensures forall r :: IsBack(r) in AllProblems(files, rows) <==> r in rows && HasReturned(files, r)
    ensures NoInventory !in AllProblems(files, rows) && NoRows !in AllProblems(files, rows)
    ensures AllProblems(files, rows) == [] <==> forall r :: r in rows ==> !IsMissing(files, r) && !HasReturned(files, r)
  {
    hide NameOf, IsAllowedName;
    if rows != [] {
      RowsReportExactly(files, rows[1..]);
      AllowedNameExactly(rows[0].path);
      assert rows == [rows[0]] + rows[1..];
      RowReports(files, rows[0]);
    }
  }

  lemma RowReports(files: Files, row: Row)
    ensures forall p :: p in RowProblems(files, row) <==>
      (p == MissingAt(row) && IsMissing(files, row)) || (p == IsBack(row) && HasReturned(files, row))
  {
    hide NameOf, IsAllowedName;
    AllowedNameExactly(row.path);
  }

  /** A tree whose inventory is the printed one of these files. */
  ghost predicate HoldsInventory(files: Files, paths: seq<string>, referenced: set<string>, w: Wording, t: Template) {
    && paths != [] && Clean(w) && (forall i :: 0 <= i < |paths| ==> Recordable(paths[i]))
    && INVENTORY in files && files[INVENTORY] == RenderInventory(Rows(paths, referenced, w), t)
  }

  lemma InventoryIsChecked(files: Files, paths: seq<string>, referenced: set<string>, w: Wording, t: Template)
    requires HoldsInventory(files, paths, referenced, w, t)
    ensures Problems(files) == AllProblems(files, Rows(paths, referenced, w))
  {
    hide Recordable, ParsedRows, SplitLines, RenderInventory, Clean, AllProblems;
    InventoryRoundTrip(paths, referenced, w, t);
  }

  /**
   * On a tree with a printed inventory the check passes exactly when every file is at its place and no original
   * is back, and otherwise names exactly the files that are not and the originals that are.
   */
  lemma CheckExactly(files: Files, paths: seq<string>, referenced: set<string>, w: Wording, t: Template)
    requires HoldsInventory(files, paths, referenced, w, t)
    ensures var rows := Rows(paths, referenced, w);
      && (Problems(files) == [] <==> forall r :: r in rows ==> !IsMissing(files, r) && !HasReturned(files, r))
      && (forall r :: MissingAt(r) in Problems(files) <==> r in rows && IsMissing(files, r))
      && (forall r :: IsBack(r) in Problems(files) <==> r in rows && HasReturned(files, r))
  {
    hide HoldsInventory, Problems, AllProblems, IsMissing, HasReturned, Rows;
    InventoryIsChecked(files, paths, referenced, w, t);
    RowsReportExactly(files, Rows(paths, referenced, w));
  }

  /** Without an inventory, or with one that holds no row, that alone is reported. */
  lemma NoInventoryReported(files: Files)
    ensures Problems(files) == [NoInventory] <==> INVENTORY !in files
    ensures Problems(files) == [NoRows] <==> INVENTORY in files && ParsedRows(SplitLines(files[INVENTORY])) == []
  {
    hide ParsedRows, SplitLines, AllProblems;
    if INVENTORY in files {
      var rows := ParsedRows(SplitLines(files[INVENTORY]));
      RowsReportExactly(files, rows);
      if rows != [] {
        assert NoRows in [NoRows] && NoInventory in [NoInventory];
      }
    }
  }

  /** An apply that goes through writes both reports. */
  lemma ReportsWritten(files: Files, rows: seq<Row>, t: Template, allowlist: string)
    requires Apply(files, rows, t, allowlist).1
    ensures var after := Apply(files, rows, t, allowlist).0;
      && INVENTORY in after && after[INVENTORY] == RenderInventory(rows, t)
      && ALLOWLIST in after && after[ALLOWLIST] == allowlist
  {
    hide RenderInventory, MoveAll;
    ReportsDiffer();
  }

  lemma AppliedHoldsInventory(files: Files, paths: seq<string>, referenced: set<string>, w: Wording, t: Template,
      allowlist: string)
    requires Tracked(paths, files) && paths != [] && Clean(w)
    requires forall i :: 0 <= i < |paths| ==> Recordable(paths[i])
    requires NoClash(files, Rows(paths, referenced, w))
    ensures HoldsInventory(Apply(files, Rows(paths, referenced, w), t, allowlist).0, paths, referenced, w, t)
  {
    hide Recordable, RenderInventory, Clean, Apply, NoClash, Rows, Tracked;
    ApplySucceedsExactly(files, paths, referenced, w, t, allowlist);
    ReportsWritten(files, Rows(paths, referenced, w), t, allowlist);
  }

  /** After an apply, removing any one inventoried file makes the check report that file. */
  lemma RemovalIsReported(files: Files, paths: seq<string>, referenced: set<string>, w: Wording, t: Template,
      allowlist: string, i: nat)
    requires Tracked(paths, files) && i < |paths| && Clean(w)
    requires forall j :: 0 <= j < |paths| ==> Recordable(paths[j])
    requires NoClash(files, Rows(paths, referenced, w))
    ensures var row := Rows(paths, referenced, w)[i];
      var after := Apply(files, Rows(paths, referenced, w), t, allowlist).0;
      MissingAt(row) in Problems(after - {row.location})
  {
    hide Recordable, RenderInventory, Clean, Apply, NoClash, RowOf, Problems, IsMarkdown, StartsWithAny;
    var rows := Rows(paths, referenced, w);
    var row, after := rows[i], Apply(files, rows, t, allowlist).0;
    AppliedHoldsInventory(files, paths, referenced, w, t, allowlist);
    ReportsAreNoPlaces(paths[i], referenced, w);
    var without := after - {row.location};
    assert HoldsInventory(without, paths, referenced, w, t);
    CheckExactly(without, paths, referenced, w, t);
    assert row in rows && IsMissing(without, row);
  }

  /** After an apply, a file put back where an archived one was is reported, unless its name is one of three. */
  lemma ReturnIsReported(files: Files, paths: seq<string>, referenced: set<string>, w: Wording, t: Template,
      allowlist: string, i: nat, text: string)
    requires Tracked(paths, files) && i < |paths| && Clean(w)
    requires forall j :: 0 <= j < |paths| ==> Recordable(paths[j])
    requires NoClash(files, Rows(paths, referenced, w)) && MovesAway(Rows(paths, referenced, w)[i])
    ensures var row := Rows(paths, referenced, w)[i];
      var after := Apply(files, Rows(paths, referenced, w), t, allowlist).0;
      IsBack(row) in Problems(after[row.path := text]) <==> !IsAllowedName(paths[i])
  {
    hide Recordable, RenderInventory, Clean, Apply, NoClash, RowOf, Problems, IsMarkdown, StartsWithAny;
    hide IsAllowedName;
    var rows := Rows(paths, referenced, w);
    var row, after := rows[i], Apply(files, rows, t, allowlist).0;
    AppliedHoldsInventory(files, paths, referenced, w, t, allowlist);
    PathOfRow(paths[i], referenced, w);
    MovedPathIsNoReport(paths[i], referenced, w);
    var returned := after[row.path := text];
    assert HoldsInventory(returned, paths, referenced, w, t);
    CheckExactly(returned, paths, referenced, w, t);
    assert row in rows;
  }
}
