/** Writing the documentation inventory, moving the archived files, and checking the result. */
module LegacyInventory {
  import opened Text
  import opened Wrappers
  import opened LegacyDocs

  // ------------------------------------------------------------------ lines

  /** The characters at which `splitlines` breaks. */
  predicate IsBreak(c: char) {
    || 0x0A <= c as int <= 0x0D || 0x1C <= c as int <= 0x1E
    || c == '\U{85}' || c == '\U{2028}' || c == '\U{2029}'
  }

  predicate NoBreaks(s: string) {
    forall i :: 0 <= i < |s| ==> !IsBreak(s[i])
  }

  function FirstBreak(s: string): (i: nat)
    ensures i <= |s| && NoBreaks(s[..i]) && (i < |s| ==> IsBreak(s[i]))
  {
    if s == "" || IsBreak(s[0]) then 0 else 1 + FirstBreak(s[1..])
  }

  /** The lines of a text; CR LF is one break, and a final break ends the last line. */
  function SplitLines(s: string): seq<string>
    decreases |s|
  {
    var i := FirstBreak(s);
    if s == "" then []
    else if i == |s| then [s]
    else if s[i] == '\r' && i + 1 < |s| && s[i + 1] == '\n' then [s[..i]] + SplitLines(s[i + 2..])
    else [s[..i]] + SplitLines(s[i + 1..])
  }

  predicate AllLines(lines: seq<string>) {
    forall i :: 0 <= i < |lines| ==> NoBreaks(lines[i])
  }

  lemma {:induction false} SplitLinesClean(s: string)
    ensures AllLines(SplitLines(s))
    decreases |s|
  {
    hide IsBreak;
    var i := FirstBreak(s);
    if s != "" && i < |s| {
      if s[i] == '\r' && i + 1 < |s| && s[i + 1] == '\n' {
        SplitLinesClean(s[i + 2..]);
      } else {
        SplitLinesClean(s[i + 1..]);
      }
    }
  }

  lemma FirstBreakAt(line: string, rest: string)
    requires NoBreaks(line)
    ensures FirstBreak(line + "\n" + rest) == |line|
  {
    var s := line + "\n" + rest;
    assert s[|line|] == '\n';
    var i := FirstBreak(s);
    assert forall k :: 0 <= k < i ==> s[k] == s[..i][k];
    assert forall k :: 0 <= k < |line| ==> s[k] == line[k];
  }

  lemma SplitLinesCons(line: string, rest: string)
    requires NoBreaks(line)
    ensures SplitLines(line + "\n" + rest) == [line] + SplitLines(rest)
  {
    hide IsBreak, NoBreaks;
    var s := line + "\n" + rest;
    FirstBreakAt(line, rest);
    assert s[|line|] == '\n';
    assert s[|line| + 1..] == rest && s[..|line|] == line;
  }

  /** Lines that hold no break come back from their text. */
  lemma {:induction false} SplitJoinedLines(lines: seq<string>)
    requires |lines| >= 1 && AllLines(lines)
    ensures SplitLines(Join(lines, "\n") + "\n") == lines
  {
    hide NoBreaks, SplitLines;
    if |lines| == 1 {
      SplitLinesCons(lines[0], "");
      assert lines[0] + "\n" == lines[0] + "\n" + "";
      SplitLinesNothing();
    } else {
      SplitJoinedLines(lines[1..]);
      var rest := Join(lines[1..], "\n") + "\n";
      SplitLinesCons(lines[0], rest);
      assert Join(lines, "\n") + "\n" == lines[0] + "\n" + rest;
      assert lines == [lines[0]] + lines[1..];
    }
  }

  lemma SplitLinesNothing()
    ensures SplitLines("") == []
  {}

  // ------------------------------------------------------------------ the inventory text

  function CountOf(rows: seq<Row>, d: Disposition): nat {
    if rows == [] then 0 else (if rows[0].disposition == d then 1 else 0) + CountOf(rows[1..], d)
  }

  function CountLine(rows: seq<Row>): string {
    "**" + Decimal(|rows|) + " files** — " + Decimal(CountOf(rows, Keep)) + " kept, "
    + Decimal(CountOf(rows, Migrate)) + " migrated, " + Decimal(CountOf(rows, Archive)) + " archived."
  }

  /** A line of fixed wording: no break in it, and not of the form of a row. */
  predicate HeaderLine(line: string) {
    NoBreaks(line) && (|line| < 3 || line[2] != '`')
  }

  predicate HeaderLines(lines: seq<string>) {
    forall i :: 0 <= i < |lines| ==> HeaderLine(lines[i])
  }

  /** The fixed wording around the counts: the title and introduction, then the legend and the table head. */
  type FixedLines = lines: seq<string> | HeaderLines(lines) witness []

  datatype Template = Template(introduction: FixedLines, legend: FixedLines)

  function Header(rows: seq<Row>, t: Template): seq<string> {
    t.introduction + [CountLine(rows)] + t.legend
  }

  function RenderedRows(rows: seq<Row>): (lines: seq<string>)
    ensures |lines| == |rows|
    ensures forall i :: 0 <= i < |rows| ==> lines[i] == RenderRow(rows[i])
  {
    seq(|rows|, i requires 0 <= i < |rows| => RenderRow(rows[i]))
  }

  /** The inventory's text. */
  function RenderInventory(rows: seq<Row>, t: Template): string {
    Join(Header(rows, t) + RenderedRows(rows), "\n") + "\n"
  }

  /** The rows among some lines, in order. */
  function ParsedRows(lines: seq<string>): seq<Row> {
    if lines == [] then []
    else
      var rest := ParsedRows(lines[1..]);
      match ParseRow(lines[0])
      case None => rest
      case Some(row) => [row] + rest
  }

  /** Collect the rows among the lines of an inventory. */
  method ParseInventory(text: string) returns (rows: seq<Row>)
    ensures rows == ParsedRows(SplitLines(text))
  {
    hide ParseRow, SplitLines;
    var lines := SplitLines(text);
    assert lines[0..] == lines;
    rows := [];
    for i := 0 to |lines|
      invariant rows + ParsedRows(lines[i..]) == ParsedRows(lines)
    {
      assert lines[i..][1..] == lines[i + 1..];
      var row := ParseRow(lines[i]);
      if row.Some? {
        rows := rows + [row.value];
      }
    }
    assert lines[|lines|..] == [];
    assert rows + [] == rows;
  }

  lemma {:induction false} ParsedRowsConcat(a: seq<string>, b: seq<string>)
    ensures ParsedRows(a + b) == ParsedRows(a) + ParsedRows(b)
  {
    hide ParseRow;
    if a == [] {
      assert a + b == b;
    } else {
      assert (a + b)[1..] == a[1..] + b;
      ParsedRowsConcat(a[1..], b);
    }
  }

  lemma NotARow(line: string)
    requires |line| < 3 || line[2] != '`'
    ensures ParseRow(line) == None
  {
    hide Quoted, ParseDisposition, ParseColumns;
    assert "| `"[2] == '`';
  }

  lemma {:induction false} NoRowsIn(lines: seq<string>)
    requires forall i :: 0 <= i < |lines| ==> |lines[i]| < 3 || lines[i][2] != '`'
    ensures ParsedRows(lines) == []
  {
    hide ParseRow;
    if lines != [] {
      NotARow(lines[0]);
      NoRowsIn(lines[1..]);
    }
  }

  lemma DigitIsNoBreak(n: nat)
    ensures NoBreaks(Decimal(n)) && Decimal(n) != "" && forall i :: 0 <= i < |Decimal(n)| ==> IsDigit(Decimal(n)[i])
  {
    NumberDecimal(n);
  }

  lemma CountLineClean(rows: seq<Row>)
    ensures NoBreaks(CountLine(rows)) && |CountLine(rows)| > 2 && CountLine(rows)[2] != '`'
  {
    hide Decimal, CountOf;
    DigitIsNoBreak(|rows|);
    DigitIsNoBreak(CountOf(rows, Keep));
    DigitIsNoBreak(CountOf(rows, Migrate));
    DigitIsNoBreak(CountOf(rows, Archive));
    assert NoBreaks(" files** — ") && NoBreaks(" kept, ") && NoBreaks(" migrated, ") && NoBreaks(" archived.");
    assert CountLine(rows)[2] == Decimal(|rows|)[0];
  }

  lemma HeaderClean(rows: seq<Row>, t: Template)
    ensures AllLines(Header(rows, t)) && ParsedRows(Header(rows, t)) == []
  {
    hide CountLine, NoBreaks;
    CountLineClean(rows);
    NoRowsIn(Header(rows, t));
  }

  // ------------------------------------------------------------------ printing and parsing back

  /** A path the inventory can hold: not empty, no backquote, no line break. */
  predicate Recordable(path: string) {
    path != "" && Free(path, '`') && NoBreaks(path)
  }

  predicate Word(s: string) {
    NoBreaks(s) && Free(s, ']') && Free(s, ')')
  }

  /** The wording has no line breaks, and page names no brackets. */
  ghost predicate Clean(w: Wording) {
    && (forall p :: Word(w.area(p)) && NoBreaks(w.kind(p)))
    && (forall r :: NoBreaks(w.reason(r)) && NoBreaks(w.migratedKept(r)))
    && NoBreaks(w.migratedMoved)
  }

  lemma MigratedPageIsWord()
    ensures Word(MIGRATED_PAGE)
  {}

  lemma LocationRecordable(path: string)
    requires Recordable(path)
    ensures Recordable(ArchiveLocation(path))
  {
    hide IsBreak;
    var prefix := "docs/archive/repository/";
    assert NoBreaks(prefix) by { PrefixClean(); }
    assert Free(prefix, '`') by { PrefixClean(); }
    assert prefix[..13] == "docs/archive/" && NoBreaks("/") by { PrefixClean(); }
  }

  lemma PrefixClean()
    ensures NoBreaks("docs/archive/repository/") && Free("docs/archive/repository/", '`')
    ensures "docs/archive/repository/"[..13] == "docs/archive/" && NoBreaks("/")
  {}

  lemma RowOfClean(path: string, referenced: set<string>, w: Wording)
    requires Clean(w) && Recordable(path)
    ensures var row := RowOf(path, referenced, w);
      Printable(row) && NoBreaks(row.location) && Word(row.page) && NoBreaks(row.note)
  {
    hide KeepReason, ArchiveLocation, NoBreaks, IsBreak;
    MigratedPageIsWord();
    LocationRecordable(path);
    assert Word("") by { EmptyIsWord(); }
  }

  lemma EmptyIsWord()
    ensures Word("")
  {}

  lemma ConcatNoBreaks(a: string, b: string)
    requires NoBreaks(a) && NoBreaks(b)
    ensures NoBreaks(a + b)
  {}

  lemma FragmentsClean()
    ensures NoBreaks("| `") && NoBreaks("` | ") && NoBreaks(" | ") && NoBreaks(" |") && NoBreaks("`") && NoBreaks("")
    ensures NoBreaks("[") && NoBreaks("](") && NoBreaks(")") && NoBreaks(SITE)
    ensures forall d :: NoBreaks(DispositionText(d))
  {}

  lemma RenderedRowClean(row: Row)
    requires NoBreaks(row.path) && NoBreaks(row.location) && NoBreaks(row.page) && NoBreaks(row.note)
    ensures NoBreaks(RenderRow(row))
  {
    hide NoBreaks, DispositionText, SITE;
    FragmentsClean();
    ConcatNoBreaks("`", row.location);
    ConcatNoBreaks("`" + row.location, "`");
    ConcatNoBreaks("[", row.page);
    ConcatNoBreaks("[" + row.page, "](");
    ConcatNoBreaks("[" + row.page + "](", SITE);
    ConcatNoBreaks("[" + row.page + "](" + SITE, row.page);
    ConcatNoBreaks("[" + row.page + "](" + SITE + row.page, ")");
    var a := "| `" + row.path;
    ConcatNoBreaks("| `", row.path);
    ConcatNoBreaks(a, "` | ");
    var b := a + "` | ";
    ConcatNoBreaks(b, DispositionText(row.disposition));
    var c := b + DispositionText(row.disposition);
    ConcatNoBreaks(c, " | ");
    ConcatNoBreaks(c + " | ", LocationText(row));
    var d := c + " | " + LocationText(row);
    ConcatNoBreaks(d, " | ");
    ConcatNoBreaks(d + " | ", PageText(row));
    var e := d + " | " + PageText(row);
    ConcatNoBreaks(e, " | ");
    ConcatNoBreaks(e + " | ", row.note);
    ConcatNoBreaks(e + " | " + row.note, " |");
  }

  lemma {:induction false} ParsedRenderedRows(rows: seq<Row>)
    requires forall i :: 0 <= i < |rows| ==> Printable(rows[i])
    ensures ParsedRows(RenderedRows(rows)) == rows
  {
    hide ParseRow, RenderRow, Printable;
    if rows != [] {
      ParseRenderedRow(rows[0]);
      ParsedRenderedRows(rows[1..]);
      assert RenderedRows(rows) == [RenderRow(rows[0])] + RenderedRows(rows[1..]);
    }
  }

  /** The rows of printable paths come back from the inventory's text. */
  lemma InventoryRoundTrip(paths: seq<string>, referenced: set<string>, w: Wording, t: Template)
    requires Clean(w) && forall i :: 0 <= i < |paths| ==> Recordable(paths[i])
    ensures ParsedRows(SplitLines(RenderInventory(Rows(paths, referenced, w), t))) == Rows(paths, referenced, w)
  {
    hide RowOf, Recordable, ParsedRows, SplitLines, NoBreaks, Printable, Word, Clean, RenderRow, Header;
    var rows := Rows(paths, referenced, w);
    var lines := Header(rows, t) + RenderedRows(rows);
    HeaderClean(rows, t);
    HeaderNonempty(rows, t);
    forall i | 0 <= i < |rows| ensures Printable(rows[i]) && NoBreaks(RenderRow(rows[i])) {
      RowOfClean(paths[i], referenced, w);
      WordClean(rows[i].page);
      RecordableClean(paths[i]);
      PathOfRow(paths[i], referenced, w);
      RenderedRowClean(rows[i]);
    }
    ParsedRenderedRows(rows);
    SplitJoinedLines(lines);
    ParsedRowsConcat(Header(rows, t), RenderedRows(rows));
  }

  lemma HeaderNonempty(rows: seq<Row>, t: Template)
    ensures |Header(rows, t)| >= 1
  {}

  lemma WordClean(s: string)
    requires Word(s)
    ensures NoBreaks(s)
  {}

  lemma RecordableClean(path: string)
    requires Recordable(path)
    ensures NoBreaks(path)
  {}

  lemma PathOfRow(path: string, referenced: set<string>, w: Wording)
    ensures RowOf(path, referenced, w).path == path
  {
    hide KeepReason;
  }

  lemma {:induction false} ParsedRowsRecordable(lines: seq<string>)
    requires AllLines(lines)
    ensures forall i :: 0 <= i < |ParsedRows(lines)| ==> Recordable(ParsedRows(lines)[i].path)
  {
    hide ParseRow, IsBreak;
    if lines != [] {
      ParsedRowsRecordable(lines[1..]);
      ParsedPathFree(lines[0]);
      if ParseRow(lines[0]).Some? {
        var path := ParseRow(lines[0]).value.path;
        forall k | 0 <= k < |path| ensures !IsBreak(path[k]) {
          assert path[k] in lines[0];
        }
      }
    }
  }

  /** The inventory reads back as it was written exactly when every path is one it can hold. */
  lemma InventoryRoundTripExactly(paths: seq<string>, referenced: set<string>, w: Wording, t: Template)
    requires Clean(w)
    ensures ParsedRows(SplitLines(RenderInventory(Rows(paths, referenced, w), t))) == Rows(paths, referenced, w)
       <==> forall i :: 0 <= i < |paths| ==> Recordable(paths[i])
  {
    hide RowOf, Recordable, ParsedRows, SplitLines, Clean, RenderInventory;
    var rows := Rows(paths, referenced, w);
    var lines := SplitLines(RenderInventory(rows, t));
    if forall i :: 0 <= i < |paths| ==> Recordable(paths[i]) {
      InventoryRoundTrip(paths, referenced, w, t);
    }
    if ParsedRows(lines) == rows {
      SplitLinesClean(RenderInventory(rows, t));
      ParsedRowsRecordable(lines);
      forall i | 0 <= i < |paths| ensures Recordable(paths[i]) {
        PathOfRow(paths[i], referenced, w);
        assert rows[i].path == paths[i];
      }
    }
  }

  /** A path with a backquote does not come back. */
  lemma BackquotedPathIsLost(referenced: set<string>, w: Wording, t: Template)
    requires Clean(w)
    ensures var rows := Rows(["a`b.md"], referenced, w);
      ParsedRows(SplitLines(RenderInventory(rows, t))) != rows
  {
    hide Rows, RenderInventory, ParsedRows, SplitLines, Clean;
    var path := "a`b.md";
    assert path[1] == '`' && !Recordable(path);
    assert [path][0] == path;
    InventoryRoundTripExactly([path], referenced, w, t);
  }
}
