/**
 * The inventory of loose documentation: how files are classified, printed, parsed back, moved to the
 * archive and checked.
 */
module LegacyDocs {
  import opened Text
  import opened Wrappers

  const INVENTORY := "docs/archive/INVENTORY.md"
  const ALLOWLIST := "scripts/loose-docs-allowlist.txt"
  const EXCLUDED_ROOTS := ["apiome-docs/", "docs/mockups/", "docs/archive/"]
  const ALWAYS_ALLOWED := {"README.md", "CHANGELOG.md", "AGENTS.md"}
  const SITE := "https://docs.apiome.dev/"
  const ARCHIVABLE_DIRS := ["apiome-ui/docs/", "apiome-browse/docs/", "apiome-db/docs/", "docs/next-steps/"]
  const ARCHIVABLE_FILES := {"docs/BETTER_AUTH_MIGRATION.md", "docs/MOCK_DEMO_SCRIPT.md"}
  const BURN_DOWN := "docs/next-steps/RC1_BURN_DOWN.md"
  const GITLAB_SETUP := "apiome-ui/docs/GITLAB_SSO_SETUP.md"
  const ARCHIVED_README := "apiome-ui/docs/README.md"
  const MIGRATED :=
    {"apiome-ui/docs/AUTH_PROVIDER_SETUP.md", "apiome-ui/docs/ENTRA_ID_APP_REGISTRATION.md", GITLAB_SETUP}
  const MIGRATED_PAGE := "admin/auth-providers"

  // ------------------------------------------------------------------ paths

  predicate StartsWithAny(path: string, prefixes: seq<string>) {
    exists i :: 0 <= i < |prefixes| && prefixes[i] <= path
  }

  predicate Contains(s: string, part: string) {
    exists i :: 0 <= i <= |s| && part <= s[i..]
  }

  /** The last component of a path. */
  function NameOf(path: string): string {
    var i := IndexOf(path, '/');
    if i == |path| then path else NameOf(path[i + 1..])
  }

  // ------------------------------------------------------------------ keep or archive

  /** The rule by which a file stays. */
  datatype Reason =
    | BurnDown | GitlabSetup | PackageReadme | Referenced | ContributorReference | AgentSkill | Fixture
    | Runbook | Roadmap | RedirectMap | CorpusGuide | Elsewhere

  /** The first rule that keeps a file; none for a file to be archived. */
  function KeepReason(path: string, referenced: set<string>): Option<Reason> {
    var name := NameOf(path);
    if path == BURN_DOWN then Some(BurnDown)
    else if path == GITLAB_SETUP then Some(GitlabSetup)
    else if path == ARCHIVED_README then None
    else if name in ALWAYS_ALLOWED then Some(PackageReadme)
    else if path in referenced then Some(Referenced)
    else if StartsWithAny(path, ["apiome-rest/docs/", "apiome-mcp/docs/"]) then Some(ContributorReference)
    else if StartsWithAny(path, [".github/", ".cursor/", ".claude/"]) then Some(AgentSkill)
    else if Contains(path, "/tests/") || Contains(path, "/test/") || Contains(path, "/e2e/")
         || "apiome-ui/examples/" <= path then Some(Fixture)
    else if "docs/runbooks/" <= path then Some(Runbook)
    else if StartsWithAny(path, ARCHIVABLE_DIRS) then None
    else if Contains(name, "ROADMAP") || "docs/PLAN" <= path then Some(Roadmap)
    else if path == "docs/guide/README.md" then Some(RedirectMap)
    else if path == "docs/CORPUS_CONTRIBUTOR_GUIDE.md" then Some(CorpusGuide)
    else if path in ARCHIVABLE_FILES then None
    else Some(Elsewhere)
  }

  /** The archive keeps one folder per package, into which the package's docs folder is emptied. */
  function ArchiveLocation(path: string): string {
    if "docs/" <= path then "docs/archive/repository/" + path[5..]
    else
      var i := IndexOf(path, '/');
      var package, rest := path[..i], if i < |path| then path[i + 1..] else "";
      "docs/archive/" + package + "/" + if "docs/" <= rest then rest[5..] else rest
  }

  /** The path an archived file came from. */
  function OriginalOf(location: string): string {
    var s := if "docs/archive/" <= location then location[13..] else location;
    var i := IndexOf(s, '/');
    var package, rest := s[..i], if i < |s| then s[i + 1..] else "";
    if package == "repository" then "docs/" + rest else package + "/docs/" + rest
  }

  /** A path under `docs/`, or under `<package>/docs/` of a package not called `repository`. */
  predicate InDocsFolder(path: string) {
    var i := IndexOf(path, '/');
    "docs/" <= path || (i < |path| && "docs/" <= path[i + 1..] && path[..i] != "repository")
  }

  lemma OriginalOfParts(package: string, rest: string)
    requires Free(package, '/')
    ensures OriginalOf("docs/archive/" + package + "/" + rest)
         == if package == "repository" then "docs/" + rest else package + "/docs/" + rest
  {
    var location := "docs/archive/" + package + "/" + rest;
    assert location[13..] == package + ['/'] + rest;
    IndexOfFree(package, rest, '/');
    assert location[13..][..|package|] == package && location[13..][|package| + 1..] == rest;
  }

  lemma RepositoryFileInvertible(path: string)
    requires "docs/" <= path
    ensures OriginalOf(ArchiveLocation(path)) == path
  {
    hide OriginalOf;
    assert Free("repository", '/');
    OriginalOfParts("repository", path[5..]);
    assert "docs/archive/repository/" + path[5..] == "docs/archive/" + "repository" + "/" + path[5..];
    assert path == path[..5] + path[5..] && path[..5] == "docs/";
  }

  function Tail(rest: string): string {
    if "docs/" <= rest then rest[5..] else rest
  }

  lemma LocationInPackage(package: string, rest: string)
    requires Free(package, '/') && !("docs/" <= package + "/" + rest)
    ensures ArchiveLocation(package + "/" + rest) == "docs/archive/" + package + "/" + Tail(rest)
  {
    var path := package + ['/'] + rest;
    IndexOfFree(package, rest, '/');
    assert path[..|package|] == package && path[|package| + 1..] == rest;
  }

  lemma LocationAtRoot(path: string)
    requires Free(path, '/')
    ensures ArchiveLocation(path) == "docs/archive/" + path + "/" + ""
  {
    IndexOfFirst(path, '/');
    assert "docs/"[4] == '/';
    assert path[..|path|] == path;
  }

  lemma PackageFileInvertible(package: string, rest: string)
    requires Free(package, '/') && package != "repository"
    requires !("docs/" <= package + "/" + rest)
    ensures OriginalOf(ArchiveLocation(package + "/" + rest)) == package + "/" + rest <==> "docs/" <= rest
  {
    hide OriginalOf, ArchiveLocation;
    LocationInPackage(package, rest);
    OriginalOfParts(package, Tail(rest));
    if "docs/" <= rest {
      assert rest == "docs/" + rest[5..];
      assert package + "/docs/" + Tail(rest) == package + "/" + ("docs/" + Tail(rest));
    } else {
      assert |package + "/docs/" + rest| == |package + "/" + rest| + 5;
    }
  }

  lemma RepositoryPackageNotInvertible(rest: string)
    ensures OriginalOf(ArchiveLocation("repository/" + rest)) != "repository/" + rest
  {
    hide OriginalOf;
    var path := "repository" + ['/'] + rest;
    assert Free("repository", '/') && path == "repository/" + rest;
    var tail := if "docs/" <= rest then rest[5..] else rest;
    IndexOfFree("repository", rest, '/');
    assert path[..10] == "repository" && path[11..] == rest;
    OriginalOfParts("repository", tail);
    assert ("docs/" + tail)[0] != path[0];
  }

  lemma RootFileNotInvertible(path: string)
    requires Free(path, '/')
    ensures OriginalOf(ArchiveLocation(path)) != path
  {
    hide OriginalOf, ArchiveLocation;
    LocationAtRoot(path);
    OriginalOfParts(path, "");
    if path == "repository" {
      assert ("docs/" + "")[0] != path[0];
    } else {
      assert |path + "/docs/" + ""| == |path| + 6;
    }
  }

  /**
   * An archived file's place tells where it came from exactly when it came from a docs folder: on those
   * paths no two files are archived to one place.
   */
  lemma ArchiveInvertible(path: string)
    ensures OriginalOf(ArchiveLocation(path)) == path <==> InDocsFolder(path)
  {
    hide OriginalOf, ArchiveLocation;
    var i := IndexOf(path, '/');
    IndexOfFirst(path, '/');
    if "docs/" <= path {
      RepositoryFileInvertible(path);
    } else if i == |path| {
      assert path[..i] == path;
      RootFileNotInvertible(path);
    } else {
      var package, rest := path[..i], path[i + 1..];
      assert path == package + "/" + rest;
      if package == "repository" {
        assert path == "repository/" + rest;
        RepositoryPackageNotInvertible(rest);
      } else {
        PackageFileInvertible(package, rest);
      }
    }
  }

  /** Outside the docs folders two files can be archived to one place. */
  lemma ArchiveCanCollide()
    ensures ArchiveLocation("pkg/docs/a.md") == ArchiveLocation("pkg/a.md")
  {
    hide ArchiveLocation;
    assert "docs/a.md"[5..] == "a.md" && !("docs/" <= "a.md");
    assert Tail("docs/a.md") == Tail("a.md");
    assert "docs/"[0] == 'd' && ("pkg" + "/" + "docs/a.md")[0] == 'p' == ("pkg" + "/" + "a.md")[0];
    LocationInPackage("pkg", "docs/a.md");
    LocationInPackage("pkg", "a.md");
    assert "pkg/docs/a.md" == "pkg" + "/" + "docs/a.md" && "pkg/a.md" == "pkg" + "/" + "a.md";
  }

  // ------------------------------------------------------------------ rows

  datatype Disposition = Keep | Archive | Migrate

  datatype Row = Row(path: string, disposition: Disposition, location: string, page: string, note: string)

  /** The parts of the wording that depend on word lists: the site page of an area, and each kind of note. */
  datatype Wording = Wording(area: string -> string, kind: string -> string, reason: Reason -> string,
                             migratedKept: Reason -> string, migratedMoved: string)

  function RowOf(path: string, referenced: set<string>, w: Wording): Row {
    var reason := KeepReason(path, referenced);
    if path in MIGRATED then
      match reason
      case Some(r) => Row(path, Migrate, path, MIGRATED_PAGE, w.migratedKept(r))
      case None => Row(path, Migrate, ArchiveLocation(path), MIGRATED_PAGE, w.migratedMoved)
    else
      match reason
      case Some(r) => Row(path, Keep, path, "", w.reason(r))
      case None => Row(path, Archive, ArchiveLocation(path), w.area(path), w.kind(path))
  }

  function Rows(paths: seq<string>, referenced: set<string>, w: Wording): (rows: seq<Row>)
    ensures |rows| == |paths|
    ensures forall i :: 0 <= i < |rows| ==> rows[i] == RowOf(paths[i], referenced, w)
  {
    seq(|paths|, i requires 0 <= i < |paths| => RowOf(paths[i], referenced, w))
  }

  /** One row for each path, in the order of the paths. */
  method Classify(paths: seq<string>, referenced: set<string>, w: Wording) returns (rows: seq<Row>)
    ensures rows == Rows(paths, referenced, w)
  {
    hide RowOf;
    rows := [];
    for i := 0 to |paths|
      invariant rows == Rows(paths, referenced, w)[..i]
    {
      rows := rows + [RowOf(paths[i], referenced, w)];
    }
  }

  lemma ArchivedByRule(path: string, referenced: set<string>)
    requires KeepReason(path, referenced) == None
    ensures path == ARCHIVED_README || StartsWithAny(path, ARCHIVABLE_DIRS) || path in ARCHIVABLE_FILES
  {
    hide NameOf, Contains, StartsWithAny, ALWAYS_ALLOWED, ARCHIVABLE_DIRS, ARCHIVABLE_FILES;
  }

  lemma ArchivableDirInDocs(path: string)
    requires StartsWithAny(path, ARCHIVABLE_DIRS)
    ensures InDocsFolder(path)
  {
    hide InDocsFolder;
    if "docs/next-steps/" <= path {
      assert "docs/next-steps/" == "docs/" + "next-steps/";
      UnderRootDocs(path);
    } else if "apiome-ui/docs/" <= path {
      UnderPackageDocs(path, "apiome-ui");
    } else if "apiome-browse/docs/" <= path {
      UnderPackageDocs(path, "apiome-browse");
    } else {
      assert "apiome-db/docs/" <= path;
      UnderPackageDocs(path, "apiome-db");
    }
  }

  lemma UnderRootDocs(path: string)
    requires "docs/" <= path
    ensures InDocsFolder(path)
  {}

  /** Only files from docs folders are moved. */
  lemma MovedComesFromDocs(path: string, referenced: set<string>, w: Wording)
    requires RowOf(path, referenced, w).location != path
    ensures RowOf(path, referenced, w).location == ArchiveLocation(path)
    ensures InDocsFolder(path)
  {
    hide InDocsFolder, KeepReason, ArchiveLocation, StartsWithAny;
    ArchivedByRule(path, referenced);
    if StartsWithAny(path, ARCHIVABLE_DIRS) {
      ArchivableDirInDocs(path);
    } else if path == ARCHIVED_README {
      UnderPackageDocs(path, "apiome-ui");
    } else {
      UnderRootDocs(path);
    }
  }

  lemma UnderPackageDocs(path: string, package: string)
    requires Free(package, '/') && package != "repository" && package + "/docs/" <= path
    ensures InDocsFolder(path)
  {
    var rest := path[|package| + 1..];
    assert path == (package + "/docs/") + path[|package| + 6..];
    assert path == package + ['/'] + rest && rest == "docs/" + path[|package| + 6..];
    IndexOfFree(package, rest, '/');
    assert path[..|package|] == package;
  }

  lemma MovedInjective(p: string, q: string, referenced: set<string>, w: Wording)
    requires RowOf(p, referenced, w).location != p && RowOf(q, referenced, w).location != q
    requires RowOf(p, referenced, w).location == RowOf(q, referenced, w).location
    ensures p == q
  {
    hide RowOf, ArchiveLocation, OriginalOf, InDocsFolder;
    MovedComesFromDocs(p, referenced, w);
    MovedComesFromDocs(q, referenced, w);
    ArchiveInvertible(p);
    ArchiveInvertible(q);
  }

  // ------------------------------------------------------------------ printing and parsing a row

  function DispositionText(d: Disposition): string {
    match d
    case Keep => "keep"
    case Archive => "archive"
    case Migrate => "migrate"
  }

  function LocationText(row: Row): string {
    if row.location == row.path then "" else "`" + row.location + "`"
  }

  function PageText(row: Row): string {
    if row.page == "" then "" else "[" + row.page + "](" + SITE + row.page + ")"
  }

  function RenderRow(row: Row): string {
    "| `" + row.path + "` | " + DispositionText(row.disposition) + " | " + LocationText(row) + " | " + PageText(row)
    + " | " + row.note + " |"
  }

  /** What follows a prefix, if the text starts with it. */
  function After(prefix: string, s: string): Option<string> {
    if prefix <= s then Some(s[|prefix|..]) else None
  }

  /** A non-empty run up to `stop`, and what follows the stop. */
  function Quoted(s: string, stop: char): Option<(string, string)> {
    var i := IndexOf(s, stop);
    if i == 0 || i == |s| then None else Some((s[..i], s[i + 1..]))
  }

  function ParseDisposition(s: string): Option<(Disposition, string)> {
    if "keep" <= s then Some((Keep, s[4..]))
    else if "migrate" <= s then Some((Migrate, s[7..]))
    else if "archive" <= s then Some((Archive, s[7..]))
    else None
  }

  /** An optional backquoted location; a location that is opened must be closed. */
  function ParseLocation(s: string): Option<(string, string)> {
    if "`" <= s then Quoted(s[1..], '`') else Some(("", s))
  }

  /** An optional link to a site page: its text, with any target that holds no closing parenthesis. */
  function ParsePage(s: string): Option<(string, string)> {
    if "[" <= s then
      match Quoted(s[1..], ']')
      case None => None
      case Some((page, rest)) =>
        if "(" <= rest && IndexOf(rest, ')') < |rest| then Some((page, rest[IndexOf(rest, ')') + 1..])) else None
    else Some(("", s))
  }

  function ParseNote(s: string): Option<string> {
    if |s| >= 2 && s[|s| - 2..] == " |" then Some(s[..|s| - 2]) else None
  }

  /** Read one row back; a line of any other form is not a row. */
  function ParseRow(line: string): Option<Row> {
    match After("| `", line)
    case None => None
    case Some(s1) =>
      match Quoted(s1, '`')
      case None => None
      case Some((path, s2)) =>
        match After(" | ", s2)
        case None => None
        case Some(s3) =>
          match ParseDisposition(s3)
          case None => None
          case Some((disposition, s4)) => ParseColumns(path, disposition, s4)
  }

  function ParseColumns(path: string, disposition: Disposition, s4: string): Option<Row> {
    match After(" | ", s4)
    case None => None
    case Some(s5) =>
      match ParseLocation(s5)
      case None => None
      case Some((location, s6)) =>
        match After(" | ", s6)
        case None => None
        case Some(s7) => ParseLast(path, disposition, location, s7)
  }

  function ParseLast(path: string, disposition: Disposition, location: string, s7: string): Option<Row> {
    match ParsePage(s7)
    case None => None
    case Some((page, s8)) =>
      match After(" | ", s8)
      case None => None
      case Some(s9) =>
        match ParseNote(s9)
        case None => None
        case Some(note) => Some(Row(path, disposition, if location == "" then path else location, page, note))
  }

  predicate Printable(row: Row) {
    && row.path != "" && Free(row.path, '`')
    && row.location != "" && Free(row.location, '`')
    && Free(row.page, ']') && Free(row.page, ')')
  }

  lemma AfterPrefix(prefix: string, s: string)
    ensures After(prefix, prefix + s) == Some(s)
  {}

  lemma QuotedRun(a: string, s: string, stop: char)
    requires a != "" && Free(a, stop)
    ensures Quoted(a + [stop] + s, stop) == Some((a, s))
  {
    IndexOfFree(a, s, stop);
    var t := a + [stop] + s;
    assert t[..|a|] == a && t[|a| + 1..] == s;
  }

  lemma ParseDispositionText(d: Disposition, s: string)
    ensures ParseDisposition(DispositionText(d) + s) == Some((d, s))
  {
    assert "keep"[0] == 'k' && "archive"[0] == 'a' && "migrate"[0] == 'm';
    assert (DispositionText(d) + s)[0] == DispositionText(d)[0];
    assert (DispositionText(d) + s)[|DispositionText(d)|..] == s;
  }

  lemma ParseLocationText(row: Row, s: string)
    requires Printable(row) && s != "" && s[0] == ' '
    ensures ParseLocation(LocationText(row) + s) == Some((if row.location == row.path then "" else row.location, s))
  {
    if row.location == row.path {
      assert "" + s == s;
    } else {
      var t := LocationText(row) + s;
      assert t[1..] == row.location + ['`'] + s;
      QuotedRun(row.location, s, '`');
    }
  }

  lemma SiteFree()
    ensures Free(SITE, ')')
  {}

  lemma ParsePageText(row: Row, s: string)
    requires Printable(row) && s != "" && s[0] == ' '
    ensures ParsePage(PageText(row) + s) == Some((row.page, s))
  {
    if row.page == "" {
      assert "" + s == s;
    } else {
      var target := "(" + SITE + row.page;
      SiteFree();
      PageTextShape(row, s);
      hide SITE, PageText, Quoted, Printable, IndexOf;
      QuotedRun(row.page, target + [')'] + s, ']');
      IndexOfFree(target, s, ')');
      assert (target + [')'] + s)[|target| + 1..] == s;
      assert (target + [')'] + s)[0] == '(';
    }
  }

  lemma PageTextShape(row: Row, s: string)
    requires row.page != ""
    ensures PageText(row) + s == "[" + (row.page + [']'] + ("(" + SITE + row.page + [')'] + s))
  {
    hide SITE;
  }

  lemma ParseNoteText(note: string)
    ensures ParseNote(note + " |") == Some(note)
  {
    assert (note + " |")[|note|..] == " |" && (note + " |")[..|note|] == note;
  }

  lemma ParseLastText(row: Row, path: string, d: Disposition, location: string)
    requires Printable(row)
    ensures ParseLast(path, d, location, PageText(row) + " | " + row.note + " |")
         == Some(Row(path, d, if location == "" then path else location, row.page, row.note))
  {
    hide ParsePage, PageText, ParseNote;
    var s9 := row.note + " |";
    var s8 := " | " + s9;
    assert PageText(row) + " | " + row.note + " |" == PageText(row) + s8;
    ParsePageText(row, s8);
    AfterPrefix(" | ", s9);
    ParseNoteText(row.note);
  }

  lemma ParseColumnsText(row: Row)
    requires Printable(row)
    ensures ParseColumns(row.path, row.disposition,
              " | " + LocationText(row) + " | " + PageText(row) + " | " + row.note + " |") == Some(row)
  {
    hide ParseLocation, LocationText, PageText, ParseLast;
    var s7 := PageText(row) + " | " + row.note + " |";
    var s6 := " | " + s7;
    var s5 := LocationText(row) + s6;
    assert " | " + LocationText(row) + " | " + PageText(row) + " | " + row.note + " |" == " | " + s5;
    AfterPrefix(" | ", s5);
    ParseLocationText(row, s6);
    AfterPrefix(" | ", s7);
    ParseLastText(row, row.path, row.disposition, if row.location == row.path then "" else row.location);
  }

  /** Parsing a printed row gives the row. */
  lemma ParseRenderedRow(row: Row)
    requires Printable(row)
    ensures ParseRow(RenderRow(row)) == Some(row)
  {
    hide ParseDisposition, DispositionText, LocationText, PageText, ParseColumns, Quoted, After;
    var s4 := " | " + LocationText(row) + " | " + PageText(row) + " | " + row.note + " |";
    var s3 := DispositionText(row.disposition) + s4;
    var s2 := " | " + s3;
    var s1 := row.path + ['`'] + s2;
    assert RenderRow(row) == "| `" + s1;
    hide RenderRow;
    AfterPrefix("| `", s1);
    QuotedRun(row.path, s2, '`');
    AfterPrefix(" | ", s3);
    ParseDispositionText(row.disposition, s4);
    ParseColumnsText(row);
  }

  /** A parsed path holds no backquote, so a path with one never comes back. */
  lemma ParsedPathFree(line: string)
    ensures ParseRow(line).Some? ==> Free(ParseRow(line).value.path, '`') && ParseRow(line).value.path != ""
    ensures ParseRow(line).Some? ==> forall c :: c in ParseRow(line).value.path ==> c in line
  {
    hide ParseDisposition, ParseLocation, ParsePage, ParseNote;
    if After("| `", line).Some? {
      IndexOfFirst(After("| `", line).value, '`');
    }
  }
}
