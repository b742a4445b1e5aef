/** The rules of the inventory written out: names, the list of rules in order, rows, and sample lines. */
module LegacyRules {
  import opened Text
  import opened Wrappers
  import opened LegacyDocs
  import opened LegacyInventory

  // ------------------------------------------------------------------ names and parts of paths

  /** The last component of the path is `name`. */
  predicate HasName(path: string, name: string) {
    path == name || (|path| > |name| && path[|path| - |name| - 1..] == ['/'] + name)
  }

  lemma {:induction false} NameOfExactly(path: string, name: string)
    requires Free(name, '/')
    ensures NameOf(path) == name <==> HasName(path, name)
    decreases |path|
  {
    var i := IndexOf(path, '/');
    IndexOfFirst(path, '/');
    if i == |path| {
      assert path[..|path|] == path;
      NoSlashName(path, name);
    } else {
      NameOfExactly(path[i + 1..], name);
      NameAfterSlash(path, i, name);
    }
  }

  lemma NoSlashName(path: string, name: string)
    requires Free(path, '/')
    ensures HasName(path, name) <==> path == name
  {
    if |path| > |name| {
      var j := |path| - |name| - 1;
      assert path[j..][0] == path[j] && path[j] in path && (['/'] + name)[0] == '/';
    }
  }

  lemma NameAfterSlash(path: string, i: nat, name: string)
    requires Free(name, '/') && i < |path| && path[i] == '/'
    ensures HasName(path[i + 1..], name) <==> HasName(path, name)
  {
    var rest := path[i + 1..];
    if |rest| > |name| {
      assert rest[|rest| - |name| - 1..] == path[|path| - |name| - 1..];
      assert path != name by {
        assert path[i] in path;
      }
    } else if |rest| == |name| {
      assert path[|path| - |name| - 1..] == ['/'] + rest;
      assert path[i] in path;
    } else {
      NameTooLong(path, i, name);
    }
  }

  lemma NameTooLong(path: string, i: nat, name: string)
    requires Free(name, '/') && i < |path| && path[i] == '/' && |path| - i - 1 < |name|
    ensures !HasName(path, name)
  {
    assert path[i] in path;
    if |path| > |name| {
      var j := i - (|path| - |name| - 1);
      assert j > 0 && path[|path| - |name| - 1..][j] == '/';
      assert (['/'] + name)[j] == name[j - 1] && name[j - 1] in name;
    }
  }

  /** A part occurs in a text exactly when the text is something, the part, and something more. */
  lemma ContainsExactly(s: string, part: string)
    ensures Contains(s, part) <==> exists u, v :: s == u + part + v
  {
    if i :| 0 <= i <= |s| && part <= s[i..] {
      var v := s[i..][|part|..];
      assert s[i..] == part + v && s == s[..i] + s[i..];
      assert s == s[..i] + part + v;
    }
    if u, v :| s == u + part + v {
      assert s[|u|..] == part + v;
    }
  }

  predicate IsAllowedName(path: string) {
    HasName(path, "README.md") || HasName(path, "CHANGELOG.md") || HasName(path, "AGENTS.md")
  }

  lemma AllowedNameExactly(path: string)
    ensures NameOf(path) in ALWAYS_ALLOWED <==> IsAllowedName(path)
  {
    hide NameOf, HasName;
    NameOfExactly(path, "README.md");
    NameOfExactly(path, "CHANGELOG.md");
    NameOfExactly(path, "AGENTS.md");
  }

  // ------------------------------------------------------------------ the rules, in order

  /** Whether the rule with this number applies; the rules are tried from 0 on. */
  predicate RuleApplies(k: nat, path: string, referenced: set<string>) {
    match k
    case 0 => path == "docs/next-steps/RC1_BURN_DOWN.md"
    case 1 => path == "apiome-ui/docs/GITLAB_SSO_SETUP.md"
    case 2 => path == "apiome-ui/docs/README.md"
    case 3 => IsAllowedName(path)
    case 4 => path in referenced
    case 5 => "apiome-rest/docs/" <= path || "apiome-mcp/docs/" <= path
    case 6 => ".github/" <= path || ".cursor/" <= path || ".claude/" <= path
    case 7 => Contains(path, "/tests/") || Contains(path, "/test/") || Contains(path, "/e2e/")
           || "apiome-ui/examples/" <= path
    case 8 => "docs/runbooks/" <= path
    case 9 => "apiome-ui/docs/" <= path || "apiome-browse/docs/" <= path || "apiome-db/docs/" <= path
           || "docs/next-steps/" <= path
    case 10 => Contains(NameOf(path), "ROADMAP") || "docs/PLAN" <= path
    case 11 => path == "docs/guide/README.md"
    case 12 => path == "docs/CORPUS_CONTRIBUTOR_GUIDE.md"
    case 13 => path == "docs/BETTER_AUTH_MIGRATION.md" || path == "docs/MOCK_DEMO_SCRIPT.md"
    case _ => true
  }

  /** What the rule says: a reason to stay, or none, for the archive. */
  function RuleSays(k: nat): Option<Reason> {
    match k
    case 0 => Some(BurnDown)
    case 1 => Some(GitlabSetup)
    case 2 => None
    case 3 => Some(PackageReadme)
    case 4 => Some(Referenced)
    case 5 => Some(ContributorReference)
    case 6 => Some(AgentSkill)
    case 7 => Some(Fixture)
    case 8 => Some(Runbook)
    case 9 => None
    case 10 => Some(Roadmap)
    case 11 => Some(RedirectMap)
    case 12 => Some(CorpusGuide)
    case 13 => None
    case _ => Some(Elsewhere)
  }

  lemma AnyOfTwo(path: string, a: string, b: string)
    ensures StartsWithAny(path, [a, b]) <==> a <= path || b <= path
  {
    assert [a, b][0] == a && [a, b][1] == b;
  }

  lemma AnyOfThree(path: string, a: string, b: string, c: string)
    ensures StartsWithAny(path, [a, b, c]) <==> a <= path || b <= path || c <= path
  {
    assert [a, b, c][0] == a && [a, b, c][1] == b && [a, b, c][2] == c;
  }

  lemma AnyOfFour(path: string, a: string, b: string, c: string, d: string)
    ensures StartsWithAny(path, [a, b, c, d]) <==> a <= path || b <= path || c <= path || d <= path
  {
    var all := [a, b, c, d];
    assert all[0] == a && all[1] == b && all[2] == c && all[3] == d;
  }

  /** The first rule that applies decides. */
  lemma FirstRuleDecides(path: string, referenced: set<string>, k: nat)
    requires k <= 14 && RuleApplies(k, path, referenced)
    requires forall j: nat :: j < k ==> !RuleApplies(j, path, referenced)
    ensures KeepReason(path, referenced) == RuleSays(k)
  {
    hide StartsWithAny, Contains, IsAllowedName, NameOf;
    AllowedNameExactly(path);
    AnyOfTwo(path, "apiome-rest/docs/", "apiome-mcp/docs/");
    AnyOfThree(path, ".github/", ".cursor/", ".claude/");
    AnyOfFour(path, "apiome-ui/docs/", "apiome-browse/docs/", "apiome-db/docs/", "docs/next-steps/");
    forall j: nat | j < k ensures !RuleApplies(j, path, referenced) {}
    Earlier(path, referenced, k);
  }

  lemma Earlier(path: string, referenced: set<string>, k: nat)
    requires k <= 14 && forall j: nat :: j < k ==> !RuleApplies(j, path, referenced)
    ensures k > 0 ==> !RuleApplies(0, path, referenced)
    ensures k > 1 ==> !RuleApplies(1, path, referenced)
    ensures k > 2 ==> !RuleApplies(2, path, referenced)
    ensures k > 3 ==> !RuleApplies(3, path, referenced)
    ensures k > 4 ==> !RuleApplies(4, path, referenced)
    ensures k > 5 ==> !RuleApplies(5, path, referenced)
    ensures k > 6 ==> !RuleApplies(6, path, referenced)
    ensures k > 7 ==> !RuleApplies(7, path, referenced)
    ensures k > 8 ==> !RuleApplies(8, path, referenced)
    ensures k > 9 ==> !RuleApplies(9, path, referenced)
    ensures k > 10 ==> !RuleApplies(10, path, referenced)
    ensures k > 11 ==> !RuleApplies(11, path, referenced)
    ensures k > 12 ==> !RuleApplies(12, path, referenced)
    ensures k > 13 ==> !RuleApplies(13, path, referenced)
  {}

  /** A file that code points at stays, unless it is the one README that is archived. */
  lemma ReferencedStays(path: string, referenced: set<string>)
    requires path in referenced && path != "apiome-ui/docs/README.md"
    ensures KeepReason(path, referenced).Some?
  {
    hide StartsWithAny, Contains, NameOf;
  }

  /** A file of an archivable folder that none of the earlier rules keeps is archived. */
  lemma ArchivableGoes(path: string, referenced: set<string>)
    requires RuleApplies(9, path, referenced) && forall j: nat :: j < 9 ==> !RuleApplies(j, path, referenced)
    ensures KeepReason(path, referenced) == None
  {
    FirstRuleDecides(path, referenced, 9);
  }

  /** The trees that are not inventoried at all. */
  lemma ExcludedExactly(path: string)
    ensures StartsWithAny(path, EXCLUDED_ROOTS) <==>
      "apiome-docs/" <= path || "docs/mockups/" <= path || "docs/archive/" <= path
  {
    AnyOfThree(path, "apiome-docs/", "docs/mockups/", "docs/archive/");
  }

  // ------------------------------------------------------------------ rows

  predicate IsMigrated(path: string) {
    || path == "apiome-ui/docs/AUTH_PROVIDER_SETUP.md" || path == "apiome-ui/docs/ENTRA_ID_APP_REGISTRATION.md"
    || path == "apiome-ui/docs/GITLAB_SSO_SETUP.md"
  }

  /** What a row says: the path, its disposition, its place, the page that covers it and a note. */
  lemma RowExactly(path: string, referenced: set<string>, w: Wording)
    ensures var row, reason := RowOf(path, referenced, w), KeepReason(path, referenced);
      && row.path == path
      && row.location == (if reason.Some? then path else ArchiveLocation(path))
      && row.disposition == (if IsMigrated(path) then Migrate else if reason.Some? then Keep else Archive)
      && row.page == (if IsMigrated(path) then "admin/auth-providers" else if reason.Some? then "" else w.area(path))
      && row.note == (match reason
                      case Some(r) => if IsMigrated(path) then w.migratedKept(r) else w.reason(r)
                      case None => if IsMigrated(path) then w.migratedMoved else w.kind(path))
  {
    hide KeepReason, ArchiveLocation;
    assert path in MIGRATED <==> IsMigrated(path);
  }

  /** A file under `docs/` goes to the archive's `repository` folder, one under `<package>/docs/` to the package's. */
  lemma ArchiveLocationExactly(package: string, rest: string)
    requires Free(package, '/') && package != "docs"
    ensures ArchiveLocation("docs/" + rest) == "docs/archive/repository/" + rest
    ensures ArchiveLocation(package + "/docs/" + rest) == "docs/archive/" + package + "/" + rest
  {
    assert ("docs/" + rest)[5..] == rest;
    var path := package + ['/'] + ("docs/" + rest);
    assert package + "/docs/" + rest == path;
    IndexOfFree(package, "docs/" + rest, '/');
    assert path[..|package|] == package && path[|package| + 1..] == "docs/" + rest;
    NotUnderDocs(package, "docs/" + rest);
    assert ("docs/" + rest)[5..] == rest;
  }

  lemma NotUnderDocs(package: string, rest: string)
    requires Free(package, '/') && package != "docs"
    ensures !("docs/" <= package + ['/'] + rest)
  {
    var path := package + ['/'] + rest;
    var n := |package|;
    assert path[n] == '/' && path[..n] == package;
    if n >= 5 {
      assert path[4] == package[4] && package[4] in package && "docs/"[4] == '/';
    } else if n < 4 {
      assert "docs/"[n] != '/';
    } else {
      assert "docs/"[..4] == "docs";
    }
  }

  /** Where `splitlines` breaks: line feed, vertical tabulation, form feed, return, and the separators of Unicode. */
  lemma BreaksExactly(c: char)
    ensures IsBreak(c) <==>
      || c == '\n' || c == '\U{0B}' || c == '\U{0C}' || c == '\r' || c == '\U{1C}' || c == '\U{1D}' || c == '\U{1E}'
      || c == '\U{85}' || c == '\U{2028}' || c == '\U{2029}'
  {}

  // ------------------------------------------------------------------ sample lines

  /** How the columns are printed: an own place and an absent page are left blank. */
  lemma PrintedColumns()
    ensures RenderRow(Row("a", Keep, "a", "", "n")) == "| `a` | keep |  |  | n |"
    ensures LocationText(Row("a", Archive, "b", "", "")) == "`b`"
    ensures PageText(Row("a", Keep, "a", "p", "")) == "[p](" + "https://docs.apiome.dev/" + "p)"
    ensures DispositionText(Migrate) == "migrate" && DispositionText(Archive) == "archive"
  {
    assert SITE == "https://docs.apiome.dev/";
    assert "](" + SITE + "p" + ")" == "](" + SITE + "p)";
  }

  /** The place comes before the page, and the page before the note. */
  lemma PrintedOrder(row: Row)
    requires row.location != row.path
    ensures RenderRow(row) == "| `" + row.path + "` | " + DispositionText(row.disposition)
      + " | `" + row.location + "` | " + PageText(row) + " | " + row.note + " |"
  {
    var place, page := LocationText(row), PageText(row);
    assert place == "`" + row.location + "`";
    hide PageText, DispositionText, LocationText;
    assert " | " + place == " | `" + row.location + "`" && "` | " == "`" + " | ";
  }

  /** How the counts are printed. */
  lemma PrintedCounts()
    ensures var keep, migrate := Row("a", Keep, "a", "", ""), Row("b", Migrate, "b", "", "");
      CountLine([keep, keep, migrate])
        == "**" + "3" + " files** — " + "2" + " kept, " + "1" + " migrated, " + "0" + " archived."
  {
    hide Decimal;
    SmallDecimals();
    var keep, migrate := Row("a", Keep, "a", "", ""), Row("b", Migrate, "b", "", "");
    forall d ensures CountOf([keep, keep, migrate], d) == (if d == Keep then 2 else if d == Migrate then 1 else 0) {
      CountCons(migrate, [], d);
      CountCons(keep, [migrate], d);
      CountCons(keep, [keep, migrate], d);
      assert [keep] + ([keep] + ([migrate] + [])) == [keep, keep, migrate];
    }
  }

  lemma CountCons(row: Row, rows: seq<Row>, d: Disposition)
    ensures CountOf([row] + rows, d) == (if row.disposition == d then 1 else 0) + CountOf(rows, d)
  {
    assert ([row] + rows)[1..] == rows;
  }

  lemma SmallDecimals()
    ensures Decimal(0) == "0" && Decimal(1) == "1" && Decimal(2) == "2" && Decimal(3) == "3"
  {}

  /** Every row is counted under its disposition. */
  lemma {:induction false} CountsAdd(rows: seq<Row>)
    ensures CountOf(rows, Keep) + CountOf(rows, Migrate) + CountOf(rows, Archive) == |rows|
  {
    if rows != [] {
      CountsAdd(rows[1..]);
    }
  }
}
