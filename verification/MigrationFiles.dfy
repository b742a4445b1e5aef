/** Migration file names, their versions, and the listing of a scripts directory. */
module MigrationFiles {
  import opened Text
  import opened Wrappers
  import opened Sorting

  // ------------------------------------------------------------------ the file name pattern

  /** One or more digit groups with a single `.` or `_` between each two. */
  type Version = v: string | IsVersion(v) witness "1"

  datatype Migration = Migration(version: Version, description: string)

  predicate IsSeparator(c: char) {
    c == '.' || c == '_'
  }

  predicate IsVersion(v: string) {
    && v != "" && IsDigit(v[0]) && IsDigit(v[|v| - 1])
    && (forall i :: 0 <= i < |v| ==> IsDigit(v[i]) || IsSeparator(v[i]))
    && (forall i :: 0 <= i < |v| - 1 ==> IsDigit(v[i]) || IsDigit(v[i + 1]))
  }

  /** What `.` of a regular expression does not match. */
  predicate IsLineTerminator(c: char) {
    c == '\n' || c == '\r' || c == '\U{2028}' || c == '\U{2029}'
  }

  predicate IsDescription(d: string) {
    d != "" && forall i :: 0 <= i < |d| ==> !IsLineTerminator(d[i])
  }

  /** The file name pattern, read declaratively. */
  predicate Matches(name: string, version: string, title: string) {
    IsVersion(version) && IsDescription(title) && name == "V" + version + "__" + title + ".sql"
  }

  /** Where the first `__` at or after `i` starts, or the end of the text. */
  function FindMark(s: string, i: nat): (j: nat)
    requires i <= |s|
    ensures i <= j <= |s|
    decreases |s| - i
  {
    if i + 1 < |s| && s[i] == '_' && s[i + 1] == '_' then i
    else if i < |s| then FindMark(s, i + 1) else |s|
  }

  /** Split a file name into its version and the text after `__`. */
  function Scan(name: string): Option<(string, string)> {
    var mark := FindMark(name, 0);
    if |name| < 7 || name[0] != 'V' || name[|name| - 4..] != ".sql" || mark < 1 || mark + 2 > |name| - 4 then None
    else
      var version, title := name[1..mark], name[mark + 2..|name| - 4];
      if IsVersion(version) && IsDescription(title) then Some((version, title)) else None
  }

  function Spaces(s: string): string {
    seq(|s|, i requires 0 <= i < |s| => if s[i] == '_' then ' ' else s[i])
  }

  predicate IsMigrationFilename(name: string) {
    Scan(name).Some?
  }

  /** The version and the description of a migration file name; other names are refused. */
  function ParseMigrationName(name: string): Option<Migration> {
    match Scan(name)
    case None => None
    case Some((version, title)) => Some(Migration(version, Spaces(title)))
  }

  lemma {:induction false} FindMarkFirst(s: string, i: nat, m: nat)
    requires i <= m && m + 1 < |s| && s[m] == '_' && s[m + 1] == '_'
    requires forall k :: i <= k < m ==> s[k] != '_' || s[k + 1] != '_'
    ensures FindMark(s, i) == m
    decreases m - i
  {
    if i < m {
      FindMarkFirst(s, i + 1, m);
    }
  }

  lemma {:induction false} FindMarkMeaning(s: string, i: nat)
    requires i <= |s|
    ensures FindMark(s, i) < |s| ==> FindMark(s, i) + 1 < |s| && s[FindMark(s, i)] == '_' == s[FindMark(s, i) + 1]
    decreases |s| - i
  {
    if i < |s| && !(i + 1 < |s| && s[i] == '_' && s[i + 1] == '_') {
      FindMarkMeaning(s, i + 1);
    }
  }

  /**
   * A name is read as version `v` and title `d` exactly when it has the form `V<v>__<d>.sql`: no name
   * can be read in two ways.
   */
  lemma ScanIsPattern(name: string, version: string, title: string)
    ensures Scan(name) == Some((version, title)) <==> Matches(name, version, title)
  {
    if Matches(name, version, title) {
      MatchedIsScanned(name, version, title);
    }
    if Scan(name) == Some((version, title)) {
      ScannedMatches(name, version, title);
    }
  }

  lemma MatchedIsScanned(name: string, version: string, title: string)
    requires Matches(name, version, title)
    ensures Scan(name) == Some((version, title))
  {
    VersionHoldsNoMark(version);
    assert title != "";
    hide IsVersion, IsDescription;
    var m := 1 + |version|;
    assert name[1..m] == version;
    assert forall k :: 1 <= k < m ==> name[k] == version[k - 1];
    assert name[m] == '_' && name[m + 1] == '_';
    FindMarkFirst(name, 0, m);
    assert name[m + 2..|name| - 4] == title;
    assert name[|name| - 4..] == ".sql";
  }

  /** A version starts with a digit, and no separator in it is followed by another. */
  lemma VersionHoldsNoMark(version: string)
    requires IsVersion(version)
    ensures version != "" && version[|version| - 1] != '_' && version[0] != '_'
    ensures forall k :: 0 <= k < |version| - 1 ==> version[k] != '_' || version[k + 1] != '_'
  {}

  lemma ScannedMatches(name: string, version: string, title: string)
    requires Scan(name) == Some((version, title))
    ensures Matches(name, version, title)
  {
    hide IsVersion, IsDescription;
    FindMarkMeaning(name, 0);
    var m := FindMark(name, 0);
    hide FindMark;
    assert name[m..m + 2] == "__" && name[..1] == "V";
    assert name == name[..1] + name[1..m] + name[m..m + 2] + name[m + 2..|name| - 4] + name[|name| - 4..];
  }

  // ------------------------------------------------------------------ version keys

  /** `split(/[._]/)`. */
  function Parts(v: string): (parts: seq<string>)
    ensures |parts| >= 1
  {
    if v == "" then [""]
    else
      var rest := Parts(v[1..]);
      if IsSeparator(v[0]) then [""] + rest else [[v[0]] + rest[0]] + rest[1..]
  }

  predicate AllNumbers(parts: seq<string>) {
    forall i :: 0 <= i < |parts| ==> AllDigits(parts[i])
  }

  lemma {:induction false} PartsAreNumbers(v: string)
    requires forall i :: 0 <= i < |v| ==> IsDigit(v[i]) || IsSeparator(v[i])
    ensures AllNumbers(Parts(v))
  {
    if v != "" {
      PartsAreNumbers(v[1..]);
    }
  }

  function Numbers(parts: seq<string>): (ns: seq<nat>)
    requires AllNumbers(parts)
    ensures |ns| == |parts|
  {
    seq(|parts|, i requires 0 <= i < |parts| => Number(parts[i]))
  }

  /** The numbers of a version's parts. */
  function PartNumbers(v: Version): (ns: seq<nat>)
    ensures |ns| >= 1
  {
    PartsAreNumbers(v);
    Numbers(Parts(v))
  }

  function Decimals(ns: seq<nat>): (parts: seq<string>)
    ensures |parts| == |ns|
  {
    seq(|ns|, i requires 0 <= i < |ns| => Decimal(ns[i]))
  }

  /** The key under which two files claim one version: every part without its leading zeros. */
  function VersionKey(v: Version): string {
    Join(Decimals(PartNumbers(v)), ".")
  }

  lemma SplitKey(ns: seq<nat>)
    requires |ns| >= 1
    ensures Split(Join(Decimals(ns), "."), '.') == Decimals(ns)
  {
    forall i | 0 <= i < |ns| ensures Free(Decimals(ns)[i], '.') {
      NumberDecimal(ns[i]);
    }
    SplitJoin(Decimals(ns), '.');
  }

  lemma DecimalsInjective(ms: seq<nat>, ns: seq<nat>)
    requires Decimals(ms) == Decimals(ns)
    ensures ms == ns
  {
    assert |ms| == |Decimals(ms)| == |Decimals(ns)| == |ns|;
    forall i | 0 <= i < |ms| ensures ms[i] == ns[i] {
      assert Decimals(ms)[i] == Decimals(ns)[i];
      DecimalInjective(ms[i], ns[i]);
    }
  }

  /** Two versions have one key exactly when their parts are the same numbers, however they are padded. */
  lemma KeysComparePartNumbers(a: Version, b: Version)
    ensures VersionKey(a) == VersionKey(b) <==> PartNumbers(a) == PartNumbers(b)
  {
    if VersionKey(a) == VersionKey(b) {
      SplitKey(PartNumbers(a));
      SplitKey(PartNumbers(b));
      DecimalsInjective(PartNumbers(a), PartNumbers(b));
    }
  }

  lemma {:induction false} PartsOfDigits(v: string)
    requires AllDigits(v)
    ensures Parts(v) == [v]
  {
    if v != "" {
      PartsOfDigits(v[1..]);
      assert v == [v[0]] + v[1..];
    }
  }

  /** A leading zero part is kept: `0.7` and `7` are different versions, although a comment says otherwise. */
  lemma ZeroPartIsKept()
    ensures IsVersion("0.7") && VersionKey("0.7") != VersionKey("7")
  {
    PartsOfDigits("7");
    assert "0.7"[1..] == ".7" && ".7"[1..] == "7";
    assert |Parts("0.7")| == 2;
    KeysComparePartNumbers("0.7", "7");
  }

  // ------------------------------------------------------------------ listing a directory

  /** The raw version of a migration file. */
  function RawVersion(file: string): string {
    match Scan(file)
    case None => ""
    case Some((version, _)) => version
  }

  function KeyOf(file: string): string {
    match Scan(file)
    case None => ""
    case Some((version, _)) => VersionKey(version)
  }

  function FirstNumber(file: string): nat {
    match Scan(file)
    case None => 0
    case Some((version, _)) => PartNumbers(version)[0]
  }

  /** The migration files among the entries of a directory, sorted by name. */
  function Listing(entries: seq<string>): seq<string> {
    Sort(Filter(entries, IsMigrationFilename), LexLeq)
  }

  /** The files that claim the version key `k`, in order. */
  function Claimants(files: seq<string>, k: string): seq<string> {
    if files == [] then []
    else
      var n := |files| - 1;
      Claimants(files[..n], k) + if KeyOf(files[n]) == k then [files[n]] else []
  }

  /** The version keys, each where it first occurs. */
  function Keys(files: seq<string>): seq<string> {
    if files == [] then []
    else
      var rest, k := Keys(files[..|files| - 1]), KeyOf(files[|files| - 1]);
      if k in rest then rest else rest + [k]
  }

  /** Those of `keys` that more than one file claims, each with its claimants. */
  function Collisions(keys: seq<string>, files: seq<string>): seq<(string, seq<string>)> {
    if keys == [] then []
    else
      var n := |keys| - 1;
      var group := Claimants(files, keys[n]);
      Collisions(keys[..n], files) + if |group| > 1 then [(keys[n], group)] else []
  }

  predicate DistinctKeys(files: seq<string>) {
    forall i, j :: 0 <= i < j < |files| ==> KeyOf(files[i]) != KeyOf(files[j])
  }

  datatype Collision = Collision(groups: seq<(string, seq<string>)>, suggestion: string)

  function PadStart(s: string, n: nat): string {
    if |s| >= n then s else "0" + PadStart(s, n - 1)
  }

  function MaxFirstNumber(files: seq<string>): nat {
    if files == [] then 0
    else
      var rest, n := MaxFirstNumber(files[..|files| - 1]), FirstNumber(files[|files| - 1]);
      if n > rest then n else rest
  }

  /** One more than the largest first number, padded to the width of `like`. */
  method SuggestNextVersion(files: seq<string>, like: string) returns (next: string)
    ensures next == PadStart(Decimal(MaxFirstNumber(files) + 1), |like|)
  {
    var max := 0;
    for i := 0 to |files|
      invariant max == MaxFirstNumber(files[..i])
    {
      assert files[..i + 1][..i] == files[..i];
      var numeric := FirstNumber(files[i]);
      if numeric > max {
        max := numeric;
      }
    }
    assert files[..|files|] == files;
    next := PadStart(Decimal(max + 1), |like|);
  }

  lemma {:induction false} KeysComplete(files: seq<string>)
    ensures forall k :: k in Keys(files) <==> exists i :: 0 <= i < |files| && KeyOf(files[i]) == k
    ensures forall i, j :: 0 <= i < j < |Keys(files)| ==> Keys(files)[i] != Keys(files)[j]
  {
    hide KeyOf;
    if files != [] {
      var n := |files| - 1;
      KeysComplete(files[..n]);
      assert forall i :: 0 <= i < n ==> files[..n][i] == files[i];
    }
  }

  lemma {:induction false} ClaimantsOf(files: seq<string>, k: string, i: nat)
    requires i < |files| && KeyOf(files[i]) == k
    ensures |Claimants(files, k)| >= 1
  {
    hide KeyOf;
    var n := |files| - 1;
    if i < n {
      ClaimantsOf(files[..n], k, i);
    }
  }

  lemma {:induction false} TwoClaimantsOf(files: seq<string>, k: string, i: nat, j: nat)
    requires i < j < |files| && KeyOf(files[i]) == k == KeyOf(files[j])
    ensures |Claimants(files, k)| > 1
  {
    hide KeyOf;
    var n := |files| - 1;
    if j < n {
      TwoClaimantsOf(files[..n], k, i, j);
    } else {
      ClaimantsOf(files[..n], k, i);
    }
  }

  lemma {:induction false} AClaimant(files: seq<string>, k: string) returns (i: nat)
    requires |Claimants(files, k)| >= 1
    ensures i < |files| && KeyOf(files[i]) == k
  {
    hide KeyOf;
    i := |files| - 1;
    if KeyOf(files[i]) != k {
      i := AClaimant(files[..i], k);
    }
  }

  lemma {:induction false} TwoClaimants(files: seq<string>, k: string) returns (i: nat, j: nat)
    requires |Claimants(files, k)| > 1
    ensures i < j < |files| && KeyOf(files[i]) == k == KeyOf(files[j])
  {
    hide KeyOf;
    j := |files| - 1;
    if KeyOf(files[j]) == k {
      i := AClaimant(files[..j], k);
    } else {
      i, j := TwoClaimants(files[..j], k);
    }
  }

  lemma {:induction false} CollisionsMeaning(keys: seq<string>, files: seq<string>)
    ensures forall k, g :: (k, g) in Collisions(keys, files) <==>
      k in keys && g == Claimants(files, k) && |g| > 1
  {
    hide KeyOf, Claimants;
    if keys != [] {
      CollisionsMeaning(keys[..|keys| - 1], files);
    }
  }

  /** Nothing collides exactly when the files' version keys are pairwise different. */
  lemma NoCollisions(files: seq<string>)
    ensures Collisions(Keys(files), files) == [] <==> DistinctKeys(files)
  {
    hide KeyOf, Claimants, Collisions, Keys;
    var cs := Collisions(Keys(files), files);
    CollisionsMeaning(Keys(files), files);
    KeysComplete(files);
    if cs != [] {
      assert (cs[0].0, cs[0].1) in cs;
      var i, j := TwoClaimants(files, cs[0].0);
    } else {
      forall i, j | 0 <= i < j < |files| ensures KeyOf(files[i]) != KeyOf(files[j]) {
        var k := KeyOf(files[i]);
        assert (k, Claimants(files, k)) !in cs;
        if k == KeyOf(files[j]) {
          TwoClaimantsOf(files, k, i, j);
          assert false;
        }
      }
    }
  }

  lemma {:induction false} NoClaimants(files: seq<string>, k: string)
    requires k !in Keys(files)
    ensures Claimants(files, k) == []
  {
    hide KeyOf;
    if files != [] {
      NoClaimants(files[..|files| - 1], k);
    }
  }

  /** Group the files by version key, remembering the order in which the keys first occur. */
  method GroupByVersion(files: seq<string>) returns (order: seq<string>, byVersion: map<string, seq<string>>)
    ensures order == Keys(files)
    ensures forall k :: k in byVersion <==> k in order
    ensures forall k :: k in byVersion ==> byVersion[k] == Claimants(files, k)
  {
    hide KeyOf;
    byVersion := map[];
    order := [];
    for i := 0 to |files|
      invariant order == Keys(files[..i])
      invariant forall k :: k in byVersion <==> k in order
      invariant forall k :: k in byVersion ==> byVersion[k] == Claimants(files[..i], k)
    {
      var key := KeyOf(files[i]);
      assert files[..i + 1][..i] == files[..i];
      var group := [];
      if key in byVersion {
        group := byVersion[key];
      } else {
        NoClaimants(files[..i], key);
        order := order + [key];
      }
      byVersion := byVersion[key := group + [files[i]]];
    }
    assert files[..|files|] == files;
  }

  /**
   * List the migrations of a directory: all of them in name order, or a refusal that names every
   * version claimed twice, with all its claimants, and suggests a number for the newest.
   */
  method ListMigrationFiles(entries: seq<string>) returns (r: Result<seq<string>, Collision>)
    ensures r.Ok? <==> DistinctKeys(Listing(entries))
    ensures r.Ok? ==> r.value == Listing(entries)
    ensures r.Err? ==> r.error == CollisionIn(Listing(entries))
  {
    hide KeyOf, Listing, Claimants, Keys, MaxFirstNumber, Decimal, PadStart;
    var files := Listing(entries);
    var order, byVersion := GroupByVersion(files);
    var groups := [];
    for i := 0 to |order|
      invariant groups == Collisions(order[..i], files)
    {
      assert order[..i + 1][..i] == order[..i];
      if |byVersion[order[i]]| > 1 {
        groups := groups + [(order[i], byVersion[order[i]])];
      }
    }
    assert order[..|order|] == order;
    NoCollisions(files);
    if groups == [] {
      return Ok(files);
    }
    var suggestion := SuggestNextVersion(files, groups[0].0);
    return Err(Collision(groups, suggestion));
  }

  /** The refusal for a list of files: the colliding groups and the suggested number. */
  function CollisionIn(files: seq<string>): Collision {
    var groups := Collisions(Keys(files), files);
    Collision(groups, PadStart(Decimal(MaxFirstNumber(files) + 1), if groups == [] then 0 else |groups[0].0|))
  }

  // ------------------------------------------------------------------ what a listing guarantees

  /** In a listing that is not refused no two files have the same raw version. */
  lemma RawVersionsDiffer(files: seq<string>, i: nat, j: nat)
    requires DistinctKeys(files) && i < j < |files|
    requires IsMigrationFilename(files[i]) && IsMigrationFilename(files[j])
    ensures RawVersion(files[i]) != RawVersion(files[j])
  {
  }

  /** A listing holds every migration file of the directory as often as the directory does, and nothing else. */
  lemma ListingComplete(entries: seq<string>, f: string)
    ensures multiset(Listing(entries))[f] == if IsMigrationFilename(f) then multiset(entries)[f] else 0
    ensures Sorted(Listing(entries), LexLeq)
  {
    LexIsTotalOrder();
    SortSorts(Filter(entries, IsMigrationFilename), LexLeq);
    FilterCounts(entries, IsMigrationFilename, f);
  }

  lemma {:induction false} PadStartNumber(n: nat, width: nat)
    ensures IsNumeral(PadStart(Decimal(n), width)) && Number(PadStart(Decimal(n), width)) == n
  {
    NumberDecimal(n);
    PadKeepsNumber(Decimal(n), width);
  }

  lemma {:induction false} PadKeepsNumber(s: string, width: nat)
    requires IsNumeral(s)
    ensures IsNumeral(PadStart(s, width)) && Number(PadStart(s, width)) == Number(s)
    decreases width
  {
    if |s| < width {
      PadKeepsNumber(s, width - 1);
      LeadingZero(PadStart(s, width - 1));
    }
  }

  lemma {:induction false} LeadingZero(s: string)
    requires IsNumeral(s)
    ensures AllDigits("0" + s) && Number("0" + s) == Number(s)
  {
    var t := "0" + s;
    if |s| == 1 {
      assert t[..1] == "0" && s[..0] == "" && "0"[..0] == "";
      assert Number("0") == 0;
    } else {
      LeadingZero(s[..|s| - 1]);
      assert t[..|t| - 1] == "0" + s[..|s| - 1];
    }
  }

  lemma {:induction false} MaxFirstNumberBounds(files: seq<string>, i: nat)
    requires i < |files|
    ensures FirstNumber(files[i]) <= MaxFirstNumber(files)
  {
    var n := |files| - 1;
    if i < n {
      MaxFirstNumberBounds(files[..n], i);
    }
  }

  /** The suggested version is a version no listed file claims, under any padding. */
  lemma SuggestionIsFree(files: seq<string>)
    ensures var s := CollisionIn(files).suggestion;
            IsVersion(s) && forall f :: f in files && IsMigrationFilename(f) ==> KeyOf(f) != VersionKey(s)
  {
    var s := CollisionIn(files).suggestion;
    var groups := Collisions(Keys(files), files);
    PadStartNumber(MaxFirstNumber(files) + 1, if groups == [] then 0 else |groups[0].0|);
    PartsOfDigits(s);
    forall f | f in files && IsMigrationFilename(f) ensures KeyOf(f) != VersionKey(s) {
      var i :| 0 <= i < |files| && files[i] == f;
      MaxFirstNumberBounds(files, i);
      KeysComparePartNumbers(Scan(f).value.0, s);
    }
  }

  lemma {:induction false} PadStartWidth(s: string, n: nat)
    ensures |PadStart(s, n)| == if |s| >= n then |s| else n
    decreases n
  {
    if |s| < n {
      PadStartWidth(s, n - 1);
    }
  }

  lemma {:induction false} ClaimantsHaveKey(files: seq<string>, k: string)
    ensures forall f :: f in Claimants(files, k) ==> f in files && KeyOf(f) == k
  {
    hide KeyOf;
    if files != [] {
      ClaimantsHaveKey(files[..|files| - 1], k);
    }
  }

  lemma {:induction false} GroupsHaveKeys(keys: seq<string>, files: seq<string>)
    ensures forall g, f :: g in Collisions(keys, files) && f in g.1 ==> f in files && KeyOf(f) == g.0
  {
    hide KeyOf, Claimants;
    if keys != [] {
      GroupsHaveKeys(keys[..|keys| - 1], files);
      ClaimantsHaveKey(files, keys[|keys| - 1]);
    }
  }

  /** The next number after all first numbers of the listing. */
  function NextNumber(files: seq<string>): string {
    Decimal(MaxFirstNumber(files) + 1)
  }

  /**
   * The suggestion is as wide as a colliding file's version exactly when that version is as wide as the wider
   * of its key, where leading zeros are gone, and the next number.
   */
  lemma SuggestionWidthExactly(files: seq<string>, f: string)
    requires CollisionIn(files).groups != [] && f in CollisionIn(files).groups[0].1
    ensures |CollisionIn(files).suggestion| == |RawVersion(f)| <==>
      |RawVersion(f)| == if |KeyOf(f)| >= |NextNumber(files)| then |KeyOf(f)| else |NextNumber(files)|
  {
    hide KeyOf, RawVersion, MaxFirstNumber, Collisions, Keys;
    GroupsHaveKeys(Keys(files), files);
    var group := CollisionIn(files).groups[0];
    assert group in CollisionIn(files).groups;
    PadStartWidth(NextNumber(files), |group.0|);
  }

  lemma {:induction false} DecimalWidens(m: nat, n: nat)
    requires m <= n
    ensures 1 <= |Decimal(m)| <= |Decimal(n)|
    decreases n
  {
    if n >= 10 && m >= 10 {
      DecimalWidens(m / 10, n / 10);
    } else if n >= 10 {
      DecimalWidens(0, n / 10);
    }
  }

  lemma IntegerKey(f: string)
    requires IsMigrationFilename(f) && AllDigits(RawVersion(f))
    ensures KeyOf(f) == Decimal(FirstNumber(f))
  {
    hide Decimal, Number;
    var v := RawVersion(f);
    PartsOfDigits(v);
    assert PartNumbers(v) == [FirstNumber(f)];
    assert Decimals([FirstNumber(f)]) == [Decimal(FirstNumber(f))];
  }

  /**
   * For an integer version the padding never does anything: the suggestion is the bare next number, as wide
   * as the colliding version exactly when that has as many digits.
   */
  lemma IntegerSuggestionIsBare(files: seq<string>, f: string)
    requires CollisionIn(files).groups != [] && f in CollisionIn(files).groups[0].1
    requires IsMigrationFilename(f) && AllDigits(RawVersion(f))
    ensures CollisionIn(files).suggestion == NextNumber(files)
    ensures |CollisionIn(files).suggestion| == |RawVersion(f)| <==> |NextNumber(files)| == |RawVersion(f)|
  {
    hide KeyOf, RawVersion, MaxFirstNumber, Collisions, Keys, FirstNumber, IsMigrationFilename, Decimal;
    GroupsHaveKeys(Keys(files), files);
    assert CollisionIn(files).groups[0] in CollisionIn(files).groups;
    IntegerKey(f);
    var i :| 0 <= i < |files| && files[i] == f;
    MaxFirstNumberBounds(files, i);
    DecimalWidens(FirstNumber(f), MaxFirstNumber(files) + 1);
  }

  lemma ReadName(name: string, version: Version, title: string)
    requires Matches(name, version, title)
    ensures IsMigrationFilename(name) && RawVersion(name) == version && KeyOf(name) == VersionKey(version)
    ensures FirstNumber(name) == PartNumbers(version)[0]
  {
    hide VersionKey, PartNumbers;
    ScanIsPattern(name, version, title);
  }

  lemma PaddedTwo()
    ensures IsVersion("002") && VersionKey("002") == "2" && PartNumbers("002") == [2]
  {
    LeadingZero("2");
    LeadingZero("02");
    assert "2"[..0] == "" && Number("2") == 2;
    PartsOfDigits("002");
    assert PartNumbers("002") == [2];
    assert Decimals([2]) == ["2"];
  }

  const FIRST := "V002__a.sql"
  const SECOND := "V002__b.sql"

  lemma FirstAndSecond()
    ensures Matches(FIRST, "002", "a") && Matches(SECOND, "002", "b")
  {
    PaddedTwo();
  }

  lemma FirstBeforeSecond()
    ensures LexLeq(FIRST, SECOND)
  {
    var name := "V002__";
    assert FIRST == name + "a.sql" && SECOND == name + "b.sql";
    LexAfterCommon(name, "a.sql", "b.sql");
  }

  lemma {:induction false} LexAfterCommon(common: string, s: string, t: string)
    requires LexLeq(s, t)
    ensures LexLeq(common + s, common + t)
  {
    if common == "" {
      assert common + s == s && common + t == t;
    } else {
      var x, y := common + s, common + t;
      assert x[0] == common[0] == y[0] && x[1..] == common[1..] + s && y[1..] == common[1..] + t;
      assert LexLeq(x, y) == LexLeq(x[1..], y[1..]);
      hide LexLeq;
      LexAfterCommon(common[1..], s, t);
    }
  }

  /** Two files that collide on `V002` are told to take `V3`, not `V003`. */
  lemma PaddedCollisionNarrows()
    ensures var files := Listing([FIRST, SECOND]);
      && files == [FIRST, SECOND] && !DistinctKeys(files)
      && CollisionIn(files).suggestion == "3" && RawVersion(files[0]) == "002"
  {
    hide Scan, IsMigrationFilename, KeyOf, RawVersion, FirstNumber, VersionKey, PartNumbers;
    hide FIRST, SECOND, Listing, LexLeq, Matches;
    PaddedTwo();
    FirstAndSecond();
    FirstBeforeSecond();
    ReadName(FIRST, "002", "a");
    ReadName(SECOND, "002", "b");
    TwoFilesListed(FIRST, SECOND);
    TwoFilesCollide(FIRST, SECOND);
    assert [FIRST, SECOND][0] == FIRST && [FIRST, SECOND][1] == SECOND;
    assert Decimal(3) == "3" && PadStart("3", 1) == "3";
  }

  lemma OneFileListing(name: string)
    requires IsMigrationFilename(name)
    ensures Listing([name]) == [name]
  {
    hide IsMigrationFilename;
    assert [name][1..] == [];
    assert Filter([name], IsMigrationFilename) == [name];
    assert Sort([name], LexLeq) == [name];
  }

  lemma TwoFilesListed(a: string, b: string)
    requires IsMigrationFilename(a) && IsMigrationFilename(b) && LexLeq(a, b)
    ensures Listing([a, b]) == [a, b]
  {
    hide IsMigrationFilename, LexLeq;
    assert [a, b][1..] == [b] && [b][1..] == [];
    assert Filter([b], IsMigrationFilename) == [b];
    assert Filter([a, b], IsMigrationFilename) == [a, b];
    assert Sort([b], LexLeq) == [b];
  }

  lemma TwoFilesCollide(a: string, b: string)
    requires KeyOf(a) == KeyOf(b)
    ensures CollisionIn([a, b]).groups == [(KeyOf(a), [a, b])]
    ensures FirstNumber(a) == FirstNumber(b) ==> MaxFirstNumber([a, b]) == FirstNumber(a)
  {
    hide KeyOf, FirstNumber;
    var files, k := [a, b], KeyOf(a);
    assert files[..1] == [a] && [a][..0] == [];
    assert Claimants([a], k) == [a] && Claimants(files, k) == [a, b];
    assert Keys([a]) == [k] && Keys(files) == [k];
    assert [k][..0] == [];
    assert Collisions([k], files) == [(k, [a, b])];
    assert MaxFirstNumber([a]) == FirstNumber(a);
  }

  function Pow10(n: nat): nat {
    if n == 0 then 1 else 10 * Pow10(n - 1)
  }

  lemma TenTimes(d: nat, p: nat)
    ensures d * (10 * p) == 10 * (d * p)
  {}

  lemma {:induction false} NumberCons(s: string)
    requires IsNumeral(s)
    ensures Number(s) == DigitValue(s[0]) * Pow10(|s| - 1) + Number(s[1..])
    ensures Number(s[1..]) < Pow10(|s| - 1)
  {
    var n := |s| - 1;
    if n == 0 {
      assert s[..0] == "" && s[1..] == "";
    } else {
      var front, rest := s[..n], s[1..];
      NumberCons(front);
      assert front[0] == s[0];
      assert front[1..] == rest[..n - 1] && rest[n - 1] == s[n];
      assert Number(s) == 10 * Number(front) + DigitValue(s[n]);
      assert Number(rest) == 10 * Number(front[1..]) + DigitValue(s[n]);
      hide Number, AllDigits;
      TenTimes(DigitValue(s[0]), Pow10(n - 1));
    }
  }

  lemma LeadingDigitDecides(d: nat, e: nat, p: nat, x: nat, y: nat)
    requires d < e && x < p
    ensures d * p + x < e * p + y
  {
    assert (d + 1) * p <= e * p;
  }

  lemma {:induction false} LexIsNumeric(a: string, b: string, s: string, t: string)
    requires AllDigits(a) && AllDigits(b) && |a| == |b|
    requires LexLeq(a + s, b + t)
    ensures Number(a) <= Number(b)
  {
    hide Number, Pow10;
    if a == "" {
    } else {
      NumberCons(a);
      NumberCons(b);
      assert (a + s)[1..] == a[1..] + s && (b + t)[1..] == b[1..] + t;
      if a[0] == b[0] {
        LexIsNumeric(a[1..], b[1..], s, t);
      } else {
        LeadingDigitDecides(DigitValue(a[0]), DigitValue(b[0]), Pow10(|a| - 1), Number(a[1..]), Number(b[1..]));
      }
    }
  }

  /** A migration file name after the `V` is its raw version and the rest. */
  lemma NameRest(a: string) returns (s: string)
    requires IsMigrationFilename(a)
    ensures a != "" && a[0] == 'V' && a[1..] == RawVersion(a) + s
  {
    hide IsVersion, IsDescription, Scan;
    var version, title := RawVersion(a), Scan(a).value.1;
    ScanIsPattern(a, version, title);
    s := "__" + title + ".sql";
    assert a == "V" + (version + s);
  }

  lemma NamesInVersionOrder(a: string, b: string)
    requires IsMigrationFilename(a) && IsMigrationFilename(b) && LexLeq(a, b)
    requires AllDigits(RawVersion(a)) && AllDigits(RawVersion(b)) && |RawVersion(a)| == |RawVersion(b)|
    ensures Number(RawVersion(a)) <= Number(RawVersion(b))
  {
    var s := NameRest(a);
    var t := NameRest(b);
    hide Number, AllDigits, IsMigrationFilename, RawVersion;
    LexIsNumeric(RawVersion(a), RawVersion(b), s, t);
  }

  lemma EqualNumbersShareKey(a: string, b: string)
    requires IsMigrationFilename(a) && IsMigrationFilename(b)
    requires AllDigits(RawVersion(a)) && AllDigits(RawVersion(b))
    requires Number(RawVersion(a)) == Number(RawVersion(b))
    ensures KeyOf(a) == KeyOf(b)
  {
    PartsOfDigits(RawVersion(a));
    PartsOfDigits(RawVersion(b));
    assert PartNumbers(RawVersion(a)) == PartNumbers(RawVersion(b));
  }

  /**
   * When all versions are integers written with one number of digits, as the repository's own are,
   * the listing runs in strictly increasing numeric order.
   */
  lemma ListingInNumericOrder(files: seq<string>, width: nat, i: nat, j: nat)
    requires Sorted(files, LexLeq) && DistinctKeys(files) && i < j < |files|
    requires forall f :: f in files ==> IsMigrationFilename(f) && AllDigits(RawVersion(f)) && |RawVersion(f)| == width
    ensures Number(RawVersion(files[i])) < Number(RawVersion(files[j]))
  {
    hide Number, AllDigits, KeyOf, RawVersion, Scan, LexLeq;
    NamesInVersionOrder(files[i], files[j]);
    if Number(RawVersion(files[i])) == Number(RawVersion(files[j])) {
      EqualNumbersShareKey(files[i], files[j]);
    }
  }
}
