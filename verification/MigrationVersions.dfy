/** How versions are spelled and what is read off them: groups of digits, keys, numbers and claims. */
module MigrationVersions {
  import opened Text
  import opened Sorting
  import opened MigrationFiles

  // ------------------------------------------------------------------ spelling

  /** Groups of digits with one separator between each two. */
  function Spelled(groups: seq<string>, separators: string): string
    requires |groups| == |separators| + 1
  {
    if separators == "" then groups[0]
    else groups[0] + [separators[0]] + Spelled(groups[1..], separators[1..])
  }

  predicate AreNumerals(groups: seq<string>) {
    forall i :: 0 <= i < |groups| ==> IsNumeral(groups[i])
  }

  predicate AreSeparators(separators: string) {
    forall i :: 0 <= i < |separators| ==> separators[i] == '.' || separators[i] == '_'
  }

  lemma {:induction false} SpelledParts(groups: seq<string>, separators: string)
    requires |groups| == |separators| + 1 && AreNumerals(groups) && AreSeparators(separators)
    ensures Parts(Spelled(groups, separators)) == groups
  {
    if separators == "" {
      PartsOfDigits(groups[0]);
    } else {
      SpelledParts(groups[1..], separators[1..]);
      PartsPrepend(groups[0], separators[0], Spelled(groups[1..], separators[1..]));
      assert groups == [groups[0]] + groups[1..];
    }
  }

  lemma {:induction false} PartsPrepend(group: string, separator: char, rest: string)
    requires AllDigits(group) && IsSeparator(separator)
    ensures Parts(group + [separator] + rest) == [group] + Parts(rest)
  {
    var v := group + [separator] + rest;
    if group == "" {
      assert v[0] == separator && v[1..] == rest;
    } else {
      assert v[0] == group[0] && v[1..] == group[1..] + [separator] + rest;
      PartsPrepend(group[1..], separator, rest);
      assert group == [group[0]] + group[1..];
    }
  }

  lemma {:induction false} SpelledIsVersion(groups: seq<string>, separators: string)
    requires |groups| == |separators| + 1 && AreNumerals(groups) && AreSeparators(separators)
    ensures IsVersion(Spelled(groups, separators))
  {
    if separators != "" {
      var rest := Spelled(groups[1..], separators[1..]);
      SpelledIsVersion(groups[1..], separators[1..]);
      VersionPrepend(groups[0], separators[0], rest);
    }
  }

  lemma VersionPrepend(group: string, separator: char, rest: string)
    requires IsNumeral(group) && IsSeparator(separator) && IsVersion(rest)
    ensures IsVersion(group + [separator] + rest)
  {
    var v, n := group + [separator] + rest, |group|;
    assert v[0] == group[0] && v[|v| - 1] == rest[|rest| - 1] && v[n] == separator;
    assert forall i :: 0 <= i < n ==> v[i] == group[i];
    assert forall i :: n < i < |v| ==> v[i] == rest[i - n - 1];
    forall i | 0 <= i < |v| - 1 ensures IsDigit(v[i]) || IsDigit(v[i + 1]) {
      if i > n {
        assert IsDigit(rest[i - n - 1]) || IsDigit(rest[i - n]);
      }
    }
  }

  /** The separators of a version, in order. */
  function SeparatorsOf(v: string): string {
    if v == "" then "" else (if IsSeparator(v[0]) then [v[0]] else "") + SeparatorsOf(v[1..])
  }

  lemma {:induction false} SpelledFromParts(v: string)
    requires forall i :: 0 <= i < |v| ==> IsDigit(v[i]) || IsSeparator(v[i])
    ensures |Parts(v)| == |SeparatorsOf(v)| + 1 && AreSeparators(SeparatorsOf(v))
    ensures Spelled(Parts(v), SeparatorsOf(v)) == v
  {
    if v != "" {
      var rest, separators := Parts(v[1..]), SeparatorsOf(v[1..]);
      SpelledFromParts(v[1..]);
      assert v == [v[0]] + v[1..];
      if IsSeparator(v[0]) {
        assert Parts(v) == [""] + rest && Parts(v)[1..] == rest && ([v[0]] + separators)[1..] == separators;
      } else {
        var head := [v[0]] + rest[0];
        assert Parts(v) == [head] + rest[1..] && SeparatorsOf(v) == "" + separators == separators;
        assert Parts(v)[1..] == rest[1..];
      }
    }
  }

  lemma {:induction false} NoEmptyGroups(v: string)
    requires v != "" && IsDigit(v[|v| - 1])
    requires forall i :: 0 <= i < |v| - 1 ==> IsDigit(v[i]) || IsDigit(v[i + 1])
    ensures Parts(v)[0] != "" <==> !IsSeparator(v[0])
    ensures forall i :: 1 <= i < |Parts(v)| ==> Parts(v)[i] != ""
  {
    var t := v[1..];
    if t != "" {
      assert t[|t| - 1] == v[|v| - 1];
      forall i | 0 <= i < |t| - 1 ensures IsDigit(t[i]) || IsDigit(t[i + 1]) {
        assert t[i] == v[i + 1] && t[i + 1] == v[i + 2];
      }
      NoEmptyGroups(t);
      assert IsDigit(v[0]) || IsDigit(v[1]);
    } else {
      assert Parts(t) == [""];
    }
  }

  predicate Spells(v: string, groups: seq<string>, separators: string) {
    |groups| == |separators| + 1 && AreNumerals(groups) && AreSeparators(separators) && v == Spelled(groups, separators)
  }

  /** A text is a version exactly when it is groups of digits with a `.` or a `_` between each two. */
  lemma VersionsAreSpelled(v: string)
    ensures IsVersion(v) <==> exists groups, separators :: Spells(v, groups, separators)
  {
    if IsVersion(v) {
      SpelledFromParts(v);
      PartsAreNumbers(v);
      NoEmptyGroups(v);
      assert Spells(v, Parts(v), SeparatorsOf(v));
    }
    if groups, separators :| Spells(v, groups, separators) {
      SpelledIsVersion(groups, separators);
    }
  }

  /** The key of a version: its numbers in decimal, in order, with dots between them. */
  lemma KeyOfSpelled(groups: seq<string>, separators: string)
    requires |groups| == |separators| + 1 && AreNumerals(groups) && AreSeparators(separators)
    ensures var v := Spelled(groups, separators);
      && IsVersion(v) && |PartNumbers(v)| == |groups|
      && (forall i :: 0 <= i < |groups| ==> PartNumbers(v)[i] == Number(groups[i]))
      && VersionKey(v) == Join(seq(|groups|, i requires 0 <= i < |groups| => Decimal(Number(groups[i]))), ".")
  {
    hide Number, Decimal, Join;
    SpelledIsVersion(groups, separators);
    SpelledParts(groups, separators);
    var v := Spelled(groups, separators);
    assert Decimals(PartNumbers(v)) == seq(|groups|, i requires 0 <= i < |groups| => Decimal(Number(groups[i])));
  }

  // ------------------------------------------------------------------ file names

  /** A name belongs to a migration exactly when it has the form `V<version>__<title>.sql`. */
  lemma MigrationNameExactly(name: string)
    ensures IsMigrationFilename(name) <==> exists version, title :: Matches(name, version, title)
  {
    if IsMigrationFilename(name) {
      ScanIsPattern(name, Scan(name).value.0, Scan(name).value.1);
    }
    if version, title :| Matches(name, version, title) {
      ScanIsPattern(name, version, title);
    }
  }

  /** A title is any text but the empty one that stays on one line. */
  lemma TitleExactly(title: string)
    ensures IsDescription(title) <==>
      title != "" && '\n' !in title && '\r' !in title && '\U{2028}' !in title && '\U{2029}' !in title
  {}

  /** What is read off a migration's name. */
  lemma ParsedNameExactly(name: string, version: Version, title: string)
    requires Matches(name, version, title)
    ensures ParseMigrationName(name).Some? && ParseMigrationName(name).value.version == version
    ensures var d := ParseMigrationName(name).value.description;
      |d| == |title| && forall i :: 0 <= i < |title| ==> d[i] == if title[i] == '_' then ' ' else title[i]
  {
    hide Scan;
    ScanIsPattern(name, version, title);
  }

  // ------------------------------------------------------------------ claims

  /** The claimants of a key are the files with that key, in listing order. */
  lemma {:induction false} ClaimantsIsFilter(files: seq<string>, k: string, hasKey: string -> bool)
    requires forall f :: hasKey(f) <==> KeyOf(f) == k
    ensures Claimants(files, k) == Filter(files, hasKey)
  {
    hide KeyOf;
    if files != [] {
      var n := |files| - 1;
      ClaimantsIsFilter(files[..n], k, hasKey);
      FilterSnoc(files[..n], files[n], hasKey);
      assert files == files[..n] + [files[n]];
    }
  }

  /** The claimants of a key are exactly the files with that key, each as often as it is listed. */
  lemma ClaimantsExactly(files: seq<string>, k: string, f: string)
    ensures multiset(Claimants(files, k))[f] == if KeyOf(f) == k then multiset(files)[f] else 0
  {
    hide KeyOf, Claimants, Filter;
    ClaimantsIsFilter(files, k, (g: string) => KeyOf(g) == k);
    FilterCounts(files, (g: string) => KeyOf(g) == k, f);
  }

  /** Where a key first occurs. */
  predicate FirstClaim(files: seq<string>, k: string, i: int) {
    0 <= i < |files| && KeyOf(files[i]) == k && forall j :: 0 <= j < i ==> KeyOf(files[j]) != k
  }

  /** The keys are listed in the order in which they first occur. */
  lemma {:induction false} KeysInOrder(files: seq<string>, a: int, b: int, i: int, j: int)
    requires 0 <= a < b < |Keys(files)|
    requires FirstClaim(files, Keys(files)[a], i) && FirstClaim(files, Keys(files)[b], j)
    ensures i < j
  {
    hide KeyOf;
    var n := |files| - 1;
    var front := files[..n];
    KeysComplete(front);
    KeysComplete(files);
    if KeyOf(files[n]) in Keys(front) || b < |Keys(front)| {
      var ka, kb := Keys(files)[a], Keys(files)[b];
      assert ka == Keys(front)[a] && kb == Keys(front)[b];
      assert ka in Keys(front) && kb in Keys(front);
      FirstClaimInFront(files, ka, i);
      FirstClaimInFront(files, kb, j);
      KeysInOrder(front, a, b, i, j);
    } else {
      var ka := Keys(files)[a];
      assert ka == Keys(front)[a] && ka in Keys(front);
      FirstClaimInFront(files, ka, i);
      assert j == n;
    }
  }

  lemma FirstClaimInFront(files: seq<string>, k: string, i: int)
    requires files != [] && FirstClaim(files, k, i) && k in Keys(files[..|files| - 1])
    ensures i < |files| - 1 && FirstClaim(files[..|files| - 1], k, i)
  {
    hide KeyOf, Keys;
    var front := files[..|files| - 1];
    KeysComplete(front);
    var m :| 0 <= m < |front| && KeyOf(front[m]) == k;
    assert files[m] == front[m];
  }

  /** The largest first number is that of some file, unless there is none. */
  lemma {:induction false} MaxFirstNumberTaken(files: seq<string>)
    ensures MaxFirstNumber(files) == 0 || exists i :: 0 <= i < |files| && FirstNumber(files[i]) == MaxFirstNumber(files)
  {
    hide FirstNumber;
    if files != [] {
      var n := |files| - 1;
      MaxFirstNumberTaken(files[..n]);
      if MaxFirstNumber(files) != 0 && FirstNumber(files[n]) != MaxFirstNumber(files) {
        var i :| 0 <= i < n && FirstNumber(files[..n][i]) == MaxFirstNumber(files[..n]);
        assert files[i] == files[..n][i];
      }
    }
  }

  /** The suggestion, as a number, is one more than the first number of some file, and above all of them. */
  lemma SuggestionIsLeast(files: seq<string>)
    ensures var s := CollisionIn(files).suggestion;
      && IsNumeral(s)
      && (forall i :: 0 <= i < |files| ==> FirstNumber(files[i]) < Number(s))
      && (Number(s) == 1 || exists i :: 0 <= i < |files| && FirstNumber(files[i]) + 1 == Number(s))
  {
    hide FirstNumber, Number, Decimal, AllDigits, MaxFirstNumber, Collisions, Keys, PadStart;
    var groups := Collisions(Keys(files), files);
    PadStartNumber(MaxFirstNumber(files) + 1, if groups == [] then 0 else |groups[0].0|);
    MaxFirstNumberTaken(files);
    forall i | 0 <= i < |files| ensures FirstNumber(files[i]) <= MaxFirstNumber(files) {
      MaxFirstNumberBounds(files, i);
    }
  }
}
