/** Dotted release versions and their order. */
module ReleaseVersions {
  import opened Text

  /** One or more numerals with `.` between them. */
  predicate IsDotted(v: string) {
    forall i :: 0 <= i < |Split(v, '.')| ==> IsNumeral(Split(v, '.')[i])
  }

  lemma ZeroIsDotted()
    ensures IsDotted("0.0.0")
  {
    SplitJoin(["0", "0", "0"], '.');
    assert ["0", "0", "0"][1..] == ["0", "0"] && ["0", "0"][1..] == ["0"];
    assert Join(["0", "0", "0"], ".") == "0.0.0";
  }

  type ReleaseVersion = v: string | IsDotted(v) ghost witness (ZeroIsDotted(); "0.0.0")

  function Components(v: ReleaseVersion): seq<nat> {
    seq(|Split(v, '.')|, i requires 0 <= i < |Split(v, '.')| => Number(Split(v, '.')[i]))
  }

  /** A missing component counts as 0. */
  function At(ns: seq<nat>, i: nat): nat {
    if i < |ns| then ns[i] else 0
  }

  function Longer(a: seq<nat>, b: seq<nat>): nat {
    if |a| > |b| then |a| else |b|
  }

  function CompareFrom(a: seq<nat>, b: seq<nat>, i: nat): int
    decreases Longer(a, b) - i
  {
    if i >= Longer(a, b) then 0
    else if At(a, i) != At(b, i) then At(a, i) - At(b, i)
    else CompareFrom(a, b, i + 1)
  }

  function Compare(a: ReleaseVersion, b: ReleaseVersion): int {
    CompareFrom(Components(a), Components(b), 0)
  }

  /** Compare component by component; the first difference decides. */
  method CompareVersions(a: ReleaseVersion, b: ReleaseVersion) returns (diff: int)
    ensures diff == Compare(a, b)
  {
    var left, right := Components(a), Components(b);
    for i := 0 to Longer(left, right)
      invariant CompareFrom(left, right, i) == Compare(a, b)
    {
      diff := At(left, i) - At(right, i);
      if diff != 0 {
        return;
      }
    }
    return 0;
  }

  /** The comparison, declaratively: `a` is above `b` by its first differing component. */
  ghost predicate DecidedAt(a: seq<nat>, b: seq<nat>, k: nat) {
    At(a, k) != At(b, k) && forall i: nat :: i < k ==> At(a, i) == At(b, i)
  }

  lemma {:induction false} CompareFromMeaning(a: seq<nat>, b: seq<nat>, i: nat)
    requires forall j: nat :: j < i ==> At(a, j) == At(b, j)
    ensures CompareFrom(a, b, i) == 0 <==> forall j: nat :: At(a, j) == At(b, j)
    ensures CompareFrom(a, b, i) != 0 ==>
      exists k: nat :: DecidedAt(a, b, k) && CompareFrom(a, b, i) == At(a, k) - At(b, k)
    decreases Longer(a, b) - i
  {
    if i < Longer(a, b) {
      if At(a, i) == At(b, i) {
        CompareFromMeaning(a, b, i + 1);
      } else {
        assert DecidedAt(a, b, i);
      }
    }
  }

  /**
   * Versions compare as equal exactly when all their components agree, trailing zeros aside; otherwise
   * the result is the difference at the first component in which they differ.
   */
  lemma CompareMeaning(a: ReleaseVersion, b: ReleaseVersion)
    ensures Compare(a, b) == 0 <==> forall j: nat :: At(Components(a), j) == At(Components(b), j)
    ensures forall k: nat :: DecidedAt(Components(a), Components(b), k) ==>
      Compare(a, b) == At(Components(a), k) - At(Components(b), k)
  {
    var x, y := Components(a), Components(b);
    CompareFromMeaning(x, y, 0);
    forall k: nat | DecidedAt(x, y, k) ensures Compare(a, b) == At(x, k) - At(y, k) {
      var m: nat :| DecidedAt(x, y, m) && Compare(a, b) == At(x, m) - At(y, m);
      assert m == k;
    }
  }

  lemma CompareDecides(a: ReleaseVersion, b: ReleaseVersion) returns (k: nat)
    requires Compare(a, b) != 0
    ensures DecidedAt(Components(a), Components(b), k)
    ensures Compare(a, b) == At(Components(a), k) - At(Components(b), k)
  {
    CompareFromMeaning(Components(a), Components(b), 0);
    k :| DecidedAt(Components(a), Components(b), k) && Compare(a, b) == At(Components(a), k) - At(Components(b), k);
  }

  lemma CompareFlips(a: ReleaseVersion, b: ReleaseVersion)
    ensures Compare(b, a) == -Compare(a, b)
  {
    hide Components;
    CompareMeaning(a, b);
    CompareMeaning(b, a);
    if Compare(a, b) != 0 {
      var k := CompareDecides(a, b);
      assert DecidedAt(Components(b), Components(a), k);
    }
  }

  lemma CompareTransitive(a: ReleaseVersion, b: ReleaseVersion, c: ReleaseVersion)
    requires Compare(a, b) <= 0 && Compare(b, c) <= 0
    ensures Compare(a, c) <= 0
    ensures Compare(a, b) < 0 || Compare(b, c) < 0 ==> Compare(a, c) < 0
  {
    hide Components, Compare, CompareFrom;
    var x, y, z := Components(a), Components(b), Components(c);
    CompareMeaning(a, b);
    CompareMeaning(b, c);
    CompareMeaning(a, c);
    if Compare(a, b) < 0 && Compare(b, c) < 0 {
      var j := CompareDecides(a, b);
      var k := CompareDecides(b, c);
      assert DecidedAt(x, z, if j < k then j else k);
    } else if Compare(a, b) < 0 {
      var j := CompareDecides(a, b);
      assert DecidedAt(x, z, j);
    } else if Compare(b, c) < 0 {
      var k := CompareDecides(b, c);
      assert DecidedAt(x, z, k);
    }
  }

  // ------------------------------------------------------------------ versions as written

  predicate AreNumerals(parts: seq<string>) {
    |parts| >= 1 && forall i :: 0 <= i < |parts| ==> IsNumeral(parts[i])
  }

  /** A text is a version exactly when it is numerals with a dot between each two. */
  lemma DottedExactly(v: string)
    ensures IsDotted(v) <==> exists parts :: AreNumerals(parts) && v == Join(parts, ".")
  {
    hide Number;
    if IsDotted(v) {
      JoinSplit(v, '.');
      assert AreNumerals(Split(v, '.'));
    }
    if parts :| AreNumerals(parts) && v == Join(parts, ".") {
      NumeralsSplit(parts);
    }
  }

  lemma NumeralsSplit(parts: seq<string>)
    requires AreNumerals(parts)
    ensures Split(Join(parts, "."), '.') == parts
  {
    forall i | 0 <= i < |parts| ensures Free(parts[i], '.') {
      forall c | c in parts[i] ensures c != '.' {
        var j :| 0 <= j < |parts[i]| && parts[i][j] == c;
        assert IsDigit(parts[i][j]);
      }
    }
    SplitJoin(parts, '.');
  }

  /** The number at a place of a version, first place first; a missing part counts as 0. */
  function NumberAt(parts: seq<string>, k: nat): nat
    requires AreNumerals(parts)
  {
    if k < |parts| then Number(parts[k]) else 0
  }

  /** The first place at which two versions differ. */
  ghost predicate DifferFirstAt(ps: seq<string>, qs: seq<string>, k: nat)
    requires AreNumerals(ps) && AreNumerals(qs)
  {
    NumberAt(ps, k) != NumberAt(qs, k) && forall j: nat :: j < k ==> NumberAt(ps, j) == NumberAt(qs, j)
  }

  /**
   * Of two versions as written, the comparison is the difference of the numbers at the first place where they
   * differ, counted from the left, and 0 exactly when there is no such place.
   */
  lemma CompareAsWritten(a: ReleaseVersion, b: ReleaseVersion, ps: seq<string>, qs: seq<string>)
    requires AreNumerals(ps) && AreNumerals(qs) && a == Join(ps, ".") && b == Join(qs, ".")
    ensures Compare(a, b) == 0 <==> forall k: nat :: NumberAt(ps, k) == NumberAt(qs, k)
    ensures forall k: nat :: DifferFirstAt(ps, qs, k) ==> Compare(a, b) == NumberAt(ps, k) - NumberAt(qs, k)
  {
    hide Number, Compare;
    NumeralsSplit(ps);
    NumeralsSplit(qs);
    assert forall k: nat :: At(Components(a), k) == NumberAt(ps, k) && At(Components(b), k) == NumberAt(qs, k);
    CompareMeaning(a, b);
    forall k: nat | DifferFirstAt(ps, qs, k) ensures Compare(a, b) == NumberAt(ps, k) - NumberAt(qs, k) {
      assert DecidedAt(Components(a), Components(b), k);
    }
  }
}
