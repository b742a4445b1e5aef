/** Which changelog sections each release post holds, over every run of closed releases. */
module ReleaseNotes {
  import opened Wrappers
  import opened Sorting
  import opened ReleaseVersions

  datatype Section = Section(version: ReleaseVersion, date: string, body: string)

  datatype Release = Release(name: string, milestone: Option<nat>, closed: string,
                             restAfter: ReleaseVersion, restThrough: ReleaseVersion, whatsNewRef: string)

  datatype Manifest = Manifest(repository: string, releases: seq<Release>)

  // ------------------------------------------------------------------ sections in a range

  predicate IsAbove(v: ReleaseVersion, after: Option<ReleaseVersion>) {
    after.None? || Compare(v, after.value) > 0
  }

  predicate IsUpTo(v: ReleaseVersion, through: Option<ReleaseVersion>) {
    through.None? || Compare(v, through.value) <= 0
  }

  function Above(sections: seq<Section>, after: Option<ReleaseVersion>): seq<Section> {
    if sections == [] then []
    else (if IsAbove(sections[0].version, after) then [sections[0]] else []) + Above(sections[1..], after)
  }

  function UpTo(sections: seq<Section>, through: Option<ReleaseVersion>): seq<Section> {
    if sections == [] then []
    else (if IsUpTo(sections[0].version, through) then [sections[0]] else []) + UpTo(sections[1..], through)
  }

  /** The order in which a post lists sections. */
  predicate NewestFirst(a: Section, b: Section) {
    Compare(b.version, a.version) <= 0
  }

  /** What is above `after` and not above `through`, in falling order; an absent bound excludes nothing. */
  function SectionsInRange(sections: seq<Section>, after: Option<ReleaseVersion>, through: Option<ReleaseVersion>)
    : seq<Section>
  {
    Sort(UpTo(Above(sections, after), through), NewestFirst)
  }

  lemma NewestFirstIsPreorder()
    ensures TotalPreorder(NewestFirst)
  {
    forall a, b ensures NewestFirst(a, b) || NewestFirst(b, a) {
      CompareFlips(a.version, b.version);
    }
    forall a, b, c | NewestFirst(a, b) && NewestFirst(b, c) ensures NewestFirst(a, c) {
      CompareTransitive(c.version, b.version, a.version);
    }
  }

  lemma {:induction false} AboveCounts(sections: seq<Section>, after: Option<ReleaseVersion>, s: Section)
    ensures multiset(Above(sections, after))[s] == if IsAbove(s.version, after) then multiset(sections)[s] else 0
  {
    hide IsAbove;
    if sections != [] {
      AboveCounts(sections[1..], after, s);
      assert sections == [sections[0]] + sections[1..];
    }
  }

  lemma {:induction false} UpToCounts(sections: seq<Section>, through: Option<ReleaseVersion>, s: Section)
    ensures multiset(UpTo(sections, through))[s] == if IsUpTo(s.version, through) then multiset(sections)[s] else 0
  {
    hide IsUpTo;
    if sections != [] {
      UpToCounts(sections[1..], through, s);
      assert sections == [sections[0]] + sections[1..];
    }
  }

  /** A range holds exactly the sections within its bounds, each as often as the changelog does, newest first. */
  lemma RangeCounts(sections: seq<Section>, after: Option<ReleaseVersion>, through: Option<ReleaseVersion>, s: Section)
    ensures multiset(SectionsInRange(sections, after, through))[s]
         == if IsAbove(s.version, after) && IsUpTo(s.version, through) then multiset(sections)[s] else 0
    ensures Sorted(SectionsInRange(sections, after, through), NewestFirst)
  {
    hide IsAbove, IsUpTo;
    AboveCounts(sections, after, s);
    UpToCounts(Above(sections, after), through, s);
    NewestFirstIsPreorder();
    SortSorts(UpTo(Above(sections, after), through), NewestFirst);
  }

  // ------------------------------------------------------------------ closing a release

  datatype CloseError = AlreadyClosed(name: string) | NothingNew(name: string)

  function LastThrough(releases: seq<Release>): Option<ReleaseVersion> {
    if releases == [] then None else Some(releases[|releases| - 1].restThrough)
  }

  const START: ReleaseVersion := (ZeroIsDotted(); "0.0.0")

  /** What is asked for when a release is closed. */
  datatype Closing = Closing(name: string, ref: string, milestone: Option<nat>, closed: string)

  predicate NameTaken(releases: seq<Release>, name: string) {
    exists i :: 0 <= i < |releases| && releases[i].name == name
  }

  /** Close a release at the newest version: its range starts where the range before it ends. */
  function CloseRelease(manifest: Manifest, sections: seq<Section>, closing: Closing)
    : Result<(Manifest, Release), CloseError>
  {
    var releases := manifest.releases;
    var newest := Sort(sections, NewestFirst);
    if NameTaken(releases, closing.name) then Err(AlreadyClosed(closing.name))
    else if newest == [] || (releases != [] && Compare(newest[0].version, LastThrough(releases).value) <= 0)
    then Err(NothingNew(closing.name))
    else
      var milestone := if closing.milestone == Some(0) then None else closing.milestone;
      var after := if releases == [] then START else LastThrough(releases).value;
      var release := Release(closing.name, milestone, closing.closed, after, newest[0].version, closing.ref);
      Ok((manifest.(releases := releases + [release]), release))
  }

  /** Ranges follow on each other, ends strictly increase, and names are unique. */
  predicate Chained(releases: seq<Release>) {
    && (forall i :: 0 < i < |releases| ==>
          && releases[i].restAfter == releases[i - 1].restThrough
          && Compare(releases[i].restThrough, releases[i - 1].restThrough) > 0)
    && (forall i, j :: 0 <= i < j < |releases| ==> releases[i].name != releases[j].name)
    && (releases != [] ==> Compare(releases[0].restAfter, releases[0].restThrough) <= 0)
  }

  lemma StartIsLowest(v: ReleaseVersion)
    ensures Compare(START, v) <= 0
  {
    SplitStart();
    if Compare(START, v) != 0 {
      var k := CompareDecides(START, v);
    }
  }

  lemma SplitStart()
    ensures forall i: nat :: At(Components(START), i) == 0
  {
    ZeroIsDotted();
    Text.SplitJoin(["0", "0", "0"], '.');
    assert ["0", "0", "0"][1..] == ["0", "0"] && ["0", "0"][1..] == ["0"];
    assert Text.Join(["0", "0", "0"], ".") == "0.0.0";
    assert "0"[..0] == "" && Text.Number("0") == 0;
  }

  /** The section chosen as newest is in the changelog, and no section is above it. */
  lemma NewestIsNewest(sections: seq<Section>)
    requires sections != []
    ensures var sorted := Sort(sections, NewestFirst);
      sorted != [] && sorted[0] in sections && forall s :: s in sections ==> Compare(s.version, sorted[0].version) <= 0
  {
    hide Compare;
    var sorted := Sort(sections, NewestFirst);
    NewestFirstIsPreorder();
    SortSorts(sections, NewestFirst);
    assert |sorted| == |multiset(sorted)| == |sections|;
    assert sorted[0] in multiset(sections);
    forall s | s in sections ensures Compare(s.version, sorted[0].version) <= 0 {
      assert s in multiset(sorted);
      var i :| 0 <= i < |sorted| && sorted[i] == s;
      assert NewestFirst(sorted[0], sorted[0]) || i > 0;
      CompareFlips(s.version, s.version);
    }
  }

  /** Closing succeeds exactly when the name is free and some section is above everything closed so far. */
  lemma CloseSucceedsExactly(manifest: Manifest, sections: seq<Section>, closing: Closing)
    ensures CloseRelease(manifest, sections, closing).Ok? <==>
      && !NameTaken(manifest.releases, closing.name)
      && exists s :: s in sections && IsAbove(s.version, LastThrough(manifest.releases))
  {
    hide Compare;
    if sections == [] {
    } else {
      NewestIsNewest(sections);
      var top := Sort(sections, NewestFirst)[0];
      forall s | s in sections && IsAbove(s.version, LastThrough(manifest.releases))
        ensures IsAbove(top.version, LastThrough(manifest.releases))
      {
        if manifest.releases != [] {
          var last := LastThrough(manifest.releases).value;
          if Compare(top.version, last) <= 0 {
            CompareTransitive(s.version, top.version, last);
          }
        }
      }
    }
  }

  /** A successful close keeps the chain and leaves the recorded releases as they are. */
  lemma CloseKeepsChain(manifest: Manifest, sections: seq<Section>, closing: Closing)
    requires Chained(manifest.releases) && CloseRelease(manifest, sections, closing).Ok?
    ensures var (manifest', release) := CloseRelease(manifest, sections, closing).value;
      Chained(manifest'.releases) && manifest'.releases == manifest.releases + [release]
  {
    hide Compare;
    StartIsLowest(Sort(sections, NewestFirst)[0].version);
  }

  lemma NothingClosedIsChained()
    ensures Chained([])
  {}

  /** An attempt to close a release with the changelog as it then is; a refused attempt changes nothing. */
  datatype Attempt = Attempt(sections: seq<Section>, closing: Closing)

  function Run(manifest: Manifest, attempts: seq<Attempt>): Manifest
    decreases attempts
  {
    if attempts == [] then manifest
    else
      var next := match CloseRelease(manifest, attempts[0].sections, attempts[0].closing) {
                    case Err(_) => manifest
                    case Ok((manifest', _)) => manifest'
                  };
      Run(next, attempts[1..])
  }

  /** Over every run the ranges stay contiguous with strictly increasing ends and unique names. */
  lemma {:induction false} RunKeepsChain(manifest: Manifest, attempts: seq<Attempt>)
    requires Chained(manifest.releases)
    ensures Chained(Run(manifest, attempts).releases)
    ensures manifest.releases <= Run(manifest, attempts).releases
    ensures manifest.releases == [] && Run(manifest, attempts).releases != [] ==>
      Run(manifest, attempts).releases[0].restAfter == START
    decreases attempts
  {
    hide Chained;
    if attempts != [] {
      var a := attempts[0];
      match CloseRelease(manifest, a.sections, a.closing) {
        case Err(_) => RunKeepsChain(manifest, attempts[1..]);
        case Ok((manifest', release)) =>
          CloseKeepsChain(manifest, a.sections, a.closing);
          RunKeepsChain(manifest', attempts[1..]);
      }
    }
  }

  // ------------------------------------------------------------------ the posts

  /** The sections of post `i`: a closed release, or the unreleased post after the last one. */
  function Post(manifest: Manifest, sections: seq<Section>, i: nat): seq<Section>
    requires i <= |manifest.releases|
  {
    var releases := manifest.releases;
    if i < |releases| then SectionsInRange(sections, Some(releases[i].restAfter), Some(releases[i].restThrough))
    else SectionsInRange(sections, LastThrough(releases), None)
  }

  /** Post `i` is the one for sections of version `v`. */
  predicate Covers(releases: seq<Release>, i: nat, v: ReleaseVersion)
    requires i <= |releases|
  {
    if i < |releases| then Compare(v, releases[i].restAfter) > 0 && Compare(v, releases[i].restThrough) <= 0
    else IsAbove(v, LastThrough(releases))
  }

  lemma PostCounts(manifest: Manifest, sections: seq<Section>, i: nat, s: Section)
    requires i <= |manifest.releases|
    ensures multiset(Post(manifest, sections, i))[s]
         == if Covers(manifest.releases, i, s.version) then multiset(sections)[s] else 0
  {
    hide Compare;
    var releases := manifest.releases;
    if i < |releases| {
      RangeCounts(sections, Some(releases[i].restAfter), Some(releases[i].restThrough), s);
    } else {
      RangeCounts(sections, LastThrough(releases), None, s);
    }
  }

  /** Above what the first release leaves out, or anything when nothing is closed yet. */
  predicate Placeable(releases: seq<Release>, v: ReleaseVersion) {
    releases == [] || Compare(v, releases[0].restAfter) > 0
  }

  lemma {:induction false} EndsIncrease(releases: seq<Release>, i: nat, j: nat)
    requires Chained(releases) && i <= j < |releases|
    ensures Compare(releases[i].restThrough, releases[j].restThrough) <= 0
    ensures i < j ==> Compare(releases[i].restThrough, releases[j].restAfter) <= 0
    decreases j - i
  {
    hide Compare;
    if i == j {
      CompareFlips(releases[i].restThrough, releases[i].restThrough);
    } else {
      EndsIncrease(releases, i, j - 1);
      CompareFlips(releases[j].restThrough, releases[j - 1].restThrough);
      CompareTransitive(releases[i].restThrough, releases[j - 1].restThrough, releases[j].restThrough);
    }
  }

  lemma NotInTwoPosts(releases: seq<Release>, v: ReleaseVersion, i: nat, j: nat)
    requires Chained(releases) && i < j <= |releases| && Covers(releases, i, v)
    ensures !Covers(releases, j, v)
  {
    hide Compare, Chained;
    if j < |releases| {
      EndsIncrease(releases, i, j);
      CompareTransitive(v, releases[i].restThrough, releases[j].restAfter);
    } else {
      EndsIncrease(releases, i, j - 1);
      CompareTransitive(v, releases[i].restThrough, releases[j - 1].restThrough);
    }
  }

  /** The post a placeable version goes to: the first whose end it does not exceed. */
  lemma {:induction false} FindsPost(releases: seq<Release>, v: ReleaseVersion, i: nat) returns (k: nat)
    requires Chained(releases) && i <= |releases| && Placeable(releases, v)
    requires i > 0 ==> Compare(v, releases[i - 1].restThrough) > 0
    ensures k <= |releases| && Covers(releases, k, v)
    decreases |releases| - i
  {
    hide Compare;
    if i == |releases| || Compare(v, releases[i].restThrough) <= 0 {
      k := i;
    } else {
      k := FindsPost(releases, v, i + 1);
    }
  }

  lemma CoveredIsPlaceable(releases: seq<Release>, v: ReleaseVersion, i: nat)
    requires Chained(releases) && i <= |releases| && Covers(releases, i, v)
    ensures Placeable(releases, v)
  {
    hide Compare;
    if releases != [] && Compare(v, releases[0].restAfter) <= 0 {
      var n := if i < |releases| then i else i - 1;
      EndsIncrease(releases, 0, n);
      CompareTransitive(v, releases[0].restAfter, releases[0].restThrough);
      CompareTransitive(v, releases[0].restThrough, releases[n].restThrough);
      if 0 < i < |releases| {
        EndsIncrease(releases, 0, i);
        CompareTransitive(v, releases[0].restThrough, releases[i].restAfter);
      }
    }
  }

  /** All posts up to `n` together. */
  function Posts(manifest: Manifest, sections: seq<Section>, n: nat): multiset<Section>
    requires n <= |manifest.releases| + 1
  {
    if n == 0 then multiset{} else Posts(manifest, sections, n - 1) + multiset(Post(manifest, sections, n - 1))
  }

  lemma {:induction false} PostsCount(manifest: Manifest, sections: seq<Section>, n: nat, s: Section, k: nat)
    requires n <= |manifest.releases| + 1 && k <= |manifest.releases|
    requires Chained(manifest.releases) && Covers(manifest.releases, k, s.version)
    ensures Posts(manifest, sections, n)[s] == if k < n then multiset(sections)[s] else 0
  {
    hide Compare, Covers, Chained, Post;
    if n > 0 {
      PostsCount(manifest, sections, n - 1, s, k);
      PostCounts(manifest, sections, n - 1, s);
      if k < n - 1 {
        NotInTwoPosts(manifest.releases, s.version, k, n - 1);
      } else if n - 1 < k && Covers(manifest.releases, n - 1, s.version) {
        NotInTwoPosts(manifest.releases, s.version, n - 1, k);
      }
    }
  }

  lemma {:induction false} PostsMiss(manifest: Manifest, sections: seq<Section>, n: nat, s: Section)
    requires n <= |manifest.releases| + 1
    requires Chained(manifest.releases) && !Placeable(manifest.releases, s.version)
    ensures Posts(manifest, sections, n)[s] == 0
  {
    hide Compare, Covers, Chained, Post, Placeable;
    if n > 0 {
      PostsMiss(manifest, sections, n - 1, s);
      PostCounts(manifest, sections, n - 1, s);
      if Covers(manifest.releases, n - 1, s.version) {
        CoveredIsPlaceable(manifest.releases, s.version, n - 1);
      }
    }
  }

  /**
   * The release posts and the unreleased post together hold every changelog section above the start of
   * the first range exactly as often as the changelog, and no other section.
   */
  lemma PostsPartitionChangelog(manifest: Manifest, sections: seq<Section>, s: Section)
    requires Chained(manifest.releases)
    ensures Posts(manifest, sections, |manifest.releases| + 1)[s]
         == if Placeable(manifest.releases, s.version) then multiset(sections)[s] else 0
  {
    if Placeable(manifest.releases, s.version) {
      var k := FindsPost(manifest.releases, s.version, 0);
      PostsCount(manifest, sections, |manifest.releases| + 1, s, k);
    } else {
      PostsMiss(manifest, sections, |manifest.releases| + 1, s);
    }
  }

  /** A version is in exactly one post if it is placeable, and in none otherwise. */
  lemma ExactlyOnePost(releases: seq<Release>, v: ReleaseVersion)
    requires Chained(releases)
    ensures Placeable(releases, v) <==> exists k :: 0 <= k <= |releases| && Covers(releases, k, v)
    ensures forall i, j | 0 <= i <= |releases| && 0 <= j <= |releases| ::
      Covers(releases, i, v) && Covers(releases, j, v) ==> i == j
  {
    hide Covers, Chained, Placeable;
    if Placeable(releases, v) {
      var k := FindsPost(releases, v, 0);
    }
    forall k | 0 <= k <= |releases| && Covers(releases, k, v) ensures Placeable(releases, v) {
      CoveredIsPlaceable(releases, v, k);
    }
    forall i, j | 0 <= i < j <= |releases| && Covers(releases, i, v) ensures !Covers(releases, j, v) {
      NotInTwoPosts(releases, v, i, j);
    }
  }

  /**
   * After any run of closings from an empty manifest, on whatever changelogs, every section above 0.0.0
   * of a changelog is in the posts exactly as often as in the changelog.
   */
  lemma EverySectionPostedOnce(repository: string, attempts: seq<Attempt>, sections: seq<Section>, s: Section)
    requires Compare(s.version, START) > 0
    ensures var manifest := Run(Manifest(repository, []), attempts);
      Posts(manifest, sections, |manifest.releases| + 1)[s] == multiset(sections)[s]
  {
    hide Compare, Run, Posts, Chained;
    NothingClosedIsChained();
    RunKeepsChain(Manifest(repository, []), attempts);
    PostsPartitionChangelog(Run(Manifest(repository, []), attempts), sections, s);
  }

  // ------------------------------------------------------------------ closing moves, and closed posts stay

  lemma {:induction false} UpToAll(sections: seq<Section>, through: Option<ReleaseVersion>)
    requires forall s :: s in sections ==> IsUpTo(s.version, through)
    ensures UpTo(sections, through) == sections
  {
    hide IsUpTo;
    if sections != [] {
      UpToAll(sections[1..], through);
    }
  }

  lemma {:induction false} AboveNone(sections: seq<Section>, after: Option<ReleaseVersion>)
    requires forall s :: s in sections ==> !IsAbove(s.version, after)
    ensures Above(sections, after) == []
  {
    hide IsAbove;
    if sections != [] {
      AboveNone(sections[1..], after);
    }
  }

  lemma {:induction false} AboveMembers(sections: seq<Section>, after: Option<ReleaseVersion>, s: Section)
    requires s in Above(sections, after)
    ensures s in sections
  {
    hide IsAbove;
    if s !in (if IsAbove(sections[0].version, after) then [sections[0]] else []) {
      AboveMembers(sections[1..], after, s);
    }
  }

  /**
   * Closing a release turns the unreleased post into the release's post and leaves the unreleased post
   * empty. With nothing closed before, sections at 0.0.0 are left behind.
   */
  lemma ClosingMovesUnreleased(manifest: Manifest, sections: seq<Section>, closing: Closing)
    requires CloseRelease(manifest, sections, closing).Ok?
    ensures var (manifest', release) := CloseRelease(manifest, sections, closing).value;
      var n := |manifest.releases|;
      && Post(manifest', sections, n + 1) == []
      && (manifest.releases != [] ==> Post(manifest', sections, n) == Post(manifest, sections, n))
      && (manifest.releases == [] ==> Post(manifest', sections, n) == SectionsInRange(sections, Some(START), None))
  {
    hide Compare;
    var (manifest', release) := CloseRelease(manifest, sections, closing).value;
    var after := Some(release.restAfter);
    NewestIsNewest(sections);
    forall s | s in sections ensures !IsAbove(s.version, Some(release.restThrough)) {}
    AboveNone(sections, Some(release.restThrough));
    forall s | s in Above(sections, after) ensures IsUpTo(s.version, Some(release.restThrough)) {
      AboveMembers(sections, after, s);
    }
    UpToAll(Above(sections, after), Some(release.restThrough));
    UpToAll(Above(sections, after), None);
  }

  lemma {:induction false} UpToIgnoresNewer(added: seq<Section>, sections: seq<Section>,
      through: Option<ReleaseVersion>)
    requires forall s :: s in added ==> !IsUpTo(s.version, through)
    ensures UpTo(added + sections, through) == UpTo(sections, through)
  {
    hide IsUpTo;
    if added == [] {
      assert added + sections == sections;
    } else {
      assert (added + sections)[1..] == added[1..] + sections;
      UpToIgnoresNewer(added[1..], sections, through);
    }
  }

  /** A range that ends no later than `last` depends only on the sections up to `last`. */
  lemma {:induction false} RangeNeedsOnlyOlder(sections: seq<Section>, after: Option<ReleaseVersion>,
      through: ReleaseVersion, last: ReleaseVersion)
    requires Compare(through, last) <= 0
    ensures UpTo(Above(UpTo(sections, Some(last)), after), Some(through)) == UpTo(Above(sections, after), Some(through))
  {
    hide Compare, IsAbove;
    if sections != [] {
      var s, rest := sections[0], sections[1..];
      RangeNeedsOnlyOlder(rest, after, through, last);
      if Compare(s.version, through) <= 0 {
        CompareTransitive(s.version, through, last);
      }
      var older := UpTo(rest, Some(last));
      if IsUpTo(s.version, Some(last)) {
        assert UpTo(sections, Some(last)) == [s] + older && ([s] + older)[1..] == older;
      } else {
        assert UpTo(sections, Some(last)) == [] + older == older;
      }
      if IsAbove(s.version, after) {
        assert ([s] + Above(rest, after))[1..] == Above(rest, after);
        assert ([s] + Above(older, after))[1..] == Above(older, after);
      } else {
        assert [] + Above(rest, after) == Above(rest, after) && [] + Above(older, after) == Above(older, after);
      }
    }
  }

  /**
   * Whatever is closed later, a closed release's post stays the same on every changelog that has kept the
   * sections up to the last version closed by then.
   */
  lemma ClosedPostsOverRuns(manifest: Manifest, attempts: seq<Attempt>, sections: seq<Section>,
      grown: seq<Section>, i: nat)
    requires Chained(manifest.releases) && i < |manifest.releases|
    requires UpTo(grown, LastThrough(manifest.releases)) == UpTo(sections, LastThrough(manifest.releases))
    ensures i < |Run(manifest, attempts).releases|
    ensures Post(Run(manifest, attempts), grown, i) == Post(manifest, sections, i)
  {
    hide Compare, Chained, Run, Above, UpTo;
    RunKeepsChain(manifest, attempts);
    var releases := manifest.releases;
    var after, through, last := releases[i].restAfter, releases[i].restThrough, releases[|releases| - 1].restThrough;
    EndsIncrease(releases, i, |releases| - 1);
    RangeNeedsOnlyOlder(sections, Some(after), through, last);
    RangeNeedsOnlyOlder(grown, Some(after), through, last);
  }

  /** Adding sections above the last closed version is such a growth. */
  lemma ClosedPostStable(manifest: Manifest, attempts: seq<Attempt>, added: seq<Section>, sections: seq<Section>,
      i: nat)
    requires Chained(manifest.releases) && i < |manifest.releases|
    requires forall s :: s in added ==> IsAbove(s.version, LastThrough(manifest.releases))
    ensures i < |Run(manifest, attempts).releases|
    ensures Post(Run(manifest, attempts), added + sections, i) == Post(manifest, sections, i)
  {
    hide Compare, Chained, Run, Post;
    UpToIgnoresNewer(added, sections, LastThrough(manifest.releases));
    ClosedPostsOverRuns(manifest, attempts, sections, added + sections, i);
  }

  /** A first release covers nothing exactly when no section is above 0.0.0. */
  lemma FirstRangeEmptyExactly(repository: string, sections: seq<Section>, closing: Closing)
    requires CloseRelease(Manifest(repository, []), sections, closing).Ok?
    ensures var (manifest', release) := CloseRelease(Manifest(repository, []), sections, closing).value;
      Post(manifest', sections, 0) == [] <==> forall s :: s in sections ==> Compare(s.version, START) <= 0
  {
    hide Compare;
    var (manifest', release) := CloseRelease(Manifest(repository, []), sections, closing).value;
    NewestIsNewest(sections);
    var post := Post(manifest', sections, 0);
    if post != [] {
      PostCounts(manifest', sections, 0, post[0]);
      assert post[0] in multiset(post);
      assert post[0] in multiset(sections);
    }
    forall s | s in sections && Compare(s.version, START) > 0 ensures post != [] {
      PostCounts(manifest', sections, 0, s);
      assert s in multiset(sections);
      assert s in multiset(post);
    }
  }

  /** A changelog whose only version is 0.0.0 can be closed, and its release then covers nothing. */
  lemma ZeroReleaseIsEmpty()
    ensures var sections := [Section(START, "", "")];
      var closed := CloseRelease(Manifest("", []), sections, Closing("RC1", "RC1", None, ""));
      closed.Ok? && Post(closed.value.0, sections, 0) == []
  {
    hide Compare, Sort, Post;
    var section := Section(START, "", "");
    var closing := Closing("RC1", "RC1", None, "");
    CompareFlips(START, START);
    assert Compare(section.version, START) == 0;
    assert section in [section] && IsAbove(section.version, LastThrough([]));
    CloseSucceedsExactly(Manifest("", []), [section], closing);
    FirstRangeEmptyExactly("", [section], closing);
  }

  /** What a close records: what was asked for, and the range from the last closed version to a newest one. */
  lemma CloseRecords(manifest: Manifest, sections: seq<Section>, closing: Closing)
    requires CloseRelease(manifest, sections, closing).Ok?
    ensures var (manifest', release) := CloseRelease(manifest, sections, closing).value;
      && release.name == closing.name && release.closed == closing.closed && release.whatsNewRef == closing.ref
      && (release.milestone == None <==> closing.milestone == None || closing.milestone == Some(0))
      && (release.milestone.Some? ==> release.milestone == closing.milestone)
      && release.restAfter == (if manifest.releases == [] then "0.0.0"
                               else manifest.releases[|manifest.releases| - 1].restThrough)
      && (exists s :: s in sections && s.version == release.restThrough)
      && (forall s :: s in sections ==> Compare(s.version, release.restThrough) <= 0)
      && manifest'.repository == manifest.repository && manifest'.releases == manifest.releases + [release]
  {
    assert sections != [] by {
      assert Sort<Section>([], NewestFirst) == [];
    }
    hide Compare, Sort;
    NewestIsNewest(sections);
  }

  /** A close is refused for its name first, and otherwise for the lack of a new version. */
  lemma CloseRefusals(manifest: Manifest, sections: seq<Section>, closing: Closing)
    ensures var r := CloseRelease(manifest, sections, closing);
      r.Err? ==> r.error == if exists i :: 0 <= i < |manifest.releases| && manifest.releases[i].name == closing.name
        then AlreadyClosed(closing.name) else NothingNew(closing.name)
  {
    hide Compare, Sort;
  }

  /** Sections of versions that compare as equal stay in changelog order in a post. */
  lemma PostKeepsTies(sections: seq<Section>, after: Option<ReleaseVersion>, through: Option<ReleaseVersion>,
      v: ReleaseVersion)
    requires IsAbove(v, after) && IsUpTo(v, through)
    ensures var same := (s: Section) => Compare(s.version, v) == 0;
      Filter(SectionsInRange(sections, after, through), same) == Filter(sections, same)
  {
    hide Compare;
    var same := (s: Section) => Compare(s.version, v) == 0;
    forall a: Section, b: Section | same(a) && same(b) ensures NewestFirst(a, b) {
      CompareFlips(v, a.version);
      CompareTransitive(b.version, v, a.version);
    }
    forall s: Section | same(s) ensures IsAbove(s.version, after) && IsUpTo(s.version, through) {
      CompareFlips(v, s.version);
      if after.Some? && Compare(s.version, after.value) <= 0 {
        CompareTransitive(v, s.version, after.value);
      }
      if through.Some? {
        CompareTransitive(s.version, v, through.value);
      }
    }
    var inRange := UpTo(Above(sections, after), through);
    SortStable(inRange, NewestFirst, same);
    RangeKeeps(sections, after, through, same);
  }

  lemma {:induction false} RangeKeeps(sections: seq<Section>, after: Option<ReleaseVersion>,
      through: Option<ReleaseVersion>, keep: Section -> bool)
    requires forall s :: keep(s) ==> IsAbove(s.version, after) && IsUpTo(s.version, through)
    ensures Filter(UpTo(Above(sections, after), through), keep) == Filter(sections, keep)
  {
    hide IsAbove, IsUpTo;
    if sections != [] {
      var s, rest := sections[0], Above(sections[1..], after);
      RangeKeeps(sections[1..], after, through, keep);
      if IsAbove(s.version, after) {
        assert ([s] + rest)[1..] == rest;
        var upTo := UpTo(rest, through);
        assert ([s] + upTo)[1..] == upTo && [] + upTo == upTo;
      } else {
        assert [] + rest == rest;
      }
    }
  }
}
