/** What the line passes do to documents as they are written: fences, headings, and whole changelogs. */
module ChangelogText {
  import opened Sequences
  import opened Text
  import opened Wrappers
  import opened ReleaseVersions
  import opened ReleaseNotes
  import opened Changelog

  // ------------------------------------------------------------------ fences

  /** White space, then three backquotes or three tildes, then anything. */
  ghost predicate FenceForm(line: string) {
    exists a, rest :: AllSpace(a) && (line == a + "```" + rest || line == a + "~~~" + rest)
  }

  lemma FenceExactly(line: string)
    ensures IsFence(line) <==> FenceForm(line)
  {
    hide AllSpace;
    HashIsNoSpace();
    if IsFence(line) {
      var a := TrimStartSplits(line);
      var s := TrimStart(line);
      assert s == s[..3] + s[3..];
      assert line == a + "```" + s[3..] || line == a + "~~~" + s[3..];
    }
    if a, rest :| AllSpace(a) && (line == a + "```" + rest || line == a + "~~~" + rest) {
      TrimStartSpaces(a, "```" + rest);
      TrimStartSpaces(a, "~~~" + rest);
      assert a + "```" + rest == a + ("```" + rest) && a + "~~~" + rest == a + ("~~~" + rest);
    }
  }

  ghost function FenceCount(lines: seq<string>): nat {
    if lines == [] then 0 else FenceCount(lines[..|lines| - 1]) + if FenceForm(lines[|lines| - 1]) then 1 else 0
  }

  /** A line stands inside a fence exactly when an odd number of fence lines come before it. */
  lemma {:induction false} InFenceExactly(lines: seq<string>, n: nat)
    requires n <= |lines|
    ensures FenceAfter(lines, false, n) <==> FenceCount(lines[..n]) % 2 == 1
  {
    hide IsFence, FenceForm;
    if n > 0 {
      InFenceExactly(lines, n - 1);
      FenceExactly(lines[n - 1]);
      assert lines[..n][..n - 1] == lines[..n - 1];
    }
  }

  // ------------------------------------------------------------------ headings

  /** `n` times `#`. */
  function Marks(n: nat): string {
    seq(n, _ => '#')
  }

  /** One to six `#`, a white-space character, and the rest. */
  predicate HasHeadingForm(line: string, n: nat, c: char, rest: string) {
    1 <= n <= 6 && IsSpace(c) && line == Marks(n) + [c] + rest
  }

  lemma HeadingForms(line: string, n: nat, c: char, rest: string)
    requires HasHeadingForm(line, n, c, rest)
    ensures !IsFence(line) && IsHeading(line) && Hashes(line) == n && line[n..] == [c] + rest
  {
    HashIsNoSpace();
    assert Marks(n) == Repeat(n);
    assert line == Repeat(n) + ([c] + rest);
    HashesOf(n, [c] + rest);
    assert line[0] == '#' && TrimStart(line) == line;
    assert line[n] == c;
  }

  lemma MarksCons(n: nat)
    ensures Marks(1 + n) == ['#'] + Marks(n)
  {}

  lemma {:induction false} HashesAreMarks(line: string)
    ensures line == Marks(Hashes(line)) + line[Hashes(line)..]
  {
    if line != "" && line[0] == '#' {
      var tail, m := line[1..], Hashes(line[1..]);
      assert Hashes(line) == 1 + m && line[1 + m..] == tail[m..];
      hide Hashes;
      HashesAreMarks(tail);
      MarksCons(m);
      hide Marks;
      assert line == ['#'] + tail;
      assert ['#'] + (Marks(m) + tail[m..]) == ['#'] + Marks(m) + tail[m..];
    } else {
      assert Marks(0) + line[0..] == line;
    }
  }

  lemma HeadingHasForm(line: string)
    requires IsHeading(line)
    ensures HasHeadingForm(line, Hashes(line), line[Hashes(line)], line[Hashes(line) + 1..])
  {
    HashesAreMarks(line);
    var n := Hashes(line);
    assert line[n..] == [line[n]] + line[n + 1..];
  }

  /** A heading line outside every fence has its `#` raised by `levels`, to six at most, and is else kept. */
  lemma DemotedHeadingLine(markdown: string, levels: nat, k: nat, n: nat, c: char, rest: string)
    requires var lines := Split(markdown, '\n');
      k < |lines| && FenceCount(lines[..k]) % 2 == 0 && HasHeadingForm(lines[k], n, c, rest)
    ensures var after := Split(DemoteHeadings(markdown, levels), '\n');
      k < |after| && after[k] == Marks(if n + levels > 6 then 6 else n + levels) + [c] + rest
  {
    hide Split, FenceAfter, IsFence, DemoteHeadings, FenceCount;
    var line := Split(markdown, '\n')[k];
    DemoteHeadingsKeepsFences(markdown, levels, k);
    InFenceExactly(Split(markdown, '\n'), k);
    HeadingForms(line, n, c, rest);
    var m := Capped(n + levels);
    assert Repeat(m) == Marks(m);
    assert Repeat(m) + ([c] + rest) == Marks(m) + [c] + rest;
  }

  /** A line inside a fence, a fence, and a line that is no heading all stay as they are. */
  lemma OtherLineKept(markdown: string, levels: nat, k: nat)
    requires var lines := Split(markdown, '\n');
      k < |lines| && (FenceCount(lines[..k]) % 2 == 1 || forall n, c, rest :: !HasHeadingForm(lines[k], n, c, rest))
    ensures var after := Split(DemoteHeadings(markdown, levels), '\n');
      |after| == |Split(markdown, '\n')| && after[k] == Split(markdown, '\n')[k]
  {
    hide Split, FenceAfter, IsFence, DemoteHeadings, FenceCount, HasHeadingForm;
    var line := Split(markdown, '\n')[k];
    DemoteHeadingsKeepsFences(markdown, levels, k);
    InFenceExactly(Split(markdown, '\n'), k);
    if IsHeading(line) {
      HeadingHasForm(line);
    }
  }

  // ------------------------------------------------------------------ whole changelogs

  /** A section as it is written: any version text, a date or none, and a body. */
  datatype Entry = Entry(version: string, date: string, body: string)

  function HeadingLine(e: Entry): string {
    "## [" + e.version + "]" + DateTail(e.date)
  }

  function EntryLines(e: Entry): seq<string> {
    [HeadingLine(e)] + Split(e.body, '\n')
  }

  /** No version heading stands in the lines outside fences, and all fences are closed. */
  predicate Quiet(lines: seq<string>) {
    && (forall i :: 0 <= i < |lines| ==> !IsHeadingAt(lines, false, i))
    && !FenceAfter(lines, false, |lines|)
  }

  predicate WellWritten(e: Entry) {
    && e.version != "" && Free(e.version, ']') && Free(e.version, '\n') && NoSpace(e.date)
    && Trimmed(e.body) && Quiet(Split(e.body, '\n'))
  }

  function Written(preamble: seq<string>, entries: seq<Entry>): string {
    Join(preamble + Flat(EntryLines, entries), "\n")
  }

  /** The sections with a numeric version, as they were written. */
  function Expected(entries: seq<Entry>): seq<Section> {
    if entries == [] then []
    else
      (if IsDotted(entries[0].version) then [Section(entries[0].version, entries[0].date, entries[0].body)] else [])
      + Expected(entries[1..])
  }

  function DateTail(date: string): string {
    if date == "" then "" else " - " + date
  }

  lemma DateTailRead(date: string)
    requires NoSpace(date)
    ensures exists a, b, c :: DatePart(DateTail(date), date, a, b, c)
    ensures Free(DateTail(date), '\n')
  {
    assert AllSpace(" ") && AllSpace("");
    if date == "" {
      assert DatePart(DateTail(date), date, "", "", "");
    } else {
      assert DateTail(date) == " " + "-" + " " + date + "";
      assert DatePart(DateTail(date), date, " ", " ", "");
      forall c | c in date ensures c != '\n' {
        var i :| 0 <= i < |date| && date[i] == c;
        assert !IsSpace(date[i]);
      }
    }
  }

  lemma HeadingLineRead(e: Entry)
    requires WellWritten(e)
    ensures MatchHeading(HeadingLine(e)) == Some((e.version, e.date))
    ensures !IsFence(HeadingLine(e)) && Free(HeadingLine(e), '\n')
  {
    hide Quiet, Split, Trimmed, MatchHeading, DatePart, NoSpace, IsSpace;
    var line := HeadingLine(e);
    HashIsNoSpace();
    assert line[0] == '#' && TrimStart(line) == line;
    DateTailRead(e.date);
    var a, b, c :| DatePart(DateTail(e.date), e.date, a, b, c);
    assert line == "## [" + e.version + "]" + DateTail(e.date);
    MatchHeadingExactly(line, e.version, e.date);
  }

  lemma {:induction false} CarveQuiet(quiet: seq<string>, rest: seq<string>, inFence: bool)
    requires forall i :: 0 <= i < |quiet| ==> !IsHeadingAt(quiet, inFence, i)
    ensures var (before, sections) := Carve(rest, FenceAfter(quiet, inFence, |quiet|));
      Carve(quiet + rest, inFence) == (quiet + before, sections)
    decreases quiet
  {
    hide MatchHeading, IsFence;
    if quiet == [] {
      assert quiet + rest == rest;
      var before := Carve(rest, inFence).0;
      assert quiet + before == before;
    } else {
      var fenced, tail := Toggle(inFence, quiet[0]), quiet[1..];
      assert !IsHeadingAt(quiet, inFence, 0);
      assert FenceAfter(quiet, inFence, 1) == Toggle(FenceAfter(quiet, inFence, 0), quiet[0]) == fenced;
      assert fenced || MatchHeading(quiet[0]).None?;
      forall i | 0 <= i < |tail| ensures !IsHeadingAt(tail, fenced, i) {
        assert !IsHeadingAt(quiet, inFence, i + 1);
        FenceAfterCons(quiet, inFence, i + 2);
      }
      FenceAfterCons(quiet, inFence, |quiet|);
      var (before, sections) := Carve(rest, FenceAfter(quiet, inFence, |quiet|));
      assert quiet + rest == [quiet[0]] + (tail + rest) && quiet == [quiet[0]] + tail;
      CarveCons(quiet[0], tail + rest, inFence);
      hide Carve, FenceAfter, IsHeadingAt;
      CarveQuiet(tail, rest, fenced);
      assert [quiet[0]] + tail + before == [quiet[0]] + (tail + before);
    }
  }

  /** A line that is no heading joins the lines before the first section. */
  lemma CarveCons(line: string, rest: seq<string>, inFence: bool)
    requires Toggle(inFence, line) || MatchHeading(line).None?
    ensures var (before, sections) := Carve(rest, Toggle(inFence, line));
      Carve([line] + rest, inFence) == ([line] + before, sections)
  {
    hide MatchHeading, IsFence;
    assert ([line] + rest)[0] == line && ([line] + rest)[1..] == rest;
  }

  lemma CarveOne(e: Entry, rest: seq<string>)
    requires WellWritten(e) && Carve(rest, false).0 == []
    ensures Carve(EntryLines(e) + rest, false)
         == ([], [Raw(HeadingLine(e), e.version, e.date, Split(e.body, '\n'))] + Carve(rest, false).1)
  {
    hide IsFence, MatchHeading, IsHeadingAt, HeadingLine, Trimmed;
    var heading, lines := HeadingLine(e), Split(e.body, '\n');
    hide Split;
    var all := EntryLines(e) + rest;
    HeadingLineRead(e);
    CarveQuiet(lines, rest, false);
    assert all[0] == heading && all[1..] == lines + rest;
    assert lines + [] == lines;
  }

  lemma {:induction false} CarveEntries(entries: seq<Entry>)
    requires forall i :: 0 <= i < |entries| ==> WellWritten(entries[i])
    ensures Carve(Flat(EntryLines, entries), false).0 == []
    ensures Numeric(Carve(Flat(EntryLines, entries), false).1) == Expected(entries)
  {
    hide Carve, Split, IsDotted, Trim, HeadingLine, EntryLines, Quiet, NoSpace;
    if entries == [] {
      assert Carve([], false) == ([], []) by {
        CarveNothing();
      }
    } else {
      var e, rest := entries[0], Flat(EntryLines, entries[1..]);
      CarveEntries(entries[1..]);
      CarveOne(e, rest);
      JoinSplit(e.body, '\n');
      TrimResult(e.body);
      var first, sections := Raw(HeadingLine(e), e.version, e.date, Split(e.body, '\n')), Carve(rest, false).1;
      assert ([first] + sections)[0] == first && ([first] + sections)[1..] == sections;
    }
  }

  lemma CarveNothing()
    ensures Carve([], false) == ([], [])
  {}

  lemma {:induction false} EntryLinesFree(entries: seq<Entry>)
    requires forall i :: 0 <= i < |entries| ==> WellWritten(entries[i])
    ensures forall i :: 0 <= i < |Flat(EntryLines, entries)| ==> Free(Flat(EntryLines, entries)[i], '\n')
  {
    hide WellWritten, Free, HeadingLine;
    if entries != [] {
      HeadingLineRead(entries[0]);
      JoinSplit(entries[0].body, '\n');
      EntryLinesFree(entries[1..]);
    }
  }

  /**
   * A changelog that is written out, below any preamble, reads back as exactly its sections with a numeric
   * version: versions, dates and bodies, in order.
   */
  lemma WrittenChangelogRead(preamble: seq<string>, entries: seq<Entry>)
    requires |preamble| >= 1 && Quiet(preamble) && forall i :: 0 <= i < |preamble| ==> Free(preamble[i], '\n')
    requires forall i :: 0 <= i < |entries| ==> WellWritten(entries[i])
    ensures Numeric(Carve(Split(Written(preamble, entries), '\n'), false).1) == Expected(entries)
  {
    hide Flat, Free, WellWritten, IsHeadingAt, Split, Join, Carve, Numeric;
    var lines := Flat(EntryLines, entries);
    EntryLinesFree(entries);
    SplitJoin(preamble + lines, '\n');
    CarveQuiet(preamble, lines, false);
    CarveEntries(entries);
  }
}
