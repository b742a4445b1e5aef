/** Line passes over Markdown that respect fenced code blocks: carving a changelog, demoting headings. */
module Changelog {
  import opened Sequences
  import opened Text
  import opened Wrappers
  import opened ReleaseVersions
  import opened ReleaseNotes

  // ------------------------------------------------------------------ fences

  /** A line that opens or closes a fenced code block. */
  predicate IsFence(line: string) {
    "```" <= TrimStart(line) || "~~~" <= TrimStart(line)
  }

  /** Whether a fence is open after a line. */
  function Toggle(inFence: bool, line: string): bool {
    if IsFence(line) then !inFence else inFence
  }

  /** Whether a fence is open after the first `n` lines. */
  function FenceAfter(lines: seq<string>, inFence: bool, n: nat): bool
    requires n <= |lines|
  {
    if n == 0 then inFence else Toggle(FenceAfter(lines, inFence, n - 1), lines[n - 1])
  }

  lemma {:induction false} FenceAfterCons(lines: seq<string>, inFence: bool, n: nat)
    requires 0 < n <= |lines|
    ensures FenceAfter(lines, inFence, n) == FenceAfter(lines[1..], Toggle(inFence, lines[0]), n - 1)
  {
    hide IsFence;
    if n > 1 {
      FenceAfterCons(lines, inFence, n - 1);
    }
  }

  // ------------------------------------------------------------------ version headings

  predicate NoSpace(s: string) {
    forall i :: 0 <= i < |s| ==> !IsSpace(s[i])
  }

  function Word(s: string): string {
    if s == "" || IsSpace(s[0]) then "" else [s[0]] + Word(s[1..])
  }

  /** The part of a version heading after the bracket: white space, or a dash and one word. */
  function MatchDate(rest: string): Option<string> {
    var dashed := TrimStart(rest);
    if dashed == "" then Some("")
    else if dashed[0] != '-' then None
    else
      var text := TrimStart(dashed[1..]);
      var word := Word(text);
      if word != "" && |word| <= |text| && TrimStart(text[|word|..]) == "" then Some(word) else None
  }

  /** The version and date of a version heading `## [version] - date`. */
  function MatchHeading(line: string): Option<(string, string)> {
    if !("## [" <= line) then None
    else
      var inner := line[4..];
      var close := IndexOf(inner, ']');
      if close == 0 || close == |inner| then None
      else
        match MatchDate(inner[close + 1..])
        case None => None
        case Some(date) => Some((inner[..close], date))
  }

  predicate DatePart(tail: string, date: string, a: string, b: string, c: string) {
    && AllSpace(a) && AllSpace(b) && AllSpace(c)
    && (if date == "" then tail == a else NoSpace(date) && tail == a + "-" + b + date + c)
  }

  /** The form of a version heading, read declaratively. */
  ghost predicate HeadingForm(line: string, version: string, date: string) {
    && version != "" && Free(version, ']')
    && exists tail, a, b, c :: DatePart(tail, date, a, b, c) && line == "## [" + version + "]" + tail
  }

  lemma {:induction false} TrimStartSpaces(a: string, s: string)
    requires AllSpace(a) && (s == "" || !IsSpace(s[0]))
    ensures TrimStart(a + s) == s
  {
    if a == "" {
      assert a + s == s;
    } else {
      assert (a + s)[1..] == a[1..] + s;
      TrimStartSpaces(a[1..], s);
    }
  }

  lemma {:induction false} TrimStartSplits(s: string) returns (a: string)
    ensures AllSpace(a) && s == a + TrimStart(s)
  {
    if s != "" && IsSpace(s[0]) {
      a := TrimStartSplits(s[1..]);
      a := [s[0]] + a;
    } else {
      a := "";
    }
  }

  lemma {:induction false} WordIsPrefix(w: string, s: string)
    requires NoSpace(w) && (s == "" || IsSpace(s[0]))
    ensures Word(w + s) == w
  {
    if w == "" {
      assert w + s == s;
    } else {
      assert (w + s)[1..] == w[1..] + s;
      WordIsPrefix(w[1..], s);
    }
  }

  lemma {:induction false} WordSplits(s: string)
    ensures Word(s) <= s && NoSpace(Word(s))
  {
    if s != "" && !IsSpace(s[0]) {
      WordSplits(s[1..]);
    }
  }

  lemma MatchDateForm(tail: string, date: string, a: string, b: string, c: string)
    requires DatePart(tail, date, a, b, c)
    ensures MatchDate(tail) == Some(date)
  {
    hide IsSpace, TrimStart, Word;
    if date == "" {
      TrimStartSpaces(a, "");
      assert a + "" == a;
    } else {
      var dashed := "-" + b + date + c;
      DashIsNoSpace();
      assert tail == a + dashed;
      TrimStartSpaces(a, dashed);
      assert dashed[1..] == b + (date + c);
      TrimStartSpaces(b, date + c);
      WordIsPrefix(date, c);
      TrimStartSpaces(c, "");
      assert (date + c)[|date|..] == c == c + "";
    }
  }

  lemma DashIsNoSpace()
    ensures !IsSpace('-')
  {}

  lemma DateFormOf(tail: string, date: string) returns (a: string, b: string, c: string)
    requires MatchDate(tail) == Some(date)
    ensures DatePart(tail, date, a, b, c)
  {
    hide IsSpace, TrimStart, Word;
    a := TrimStartSplits(tail);
    b, c := "", "";
    if date != "" {
      var dashed := TrimStart(tail);
      var text := TrimStart(dashed[1..]);
      b := TrimStartSplits(dashed[1..]);
      c := TrimStartSplits(text[|date|..]);
      WordSplits(text);
      assert c + "" == c;
      assert dashed == "-" + dashed[1..];
      assert text == date + c;
      assert tail == a + ("-" + (b + (date + c)));
    } else {
      EmptyDate(tail);
      assert a + "" == a;
    }
  }

  lemma EmptyDate(tail: string)
    requires MatchDate(tail) == Some("")
    ensures TrimStart(tail) == ""
  {}

  /** A line is taken for the heading of version `v` and date `d` exactly when it has that form. */
  lemma MatchHeadingExactly(line: string, version: string, date: string)
    ensures MatchHeading(line) == Some((version, date)) <==> HeadingForm(line, version, date)
  {
    hide HeadingForm, MatchHeading;
    if HeadingForm(line, version, date) {
      HeadingIsMatched(line, version, date);
    }
    if MatchHeading(line) == Some((version, date)) {
      MatchedHasForm(line, version, date);
    }
  }

  lemma HeadingIsMatched(line: string, version: string, date: string)
    requires HeadingForm(line, version, date)
    ensures MatchHeading(line) == Some((version, date))
  {
    hide MatchDate, DatePart;
    var tail, a, b, c :| DatePart(tail, date, a, b, c) && line == "## [" + version + "]" + tail;
    assert line[4..] == version + "]" + tail;
    IndexOfFree(version, tail, ']');
    hide IndexOf;
    assert line[4..][..|version|] == version && line[4..][|version| + 1..] == tail;
    MatchDateForm(tail, date, a, b, c);
  }

  lemma MatchedHasForm(line: string, version: string, date: string)
    requires MatchHeading(line) == Some((version, date))
    ensures HeadingForm(line, version, date)
  {
    hide MatchDate, DatePart, IndexOf;
    var inner := line[4..];
    IndexOfFirst(inner, ']');
    var tail := inner[|version| + 1..];
    var a, b, c := DateFormOf(tail, date);
    assert inner == version + "]" + tail;
    assert line == line[..4] + inner && line[..4] == "## [";
    assert line == "## [" + version + "]" + tail;
  }

  // ------------------------------------------------------------------ carving the changelog

  /** A heading line, what it says, and the lines under it. */
  datatype Raw = Raw(heading: string, version: string, date: string, lines: seq<string>)

  /** The lines before the first unfenced version heading, and a section for each such heading. */
  function Carve(lines: seq<string>, inFence: bool): (seq<string>, seq<Raw>)
    decreases lines
  {
    if lines == [] then ([], [])
    else
      var fenced := Toggle(inFence, lines[0]);
      var (before, sections) := Carve(lines[1..], fenced);
      if !fenced && MatchHeading(lines[0]).Some? then
        var (version, date) := MatchHeading(lines[0]).value;
        ([], [Raw(lines[0], version, date, before)] + sections)
      else ([lines[0]] + before, sections)
  }

  /** Line `i` is a version heading outside every fence. */
  predicate IsHeadingAt(lines: seq<string>, inFence: bool, i: nat)
    requires i < |lines|
  {
    !FenceAfter(lines, inFence, i + 1) && MatchHeading(lines[i]).Some?
  }

  /** The sections written out again. */
  function Lay(sections: seq<Raw>): seq<string> {
    if sections == [] then [] else [sections[0].heading] + sections[0].lines + Lay(sections[1..])
  }

  /** Where the sections' headings stand when the first is at line `offset`. */
  function Starts(offset: nat, sections: seq<Raw>): seq<nat>
    decreases sections
  {
    if sections == [] then [] else [offset] + Starts(offset + 1 + |sections[0].lines|, sections[1..])
  }

  lemma {:induction false} StartsShift(offset: nat, sections: seq<Raw>, i: nat)
    ensures i + 1 in Starts(offset + 1, sections) <==> i in Starts(offset, sections)
    ensures 0 !in Starts(offset + 1, sections)
    decreases sections
  {
    if sections != [] {
      var next := offset + 1 + |sections[0].lines|;
      StartsShift(next, sections[1..], i);
      assert Starts(offset, sections) == [offset] + Starts(next, sections[1..]);
      assert Starts(offset + 1, sections) == [offset + 1] + Starts(next + 1, sections[1..]);
    }
  }

  /** Every line is kept, in order: the lines before the first heading, then the sections' lines. */
  lemma {:induction false} CarveKeepsLines(lines: seq<string>, inFence: bool)
    ensures var (before, sections) := Carve(lines, inFence); before + Lay(sections) == lines
    decreases lines
  {
    hide MatchHeading, IsFence;
    if lines != [] {
      var fenced, line, rest := Toggle(inFence, lines[0]), lines[0], lines[1..];
      var (before, sections) := Carve(rest, fenced);
      CarveKeepsLines(rest, fenced);
      assert lines == [line] + rest;
      if !fenced && MatchHeading(line).Some? {
        LayCons(line, before, sections, MatchHeading(line).value.0, MatchHeading(line).value.1);
      }
      hide Lay;
      assert [line] + (before + Lay(sections)) == [line] + before + Lay(sections);
    }
  }

  lemma LayCons(heading: string, under: seq<string>, sections: seq<Raw>, version: string, date: string)
    ensures Lay([Raw(heading, version, date, under)] + sections) == [heading] + under + Lay(sections)
  {
    assert ([Raw(heading, version, date, under)] + sections)[1..] == sections;
  }

  /** The sections start exactly at the unfenced version headings, and say what their headings say. */
  lemma {:induction false} CarveStartsAtHeadings(lines: seq<string>, inFence: bool, i: nat)
    requires i < |lines|
    ensures var (before, sections) := Carve(lines, inFence);
      i in Starts(|before|, sections) <==> IsHeadingAt(lines, inFence, i)
    decreases lines
  {
    hide MatchHeading, IsFence;
    var fenced := Toggle(inFence, lines[0]);
    var (before, sections) := Carve(lines[1..], fenced);
    FenceAfterCons(lines, inFence, i + 1);
    assert FenceAfter(lines, inFence, 1) == fenced;
    StartsShift(|before|, sections, if i > 0 then i - 1 else 0);
    if i > 0 {
      CarveStartsAtHeadings(lines[1..], fenced, i - 1);
    }
    if !fenced && MatchHeading(lines[0]).Some? {
      var (version, date) := MatchHeading(lines[0]).value;
      assert ([Raw(lines[0], version, date, before)] + sections)[1..] == sections;
    }
  }

  lemma {:induction false} CarveReadsHeadings(lines: seq<string>, inFence: bool)
    ensures forall s :: s in Carve(lines, inFence).1 ==> MatchHeading(s.heading) == Some((s.version, s.date))
    decreases lines
  {
    hide MatchHeading, IsFence;
    if lines != [] {
      var fenced := Toggle(inFence, lines[0]);
      CarveReadsHeadings(lines[1..], fenced);
      forall s | s in Carve(lines, inFence).1 ensures MatchHeading(s.heading) == Some((s.version, s.date)) {
        if s !in Carve(lines[1..], fenced).1 {
          assert MatchHeading(lines[0]).Some?;
          var (version, date) := MatchHeading(lines[0]).value;
          assert s == Raw(lines[0], version, date, Carve(lines[1..], fenced).0);
        }
      }
    }
  }

  /** The sections with a numeric version, in order. */
  function Numeric(sections: seq<Raw>): seq<Section> {
    if sections == [] then []
    else
      (if IsDotted(sections[0].version)
       then [Section(sections[0].version, sections[0].date, Trim(Join(sections[0].lines, "\n")))]
       else []) + Numeric(sections[1..])
  }

  lemma {:induction false} NumericConcat(a: seq<Raw>, b: seq<Raw>)
    ensures Numeric(a + b) == Numeric(a) + Numeric(b)
  {
    hide IsDotted, Trim;
    if a == [] {
      assert a + b == b;
    } else {
      assert (a + b)[1..] == a[1..] + b;
      NumericConcat(a[1..], b);
    }
  }

  /** The section being read, if any, with the lines still to come before the next heading. */
  function Open(current: Option<Raw>, before: seq<string>): seq<Raw> {
    if current.None? then [] else [current.value.(lines := current.value.lines + before)]
  }

  /** The section being read and those still to come. */
  function Remaining(current: Option<Raw>, lines: seq<string>, inFence: bool): seq<Raw> {
    var (before, sections) := Carve(lines, inFence);
    Open(current, before) + sections
  }

  function Extended(current: Option<Raw>, line: string): Option<Raw> {
    if current.None? then None else Some(current.value.(lines := current.value.lines + [line]))
  }

  lemma RemainingStep(current: Option<Raw>, lines: seq<string>, inFence: bool)
    requires lines != []
    ensures var line, fenced := lines[0], Toggle(inFence, lines[0]);
      Remaining(current, lines, inFence) ==
        if !fenced && MatchHeading(line).Some?
        then
          var (version, date) := MatchHeading(line).value;
          Open(current, []) + Remaining(Some(Raw(line, version, date, [])), lines[1..], fenced)
        else Remaining(Extended(current, line), lines[1..], fenced)
  {
    hide MatchHeading, IsFence;
    var (before, sections) := Carve(lines[1..], Toggle(inFence, lines[0]));
    assert [] + before == before;
    if current.Some? {
      assert current.value.lines + ([lines[0]] + before) == current.value.lines + [lines[0]] + before;
    }
  }

  lemma RemainingEnd(current: Option<Raw>, inFence: bool)
    ensures Remaining(current, [], inFence) == Open(current, [])
  {}

  /** One pass over the lines collects the sections, dropping those whose version is not numeric. */
  method ParseChangelog(markdown: string) returns (sections: seq<Section>)
    ensures sections == Numeric(Carve(Split(markdown, '\n'), false).1)
  {
    hide MatchHeading, IsFence, Numeric, Carve, Open, Remaining, Split, Flush;
    var lines := Split(markdown, '\n');
    sections := [];
    var current: Option<Raw> := None;
    var inFence := false;
    RemainingAtStart(lines);
    assert lines[0..] == lines;
    for i := 0 to |lines|
      invariant sections + Numeric(Remaining(current, lines[i..], inFence)) == Numeric(Carve(lines, false).1)
    {
      var line := lines[i];
      assert lines[i..][1..] == lines[i + 1..];
      RemainingStep(current, lines[i..], inFence);
      inFence := Toggle(inFence, line);
      var heading := if inFence then None else MatchHeading(line);
      if heading.Some? {
        var next := Some(Raw(line, heading.value.0, heading.value.1, []));
        NumericConcat(Open(current, []), Remaining(next, lines[i + 1..], inFence));
        sections := sections + Flush(current);
        current := next;
      } else {
        current := Extended(current, line);
      }
    }
    assert lines[|lines|..] == [];
    RemainingEnd(current, inFence);
    sections := sections + Flush(current);
  }

  lemma RemainingAtStart(lines: seq<string>)
    ensures Remaining(None, lines, false) == Carve(lines, false).1
  {
    assert [] + Carve(lines, false).1 == Carve(lines, false).1;
  }

  /** What closing the current section adds: nothing, unless its version is numeric. */
  function Flush(current: Option<Raw>): (r: seq<Section>)
    ensures r == Numeric(Open(current, []))
  {
    if current.None? then []
    else
      assert Open(current, []) == [current.value] by { assert current.value.lines + [] == current.value.lines; }
      assert [current.value][1..] == [];
      if IsDotted(current.value.version)
      then [Section(current.value.version, current.value.date, Trim(Join(current.value.lines, "\n")))]
      else []
  }

  // ------------------------------------------------------------------ prose lines and headings

  /** Each prose line goes through `transform`; fences and the lines between them are kept. */
  function MapProse(lines: seq<string>, inFence: bool, transform: string -> string): (r: seq<string>)
    ensures |r| == |lines|
    decreases lines
  {
    if lines == [] then []
    else if IsFence(lines[0]) then [lines[0]] + MapProse(lines[1..], !inFence, transform)
    else [if inFence then lines[0] else transform(lines[0])] + MapProse(lines[1..], inFence, transform)
  }

  lemma MapProseStep(lines: seq<string>, i: nat, inFence: bool, transform: string -> string)
    requires i < |lines|
    ensures MapProse(lines[i..], inFence, transform) ==
      if IsFence(lines[i]) then [lines[i]] + MapProse(lines[i + 1..], !inFence, transform)
      else [if inFence then lines[i] else transform(lines[i])] + MapProse(lines[i + 1..], inFence, transform)
  {
    hide IsFence;
    assert lines[i..][0] == lines[i] && lines[i..][1..] == lines[i + 1..];
  }

  /** The pass over a whole document. */
  method MapProseLines(markdown: string, transform: string -> string) returns (r: string)
    ensures r == Join(MapProse(Split(markdown, '\n'), false, transform), "\n")
  {
    hide IsFence, Split, Join, MapProse;
    var lines := Split(markdown, '\n');
    assert lines[0..] == lines;
    var inFence, out := false, [];
    ghost var whole := MapProse(lines, false, transform);
    for i := 0 to |lines|
      invariant out + MapProse(lines[i..], inFence, transform) == whole
    {
      var line := lines[i];
      MapProseStep(lines, i, inFence, transform);
      if IsFence(line) {
        ConcatThree(out, [line], MapProse(lines[i + 1..], !inFence, transform));
        inFence := !inFence;
        out := out + [line];
      } else {
        ConcatThree(out, [if inFence then line else transform(line)], MapProse(lines[i + 1..], inFence, transform));
        out := out + [if inFence then line else transform(line)];
      }
    }
    assert |MapProse(lines[|lines|..], inFence, transform)| == 0;
    assert out + [] == out;
    r := Join(out, "\n");
  }

  /** A transformation that never produces or removes a fence keeps every line's place and fence status. */
  lemma {:induction false} MapProseKeepsFences(lines: seq<string>, inFence: bool, transform: string -> string, n: nat)
    requires forall l :: !IsFence(l) ==> !IsFence(transform(l))
    requires n <= |lines|
    ensures FenceAfter(MapProse(lines, inFence, transform), inFence, n) == FenceAfter(lines, inFence, n)
    ensures n < |lines| && (IsFence(lines[n]) || FenceAfter(lines, inFence, n)) ==>
      MapProse(lines, inFence, transform)[n] == lines[n]
    ensures n < |lines| && !IsFence(lines[n]) && !FenceAfter(lines, inFence, n) ==>
      MapProse(lines, inFence, transform)[n] == transform(lines[n])
    decreases lines
  {
    hide IsFence;
    if n > 0 {
      var mapped := MapProse(lines, inFence, transform);
      MapProseKeepsFences(lines[1..], Toggle(inFence, lines[0]), transform, n - 1);
      FenceAfterCons(lines, inFence, n);
      FenceAfterCons(mapped, inFence, n);
      assert mapped[1..] == MapProse(lines[1..], Toggle(inFence, lines[0]), transform);
    }
  }

  /** Two passes are one pass with the composed transformation. */
  lemma {:induction false} MapProseCompose(lines: seq<string>, inFence: bool,
      f: string -> string, g: string -> string, h: string -> string)
    requires forall l :: !IsFence(l) ==> !IsFence(f(l))
    requires forall l :: g(f(l)) == h(l)
    ensures MapProse(MapProse(lines, inFence, f), inFence, g) == MapProse(lines, inFence, h)
    decreases lines
  {
    hide IsFence;
    if lines != [] {
      var mapped := MapProse(lines, inFence, f);
      MapProseCompose(lines[1..], Toggle(inFence, lines[0]), f, g, h);
      assert mapped[1..] == MapProse(lines[1..], Toggle(inFence, lines[0]), f);
    }
  }

  /** The number of `#` a line starts with. */
  function Hashes(line: string): (n: nat)
    ensures n <= |line|
  {
    if line != "" && line[0] == '#' then 1 + Hashes(line[1..]) else 0
  }

  function Repeat(n: nat): (s: string)
    ensures |s| == n && forall i :: 0 <= i < n ==> s[i] == '#'
  {
    seq(n, _ => '#')
  }

  /** A Markdown heading: one to six `#`, then white space. */
  predicate IsHeading(line: string) {
    1 <= Hashes(line) <= 6 && Hashes(line) < |line| && IsSpace(line[Hashes(line)])
  }

  function Capped(n: nat): nat {
    if n > 6 then 6 else n
  }

  /** Push a heading down by `levels`, at most to level six; other lines are left alone. */
  function DemoteLine(line: string, levels: nat): string {
    if IsHeading(line) then Repeat(Capped(Hashes(line) + levels)) + line[Hashes(line)..] else line
  }

  function DemoteBy(levels: nat): string -> string {
    (line: string) => DemoteLine(line, levels)
  }

  function DemotedLines(markdown: string, levels: nat): seq<string> {
    MapProse(Split(markdown, '\n'), false, DemoteBy(levels))
  }

  function DemoteHeadings(markdown: string, levels: nat): string {
    Join(DemotedLines(markdown, levels), "\n")
  }

  lemma {:induction false} HashesOf(n: nat, rest: string)
    requires rest == "" || rest[0] != '#'
    ensures Hashes(Repeat(n) + rest) == n
  {
    if n == 0 {
      assert Repeat(0) + rest == rest;
    } else {
      HashesOf(n - 1, rest);
      assert (Repeat(n) + rest)[1..] == Repeat(n - 1) + rest;
    }
  }

  lemma HashIsNoSpace()
    ensures !IsSpace('#') && !IsSpace('`') && !IsSpace('~')
  {}

  lemma DemotedHeading(line: string, levels: nat)
    requires IsHeading(line)
    ensures var d := DemoteLine(line, levels);
      IsHeading(d) && Hashes(d) == Capped(Hashes(line) + levels) && d[Hashes(d)..] == line[Hashes(line)..]
  {
    HashIsNoSpace();
    var n := Capped(Hashes(line) + levels);
    var rest := line[Hashes(line)..];
    HashesOf(n, rest);
    assert (Repeat(n) + rest)[n..] == rest;
  }

  /** Demoting twice demotes by the sum. */
  lemma DemoteLineTwice(line: string, a: nat, b: nat)
    ensures DemoteLine(DemoteLine(line, a), b) == DemoteLine(line, a + b)
  {
    hide IsHeading, Hashes;
    if IsHeading(line) {
      DemotedHeading(line, a);
    }
  }

  lemma {:induction false} HeadingStart(line: string)
    ensures Hashes(line) >= 1 ==> line != "" && line[0] == '#'
  {}

  lemma DemoteLineKeepsFence(line: string, levels: nat)
    ensures IsFence(DemoteLine(line, levels)) == IsFence(line)
    ensures Free(line, '\n') ==> Free(DemoteLine(line, levels), '\n')
  {
    if IsHeading(line) {
      DemotedHeading(line, levels);
      HashIsNoSpace();
      HeadingStart(line);
      HeadingStart(DemoteLine(line, levels));
      assert TrimStart(line) == line && TrimStart(DemoteLine(line, levels)) == DemoteLine(line, levels);
    }
  }

  lemma {:induction false} MapProseFree(lines: seq<string>, inFence: bool, levels: nat)
    requires forall i :: 0 <= i < |lines| ==> Free(lines[i], '\n')
    ensures forall i :: 0 <= i < |lines| ==> Free(MapProse(lines, inFence, DemoteBy(levels))[i], '\n')
    decreases lines
  {
    hide IsFence, DemoteLine, Free;
    if lines != [] {
      DemoteLineKeepsFence(lines[0], levels);
      MapProseFree(lines[1..], Toggle(inFence, lines[0]), levels);
    }
  }

  lemma DemotedSplit(markdown: string, levels: nat)
    ensures Split(DemoteHeadings(markdown, levels), '\n') == DemotedLines(markdown, levels)
  {
    hide DemoteLine, Free;
    JoinSplit(markdown, '\n');
    MapProseFree(Split(markdown, '\n'), false, levels);
    SplitJoin(DemotedLines(markdown, levels), '\n');
  }

  /** Demoting a document by `a` and then by `b` is demoting it by `a + b`. */
  lemma DemoteHeadingsTwice(markdown: string, a: nat, b: nat)
    ensures DemoteHeadings(DemoteHeadings(markdown, a), b) == DemoteHeadings(markdown, a + b)
  {
    hide DemoteLine, IsFence, Split, Join;
    DemotedSplit(markdown, a);
    forall l | !IsFence(l) ensures !IsFence(DemoteBy(a)(l)) {
      DemoteLineKeepsFence(l, a);
    }
    forall l ensures DemoteBy(b)(DemoteBy(a)(l)) == DemoteBy(a + b)(l) {
      DemoteLineTwice(l, a, b);
    }
    MapProseCompose(Split(markdown, '\n'), false, DemoteBy(a), DemoteBy(b), DemoteBy(a + b));
  }

  /**
   * Demoting keeps the number of lines, each line's fence status and every fence or fenced line; a prose
   * line becomes its demoted form.
   */
  lemma DemoteHeadingsKeepsFences(markdown: string, levels: nat, n: nat)
    ensures var before, after := Split(markdown, '\n'), Split(DemoteHeadings(markdown, levels), '\n');
      && |after| == |before|
      && (n <= |before| ==> FenceAfter(after, false, n) == FenceAfter(before, false, n))
      && (n < |before| ==>
            after[n] == (if IsFence(before[n]) || FenceAfter(before, false, n) then before[n]
                         else DemoteLine(before[n], levels)))
  {
    hide DemoteLine, IsFence, Split, Join;
    DemotedSplit(markdown, levels);
    forall l | !IsFence(l) ensures !IsFence(DemoteBy(levels)(l)) {
      DemoteLineKeepsFence(l, levels);
    }
    if n <= |Split(markdown, '\n')| {
      MapProseKeepsFences(Split(markdown, '\n'), false, DemoteBy(levels), n);
    }
  }
}
