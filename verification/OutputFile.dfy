/** Step outputs in heredoc form, and the line-by-line reader of the file they are appended to. */
module OutputFile {
  import opened Text
  import opened Wrappers

  datatype Output = Output(name: string, value: string)

  /** One entry: the name and the delimiter, the value, and the delimiter again. */
  function OutputLine(name: string, value: string, delimiter: string): string {
    name + "<<" + delimiter + "\n" + value + "\n" + delimiter + "\n"
  }

  // ------------------------------------------------------------------ the reader

  /** The first line and what follows its line feed. */
  function TakeLine(text: string): (r: Option<(string, string)>)
    ensures r.Some? ==> |r.value.1| < |text|
  {
    var i := IndexOf(text, '\n');
    if i == |text| then None else Some((text[..i], text[i + 1..]))
  }

  /** The lines up to the one that equals the delimiter, and what follows that line. */
  function ReadValue(text: string, delimiter: string): (r: Option<(seq<string>, string)>)
    ensures r.Some? ==> |r.value.1| < |text|
    decreases |text|
  {
    match TakeLine(text)
    case None => None
    case Some((line, rest)) =>
      if line == delimiter then Some(([], rest))
      else
        match ReadValue(rest, delimiter)
        case None => None
        case Some((lines, after)) => Some(([line] + lines, after))
  }

  /** The name and delimiter of a header line: the text around the first `<<`, if no `=` comes before it. */
  function ReadHeader(line: string): Option<(string, string)> {
    if |line| < 2 || line[0] == '=' then None
    else if line[0] == '<' && line[1] == '<' then Some(("", line[2..]))
    else
      match ReadHeader(line[1..])
      case None => None
      case Some((name, delimiter)) => Some(([line[0]] + name, delimiter))
  }

  /** One entry and what follows it. */
  function ReadEntry(text: string): (r: Option<(Output, string)>)
    ensures r.Some? ==> |r.value.1| < |text|
  {
    match TakeLine(text)
    case None => None
    case Some((header, rest)) =>
      match ReadHeader(header)
      case None => None
      case Some((name, delimiter)) =>
        match ReadValue(rest, delimiter)
        case None => None
        case Some((lines, after)) => Some((Output(name, Join(lines, "\n")), after))
  }

  function ReadAll(text: string): Option<seq<Output>>
    decreases |text|
  {
    if text == "" then Some([])
    else
      match ReadEntry(text)
      case None => None
      case Some((output, after)) =>
        match ReadAll(after)
        case None => None
        case Some(outputs) => Some([output] + outputs)
  }

  // ------------------------------------------------------------------ what is written is read

  lemma TakeFirstLine(line: string, rest: string)
    requires Free(line, '\n')
    ensures TakeLine(line + "\n" + rest) == Some((line, rest))
  {
    var text := line + ['\n'] + rest;
    IndexOfFree(line, rest, '\n');
    assert text[..|line|] == line && text[|line| + 1..] == rest;
  }

  lemma {:induction false} ReadHeaderOf(name: string, delimiter: string)
    requires Free(name, '<') && Free(name, '=')
    ensures ReadHeader(name + "<<" + delimiter) == Some((name, delimiter))
  {
    var line := name + "<<" + delimiter;
    if name == "" {
      assert line[2..] == delimiter;
    } else {
      assert line[1..] == name[1..] + "<<" + delimiter;
      ReadHeaderOf(name[1..], delimiter);
      assert name == [name[0]] + name[1..];
    }
  }

  predicate NoLineFeeds(lines: seq<string>) {
    forall i :: 0 <= i < |lines| ==> Free(lines[i], '\n')
  }

  /** Reading up to a delimiter that no line equals gives all the lines; otherwise reading stops early. */
  lemma {:induction false} ReadJoinedLines(lines: seq<string>, delimiter: string, rest: string)
    requires |lines| >= 1 && NoLineFeeds(lines) && Free(delimiter, '\n')
    ensures var text := Join(lines, "\n") + "\n" + delimiter + "\n" + rest;
      && (delimiter !in lines ==> ReadValue(text, delimiter) == Some((lines, rest)))
      && (delimiter in lines ==> ReadValue(text, delimiter).Some? && |ReadValue(text, delimiter).value.1| > |rest|)
  {
    var end := delimiter + "\n" + rest;
    var text := Join(lines, "\n") + "\n" + delimiter + "\n" + rest;
    hide TakeLine;
    if |lines| == 1 {
      assert text == lines[0] + "\n" + end;
      TakeFirstLine(lines[0], end);
      TakeFirstLine(delimiter, rest);
      assert [lines[0]] + [] == lines;
    } else {
      var tail := Join(lines[1..], "\n") + "\n" + delimiter + "\n" + rest;
      assert text == lines[0] + "\n" + tail;
      TakeFirstLine(lines[0], tail);
      ReadJoinedLines(lines[1..], delimiter, rest);
      assert lines == [lines[0]] + lines[1..];
    }
  }

  /** What the code setting outputs guarantees: names without `<` and `=`, and no line feed but in values. */
  predicate WellNamed(name: string, delimiter: string) {
    Free(name, '<') && Free(name, '=') && Free(name, '\n') && Free(delimiter, '\n')
  }

  predicate Delimits(value: string, delimiter: string) {
    delimiter !in Split(value, '\n')
  }

  /** An entry, whatever follows it, is read back exactly when no line of its value equals the delimiter. */
  lemma ReadWrittenEntry(name: string, value: string, delimiter: string, rest: string)
    requires WellNamed(name, delimiter)
    ensures ReadEntry(OutputLine(name, value, delimiter) + rest) == Some((Output(name, value), rest))
       <==> Delimits(value, delimiter)
  {
    hide TakeLine, ReadHeader, ReadValue;
    var header := name + "<<" + delimiter;
    var lines := Split(value, '\n');
    var body := Join(lines, "\n") + "\n" + delimiter + "\n" + rest;
    JoinSplit(value, '\n');
    assert OutputLine(name, value, delimiter) + rest == header + "\n" + body;
    TakeFirstLine(header, body);
    ReadHeaderOf(name, delimiter);
    ReadJoinedLines(lines, delimiter, rest);
  }

  /** An output with the delimiter drawn for it. */
  datatype Entry = Entry(output: Output, delimiter: string)

  /** The file after setting the outputs one after the other. */
  function Written(entries: seq<Entry>): string {
    if entries == [] then ""
    else OutputLine(entries[0].output.name, entries[0].output.value, entries[0].delimiter) + Written(entries[1..])
  }

  function Outputs(entries: seq<Entry>): seq<Output> {
    if entries == [] then [] else [entries[0].output] + Outputs(entries[1..])
  }

  // ------------------------------------------------------------------ exactly when it is read

  predicate AllWellNamed(entries: seq<Entry>) {
    forall i :: 0 <= i < |entries| ==> WellNamed(entries[i].output.name, entries[i].delimiter)
  }

  predicate AllDelimited(entries: seq<Entry>) {
    forall i :: 0 <= i < |entries| ==> Delimits(entries[i].output.value, entries[i].delimiter)
  }

  lemma TakenLine(text: string)
    ensures TakeLine(text).Some? ==>
      var (line, rest) := TakeLine(text).value; text == line + "\n" + rest && Free(line, '\n')
  {
    IndexOfFirst(text, '\n');
  }

  /** What reading a value consumes: its lines and the delimiter's. */
  lemma {:induction false} ReadValueConsumes(text: string, delimiter: string)
    requires ReadValue(text, delimiter).Some?
    ensures var (lines, after) := ReadValue(text, delimiter).value;
      text == Join(lines, "\n") + (if lines == [] then "" else "\n") + delimiter + "\n" + after
    decreases |text|
  {
    hide TakeLine;
    TakenLine(text);
    var (line, rest) := TakeLine(text).value;
    if line != delimiter {
      ReadValueConsumes(rest, delimiter);
      var (lines, after) := ReadValue(rest, delimiter).value;
      assert ([line] + lines)[1..] == lines;
      if lines == [] {
        assert Join([line] + lines, "\n") == line;
      } else {
        assert Join([line] + lines, "\n") == line + "\n" + Join(lines, "\n");
      }
    }
  }

  /** An entry cut short is read with another value, or leaves a rest that is no entry. */
  lemma CutShort(e: Entry, rest: string)
    requires WellNamed(e.output.name, e.delimiter) && !Delimits(e.output.value, e.delimiter)
    ensures var text := OutputLine(e.output.name, e.output.value, e.delimiter) + rest;
      ReadEntry(text).Some? && ReadEntry(text).value.0 == e.output ==> ReadAll(ReadEntry(text).value.1) == None
  {
    hide TakeLine, ReadHeader, ReadValue, ReadAll, Split, Join;
    var name, value, delimiter := e.output.name, e.output.value, e.delimiter;
    var header := name + "<<" + delimiter;
    var body := value + "\n" + delimiter + "\n" + rest;
    assert OutputLine(name, value, delimiter) + rest == header + "\n" + body;
    hide OutputLine;
    TakeFirstLine(header, body);
    ReadHeaderOf(name, delimiter);
    CutValue(value, delimiter, rest);
  }

  lemma CutValue(value: string, delimiter: string, rest: string)
    requires Free(delimiter, '\n') && !Delimits(value, delimiter)
    ensures var body := value + "\n" + delimiter + "\n" + rest;
      && ReadValue(body, delimiter).Some?
      && (Join(ReadValue(body, delimiter).value.0, "\n") == value ==>
            ReadAll(ReadValue(body, delimiter).value.1) == None)
  {
    hide ReadValue, ReadAll;
    var body, lines := value + "\n" + delimiter + "\n" + rest, Split(value, '\n');
    JoinSplit(value, '\n');
    ReadJoinedLines(lines, delimiter, rest);
    ReadValueConsumes(body, delimiter);
    hide Split;
    var (read, after) := ReadValue(body, delimiter).value;
    if Join(read, "\n") == value {
      assert |read| == 0;
      assert body == delimiter + "\n" + after && body == "\n" + delimiter + "\n" + rest;
      NoLineFeedFirst(delimiter, after, delimiter + "\n" + rest);
      assert after == "\n" + rest;
      NoEntryAtLineFeed(rest);
    }
  }

  lemma NoLineFeedFirst(delimiter: string, after: string, tail: string)
    requires Free(delimiter, '\n') && delimiter + "\n" + after == "\n" + tail
    ensures delimiter == "" && after == tail
  {
    IndexOfFree(delimiter, after, '\n');
    IndexOfFree("", tail, '\n');
    assert "" + ['\n'] + tail == delimiter + ['\n'] + after;
    assert ("\n" + tail)[1..] == tail && ("\n" + after)[1..] == after;
  }

  lemma NoEntryAtLineFeed(rest: string)
    ensures ReadAll("\n" + rest) == None
  {
    TakeFirstLine("", rest);
    assert "" + "\n" + rest == "\n" + rest;
  }

  /** The file is read back as what was set exactly when no line of any value equals its delimiter. */
  lemma {:induction false} ReadAllWrittenExactly(entries: seq<Entry>)
    requires AllWellNamed(entries)
    ensures ReadAll(Written(entries)) == Some(Outputs(entries)) <==> AllDelimited(entries)
  {
    hide ReadEntry, OutputLine, WellNamed, Delimits;
    if entries != [] {
      var e, rest := entries[0], entries[1..];
      var text := Written(entries);
      ReadAllWrittenExactly(rest);
      ReadWrittenEntry(e.output.name, e.output.value, e.delimiter, Written(rest));
      LineNotEmpty(e);
      assert AllDelimited(entries) <==> Delimits(e.output.value, e.delimiter) && AllDelimited(rest);
      if Delimits(e.output.value, e.delimiter) {
        SameTail(e.output, ReadAll(Written(rest)), Outputs(rest));
      } else {
        CutShort(e, Written(rest));
        FirstRead(text);
        assert Outputs(entries)[0] == e.output;
      }
    }
  }

  /** Whatever the values hold, if no line of one equals its delimiter, all outputs are read, in order. */
  lemma ReadAllWritten(entries: seq<Entry>)
    requires AllWellNamed(entries) && AllDelimited(entries)
    ensures ReadAll(Written(entries)) == Some(Outputs(entries))
  {
    ReadAllWrittenExactly(entries);
  }

  /** A value that holds its own delimiter as a line is not read back: the entry ends early. */
  lemma DelimiterInValueTruncates(name: string, value: string, delimiter: string)
    requires WellNamed(name, delimiter) && !Delimits(value, delimiter)
    ensures ReadAll(OutputLine(name, value, delimiter)) != Some([Output(name, value)])
  {
    hide ReadAll, OutputLine, WellNamed, Delimits;
    var entries := [Entry(Output(name, value), delimiter)];
    assert entries[1..] == [];
    assert Written(entries) == OutputLine(name, value, delimiter) + "" == OutputLine(name, value, delimiter);
    assert AllWellNamed(entries);
    assert !Delimits(entries[0].output.value, entries[0].delimiter);
    assert Outputs(entries) == [Output(name, value)];
    ReadAllWrittenExactly(entries);
  }

  lemma LineNotEmpty(e: Entry)
    ensures OutputLine(e.output.name, e.output.value, e.delimiter) != ""
  {}

  lemma SameTail(output: Output, r: Option<seq<Output>>, outputs: seq<Output>)
    ensures r.Some? ==> ([output] + r.value == [output] + outputs <==> r.value == outputs)
  {
    if r.Some? && [output] + r.value == [output] + outputs {
      assert ([output] + r.value)[1..] == r.value && ([output] + outputs)[1..] == outputs;
    }
  }

  /** Whatever is read starts with the entry that is read first. */
  lemma FirstRead(text: string)
    ensures text != "" && ReadAll(text).Some? ==>
      && ReadEntry(text).Some? && ReadAll(ReadEntry(text).value.1).Some?
      && ReadAll(text).value != [] && ReadAll(text).value[0] == ReadEntry(text).value.0
  {}

  lemma {:induction false} WrittenSnoc(entries: seq<Entry>, e: Entry)
    ensures Written(entries + [e]) == Written(entries) + OutputLine(e.output.name, e.output.value, e.delimiter)
    ensures Outputs(entries + [e]) == Outputs(entries) + [e.output]
  {
    hide OutputLine;
    if entries == [] {
      assert entries + [e] == [e] && [e][1..] == [];
    } else {
      assert (entries + [e])[1..] == entries[1..] + [e];
      WrittenSnoc(entries[1..], e);
    }
  }

  /** The file that the runner reads; entries are only ever appended. */
  class StepFile {
    var text: string
    ghost var entries: seq<Entry>

    /** The file holds the entries that were set, in order, and nothing else. */
    ghost predicate Valid()
      reads this
    {
      text == Written(entries)
    }

    constructor ()
      ensures Valid() && entries == []
    {
      text := "";
      entries := [];
    }

    /** After any calls the runner reads exactly the outputs set so far, unless a value holds its delimiter. */
    method SetOutput(name: string, value: string, delimiter: string)
      requires Valid()
      modifies this
      ensures Valid() && old(text) <= text
      ensures entries == old(entries) + [Entry(Output(name, value), delimiter)]
      ensures Outputs(entries) == old(Outputs(entries)) + [Output(name, value)]
      ensures AllWellNamed(entries) ==> (ReadAll(text) == Some(Outputs(entries)) <==> AllDelimited(entries))
    {
      hide OutputLine, WellNamed, Delimits, ReadAll;
      WrittenSnoc(entries, Entry(Output(name, value), delimiter));
      text := text + OutputLine(name, value, delimiter);
      entries := entries + [Entry(Output(name, value), delimiter)];
      if AllWellNamed(entries) {
        ReadAllWrittenExactly(entries);
      }
    }
  }

  /** An output whose value is its delimiter is not read back. */
  lemma ValueIsDelimiter()
    ensures ReadAll(OutputLine("port", "E", "E")) != Some([Output("port", "E")])
  {
    hide ReadAll, OutputLine;
    SplitFree("E", '\n');
    assert "E" in ["E"];
    DelimiterInValueTruncates("port", "E", "E");
  }

  /** An entry as it is written. */
  lemma PrintedEntry()
    ensures OutputLine("n", "v", "E") == "n<<E\nv\nE\n"
  {}
}
