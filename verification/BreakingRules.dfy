/** The rules of the breaking-changes document written out, and a reader that finds each bullet under its heading. */
module BreakingRules {
  import opened Text
  import opened Wrappers
  import opened BreakingChanges

  // ------------------------------------------------------------------ classification

  /** Neither documentation, nor a nullability change other than true to false, nor a widened enumeration. */
  predicate Breaks(d: SchemaDiff, key: string) {
    && key != "description" && key != "title" && key != "example"
    && (key == "nullable" ==>
          && d.oldValue.Object? && d.newValue.Object?
          && d.oldValue.nullable == Yes && d.newValue.nullable == No)
    && (key == "enum" ==> !KeepsAndAdds(d.oldValue, d.newValue))
  }

  /** A modified property is breaking exactly when one of its changed keys breaks. */
  lemma PropertyClassExactly(d: SchemaDiff)
    ensures PropertyClass(d) == Breaking <==> exists key :: key in d.changes && Breaks(d, key)
  {
    hide KeepsAndAdds;
    EnumIsNotDocumentation();
    assert "description" in DOCUMENTATION && "title" in DOCUMENTATION && "example" in DOCUMENTATION;
    forall key ensures Breaks(d, key) <==> !Harmless(d, key) {
      assert key in DOCUMENTATION <==> key == "description" || key == "title" || key == "example";
    }
    if i :| 0 <= i < |d.changes| && !Harmless(d, d.changes[i]) {
      assert Breaks(d, d.changes[i]);
    }
    if key :| key in d.changes && Breaks(d, key) {
      var i :| 0 <= i < |d.changes| && d.changes[i] == key;
    }
  }

  /** What is not breaking changes only documentation, nullability and enumerations: every other key breaks. */
  lemma OnlyTheseMayPass(d: SchemaDiff)
    ensures PropertyClass(d) == NotBreaking ==> forall key :: key in d.changes ==>
      key == "description" || key == "title" || key == "example" || key == "nullable" || key == "enum"
    ensures (forall key :: key in d.changes ==> key == "description" || key == "title" || key == "example") ==>
      PropertyClass(d) == NotBreaking
  {
    hide PropertyClass, KeepsAndAdds;
    PropertyClassExactly(d);
    forall key | key in d.changes && PropertyClass(d) == NotBreaking ensures !Breaks(d, key) {}
  }

  /** A modified schema is breaking exactly when a key other than its description changed. */
  lemma SchemaClassExactly(d: SchemaDiff)
    ensures SchemaClass(d) == Breaking <==> exists key :: key in d.changes && key != "description"
  {
    if i :| 0 <= i < |d.changes| && d.changes[i] != "description" {
      assert d.changes[i] in d.changes;
    }
    if key :| key in d.changes && key != "description" {
      var i :| 0 <= i < |d.changes| && d.changes[i] == key;
    }
  }

  /** An enumeration change is a narrowing exactly when it drops a value and adds none. */
  lemma NarrowExactly(before: Value, after: Value)
    ensures EnumChangeKind(before, after) == Narrow <==>
      && EnumOf(before).Some? && EnumOf(after).Some?
      && (exists x :: x in EnumOf(before).value && x !in EnumOf(after).value)
      && (forall x :: x in EnumOf(after).value ==> x in EnumOf(before).value)
  {
    if EnumOf(before).Some? && EnumOf(after).Some? {
      MissingMeaning(EnumOf(before).value, EnumOf(after).value);
      MissingMeaning(EnumOf(after).value, EnumOf(before).value);
    }
  }

  // ------------------------------------------------------------------ redundancy

  predicate IsPropertyPath(path: string, className: string, rest: string) {
    className != "" && Free(className, '.') && path == "schemas." + className + ".properties." + rest
  }

  lemma ClassOfExactly(path: string, className: string)
    ensures ClassOf(path) == Some(className) <==> exists rest :: IsPropertyPath(path, className, rest)
  {
    if ClassOf(path) == Some(className) {
      var rest := PropertyOf(path, className);
    }
    if rest :| IsPropertyPath(path, className, rest) {
      PropertyPathRead(path, className, rest);
    }
  }

  lemma PropertyOf(path: string, className: string) returns (rest: string)
    requires ClassOf(path) == Some(className)
    ensures IsPropertyPath(path, className, rest)
  {
    var inner := path[8..];
    IndexOfFirst(inner, '.');
    hide IndexOf;
    var tail := inner[|className|..];
    rest := tail[12..];
    PrefixSplits("schemas.", path);
    PrefixSplits(className, inner);
    PrefixSplits(".properties.", tail);
    ConcatFour("schemas.", className, ".properties.", rest);
  }

  lemma PrefixSplits(prefix: string, s: string)
    requires prefix <= s
    ensures s == prefix + s[|prefix|..]
  {}

  lemma ConcatFour(a: string, b: string, c: string, d: string)
    ensures a + (b + (c + d)) == a + b + c + d
  {}

  lemma PropertyPathRead(path: string, className: string, rest: string)
    requires IsPropertyPath(path, className, rest)
    ensures ClassOf(path) == Some(className)
  {
    var tail := ".properties." + rest;
    var after := tail[1..];
    assert tail == ['.'] + after;
    assert path == "schemas." + (className + tail);
    assert className + tail == className + ['.'] + after;
    assert path[8..] == className + ['.'] + after;
    IndexOfFree(className, after, '.');
    hide IndexOf;
    assert path[8..][|className|..] == tail && path[8..][..|className|] == className;
  }

  /** `d` belongs to the class that `x` adds or removes. */
  predicate AnnouncedBy(d: SchemaDiff, x: SchemaDiff, kind: Kind, className: string, rest: string) {
    && IsPropertyPath(d.path, className, rest)
    && x.item == SchemaItem && x.kind == kind && x.path == "schemas." + className
  }

  /**
   * An addition or removal is left out exactly when it is of a property of some class and the class itself is
   * added, or removed, in the same list.
   */
  lemma RedundantExactly(d: SchemaDiff, kind: Kind, bucket: set<SchemaDiff>)
    ensures IsRedundant(d, kind, bucket) <==>
      && d.item == PropertyItem && d.kind == kind
      && exists className, rest, x :: (x in bucket && AnnouncedBy(d, x, kind, className, rest))
  {
    hide ClassOf, IsPropertyPath;
    if IsRedundant(d, kind, bucket) {
      var className := ClassOf(d.path).value;
      var x :| x in bucket && AnnouncesClass(x, kind, className);
      ClassOfExactly(d.path, className);
      var rest :| IsPropertyPath(d.path, className, rest);
      assert AnnouncedBy(d, x, kind, className, rest);
    }
    if className, rest, x :| x in bucket && AnnouncedBy(d, x, kind, className, rest) {
      ClassOfExactly(d.path, className);
      assert AnnouncesClass(x, kind, className);
    }
  }

  // ------------------------------------------------------------------ reading a document

  /** The heading that a line is, if any. */
  function HeadingOf(line: string): Option<Category> {
    if line == "## Breaking" then Some(BreakingBullet)
    else if line == "## Additions" then Some(AdditionBullet)
    else if line == "## Other" then Some(OtherBullet)
    else None
  }

  /** The heading in force after a line. */
  function After(at: Option<Category>, line: string): Option<Category> {
    if HeadingOf(line).Some? then HeadingOf(line) else at
  }

  function AfterAll(at: Option<Category>, lines: seq<string>): Option<Category>
    decreases lines
  {
    if lines == [] then at else AfterAll(After(at, lines[0]), lines[1..])
  }

  /** The texts of the `- ` lines that stand under one heading, in order. */
  function ReadUnder(wanted: Category, at: Option<Category>, lines: seq<string>): seq<string>
    decreases lines
  {
    if lines == [] then []
    else
      var now := After(at, lines[0]);
      (if now == Some(wanted) && "- " <= lines[0] then [lines[0][2..]] else [])
      + ReadUnder(wanted, now, lines[1..])
  }

  lemma {:induction false} ReadConcat(wanted: Category, at: Option<Category>, a: seq<string>, b: seq<string>)
    ensures ReadUnder(wanted, at, a + b) == ReadUnder(wanted, at, a) + ReadUnder(wanted, AfterAll(at, a), b)
    ensures AfterAll(at, a + b) == AfterAll(AfterAll(at, a), b)
    decreases a
  {
    hide After;
    if a == [] {
      assert a + b == b;
    } else {
      var now := After(at, a[0]);
      var head := if now == Some(wanted) && "- " <= a[0] then [a[0][2..]] else [];
      assert (a + b)[0] == a[0] && (a + b)[1..] == a[1..] + b;
      assert ReadUnder(wanted, at, a + b) == head + ReadUnder(wanted, now, a[1..] + b);
      assert ReadUnder(wanted, at, a) == head + ReadUnder(wanted, now, a[1..]);
      assert AfterAll(at, a) == AfterAll(now, a[1..]) && AfterAll(at, a + b) == AfterAll(now, a[1..] + b);
      hide ReadUnder, AfterAll;
      ReadConcat(wanted, now, a[1..], b);
    }
  }

  lemma ItemIsNoHeading(text: string)
    ensures HeadingOf("- " + text) == None && HeadingOf("") == None && HeadingOf("_None._") == None
    ensures "- " <= "- " + text && ("- " + text)[2..] == text && !("- " <= "") && !("- " <= "_None._")
  {
    assert ("- " + text)[0] == '-' && "## Breaking"[0] == '#' && "## Additions"[0] == '#' && "## Other"[0] == '#';
    assert "_None._"[0] == '_';
  }

  lemma {:induction false} ReadItems(wanted: Category, at: Option<Category>, texts: seq<string>)
    ensures ReadUnder(wanted, at, Items(texts)) == if at == Some(wanted) then texts else []
    ensures AfterAll(at, Items(texts)) == at
  {
    hide HeadingOf;
    if texts != [] {
      var pair := ["- " + texts[0], ""];
      ReadPair(wanted, at, texts[0]);
      hide ReadUnder, AfterAll;
      ReadItems(wanted, at, texts[1..]);
      ReadConcat(wanted, at, pair, Items(texts[1..]));
      assert texts == [texts[0]] + texts[1..];
    }
  }

  lemma ReadPair(wanted: Category, at: Option<Category>, text: string)
    ensures ReadUnder(wanted, at, ["- " + text, ""]) == (if at == Some(wanted) then [text] else [])
    ensures AfterAll(at, ["- " + text, ""]) == at
  {
    hide HeadingOf;
    ItemIsNoHeading(text);
    var pair := ["- " + text, ""];
    assert pair[1..] == [""] && [""][1..] == [];
    assert AfterAll(at, [""]) == at && ReadUnder(wanted, at, [""]) == [];
  }

  lemma ReadSection(wanted: Category, at: Option<Category>, texts: seq<string>)
    ensures ReadUnder(wanted, at, SectionLines(texts)) == if at == Some(wanted) then texts else []
    ensures AfterAll(at, SectionLines(texts)) == at
  {
    hide HeadingOf;
    if texts == [] {
      ItemIsNoHeading("");
      var pair := ["_None._", ""];
      assert pair[1..] == [""] && [""][1..] == [];
      assert AfterAll(at, [""]) == at && ReadUnder(wanted, at, [""]) == [];
    } else {
      ReadItems(wanted, at, texts);
    }
  }

  lemma ReadHeading(wanted: Category, at: Option<Category>, line: string)
    requires HeadingOf(line).Some? && !("- " <= line)
    ensures ReadUnder(wanted, at, [line, ""]) == [] && AfterAll(at, [line, ""]) == HeadingOf(line)
  {
    ItemIsNoHeading("");
    assert [line, ""][1..] == [""] && [""][1..] == [];
    assert AfterAll(HeadingOf(line), [""]) == HeadingOf(line);
    assert ReadUnder(wanted, HeadingOf(line), [""]) == [];
  }

  /** A line that is neither a heading of a section nor an item. */
  predicate IsPlain(line: string) {
    HeadingOf(line) == None && !("- " <= line)
  }

  lemma {:induction false} ReadPlain(wanted: Category, at: Option<Category>, lines: seq<string>)
    requires forall i :: 0 <= i < |lines| ==> IsPlain(lines[i])
    ensures ReadUnder(wanted, at, lines) == [] && AfterAll(at, lines) == at
    decreases lines
  {
    hide HeadingOf;
    if lines != [] {
      ReadPlain(wanted, at, lines[1..]);
    }
  }

  function TitleLines(base: string, target: string): seq<string> {
    Header(base, target)[..8]
  }

  lemma TitleIsPlain(base: string, target: string)
    ensures |Header(base, target)| == 10
    ensures Header(base, target) == TitleLines(base, target) + ["## Breaking", ""]
    ensures forall i :: 0 <= i < 8 ==> IsPlain(TitleLines(base, target)[i])
  {
    var header := Header(base, target);
    assert header[0][0] == '<' && header[1] == "" && header[2][0] == '#' && header[2][1] == ' ' && header[3] == "";
    assert header[4][0] == '*' && header[5] == "" && header[6][0] == '*' && header[7] == "";
    assert "## Breaking"[1] == '#' && "## Additions"[1] == '#' && "## Other"[1] == '#';
  }

  /** All lines of a document, before they are joined. */
  function DocumentLines(bullets: seq<Bullet>, base: string, target: string): seq<string> {
    Header(base, target) + SectionLines(Texts(bullets, BreakingBullet))
    + ["## Additions", ""] + SectionLines(Texts(bullets, AdditionBullet))
    + ["## Other", ""] + SectionLines(Texts(bullets, OtherBullet))
  }

  lemma HeadingLines()
    ensures HeadingOf("## Breaking") == Some(BreakingBullet) && HeadingOf("## Additions") == Some(AdditionBullet)
    ensures HeadingOf("## Other") == Some(OtherBullet)
    ensures !("- " <= "## Breaking") && !("- " <= "## Additions") && !("- " <= "## Other")
  {
    assert "## Breaking"[0] == '#' && "## Additions"[0] == '#' && "## Other"[0] == '#' && "- "[0] == '-';
    assert "## Breaking"[3] == 'B' && "## Additions"[3] == 'A' && "## Other"[3] == 'O';
  }

  lemma ReadDocumentLines(bullets: seq<Bullet>, base: string, target: string, wanted: Category)
    ensures ReadUnder(wanted, None, DocumentLines(bullets, base, target)) == Texts(bullets, wanted)
  {
    hide HeadingOf, Header, SectionLines, Texts, ReadUnder, AfterAll, After, TitleLines;
    var title := TitleLines(base, target);
    var b, a, o := Texts(bullets, BreakingBullet), Texts(bullets, AdditionBullet), Texts(bullets, OtherBullet);
    HeadingLines();
    TitleIsPlain(base, target);
    ReadPlain(wanted, None, title);
    ReadHeading(wanted, None, "## Breaking");
    ReadHeading(wanted, Some(BreakingBullet), "## Additions");
    ReadHeading(wanted, Some(AdditionBullet), "## Other");
    ReadSection(wanted, Some(BreakingBullet), b);
    ReadSection(wanted, Some(AdditionBullet), a);
    ReadSection(wanted, Some(OtherBullet), o);
    ReadConcat(wanted, None, title, ["## Breaking", ""]);
    ReadConcat(wanted, None, Header(base, target), SectionLines(b));
    ReadConcat(wanted, None, Header(base, target) + SectionLines(b), ["## Additions", ""]);
    ReadConcat(wanted, None, Header(base, target) + SectionLines(b) + ["## Additions", ""], SectionLines(a));
    ReadConcat(wanted, None, Header(base, target) + SectionLines(b) + ["## Additions", ""] + SectionLines(a),
      ["## Other", ""]);
    ReadConcat(wanted, None,
      Header(base, target) + SectionLines(b) + ["## Additions", ""] + SectionLines(a) + ["## Other", ""],
      SectionLines(o));
  }

  // ------------------------------------------------------------------ the text of a document

  lemma {:induction false} JoinSnoc(lines: seq<string>, last: string)
    requires lines != []
    ensures Join(lines + [last], "\n") == Join(lines, "\n") + "\n" + last
  {
    if |lines| > 1 {
      assert (lines + [last])[1..] == lines[1..] + [last] && (lines + [last])[0] == lines[0];
      JoinSnoc(lines[1..], last);
    }
  }

  /** Two lines, the first not empty and the last empty, end the text with just one line feed. */
  predicate EndsWithItem(lines: seq<string>) {
    |lines| >= 3 && lines[|lines| - 1] == "" && lines[|lines| - 2] != "" && Free(lines[|lines| - 2], '\n')
  }

  lemma OneNewlineAlready(lines: seq<string>)
    requires EndsWithItem(lines)
    ensures OneFinalNewline(Join(lines, "\n")) == Join(lines, "\n")
  {
    var n := |lines|;
    var front, item := lines[..n - 2], lines[n - 2];
    assert lines[..n - 1] == front + [item] && lines == lines[..n - 1] + [""];
    JoinSnoc(front, item);
    JoinSnoc(lines[..n - 1], "");
    var s := Join(lines[..n - 1], "\n");
    assert s[|s| - 1] == item[|item| - 1] != '\n';
    assert Join(lines, "\n") == s + "\n";
    assert (s + "\n")[..|s|] == s;
    assert DropNewlines(s) == s;
  }

  lemma {:induction false} ItemsEnd(texts: seq<string>)
    requires texts != [] && forall i :: 0 <= i < |texts| ==> Free(texts[i], '\n')
    ensures var lines := Items(texts);
      && |lines| >= 2 && lines[|lines| - 1] == "" && lines[|lines| - 2] != "" && Free(lines[|lines| - 2], '\n')
      && forall i :: 0 <= i < |lines| ==> Free(lines[i], '\n')
  {
    if |texts| > 1 {
      ItemsEnd(texts[1..]);
    } else {
      assert Items(texts[1..]) == [];
    }
  }

  lemma SectionEnd(texts: seq<string>)
    requires forall i :: 0 <= i < |texts| ==> Free(texts[i], '\n')
    ensures var lines := SectionLines(texts);
      && |lines| >= 2 && lines[|lines| - 1] == "" && lines[|lines| - 2] != "" && Free(lines[|lines| - 2], '\n')
      && forall i :: 0 <= i < |lines| ==> Free(lines[i], '\n')
  {
    if texts != [] {
      ItemsEnd(texts);
    }
  }

  /** The texts of a category are those of its bullets, and of no others. */
  lemma {:induction false} TextsExactly(bullets: seq<Bullet>, category: Category)
    ensures forall t :: t in Texts(bullets, category) <==>
      exists b :: b in bullets && b.category == category && b.text == t
  {
    if bullets != [] {
      TextsExactly(bullets[1..], category);
      assert bullets == [bullets[0]] + bullets[1..];
      forall t ensures t in Texts(bullets, category) <==>
        exists b :: b in bullets && b.category == category && b.text == t
      {
        if t in Texts(bullets, category) {
          if t in Texts(bullets[1..], category) {
            var b :| b in bullets[1..] && b.category == category && b.text == t;
            assert b in bullets;
          } else {
            assert bullets[0] in bullets;
          }
        }
      }
    }
  }

  /** The texts of a category come in the order of their bullets. */
  lemma {:induction false} TextsInOrder(a: seq<Bullet>, b: seq<Bullet>, category: Category)
    ensures Texts(a + b, category) == Texts(a, category) + Texts(b, category)
  {
    if a == [] {
      assert a + b == b;
    } else {
      assert (a + b)[0] == a[0] && (a + b)[1..] == a[1..] + b;
      TextsInOrder(a[1..], b, category);
    }
  }

  /** Every bullet is printed under some heading. */
  lemma {:induction false} TextsCount(bullets: seq<Bullet>)
    ensures |Texts(bullets, BreakingBullet)| + |Texts(bullets, AdditionBullet)| + |Texts(bullets, OtherBullet)|
         == |bullets|
  {
    if bullets != [] {
      TextsCount(bullets[1..]);
    }
  }

  predicate OneLined(bullets: seq<Bullet>) {
    forall i :: 0 <= i < |bullets| ==> Free(bullets[i].text, '\n')
  }

  lemma TextsFree(bullets: seq<Bullet>, category: Category)
    requires OneLined(bullets)
    ensures forall i :: 0 <= i < |Texts(bullets, category)| ==> Free(Texts(bullets, category)[i], '\n')
  {
    hide Free, Texts;
    TextsExactly(bullets, category);
    forall i | 0 <= i < |Texts(bullets, category)| ensures Free(Texts(bullets, category)[i], '\n') {
      var t := Texts(bullets, category)[i];
      assert t in Texts(bullets, category);
      var b :| b in bullets && b.category == category && b.text == t;
    }
  }

  lemma HeaderFree(base: string, target: string)
    requires Free(base, '\n') && Free(target, '\n')
    ensures forall i :: 0 <= i < |Header(base, target)| ==> Free(Header(base, target)[i], '\n')
  {
    TitleReads(base, target);
    TitleIsPlain(base, target);
    RangeFree(base, target);
    TitleFree();
    hide Header, TitleLines;
  }

  lemma RangeFree(base: string, target: string)
    requires Free(base, '\n') && Free(target, '\n')
    ensures Free("**Range:** " + base + " → " + target, '\n')
  {
    assert Free("**Range:** ", '\n') && Free(" → ", '\n');
  }

  lemma TitleFree()
    ensures Free("<!-- apiome-breaking-changes v1 -->", '\n') && Free("# Schema changes (generated)", '\n')
    ensures Free("**Template:** `apiome-breaking-changes` v1", '\n') && Free("## Breaking", '\n') && Free("", '\n')
  {
    MarkerFree();
    TitleLineFree();
    TemplateFree();
    assert Free("## Breaking", '\n') && Free("", '\n');
    hide Free;
  }

  lemma MarkerFree()
    ensures Free("<!-- apiome-breaking-changes v1 -->", '\n')
  {}

  lemma TitleLineFree()
    ensures Free("# Schema changes (generated)", '\n')
  {}

  lemma TemplateFree()
    ensures Free("**Template:** `apiome-breaking-changes` v1", '\n')
  {}

  /**
   * The document, read line by line, has under each of its three headings exactly the texts of the bullets of
   * that category, in order, as long as no text has a line feed.
   */
  lemma DocumentRead(bullets: seq<Bullet>, base: string, target: string, wanted: Category)
    requires OneLined(bullets) && Free(base, '\n') && Free(target, '\n')
    ensures ReadUnder(wanted, None, Split(Document(bullets, base, target), '\n')) == Texts(bullets, wanted)
  {
    hide Header, SectionLines, Texts, ReadUnder, Free, OneFinalNewline, Join, Split, OneLined;
    var lines := DocumentLines(bullets, base, target);
    TextsFree(bullets, BreakingBullet);
    TextsFree(bullets, AdditionBullet);
    TextsFree(bullets, OtherBullet);
    SectionEnd(Texts(bullets, BreakingBullet));
    SectionEnd(Texts(bullets, AdditionBullet));
    SectionEnd(Texts(bullets, OtherBullet));
    HeaderFree(base, target);
    HeadingsFree();
    assert EndsWithItem(lines);
    OneNewlineAlready(lines);
    SplitJoin(lines, '\n');
    ReadDocumentLines(bullets, base, target, wanted);
  }

  lemma HeadingsFree()
    ensures Free("## Additions", '\n') && Free("## Other", '\n') && Free("", '\n')
  {}

  /** What a bullet says: the identifier of the changed element in backquotes, a dash, and the line of the diff. */
  lemma BulletReads(d: SchemaDiff, category: Category, line: SchemaDiff -> string)
    ensures BulletFor(d, category, line)
         == Bullet("components." + d.path, "`components." + d.path + "` — " + line(d), category)
  {
    assert "`" + ("components." + d.path) + "` — " + line(d) == "`components." + d.path + "` — " + line(d);
  }

  /** A modification is printed as breaking exactly when its class is, by the rule for its kind, and else as other. */
  lemma ModifiedCategoryExactly(d: SchemaDiff, line: SchemaDiff -> string)
    ensures var breaks := if d.item == SchemaItem then exists key :: key in d.changes && key != "description"
                          else exists key :: key in d.changes && Breaks(d, key);
      BulletOfModified(d, line) == BulletFor(d, if breaks then BreakingBullet else OtherBullet, line)
  {
    hide BulletFor, SchemaClass, PropertyClass, Breaks;
    SchemaClassExactly(d);
    PropertyClassExactly(d);
  }

  /** The lines above the first section. */
  lemma TitleReads(base: string, target: string)
    ensures var title := TitleLines(base, target);
      && |title| == 8 && title[0] == "<!-- apiome-breaking-changes v1 -->"
      && title[2] == "# Schema changes (generated)" && title[4] == "**Range:** " + base + " → " + target
      && title[6] == "**Template:** `apiome-breaking-changes` v1"
      && title[1] == "" && title[3] == "" && title[5] == "" && title[7] == ""
  {}

  /** Line feeds at the end of a text become one, and a text without any is left alone. */
  lemma {:induction false} FinalNewlineExactly(s: string, n: nat)
    requires s == "" || s[|s| - 1] != '\n'
    ensures DropNewlines(s + seq(n, _ => '\n')) == s
    ensures OneFinalNewline(s + seq(n, _ => '\n')) == if n == 0 then s else s + "\n"
    decreases n
  {
    var t := s + seq(n, _ => '\n');
    if n == 0 {
      assert t == s;
    } else {
      FinalNewlineExactly(s, n - 1);
      assert t[|t| - 1] == '\n' && t[..|t| - 1] == s + seq(n - 1, _ => '\n');
      assert |t| > |s|;
    }
  }
}
