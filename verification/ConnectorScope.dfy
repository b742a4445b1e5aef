/** Connector forms: building the scope of a connector from form values, and filling the form from a scope. */
module ConnectorScope {
  import opened Text
  import opened Wrappers

  datatype FieldType = TextField | ListField | SelectField | BooleanField | SecretField

  datatype Field = Field(key: string, title: string, kind: FieldType, required: bool)

  datatype FormValue = Str(s: string) | Bool(b: bool)

  type FieldValues = map<string, FormValue>

  /** A value of a stored scope; texts, lists of texts, booleans, or null. */
  datatype ScopeValue = Text(s: string) | Items(items: seq<string>) | Flag(b: bool) | Null

  type Scope = map<string, ScopeValue>

  // ------------------------------------------------------------------ from the form to the scope

  /** The parts of a comma-separated text, trimmed, without the empty ones. */
  function Compact(parts: seq<string>): seq<string> {
    if parts == [] then [] else (if Trim(parts[0]) == "" then [] else [Trim(parts[0])]) + Compact(parts[1..])
  }

  function ListOf(text: string): seq<string> {
    Compact(Split(text, ','))
  }

  function TextValue(values: FieldValues, key: string): string {
    if key in values && values[key].Str? then Trim(values[key].s) else ""
  }

  /** What a field contributes to the scope; nothing for an empty value. */
  function Entry(field: Field, values: FieldValues): Option<ScopeValue> {
    if field.kind == BooleanField then
      if field.key in values && values[field.key] == Bool(true) then Some(Flag(true)) else None
    else
      var text := TextValue(values, field.key);
      if text == "" then None
      else if field.kind == ListField then Some(Items(ListOf(text)))
      else Some(Text(text))
  }

  function BuildScope(fields: seq<Field>, values: FieldValues): Scope {
    if fields == [] then map[]
    else
      var n := |fields| - 1;
      var scope := BuildScope(fields[..n], values);
      match Entry(fields[n], values)
      case None => scope
      case Some(v) => scope[fields[n].key := v]
  }

  /** Turn the form's values into the scope, field by field. */
  method ScopeFromForm(fields: seq<Field>, values: FieldValues) returns (scope: Scope)
    ensures scope == BuildScope(fields, values)
  {
    hide ListOf, TextValue;
    scope := map[];
    for i := 0 to |fields|
      invariant scope == BuildScope(fields[..i], values)
    {
      assert fields[..i + 1][..i] == fields[..i];
      var field := fields[i];
      if field.kind == BooleanField {
        if field.key in values && values[field.key] == Bool(true) {
          scope := scope[field.key := Flag(true)];
        }
        continue;
      }
      var text := TextValue(values, field.key);
      if text == "" {
        continue;
      }
      scope := scope[field.key := if field.kind == ListField then Items(ListOf(text)) else Text(text)];
    }
    assert fields[..|fields|] == fields;
  }

  // ------------------------------------------------------------------ from the scope to the form

  /** What a stored value fills into the form; a boolean field is always filled. */
  function Fill(field: Field, scope: Scope): Option<FormValue> {
    if field.kind == BooleanField then Some(Bool(field.key in scope && scope[field.key] == Flag(true)))
    else if field.key !in scope then None
    else
      match scope[field.key]
      case Text(s) => Some(Str(s))
      case Items(items) => Some(Str(Join(items, ", ")))
      case Flag(b) => Some(Str(if b then "true" else "false"))
      case Null => None
  }

  function ScopeToValues(fields: seq<Field>, scope: Scope): FieldValues {
    if fields == [] then map[]
    else
      var n := |fields| - 1;
      var values := ScopeToValues(fields[..n], scope);
      match Fill(fields[n], scope)
      case None => values
      case Some(v) => values[fields[n].key := v]
  }

  /** Fill the form from a stored scope, field by field. */
  method FormFromScope(fields: seq<Field>, scope: Scope) returns (values: FieldValues)
    ensures values == ScopeToValues(fields, scope)
  {
    values := map[];
    for i := 0 to |fields|
      invariant values == ScopeToValues(fields[..i], scope)
    {
      assert fields[..i + 1][..i] == fields[..i];
      var v := Fill(fields[i], scope);
      if v.Some? {
        values := values[fields[i].key := v.value];
      }
    }
    assert fields[..|fields|] == fields;
  }

  /** What each kind of field sends: a ticked checkbox, the items of a list text, or the trimmed text. */
  lemma EntryExactly(field: Field, values: FieldValues)
    ensures field.kind == BooleanField ==>
      Entry(field, values) == if field.key in values && values[field.key] == Bool(true) then Some(Flag(true)) else None
    ensures field.kind != BooleanField && (field.key !in values || values[field.key].Bool?) ==>
      Entry(field, values) == None
    ensures field.kind != BooleanField && field.key in values && values[field.key].Str? ==>
      var text := Trim(values[field.key].s);
      && (Entry(field, values) == None <==> AllSpace(values[field.key].s))
      && (text != "" && field.kind == ListField ==> Entry(field, values) == Some(Items(ListOf(text))))
      && (text != "" && field.kind != ListField ==> Entry(field, values) == Some(Text(text)))
  {
    hide Trim, ListOf, AllSpace;
    if field.key in values && values[field.key].Str? {
      TrimEmptyExactly(values[field.key].s);
    }
  }

  /** The items of a list text: the trimmed text before each comma, in order, where there is any. */
  lemma ItemsOfText(head: string, tail: string)
    requires Free(head, ',')
    ensures ListOf(head) == if AllSpace(head) then [] else [Trim(head)]
    ensures ListOf(head + "," + tail) == ListOf(head) + ListOf(tail)
  {
    hide Trim, AllSpace;
    TrimEmptyExactly(head);
    SplitFree(head, ',');
    SplitAtSeparator(head, tail, ',');
    assert head + [','] + tail == head + "," + tail;
    var parts := [head] + Split(tail, ',');
    assert parts[1..] == Split(tail, ',') && [head][1..] == [];
    assert Compact([head]) == (if Trim(head) == "" then [] else [Trim(head)]) + Compact([]);
  }

  /** What fills a field of the form: checkboxes always, other fields when a value is stored. */
  lemma FillExactly(field: Field, scope: Scope)
    ensures field.kind == BooleanField ==>
      Fill(field, scope) == Some(Bool(field.key in scope && scope[field.key] == Flag(true)))
    ensures field.kind != BooleanField ==>
      && (Fill(field, scope) == None <==> field.key !in scope || scope[field.key] == Null)
      && (field.key in scope && scope[field.key].Text? ==> Fill(field, scope) == Some(Str(scope[field.key].s)))
      && (field.key in scope && scope[field.key].Items? ==>
            Fill(field, scope) == Some(Str(Join(scope[field.key].items, ", "))))
      && (field.key in scope && scope[field.key] == Flag(true) ==> Fill(field, scope) == Some(Str("true")))
      && (field.key in scope && scope[field.key] == Flag(false) ==> Fill(field, scope) == Some(Str("false")))
  {
    hide Join;
  }

  // ------------------------------------------------------------------ field by field

  predicate DistinctKeys(fields: seq<Field>) {
    forall i, j :: 0 <= i < j < |fields| ==> fields[i].key != fields[j].key
  }

  predicate HasKey(fields: seq<Field>, key: string) {
    exists i :: 0 <= i < |fields| && fields[i].key == key
  }

  lemma {:induction false} BuildScopeAt(fields: seq<Field>, values: FieldValues)
    requires DistinctKeys(fields)
    ensures forall i :: 0 <= i < |fields| ==>
      (fields[i].key in BuildScope(fields, values) <==> Entry(fields[i], values).Some?)
    ensures forall i :: 0 <= i < |fields| && Entry(fields[i], values).Some? ==>
      BuildScope(fields, values)[fields[i].key] == Entry(fields[i], values).value
    ensures forall k :: k in BuildScope(fields, values) ==> HasKey(fields, k)
  {
    hide Entry;
    if fields != [] {
      var n := |fields| - 1;
      BuildScopeAt(fields[..n], values);
      assert forall i :: 0 <= i < n ==> fields[..n][i] == fields[i];
      assert !HasKey(fields[..n], fields[n].key);
      forall k | HasKey(fields[..n], k) ensures HasKey(fields, k) {
        var i :| 0 <= i < n && fields[..n][i].key == k;
        assert fields[i].key == k;
      }
    }
  }

  lemma {:induction false} ScopeToValuesAt(fields: seq<Field>, scope: Scope)
    requires DistinctKeys(fields)
    ensures forall i :: 0 <= i < |fields| ==>
      (fields[i].key in ScopeToValues(fields, scope) <==> Fill(fields[i], scope).Some?)
    ensures forall i :: 0 <= i < |fields| && Fill(fields[i], scope).Some? ==>
      ScopeToValues(fields, scope)[fields[i].key] == Fill(fields[i], scope).value
    ensures forall k :: k in ScopeToValues(fields, scope) ==> HasKey(fields, k)
  {
    hide Fill;
    if fields != [] {
      var n := |fields| - 1;
      ScopeToValuesAt(fields[..n], scope);
      assert forall i :: 0 <= i < n ==> fields[..n][i] == fields[i];
      assert !HasKey(fields[..n], fields[n].key);
      forall k | HasKey(fields[..n], k) ensures HasKey(fields, k) {
        var i :| 0 <= i < n && fields[..n][i].key == k;
        assert fields[i].key == k;
      }
    }
  }

  // ------------------------------------------------------------------ lists

  /** A list item: trimmed, not empty, without a comma. */
  predicate IsItem(s: string) {
    s != "" && Trimmed(s) && Free(s, ',')
  }

  predicate AreItems(items: seq<string>) {
    forall i :: 0 <= i < |items| ==> IsItem(items[i])
  }

  lemma {:induction false} CompactItems(parts: seq<string>)
    requires forall i :: 0 <= i < |parts| ==> Free(parts[i], ',')
    ensures AreItems(Compact(parts))
  {
    hide Trim;
    if parts != [] {
      TrimResult(parts[0]);
      CompactItems(parts[1..]);
    }
  }

  lemma ListOfItems(text: string)
    ensures AreItems(ListOf(text))
  {
    JoinSplit(text, ',');
    CompactItems(Split(text, ','));
  }

  lemma TrimSpaced(x: string)
    requires IsItem(x)
    ensures Trim(" " + x) == x && Trim(x) == x
  {
    var s := " " + x;
    assert s[0] == ' ' && s[1..] == x;
    assert TrimStart(s) == TrimStart(x) == x;
    TrimResult(x);
  }

  lemma {:induction false} ListOfJoined(items: seq<string>, gap: string)
    requires items != [] && AreItems(items) && (gap == "" || gap == " ")
    ensures ListOf(gap + Join(items, ", ")) == items
  {
    hide Trim;
    var first := gap + items[0];
    TrimSpaced(items[0]);
    assert "" + items[0] == items[0];
    assert Free(first, ',');
    if |items| == 1 {
      assert gap + Join(items, ", ") == first;
      SplitFree(first, ',');
      assert [first][1..] == [];
      assert Compact([first]) == [items[0]] + Compact([]);
      assert items == [items[0]];
    } else {
      assert items == [items[0]] + items[1..];
      var rest := " " + Join(items[1..], ", ");
      assert gap + Join(items, ", ") == first + [','] + rest;
      SplitAtSeparator(first, rest, ',');
      ListOfJoined(items[1..], " ");
      assert ([first] + Split(rest, ','))[1..] == Split(rest, ',');
    }
  }

  lemma {:induction false} JoinedEnds(items: seq<string>)
    requires items != [] && AreItems(items)
    ensures Join(items, ", ") != "" && Trimmed(Join(items, ", "))
  {
    hide IsSpace;
    if |items| > 1 {
      JoinedEnds(items[1..]);
      var s := Join(items, ", ");
      assert s[0] == items[0][0];
      assert s[|s| - 1] == Join(items[1..], ", ")[|Join(items[1..], ", ")| - 1];
    }
  }

  // ------------------------------------------------------------------ the round trip

  predicate CommasAndSpace(s: string) {
    forall k :: 0 <= k < |s| ==> s[k] == ',' || IsSpace(s[k])
  }

  /** A list field filled in with at least one comma, and otherwise with commas and white space. */
  predicate OnlyCommas(field: Field, values: FieldValues) {
    && field.kind == ListField && field.key in values && values[field.key].Str?
    && ',' in values[field.key].s && CommasAndSpace(values[field.key].s)
  }

  predicate AllBlank(parts: seq<string>) {
    forall i :: 0 <= i < |parts| ==> AllSpace(parts[i])
  }

  lemma BlankHead(head: string, tail: seq<string>)
    ensures AllBlank([head] + tail) <==> AllSpace(head) && AllBlank(tail)
  {
    hide AllSpace;
    var all := [head] + tail;
    assert all[0] == head && forall i :: 0 <= i < |tail| ==> all[i + 1] == tail[i];
    assert forall i :: 1 <= i < |all| ==> all[i] == tail[i - 1];
  }

  lemma {:induction false} CompactEmptyExactly(parts: seq<string>)
    ensures Compact(parts) == [] <==> AllBlank(parts)
  {
    hide Trim, AllSpace;
    if parts != [] {
      TrimEmptyExactly(parts[0]);
      CompactEmptyExactly(parts[1..]);
      assert parts == [parts[0]] + parts[1..];
      BlankHead(parts[0], parts[1..]);
    }
  }

  lemma {:induction false} SplitBlankExactly(s: string)
    ensures AllBlank(Split(s, ',')) <==> CommasAndSpace(s)
  {
    hide IsSpace, AllBlank;
    if s == "" {
      BlankHead("", []);
      assert AllBlank([]) && [""] + [] == [""] by {
        NothingBlank();
      }
    } else {
      var rest := Split(s[1..], ',');
      SplitBlankExactly(s[1..]);
      assert s == [s[0]] + s[1..];
      assert CommasAndSpace(s) <==> (s[0] == ',' || IsSpace(s[0])) && CommasAndSpace(s[1..]);
      if s[0] == ',' {
        BlankHead("", rest);
      } else {
        BlankHead([s[0]] + rest[0], rest[1..]);
        BlankHead(rest[0], rest[1..]);
        assert rest == [rest[0]] + rest[1..];
        SpaceHead(s[0], rest[0]);
      }
    }
  }

  lemma NothingBlank()
    ensures AllBlank([])
  {}

  lemma SpaceHead(c: char, s: string)
    ensures AllSpace([c] + s) <==> IsSpace(c) && AllSpace(s)
  {
    hide IsSpace;
    var all := [c] + s;
    assert all[0] == c && forall i :: 0 <= i < |s| ==> all[i + 1] == s[i];
    assert forall i :: 1 <= i < |all| ==> all[i] == s[i - 1];
  }

  lemma CommaIsNoSpace()
    ensures !IsSpace(',')
  {}

  /** A list text yields no item exactly when it holds nothing but commas and white space. */
  lemma NoItemExactly(text: string)
    ensures ListOf(text) == [] <==> CommasAndSpace(text)
  {
    hide AllBlank, Compact, Split, CommasAndSpace;
    CompactEmptyExactly(Split(text, ','));
    SplitBlankExactly(text);
  }

  /** What is filled in has a text and no items exactly when it is commas and white space, with a comma. */
  lemma OnlyCommasExactly(field: Field, values: FieldValues)
    ensures OnlyCommas(field, values) <==>
      && field.kind == ListField
      && TextValue(values, field.key) != "" && ListOf(TextValue(values, field.key)) == []
  {
    hide Trim, IsSpace, ListOf;
    NoItemExactly(TextValue(values, field.key));
    if field.key in values && values[field.key].Str? {
      var s := values[field.key].s;
      TrimResult(s);
      forall c | !IsSpace(c) ensures c in Trim(s) <==> c in s {
        TrimKeeps(s, c);
      }
      CommaIsNoSpace();
      assert CommasAndSpace(s) <==> forall c :: c in s ==> c == ',' || IsSpace(c);
      assert CommasAndSpace(Trim(s)) <==> forall c :: c in Trim(s) ==> c == ',' || IsSpace(c);
      TrimEmptyExactly(s);
    }
  }

  lemma TextValueTrimmed(values: FieldValues, key: string)
    ensures Trimmed(TextValue(values, key)) && Trim(TextValue(values, key)) == TextValue(values, key)
  {
    if key in values && values[key].Str? {
      TrimResult(values[key].s);
    }
    TrimResult(TextValue(values, key));
  }

  /** One field survives the way to the form and back exactly unless it holds only commas. */
  lemma EntryRoundTrip(field: Field, values: FieldValues, scope: Scope, again: FieldValues)
    requires field.key in scope <==> Entry(field, values).Some?
    requires Entry(field, values).Some? ==> scope[field.key] == Entry(field, values).value
    requires field.key in again <==> Fill(field, scope).Some?
    requires Fill(field, scope).Some? ==> again[field.key] == Fill(field, scope).value
    ensures Entry(field, again) == Entry(field, values) <==> !OnlyCommas(field, values)
  {
    hide ListOf, Trim, Trimmed, OnlyCommas;
    OnlyCommasExactly(field, values);
    TextValueTrimmed(values, field.key);
    if field.kind == ListField && TextValue(values, field.key) != "" {
      var items := ListOf(TextValue(values, field.key));
      ListOfItems(TextValue(values, field.key));
      if items != [] {
        JoinedEnds(items);
        TrimResult(Join(items, ", "));
        ListOfJoined(items, "");
        assert "" + Join(items, ", ") == Join(items, ", ");
      } else {
        TrimNothing();
      }
    }
  }

  lemma TrimNothing()
    ensures Trim("") == ""
  {}

  /**
   * Building a scope, filling the form from it and building again gives the same scope exactly when no
   * list field was filled with nothing but commas and spaces.
   */
  lemma ScopeRoundTripExactly(fields: seq<Field>, values: FieldValues)
    requires DistinctKeys(fields)
    ensures var scope := BuildScope(fields, values);
      BuildScope(fields, ScopeToValues(fields, scope)) == scope <==>
        forall i :: 0 <= i < |fields| ==> !OnlyCommas(fields[i], values)
  {
    hide Entry, Fill, OnlyCommas;
    var scope := BuildScope(fields, values);
    var again := ScopeToValues(fields, scope);
    var rebuilt := BuildScope(fields, again);
    BuildScopeAt(fields, values);
    ScopeToValuesAt(fields, scope);
    BuildScopeAt(fields, again);
    forall i | 0 <= i < |fields|
      ensures Entry(fields[i], again) == Entry(fields[i], values) <==> !OnlyCommas(fields[i], values)
    {
      EntryRoundTrip(fields[i], values, scope, again);
    }
    if forall i :: 0 <= i < |fields| ==> !OnlyCommas(fields[i], values) {
      forall k ensures k in rebuilt <==> k in scope {
        if HasKey(fields, k) {
          var i :| 0 <= i < |fields| && fields[i].key == k;
        }
      }
      forall k | k in scope ensures rebuilt[k] == scope[k] {
        var i :| 0 <= i < |fields| && fields[i].key == k;
      }
    }
    if rebuilt == scope {
      forall i | 0 <= i < |fields| ensures !OnlyCommas(fields[i], values) {
        assert fields[i].key in rebuilt <==> fields[i].key in scope;
      }
    }
  }

  /** A list field filled with a single comma does not survive the round trip. */
  lemma SingleCommaIsLost()
    ensures var fields, values := [Field("list", "List", ListField, false)], map["list" := Str(",")];
      var scope := BuildScope(fields, values);
      BuildScope(fields, ScopeToValues(fields, scope)) != scope
  {
    hide BuildScope, ScopeToValues;
    var fields, values := [Field("list", "List", ListField, false)], map["list" := Str(",")];
    assert OnlyCommas(fields[0], values);
    ScopeRoundTripExactly(fields, values);
  }

  // ------------------------------------------------------------------ what is missing

  predicate IsBlankField(field: Field, values: FieldValues) {
    TextValue(values, field.key) == ""
  }

  function MissingTitles(fields: seq<Field>, values: FieldValues): seq<string> {
    if fields == [] then []
    else (if fields[0].required && IsBlankField(fields[0], values) then [fields[0].title] else [])
         + MissingTitles(fields[1..], values)
  }

  function Missing(fields: seq<Field>, values: FieldValues, baseUrlRequired: bool, baseUrl: string): seq<string> {
    (if baseUrlRequired && Trim(baseUrl) == "" then ["Base URL"] else []) + MissingTitles(fields, values)
  }

  /** The titles of the required fields still empty, after the base URL if that is required and empty. */
  method MissingFields(fields: seq<Field>, values: FieldValues, baseUrlRequired: bool, baseUrl: string)
    returns (missing: seq<string>)
    ensures missing == Missing(fields, values, baseUrlRequired, baseUrl)
  {
    hide IsBlankField, Trim;
    missing := [];
    if baseUrlRequired && Trim(baseUrl) == "" {
      missing := missing + ["Base URL"];
    }
    ghost var before := missing;
    assert fields[0..] == fields;
    for i := 0 to |fields|
      invariant missing + MissingTitles(fields[i..], values) == before + MissingTitles(fields, values)
    {
      assert fields[i..][1..] == fields[i + 1..];
      if !fields[i].required {
        continue;
      }
      if IsBlankField(fields[i], values) {
        missing := missing + [fields[i].title];
      }
    }
    assert fields[|fields|..] == [];
    assert missing + [] == missing;
  }

  lemma {:induction false} NothingMissing(fields: seq<Field>, values: FieldValues)
    ensures MissingTitles(fields, values) == [] <==>
      forall i :: 0 <= i < |fields| && fields[i].required ==> !IsBlankField(fields[i], values)
  {
    hide IsBlankField;
    if fields != [] {
      NothingMissing(fields[1..], values);
      assert forall i :: 0 < i < |fields| ==> fields[i] == fields[1..][i - 1];
      assert forall i :: 0 <= i < |fields[1..]| ==> fields[1..][i] == fields[i + 1];
    }
  }

  /** Checkboxes hold booleans, as the form fills them. */
  predicate CheckboxesHoldBooleans(fields: seq<Field>, values: FieldValues) {
    forall i :: 0 <= i < |fields| && fields[i].kind == BooleanField && fields[i].key in values ==>
      values[fields[i].key].Bool?
  }

  /**
   * Nothing is reported exactly when the base URL is there if required, every required field is in the built
   * scope, and no checkbox is required: a required checkbox is always reported, ticked or not.
   */
  lemma NothingMissingExactly(fields: seq<Field>, values: FieldValues, baseUrlRequired: bool, baseUrl: string)
    requires DistinctKeys(fields) && CheckboxesHoldBooleans(fields, values)
    ensures Missing(fields, values, baseUrlRequired, baseUrl) == [] <==>
      && (baseUrlRequired ==> Trim(baseUrl) != "")
      && forall i :: 0 <= i < |fields| && fields[i].required ==>
           fields[i].kind != BooleanField && fields[i].key in BuildScope(fields, values)
  {
    hide ListOf;
    NothingMissing(fields, values);
    BuildScopeAt(fields, values);
    forall i | 0 <= i < |fields| && fields[i].kind != BooleanField
      ensures Entry(fields[i], values).Some? <==> !IsBlankField(fields[i], values)
    {}
  }

  /** The titles reported are exactly those of required fields without a text, each once for each such field. */
  lemma {:induction false} MissingExactly(fields: seq<Field>, values: FieldValues)
    ensures forall t :: t in MissingTitles(fields, values) <==>
      exists i :: 0 <= i < |fields| && fields[i].required && IsBlankField(fields[i], values) && fields[i].title == t
    ensures |MissingTitles(fields, values)| <= |fields|
    ensures (forall i :: 0 <= i < |fields| ==> fields[i].required && IsBlankField(fields[i], values)) ==>
      |MissingTitles(fields, values)| == |fields|
      && forall i :: 0 <= i < |fields| ==> MissingTitles(fields, values)[i] == fields[i].title
  {
    hide IsBlankField;
    if fields != [] {
      var rest := fields[1..];
      MissingExactly(rest, values);
      assert forall i :: 0 < i < |fields| ==> fields[i] == rest[i - 1];
      assert forall i :: 0 <= i < |rest| ==> rest[i] == fields[i + 1];
      forall t ensures t in MissingTitles(fields, values) <==>
        exists i :: 0 <= i < |fields| && fields[i].required && IsBlankField(fields[i], values) && fields[i].title == t
      {
        if t in MissingTitles(rest, values) {
          var i :| 0 <= i < |rest| && rest[i].required && IsBlankField(rest[i], values) && rest[i].title == t;
          assert fields[i + 1] == rest[i];
        }
        if i :| 0 < i < |fields| && fields[i].required && IsBlankField(fields[i], values) && fields[i].title == t {
          assert rest[i - 1] == fields[i];
        }
      }
    }
  }

  /** A field is blank exactly when it has no text, or one of white space alone. */
  lemma BlankExactly(field: Field, values: FieldValues)
    ensures IsBlankField(field, values) <==>
      !(field.key in values && values[field.key].Str? && !AllSpace(values[field.key].s))
  {
    hide Trim, AllSpace;
    if field.key in values && values[field.key].Str? {
      TrimEmptyExactly(values[field.key].s);
    }
  }

  /** A required base URL that is blank is reported first, under its own name. */
  lemma MissingBaseUrl(fields: seq<Field>, values: FieldValues, baseUrlRequired: bool, baseUrl: string)
    ensures Missing(fields, values, baseUrlRequired, baseUrl) ==
      if baseUrlRequired && AllSpace(baseUrl) then ["Base URL"] + MissingTitles(fields, values)
      else MissingTitles(fields, values)
  {
    hide Trim, AllSpace, MissingTitles;
    TrimEmptyExactly(baseUrl);
  }

  /** A required checkbox is reported although it is ticked. */
  lemma TickedCheckboxIsReported()
    ensures Missing([Field("agree", "Agree", BooleanField, true)], map["agree" := Bool(true)], false, "") == ["Agree"]
  {
    hide Trim;
    var field := Field("agree", "Agree", BooleanField, true);
    assert [field][1..] == [];
    assert IsBlankField(field, map["agree" := Bool(true)]);
  }

  // ------------------------------------------------------------------ cadence

  const CADENCES: seq<(string, nat)> := [("3600", 3600), ("21600", 21600), ("86400", 86400), ("604800", 604800)]

  function FindCadence(options: seq<(string, nat)>, seconds: nat): Option<string> {
    if options == [] then None
    else if options[0].1 == seconds then Some(options[0].0)
    else FindCadence(options[1..], seconds)
  }

  function CadenceValue(seconds: Option<nat>): string {
    if seconds.None? then "default" else FindCadence(CADENCES, seconds.value).GetOr(Decimal(seconds.value))
  }

  function CadenceSeconds(value: string): Option<nat> {
    if value == "default" then None
    else if IsNumeral(value) && Number(value) > 0 then Some(Number(value))
    else None
  }

  lemma {:induction false} FoundCadence(options: seq<(string, nat)>, seconds: nat)
    requires forall i :: 0 <= i < |options| ==> IsNumeral(options[i].0) && Number(options[i].0) == options[i].1
    ensures var found := FindCadence(options, seconds);
      found.Some? ==> IsNumeral(found.value) && Number(found.value) == seconds
  {
    hide Number, AllDigits;
    if options != [] {
      FoundCadence(options[1..], seconds);
    }
  }

  lemma NumberSnoc(s: string, c: char, t: string)
    requires IsNumeral(s) && IsDigit(c) && t == s + [c]
    ensures IsNumeral(t) && Number(t) == 10 * Number(s) + DigitValue(c)
  {
    assert t[..|s|] == s;
  }

  lemma NumberOne(c: char, t: string)
    requires IsDigit(c) && t == [c]
    ensures IsNumeral(t) && Number(t) == DigitValue(c)
  {
    assert t[..0] == "";
  }

  lemma HourNumber()
    ensures IsNumeral("3600") && Number("3600") == 3600
  {
    hide Number, AllDigits;
    NumberOne('3', "3");
    NumberSnoc("3", '6', "36");
    NumberSnoc("36", '0', "360");
    NumberSnoc("360", '0', "3600");
  }

  lemma QuarterDayNumber()
    ensures IsNumeral("21600") && Number("21600") == 21600
  {
    hide Number, AllDigits;
    NumberOne('2', "2");
    NumberSnoc("2", '1', "21");
    NumberSnoc("21", '6', "216");
    NumberSnoc("216", '0', "2160");
    NumberSnoc("2160", '0', "21600");
  }

  lemma DayNumber()
    ensures IsNumeral("86400") && Number("86400") == 86400
  {
    hide Number, AllDigits;
    NumberOne('8', "8");
    NumberSnoc("8", '6', "86");
    NumberSnoc("86", '4', "864");
    NumberSnoc("864", '0', "8640");
    NumberSnoc("8640", '0', "86400");
  }

  lemma WeekNumber()
    ensures IsNumeral("604800") && Number("604800") == 604800
  {
    hide Number, AllDigits;
    NumberOne('6', "6");
    NumberSnoc("6", '0', "60");
    NumberSnoc("60", '4', "604");
    NumberSnoc("604", '8', "6048");
    NumberSnoc("6048", '0', "60480");
    NumberSnoc("60480", '0', "604800");
  }

  lemma CadenceNumbers()
    ensures forall i :: 0 <= i < |CADENCES| ==> IsNumeral(CADENCES[i].0) && Number(CADENCES[i].0) == CADENCES[i].1
  {
    hide Number, AllDigits;
    HourNumber();
    QuarterDayNumber();
    DayNumber();
    WeekNumber();
  }

  /** A cadence comes back from its form value exactly unless it is zero seconds. */
  lemma CadenceRoundTripExactly(seconds: Option<nat>)
    ensures CadenceSeconds(CadenceValue(seconds)) == seconds <==> seconds != Some(0)
  {
    hide Number, AllDigits, CADENCES;
    if seconds.Some? {
      CadenceNumbers();
      FoundCadence(CADENCES, seconds.value);
      NumberDecimal(seconds.value);
      DefaultIsNoNumeral();
    }
  }

  lemma DefaultIsNoNumeral()
    ensures !IsNumeral("default")
  {
    assert "default"[0] == 'd' && !IsDigit('d');
  }

  /** A cadence is shown as its number of seconds, and the lack of one as `default`. */
  lemma CadenceShown(seconds: nat)
    ensures CadenceValue(None) == "default" && CadenceSeconds("default") == None
    ensures CadenceValue(Some(seconds)) == Decimal(seconds)
  {
    hide Decimal, Number, AllDigits, CADENCES;
    CadenceTexts();
    FoundText(CADENCES, seconds);
  }

  lemma CadenceTexts()
    ensures forall i :: 0 <= i < |CADENCES| ==> CADENCES[i].0 == Decimal(CADENCES[i].1)
  {
    hide Decimal;
    DecimalOne(3, "3");
    DecimalOne(2, "2");
    DecimalOne(8, "8");
    DecimalOne(6, "6");
    DecimalNext(3, 6, "3", "36");
    DecimalNext(36, 0, "36", "360");
    DecimalNext(360, 0, "360", "3600");
    DecimalNext(2, 1, "2", "21");
    DecimalNext(21, 6, "21", "216");
    DecimalNext(216, 0, "216", "2160");
    DecimalNext(2160, 0, "2160", "21600");
    DecimalNext(8, 6, "8", "86");
    DecimalNext(86, 4, "86", "864");
    DecimalNext(864, 0, "864", "8640");
    DecimalNext(8640, 0, "8640", "86400");
    DecimalNext(6, 0, "6", "60");
    DecimalNext(60, 4, "60", "604");
    DecimalNext(604, 8, "604", "6048");
    DecimalNext(6048, 0, "6048", "60480");
    DecimalNext(60480, 0, "60480", "604800");
  }

  lemma DecimalOne(n: nat, s: string)
    requires n < 10 && s == [Digit(n)]
    ensures Decimal(n) == s
  {}

  lemma DecimalNext(n: nat, d: nat, s: string, t: string)
    requires n > 0 && d < 10 && Decimal(n) == s && t == s + [Digit(d)]
    ensures Decimal(10 * n + d) == t
  {}

  lemma {:induction false} FoundText(options: seq<(string, nat)>, seconds: nat)
    requires forall i :: 0 <= i < |options| ==> options[i].0 == Decimal(options[i].1)
    ensures FindCadence(options, seconds).Some? ==> FindCadence(options, seconds).value == Decimal(seconds)
  {
    hide Decimal;
    if options != [] {
      FoundText(options[1..], seconds);
    }
  }
}
