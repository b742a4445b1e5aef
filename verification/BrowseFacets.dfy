/** The paradigm and format facets of the directory: the chips on offer, and the list they narrow. */
module BrowseFacets {
  import opened Sorting
  import opened Text
  import opened Wrappers

  datatype Axis = Paradigm | Format

  /** A row of the directory; an absent list reads as an empty one. */
  datatype Entity = Entity(name: string, protocols: Option<seq<string>>, formats: Option<seq<string>>)

  datatype Selection = Selection(paradigm: Option<string>, format: Option<string>) {
    function On(axis: Axis): Option<string> {
      if axis == Paradigm then paradigm else format
    }
  }

  datatype FacetOption = FacetOption(value: string, count: nat)

  function Only(axis: Axis, value: string): Selection {
    if axis == Paradigm then Selection(Some(value), None) else Selection(None, Some(value))
  }

  // ------------------------------------------------------------------ values

  /** A value trimmed and in lower case; absent when nothing is left. */
  function Normalize(value: Option<string>): Option<string> {
    var token := Lower(Trim(value.GetOr("")));
    if token == "" then None else Some(token)
  }

  lemma NormalizeTwice(value: Option<string>)
    ensures Normalize(Normalize(value)) == Normalize(value)
  {
    hide IsSpace;
    var trimmed := Trim(value.GetOr(""));
    var token := Lower(trimmed);
    TrimResult(value.GetOr(""));
    if token != "" {
      LowerKeepsSpace(trimmed[0]);
      LowerKeepsSpace(trimmed[|trimmed| - 1]);
      TrimResult(token);
      assert Lower(token) == token;
    }
  }

  lemma LowerKeepsSpace(c: char)
    ensures IsSpace(LowerChar(c)) == IsSpace(c)
  {}

  function Add(values: seq<string>, value: string): seq<string> {
    if value in values then values else values + [value]
  }

  function AddToken(values: seq<string>, value: Option<string>): seq<string> {
    if value.None? then values else Add(values, value.value)
  }

  /** The normalised values of a raw list, each once, where it first occurs. */
  function Tokens(raw: seq<string>): seq<string> {
    if raw == [] then [] else AddToken(Tokens(raw[..|raw| - 1]), Normalize(Some(raw[|raw| - 1])))
  }

  function Raw(entity: Entity, axis: Axis): seq<string> {
    (if axis == Paradigm then entity.protocols else entity.formats).GetOr([])
  }

  function EntityValues(entity: Entity, axis: Axis): seq<string> {
    Tokens(Raw(entity, axis))
  }

  method CollectEntityValues(entity: Entity, axis: Axis) returns (seen: seq<string>)
    ensures seen == EntityValues(entity, axis)
  {
    hide Normalize;
    var raw := Raw(entity, axis);
    seen := [];
    for i := 0 to |raw|
      invariant seen == Tokens(raw[..i])
    {
      assert raw[..i + 1][..i] == raw[..i];
      var token := Normalize(Some(raw[i]));
      if token.Some? && token.value !in seen {
        seen := seen + [token.value];
      }
    }
    assert raw[..|raw|] == raw;
  }

  predicate Distinct(values: seq<string>) {
    forall i, j :: 0 <= i < j < |values| ==> values[i] != values[j]
  }

  /** An entity carries exactly the normalised forms of its raw values, each listed once. */
  lemma {:induction false} TokensExactly(raw: seq<string>)
    ensures Distinct(Tokens(raw))
    ensures forall t :: t in Tokens(raw) <==> exists v :: v in raw && Normalize(Some(v)) == Some(t)
    ensures forall t :: t in Tokens(raw) ==> Normalize(Some(t)) == Some(t)
  {
    hide Normalize;
    if raw != [] {
      var n := |raw| - 1;
      var front, last := raw[..n], raw[n];
      TokensExactly(front);
      NormalizeTwice(Some(last));
      assert raw == front + [last];
      forall t ensures t in Tokens(raw) <==> exists v :: v in raw && Normalize(Some(v)) == Some(t) {
        if t in Tokens(raw) && t in Tokens(front) {
          var v :| v in front && Normalize(Some(v)) == Some(t);
          assert v in raw;
        } else if t in Tokens(raw) {
          assert last in raw && Normalize(Some(last)) == Some(t);
        }
      }
    }
  }

  // ------------------------------------------------------------------ narrowing

  predicate Carries(entity: Entity, axis: Axis, value: string) {
    value in EntityValues(entity, axis)
  }

  predicate Matches(entity: Entity, paradigm: Option<string>, format: Option<string>) {
    && (paradigm.Some? ==> Carries(entity, Paradigm, paradigm.value))
    && (format.Some? ==> Carries(entity, Format, format.value))
  }

  function FilterByFacets(entities: seq<Entity>, selection: Selection): seq<Entity> {
    var paradigm, format := Normalize(selection.paradigm), Normalize(selection.format);
    if paradigm.None? && format.None? then entities
    else Filter(entities, (e: Entity) => Matches(e, paradigm, format))
  }

  lemma {:induction false} FilterFilter<T>(s: seq<T>, p: T -> bool, q: T -> bool, both: T -> bool)
    requires forall x :: x in s ==> (both(x) <==> p(x) && q(x))
    ensures Filter(Filter(s, p), q) == Filter(s, both)
  {
    if s != [] {
      FilterFilter(s[1..], p, q, both);
      if p(s[0]) {
        assert ([s[0]] + Filter(s[1..], p))[1..] == Filter(s[1..], p);
      } else {
        assert [] + Filter(s[1..], p) == Filter(s[1..], p);
      }
    }
  }

  /** With no facet or with some, the list narrowed is the list of the matching entities. */
  lemma FilterIsMatches(entities: seq<Entity>, selection: Selection)
    ensures FilterByFacets(entities, selection)
      == Filter(entities, (e: Entity) => Matches(e, Normalize(selection.paradigm), Normalize(selection.format)))
  {
    hide Normalize, Carries;
    var keep := (e: Entity) => Matches(e, Normalize(selection.paradigm), Normalize(selection.format));
    var paradigm, format := Normalize(selection.paradigm), Normalize(selection.format);
    if paradigm.None? && format.None? {
      FilterAll(entities, keep);
    } else {
      FilterSame(entities, (e: Entity) => Matches(e, paradigm, format), keep);
    }
  }

  /** Narrowing on one axis and then on the other, in either order, is narrowing on both at once. */
  lemma FacetsCompose(entities: seq<Entity>, paradigm: Option<string>, format: Option<string>)
    ensures FilterByFacets(FilterByFacets(entities, Selection(paradigm, None)), Selection(None, format))
      == FilterByFacets(entities, Selection(paradigm, format))
    ensures FilterByFacets(FilterByFacets(entities, Selection(None, format)), Selection(paradigm, None))
      == FilterByFacets(entities, Selection(paradigm, format))
  {
    assert Normalize(None) == None;
    hide Normalize, Carries;
    var p, f := Selection(paradigm, None), Selection(None, format);
    var both := Selection(paradigm, format);
    var keepP := (e: Entity) => Matches(e, Normalize(paradigm), Normalize(None));
    var keepF := (e: Entity) => Matches(e, Normalize(None), Normalize(format));
    var keep := (e: Entity) => Matches(e, Normalize(paradigm), Normalize(format));
    KeptBy(entities, p, keepP);
    KeptBy(entities, f, keepF);
    KeptBy(entities, both, keep);
    KeptBy(FilterByFacets(entities, p), f, keepF);
    KeptBy(FilterByFacets(entities, f), p, keepP);
    FilterFilter(entities, keepP, keepF, keep);
    FilterFilter(entities, keepF, keepP, keep);
  }

  lemma KeptBy(entities: seq<Entity>, selection: Selection, keep: Entity -> bool)
    requires forall e :: e in entities ==>
      (keep(e) <==> Matches(e, Normalize(selection.paradigm), Normalize(selection.format)))
    ensures FilterByFacets(entities, selection) == Filter(entities, keep)
  {
    hide Normalize, Matches;
    FilterIsMatches(entities, selection);
    FilterSame(entities, (e: Entity) => Matches(e, Normalize(selection.paradigm), Normalize(selection.format)), keep);
  }

  // ------------------------------------------------------------------ the chips on offer

  function AddAll(keys: seq<string>, values: seq<string>): seq<string> {
    if values == [] then keys else Add(AddAll(keys, values[..|values| - 1]), values[|values| - 1])
  }

  /** Every value the entities carry on the axis, where it first occurs. */
  function Keys(entities: seq<Entity>, axis: Axis): seq<string> {
    if entities == [] then []
    else AddAll(Keys(entities[..|entities| - 1], axis), EntityValues(entities[|entities| - 1], axis))
  }

  /** How many entities carry the value. */
  function Count(entities: seq<Entity>, axis: Axis, value: string): nat {
    if entities == [] then 0
    else
      var n := |entities| - 1;
      Count(entities[..n], axis, value) + if Carries(entities[n], axis, value) then 1 else 0
  }

  /** The rank of a paradigm in the canonical list; the unknown ones come after it. */
  function Rank(paradigms: seq<string>, value: string): nat {
    if paradigms == [] || paradigms[0] == value then 0 else 1 + Rank(paradigms[1..], value)
  }

  /** How chips are ordered: paradigms by rank, formats by falling count, equals by `locale`. */
  function ChipOrder(axis: Axis, paradigms: seq<string>, locale: (string, string) -> bool)
    : (FacetOption, FacetOption) -> bool
  {
    if axis == Paradigm then
      (a: FacetOption, b: FacetOption) =>
        var ra, rb := Rank(paradigms, a.value), Rank(paradigms, b.value);
        ra < rb || (ra == rb && locale(a.value, b.value))
    else
      (a: FacetOption, b: FacetOption) => a.count > b.count || (a.count == b.count && locale(a.value, b.value))
  }

  function Chips(entities: seq<Entity>, axis: Axis): seq<FacetOption> {
    var keys := Keys(entities, axis);
    seq(|keys|, i requires 0 <= i < |keys| => FacetOption(keys[i], Count(entities, axis, keys[i])))
  }

  function FacetOptions(entities: seq<Entity>, axis: Axis, paradigms: seq<string>, locale: (string, string) -> bool)
    : seq<FacetOption>
  {
    Sort(Chips(entities, axis), ChipOrder(axis, paradigms, locale))
  }

  lemma {:induction false} AddAllHolds(keys: seq<string>, values: seq<string>)
    ensures forall v :: v in AddAll(keys, values) <==> v in keys || v in values
    ensures Distinct(keys) ==> Distinct(AddAll(keys, values))
  {
    if values != [] {
      AddAllHolds(keys, values[..|values| - 1]);
      assert values == values[..|values| - 1] + [values[|values| - 1]];
    }
  }

  lemma {:induction false} KeysExactly(entities: seq<Entity>, axis: Axis)
    ensures Distinct(Keys(entities, axis))
    ensures forall v :: v in Keys(entities, axis) <==> Count(entities, axis, v) > 0
  {
    hide EntityValues;
    if entities != [] {
      var n := |entities| - 1;
      KeysExactly(entities[..n], axis);
      AddAllHolds(Keys(entities[..n], axis), EntityValues(entities[n], axis));
    }
  }

  /** Whether the running counts are those of the keys so far. */
  ghost predicate Counted(keys: seq<string>, counts: map<string, nat>, entities: seq<Entity>, axis: Axis,
      more: seq<string>)
  {
    && counts.Keys == (set k | k in keys)
    && forall k :: k in keys ==> counts[k] == Count(entities, axis, k) + if k in more then 1 else 0
  }

  /** Counting one more of an entity's values, not seen on it before. */
  lemma CountedStep(keys: seq<string>, counts: map<string, nat>, entities: seq<Entity>, axis: Axis,
      more: seq<string>, value: string)
    requires Counted(keys, counts, entities, axis, more) && value !in more
    requires value !in keys ==> Count(entities, axis, value) == 0
    ensures Counted(Add(keys, value), counts[value := (if value in counts then counts[value] else 0) + 1],
                    entities, axis, more + [value])
  {
    hide Count;
    assert value in counts <==> value in keys;
  }

  lemma CountNext(had: seq<string>, counts: map<string, nat>, entities: seq<Entity>, axis: Axis,
      values: seq<string>, j: nat)
    requires had == Keys(entities, axis) && Distinct(values) && j < |values|
    requires Counted(AddAll(had, values[..j]), counts, entities, axis, values[..j])
    ensures var value := values[j];
      && AddAll(had, values[..j + 1]) == Add(AddAll(had, values[..j]), value)
      && Counted(AddAll(had, values[..j + 1]), counts[value := (if value in counts then counts[value] else 0) + 1],
                 entities, axis, values[..j + 1])
  {
    hide Count, Counted, Keys;
    KeysExactly(entities, axis);
    AddAllHolds(had, values[..j]);
    assert values[..j + 1][..j] == values[..j];
    assert values[..j + 1] == values[..j] + [values[j]];
    CountedStep(AddAll(had, values[..j]), counts, entities, axis, values[..j], values[j]);
  }

  /** Count one more entity under each of its values. */
  method CountEntity(entities: seq<Entity>, entity: Entity, axis: Axis, had: seq<string>, before: map<string, nat>)
    returns (keys: seq<string>, counts: map<string, nat>)
    requires had == Keys(entities, axis) && Counted(had, before, entities, axis, [])
    ensures keys == AddAll(had, EntityValues(entity, axis))
    ensures Counted(keys, counts, entities, axis, EntityValues(entity, axis))
  {
    TokensExactly(Raw(entity, axis));
    assert Distinct(EntityValues(entity, axis)) && AddAll(had, []) == had;
    hide EntityValues, Count, Keys, Counted, Add, AddAll, Tokens, Distinct;
    var values := CollectEntityValues(entity, axis);
    keys, counts := had, before;
    assert values[..0] == [];
    for j := 0 to |values|
      invariant keys == AddAll(had, values[..j])
      invariant Counted(keys, counts, entities, axis, values[..j])
    {
      CountNext(had, counts, entities, axis, values, j);
      var value := values[j];
      counts := counts[value := (if value in counts then counts[value] else 0) + 1];
      keys := Add(keys, value);
    }
    assert values[..|values|] == values;
  }

  lemma CountedNext(keys: seq<string>, counts: map<string, nat>, entities: seq<Entity>, entity: Entity, axis: Axis)
    requires Counted(keys, counts, entities, axis, EntityValues(entity, axis))
    ensures Counted(keys, counts, entities + [entity], axis, [])
  {
    hide EntityValues;
    assert (entities + [entity])[..|entities|] == entities;
  }

  /** Count the entities per value. */
  method CountValues(entities: seq<Entity>, axis: Axis) returns (keys: seq<string>, counts: map<string, nat>)
    ensures keys == Keys(entities, axis)
    ensures Counted(keys, counts, entities, axis, [])
  {
    keys, counts := [], map[];
    assert Counted(keys, counts, entities[..0], axis, []);
    hide EntityValues, Count, Counted, AddAll;
    for i := 0 to |entities|
      invariant keys == Keys(entities[..i], axis)
      invariant Counted(keys, counts, entities[..i], axis, [])
    {
      keys, counts := CountEntity(entities[..i], entities[i], axis, keys, counts);
      CountedNext(keys, counts, entities[..i], entities[i], axis);
      assert entities[..i + 1] == entities[..i] + [entities[i]];
      assert entities[..i + 1][..i] == entities[..i];
    }
    assert entities[..|entities|] == entities;
  }

  /** The chips of one axis, counted over all entities and sorted. */
  method ComputeFacetOptions(entities: seq<Entity>, axis: Axis, paradigms: seq<string>,
      locale: (string, string) -> bool)
    returns (options: seq<FacetOption>)
    ensures options == FacetOptions(entities, axis, paradigms, locale)
  {
    hide Keys, Count;
    var keys, counts := CountValues(entities, axis);
    options := seq(|keys|, i requires 0 <= i < |keys| => FacetOption(keys[i], counts[keys[i]]));
    assert options == Chips(entities, axis);
    options := Sort(options, ChipOrder(axis, paradigms, locale));
  }

  lemma {:induction false} CountIsFilterLength(entities: seq<Entity>, axis: Axis, value: string)
    ensures Count(entities, axis, value) == |Filter(entities, (e: Entity) => Carries(e, axis, value))|
  {
    hide Carries;
    if entities != [] {
      var n := |entities| - 1;
      var keep := (e: Entity) => Carries(e, axis, value);
      CountIsFilterLength(entities[..n], axis, value);
      FilterSame(entities[..n], (e: Entity) => Carries(e, axis, value), keep);
      FilterSame(entities, (e: Entity) => Carries(e, axis, value), keep);
      assert entities == entities[..n] + [entities[n]];
      FilterSnoc(entities[..n], entities[n], keep);
    }
  }

  /** A chip shows how long the list becomes when it alone is chosen. */
  lemma CountIsListLength(entities: seq<Entity>, axis: Axis, value: string)
    requires Normalize(Some(value)) == Some(value)
    ensures Count(entities, axis, value) == |FilterByFacets(entities, Only(axis, value))|
  {
    assert Normalize(None) == None;
    hide Normalize, Carries;
    CountIsFilterLength(entities, axis, value);
    var keep := (e: Entity) => Carries(e, axis, value);
    FilterSame(entities, (e: Entity) => Carries(e, axis, value), keep);
    KeptBy(entities, Only(axis, value), keep);
  }

  lemma {:induction false} KeysNormal(entities: seq<Entity>, axis: Axis)
    ensures forall v :: v in Keys(entities, axis) ==> Normalize(Some(v)) == Some(v)
  {
    hide Normalize, Tokens;
    if entities != [] {
      var n := |entities| - 1;
      KeysNormal(entities[..n], axis);
      AddAllHolds(Keys(entities[..n], axis), EntityValues(entities[n], axis));
      TokensExactly(Raw(entities[n], axis));
    }
  }

  lemma ChipOrderIsPreorder(axis: Axis, paradigms: seq<string>, locale: (string, string) -> bool)
    requires TotalPreorder(locale)
    ensures TotalPreorder(ChipOrder(axis, paradigms, locale))
  {
    hide Rank;
    var leq := ChipOrder(axis, paradigms, locale);
    forall a, b, c ensures leq(a, b) || leq(b, a) ensures leq(a, b) && leq(b, c) ==> leq(a, c) {
      ChipOrderOf(axis, paradigms, locale, a, b);
      ChipOrderOf(axis, paradigms, locale, b, a);
      ChipOrderOf(axis, paradigms, locale, b, c);
      ChipOrderOf(axis, paradigms, locale, a, c);
    }
  }

  lemma ChipOrderOf(axis: Axis, paradigms: seq<string>, locale: (string, string) -> bool,
      a: FacetOption, b: FacetOption)
    ensures ChipOrder(axis, paradigms, locale)(a, b) <==>
      if axis == Paradigm then
        Rank(paradigms, a.value) < Rank(paradigms, b.value)
        || (Rank(paradigms, a.value) == Rank(paradigms, b.value) && locale(a.value, b.value))
      else a.count > b.count || (a.count == b.count && locale(a.value, b.value))
  {}

  predicate Offered(options: seq<FacetOption>, value: string) {
    exists i :: 0 <= i < |options| && options[i].value == value
  }

  lemma {:induction false} SameValues(s: seq<FacetOption>, t: seq<FacetOption>)
    requires multiset(s) == multiset(t)
    requires forall i, j :: 0 <= i < j < |s| ==> s[i].value != s[j].value
    ensures forall i, j :: 0 <= i < j < |t| ==> t[i].value != t[j].value
  {
    forall i, j | 0 <= i < j < |t| ensures t[i].value != t[j].value {
      if t[i].value == t[j].value {
        assert t[i] in multiset(s) && t[j] in multiset(s);
        var k :| 0 <= k < |s| && s[k] == t[i];
        var l :| 0 <= l < |s| && s[l] == t[j];
        assert k == l;
        SeenTwice(t, i, j);
        assert multiset(s)[s[k]] >= 2;
        SeenOnce(s, k);
      }
    }
  }

  lemma SeenTwice<T>(s: seq<T>, i: nat, j: nat)
    requires i < j < |s| && s[i] == s[j]
    ensures multiset(s)[s[i]] >= 2
  {
    assert s == s[..i + 1] + s[i + 1..];
    assert s[..i + 1] == s[..i] + [s[i]];
    assert s[j] in s[i + 1..];
  }

  lemma SeenOnce<T>(s: seq<T>, k: nat)
    requires k < |s|
    requires forall i :: 0 <= i < |s| && i != k ==> s[i] != s[k]
    ensures multiset(s)[s[k]] == 1
  {
    assert s == s[..k] + [s[k]] + s[k + 1..];
    assert s[k] !in s[..k] && s[k] !in s[k + 1..];
  }

  /**
   * The chips of an axis are exactly the values that leave a list when chosen: each is offered once, with the
   * length of that list, in the order of the axis.
   */
  lemma OptionsAgreeWithFilter(entities: seq<Entity>, axis: Axis, paradigms: seq<string>,
      locale: (string, string) -> bool)
    requires TotalPreorder(locale)
    ensures var options := FacetOptions(entities, axis, paradigms, locale);
      && (forall i, j :: 0 <= i < j < |options| ==> options[i].value != options[j].value)
      && (forall i :: 0 <= i < |options| ==>
        options[i].count == |FilterByFacets(entities, Only(axis, options[i].value))|)
      && (forall v :: Offered(options, v) <==>
        Normalize(Some(v)) == Some(v) && FilterByFacets(entities, Only(axis, v)) != [])
      && Sorted(options, ChipOrder(axis, paradigms, locale))
  {
    hide Normalize, Keys, Count, FilterByFacets, Sort, Rank;
    var options := FacetOptions(entities, axis, paradigms, locale);
    var chips, keys := Chips(entities, axis), Keys(entities, axis);
    ChipOrderIsPreorder(axis, paradigms, locale);
    SortSorts(chips, ChipOrder(axis, paradigms, locale));
    KeysExactly(entities, axis);
    KeysNormal(entities, axis);
    SameValues(chips, options);
    forall i | 0 <= i < |options|
      ensures options[i].value in keys && options[i].count == |FilterByFacets(entities, Only(axis, options[i].value))|
    {
      assert options[i] in multiset(chips);
      var k :| 0 <= k < |chips| && chips[k] == options[i];
      assert options[i].value == keys[k];
      CountIsListLength(entities, axis, keys[k]);
    }
    forall v ensures Offered(options, v) <==>
      Normalize(Some(v)) == Some(v) && FilterByFacets(entities, Only(axis, v)) != []
    {
      if Normalize(Some(v)) == Some(v) {
        CountIsListLength(entities, axis, v);
      }
      if v in keys {
        var k :| 0 <= k < |keys| && keys[k] == v;
        assert chips[k] in multiset(options);
        assert chips[k] in options;
      }
    }
  }

  // ------------------------------------------------------------------ clicking

  /** Clicking the chosen value clears its axis; any other value replaces it. */
  function Toggle(selection: Selection, axis: Axis, value: Option<string>): Selection {
    var next, current := Normalize(value), Normalize(selection.On(axis));
    var resolved := if next.Some? && next == current then None else next;
    if axis == Paradigm then selection.(paradigm := resolved) else selection.(format := resolved)
  }

  /**
   * Two clicks on the same chip bring back the list there was exactly when nothing, or that very value, was
   * chosen on the axis before; the other axis is never touched.
   */
  lemma ToggleTwiceExactly(selection: Selection, axis: Axis, value: string)
    ensures var again := Toggle(Toggle(selection, axis, Some(value)), axis, Some(value));
      Normalize(again.On(axis)) == Normalize(selection.On(axis)) <==>
        Normalize(selection.On(axis)).None? || Normalize(selection.On(axis)) == Normalize(Some(value))
    ensures forall other :: other != axis ==> Toggle(selection, axis, Some(value)).On(other) == selection.On(other)
  {
    assert Normalize(None) == None;
    NormalizeTwice(Some(value));
    NormalizeTwice(selection.On(axis));
    hide Normalize;
  }

  /**
   * Clicking a chip that is not the chosen one shows at most as many entries as it says, and exactly as many when
   * nothing at all was chosen.
   */
  lemma ChipCountBounds(entities: seq<Entity>, selection: Selection, axis: Axis, value: string)
    requires Normalize(Some(value)) == Some(value) && Normalize(selection.On(axis)) != Some(value)
    ensures |FilterByFacets(entities, Toggle(selection, axis, Some(value)))| <= Count(entities, axis, value)
    ensures Normalize(selection.paradigm).None? && Normalize(selection.format).None? ==>
      |FilterByFacets(entities, Toggle(selection, axis, Some(value)))| == Count(entities, axis, value)
  {
    CountIsListLength(entities, axis, value);
    var clicked := Toggle(selection, axis, Some(value));
    FacetsCompose(entities, clicked.paradigm, clicked.format);
    var one := FilterByFacets(entities, Only(axis, value));
    var other := if axis == Paradigm then Selection(None, clicked.format) else Selection(clicked.paradigm, None);
    assert FilterByFacets(one, other) == FilterByFacets(entities, clicked);
    hide Normalize, Matches;
    FilterIsMatches(one, other);
    FilterShrinks(one, (e: Entity) => Matches(e, Normalize(other.paradigm), Normalize(other.format)));
  }

  lemma {:induction false} FilterShrinks<T>(s: seq<T>, keep: T -> bool)
    ensures |Filter(s, keep)| <= |s|
  {
    if s != [] {
      FilterShrinks(s[1..], keep);
    }
  }

  // ------------------------------------------------------------------ what the facets mean

  /** Every ASCII letter in upper case. */
  function Upper(s: string): string {
    seq(|s|, i requires 0 <= i < |s| => if 'a' <= s[i] <= 'z' then (s[i] as int - 32) as char else s[i])
  }

  lemma {:induction false} TrimAround(before: string, s: string, after: string)
    requires AllSpace(before) && AllSpace(after) && Trimmed(s) && s != ""
    ensures Trim(before + s + after) == s
  {
    hide IsSpace;
    TrimStartAround(before, s + after);
    assert before + s + after == before + (s + after);
    TrimEndAround(s, after);
  }

  lemma {:induction false} TrimStartAround(before: string, s: string)
    requires AllSpace(before) && s != "" && !IsSpace(s[0])
    ensures TrimStart(before + s) == s
  {
    hide IsSpace;
    if before == "" {
      assert before + s == s;
    } else {
      assert (before + s)[1..] == before[1..] + s;
      TrimStartAround(before[1..], s);
    }
  }

  lemma {:induction false} TrimEndAround(s: string, after: string)
    requires AllSpace(after) && s != "" && !IsSpace(s[|s| - 1])
    ensures TrimEnd(s + after) == s
  {
    hide IsSpace;
    if after == "" {
      assert s + after == s;
    } else {
      var t := s + after;
      assert t[..|t| - 1] == s + after[..|after| - 1] && t[|t| - 1] == after[|after| - 1];
      TrimEndAround(s, after[..|after| - 1]);
    }
  }

  /**
   * White space around a value and the case of its ASCII letters do not matter; a value in lower case with no
   * white space around it is its own normal form; and nothing but white space is no value.
   */
  lemma NormalizeExactly(before: string, s: string, after: string)
    requires AllSpace(before) && AllSpace(after) && Trimmed(s)
    ensures Normalize(Some(before + s + after)) == Normalize(Some(s))
    ensures Normalize(Some(Upper(s))) == Normalize(Some(s))
    ensures s != "" && (forall i :: 0 <= i < |s| ==> !('A' <= s[i] <= 'Z')) ==> Normalize(Some(s)) == Some(s)
    ensures Normalize(Some(s)) == None <==> s == ""
    ensures Normalize(None) == None
  {
    hide IsSpace, Trim, TrimStart, TrimEnd;
    var upper := Upper(s);
    if s == "" {
      assert AllSpace(before + s + after) && AllSpace("");
      TrimEmptyExactly(before + s + after);
      TrimEmptyExactly("");
      assert upper == "";
    } else {
      TrimAround(before, s, after);
      TrimResult(s);
      UpperKeepsSpace(s[0]);
      UpperKeepsSpace(s[|s| - 1]);
      assert Trimmed(upper);
      TrimResult(upper);
      assert Lower(upper) == Lower(s);
      if forall i :: 0 <= i < |s| ==> !('A' <= s[i] <= 'Z') {
        assert Lower(s) == s;
      }
    }
    TrimEmptyExactly("");
  }

  lemma UpperKeepsSpace(c: char)
    ensures IsSpace(if 'a' <= c <= 'z' then (c as int - 32) as char else c) == IsSpace(c)
  {}

  /** The entity lists a value that normalises to `token`; paradigms are its protocols. */
  predicate Lists(entity: Entity, axis: Axis, token: string) {
    var values := if axis == Paradigm then entity.protocols else entity.formats;
    values.Some? && exists v :: v in values.value && Normalize(Some(v)) == Some(token)
  }

  lemma CarriesExactly(entity: Entity, axis: Axis, token: string)
    ensures Carries(entity, axis, token) <==> Lists(entity, axis, token)
  {
    hide Normalize, Tokens;
    var raw := Raw(entity, axis);
    TokensExactly(raw);
    var values := if axis == Paradigm then entity.protocols else entity.formats;
    assert raw == if values.Some? then values.value else [];
  }

  /** The chosen values, if any, are both listed by the entity. */
  predicate Fits(entity: Entity, selection: Selection) {
    && (Normalize(selection.paradigm).Some? ==> Lists(entity, Paradigm, Normalize(selection.paradigm).value))
    && (Normalize(selection.format).Some? ==> Lists(entity, Format, Normalize(selection.format).value))
  }

  /** The narrowed list holds exactly the entities that fit, each as often as before, in the same order. */
  lemma FilterExactly(entities: seq<Entity>, selection: Selection)
    ensures forall e ::
      multiset(FilterByFacets(entities, selection))[e] == (if Fits(e, selection) then multiset(entities)[e] else 0)
    ensures (forall e :: e in entities ==> Fits(e, selection)) ==> FilterByFacets(entities, selection) == entities
  {
    hide Normalize, Lists, Carries, FilterByFacets;
    forall e: Entity, axis: Axis, token: string ensures Carries(e, axis, token) <==> Lists(e, axis, token) {
      CarriesExactly(e, axis, token);
    }
    FilterIsMatches(entities, selection);
    var keep := (e: Entity) => Matches(e, Normalize(selection.paradigm), Normalize(selection.format));
    KeptBy(entities, selection, keep);
    var result := FilterByFacets(entities, selection);
    forall e ensures multiset(result)[e] == (if Fits(e, selection) then multiset(entities)[e] else 0)
    {
      FilterCounts(entities, keep, e);
    }
    if forall e :: e in entities ==> Fits(e, selection) {
      FilterAll(entities, keep);
    }
  }

  /** Narrowing a list in two pieces and joining the results is narrowing the whole: the order is kept. */
  lemma FilterKeepsOrder(a: seq<Entity>, b: seq<Entity>, selection: Selection)
    ensures FilterByFacets(a + b, selection) == FilterByFacets(a, selection) + FilterByFacets(b, selection)
  {
    hide Normalize, Matches, FilterByFacets;
    var keep := (e: Entity) => Matches(e, Normalize(selection.paradigm), Normalize(selection.format));
    KeptBy(a, selection, keep);
    KeptBy(b, selection, keep);
    KeptBy(a + b, selection, keep);
    FilterConcat(a, b, keep);
  }

  /** Formats come by falling count, and paradigms by their place in the canonical list, the unknown ones last. */
  lemma OptionsInOrder(entities: seq<Entity>, paradigms: seq<string>, locale: (string, string) -> bool,
      i: nat, j: nat)
    requires TotalPreorder(locale)
    ensures var options := FacetOptions(entities, Format, paradigms, locale);
      i < j < |options| ==>
        && options[i].count >= options[j].count
        && (options[i].count == options[j].count ==> locale(options[i].value, options[j].value))
    ensures var options := FacetOptions(entities, Paradigm, paradigms, locale);
      i < j < |options| ==>
        && (options[j].value in paradigms ==> options[i].value in paradigms)
        && (options[i].value !in paradigms && options[j].value !in paradigms ==>
              locale(options[i].value, options[j].value))
        && forall l :: 0 <= l < |paradigms| && paradigms[l] == options[j].value ==>
             exists m :: 0 <= m <= l && paradigms[m] == options[i].value
  {
    hide Rank, Chips, Normalize;
    var formats := FacetOptions(entities, Format, paradigms, locale);
    var named := FacetOptions(entities, Paradigm, paradigms, locale);
    ChipOrderIsPreorder(Format, paradigms, locale);
    ChipOrderIsPreorder(Paradigm, paradigms, locale);
    SortSorts(Chips(entities, Format), ChipOrder(Format, paradigms, locale));
    SortSorts(Chips(entities, Paradigm), ChipOrder(Paradigm, paradigms, locale));
    if i < j < |formats| {
      ChipOrderOf(Format, paradigms, locale, formats[i], formats[j]);
    }
    if i < j < |named| {
      ChipOrderOf(Paradigm, paradigms, locale, named[i], named[j]);
      RankExactly(paradigms, named[i].value);
      RankExactly(paradigms, named[j].value);
    }
  }

  /** The rank of a value is where the list first has it, or the length of the list. */
  lemma {:induction false} RankExactly(paradigms: seq<string>, value: string)
    ensures Rank(paradigms, value) <= |paradigms|
    ensures Rank(paradigms, value) < |paradigms| <==> value in paradigms
    ensures value in paradigms ==> paradigms[Rank(paradigms, value)] == value
    ensures forall k :: 0 <= k < Rank(paradigms, value) ==> paradigms[k] != value
  {
    if paradigms != [] && paradigms[0] != value {
      RankExactly(paradigms[1..], value);
      assert paradigms == [paradigms[0]] + paradigms[1..];
    }
  }
}
