/** The breaking-changes document: how diffs are classified, and why their order does not matter. */
module BreakingChanges {
  import opened Text
  import opened Wrappers
  import opened Sorting
  import opened Sequences

  // ------------------------------------------------------------------ diffs

  datatype Kind = Added | Removed | Modified | Unchanged

  datatype Item = SchemaItem | PropertyItem

  /** The `nullable` of a schema value: `true`, `false`, or anything else. */
  datatype Nullable = Yes | No | Unspecified

  /** A schema value as the classification sees it; `NotObject` stands for a missing or scalar value. */
  datatype Value = NotObject | Object(nullable: Nullable, enumeration: Option<seq<string>>)

  datatype SchemaDiff = SchemaDiff(kind: Kind, path: string, item: Item,
                                   oldValue: Value, newValue: Value, changes: seq<string>)

  datatype Summary = Summary(added: seq<SchemaDiff>, removed: seq<SchemaDiff>, modified: seq<SchemaDiff>)

  const DOCUMENTATION: set<string> := {"description", "title", "example"}

  // ------------------------------------------------------------------ classification

  function EnumOf(v: Value): Option<seq<string>> {
    if v.Object? then v.enumeration else None
  }

  /** The values of `xs` that `ys` lacks. */
  function Missing(xs: seq<string>, ys: seq<string>): seq<string> {
    if xs == [] then [] else (if xs[0] in ys then [] else [xs[0]]) + Missing(xs[1..], ys)
  }

  datatype EnumChange = Narrow | Widen | Other

  function EnumChangeKind(before: Value, after: Value): EnumChange {
    var o, n := EnumOf(before), EnumOf(after);
    if o.None? || n.None? || |o.value| == 0 then Other
    else
      var lost, gained := Missing(o.value, n.value), Missing(n.value, o.value);
      if lost != [] && gained != [] then Other
      else if lost != [] then Narrow
      else if gained != [] then Widen
      else Other
  }

  predicate NullableBreaking(before: Value, after: Value) {
    before.Object? && after.Object? && before.nullable == Yes && after.nullable == No
  }

  /** Every old enumeration value is still there, and at least one is new. */
  predicate KeepsAndAdds(before: Value, after: Value) {
    && EnumOf(before).Some? && EnumOf(after).Some? && EnumOf(before).value != []
    && (forall x :: x in EnumOf(before).value ==> x in EnumOf(after).value)
    && (exists x :: x in EnumOf(after).value && x !in EnumOf(before).value)
  }

  lemma {:induction false} MissingMeaning(xs: seq<string>, ys: seq<string>)
    ensures Missing(xs, ys) == [] <==> forall x :: x in xs ==> x in ys
  {
    if xs != [] {
      MissingMeaning(xs[1..], ys);
    }
  }

  /** An enumeration change is a widening exactly when it keeps every old value and adds one. */
  lemma WidenExactly(before: Value, after: Value)
    ensures EnumChangeKind(before, after) == Widen <==> KeepsAndAdds(before, after)
  {
    if EnumOf(before).Some? && EnumOf(after).Some? {
      MissingMeaning(EnumOf(before).value, EnumOf(after).value);
      MissingMeaning(EnumOf(after).value, EnumOf(before).value);
    }
  }

  datatype Class = Breaking | NotBreaking

  method ClassifyModifiedSchema(d: SchemaDiff) returns (c: Class)
    ensures c == SchemaClass(d)
  {
    if |d.changes| == 0 {
      return NotBreaking;
    }
    if forall i | 0 <= i < |d.changes| :: d.changes[i] == "description" {
      return NotBreaking;
    }
    return Breaking;
  }

  /** A modified schema is breaking exactly when something other than its description changed. */
  function SchemaClass(d: SchemaDiff): Class {
    if exists i :: 0 <= i < |d.changes| && d.changes[i] != "description" then Breaking else NotBreaking
  }

  /** A changed key that breaks no consumer. */
  predicate Harmless(d: SchemaDiff, key: string) {
    || key in DOCUMENTATION
    || (key == "nullable" && !NullableBreaking(d.oldValue, d.newValue))
    || (key == "enum" && KeepsAndAdds(d.oldValue, d.newValue))
  }

  /**
   * A modified property is breaking exactly when some changed key is not documentation, not a nullability
   * change other than from true to false, and not an enumeration change that keeps all values and adds one.
   */
  function PropertyClass(d: SchemaDiff): Class {
    if exists i :: 0 <= i < |d.changes| && !Harmless(d, d.changes[i]) then Breaking else NotBreaking
  }

  predicate AllDocumentation(keys: seq<string>) {
    forall i :: 0 <= i < |keys| ==> keys[i] in DOCUMENTATION
  }

  function Without(keys: seq<string>, key: string): seq<string> {
    if keys == [] then [] else (if keys[0] == key then [] else [keys[0]]) + Without(keys[1..], key)
  }

  lemma {:induction false} WithoutMembers(keys: seq<string>, key: string)
    ensures forall k :: k in Without(keys, key) <==> k in keys && k != key
  {
    if keys != [] {
      WithoutMembers(keys[1..], key);
    }
  }

  lemma EnumIsNotDocumentation()
    ensures "enum" !in DOCUMENTATION && "nullable" !in DOCUMENTATION && "enum" != "nullable"
  {
    assert "enum"[0] == 'e' && "nullable"[0] == 'n' && "title"[0] == 't' && "description"[0] == 'd';
    assert |"example"| == 7 && |"enum"| == 4;
  }

  /** Classify a modified property: early returns for the known cases, then a loop over the keys. */
  method ClassifyModifiedProperty(d: SchemaDiff) returns (c: Class)
    ensures c == PropertyClass(d)
  {
    hide DOCUMENTATION, KeepsAndAdds, EnumChangeKind, NullableBreaking;
    EnumIsNotDocumentation();
    WidenExactly(d.oldValue, d.newValue);
    var changes := d.changes;
    if |changes| == 0 {
      return NotBreaking;
    }
    if AllDocumentation(changes) {
      return NotBreaking;
    }
    var nullBreaks := NullableBreaking(d.oldValue, d.newValue);
    if "nullable" in changes && nullBreaks {
      return Breaking;
    }
    if "enum" in changes {
      var kind := EnumChangeKind(d.oldValue, d.newValue);
      var rest := Without(changes, "enum");
      WithoutMembers(changes, "enum");
      if kind == Widen && AllDocumentation(rest) {
        forall i | 0 <= i < |changes| ensures Harmless(d, changes[i]) {
          if changes[i] != "enum" {
            assert changes[i] in rest;
          }
        }
        return NotBreaking;
      }
      if kind == Narrow {
        return Breaking;
      }
    }
    for i := 0 to |changes|
      invariant forall j :: 0 <= j < i ==> changes[j] == "enum" || Harmless(d, changes[j])
    {
      var key := changes[i];
      if key == "enum" || key in DOCUMENTATION || (key == "nullable" && !nullBreaks) {
        continue;
      }
      return Breaking;
    }
    if "enum" in changes {
      return if EnumChangeKind(d.oldValue, d.newValue) == Widen then NotBreaking else Breaking;
    }
    return NotBreaking;
  }

  /**
   * A change of documentation, nullability and enumeration that is not classed as breaking still accepts
   * every old enumeration value and does not turn a nullable property into one that is not.
   */
  lemma NotBreakingKeepsContract(d: SchemaDiff)
    requires PropertyClass(d) == NotBreaking
    ensures "enum" in d.changes ==> forall x :: x in EnumOf(d.oldValue).GetOr([]) ==> x in EnumOf(d.newValue).GetOr([])
    ensures "nullable" in d.changes ==> !NullableBreaking(d.oldValue, d.newValue)
  {
    EnumIsNotDocumentation();
    forall k | k in d.changes ensures Harmless(d, k) {
      var i :| 0 <= i < |d.changes| && d.changes[i] == k;
    }
  }

  // ------------------------------------------------------------------ redundancy

  /** The class of a property path `schemas.<class>.properties.…`. */
  function ClassOf(path: string): Option<string> {
    if !("schemas." <= path) then None
    else
      var rest := path[8..];
      var i := IndexOf(rest, '.');
      if i > 0 && ".properties." <= rest[i..] then Some(rest[..i]) else None
  }

  /** The schema's own addition or removal is in the same bucket. */
  predicate AnnouncesClass(x: SchemaDiff, kind: Kind, className: string) {
    x.item == SchemaItem && x.kind == kind && x.path == "schemas." + className
  }

  predicate IsRedundant(d: SchemaDiff, kind: Kind, bucket: set<SchemaDiff>) {
    && d.item == PropertyItem && d.kind == kind && ClassOf(d.path).Some?
    && exists x :: x in bucket && AnnouncesClass(x, kind, ClassOf(d.path).value)
  }

  // ------------------------------------------------------------------ bullets

  datatype Category = BreakingBullet | AdditionBullet | OtherBullet

  datatype Bullet = Bullet(stableId: string, text: string, category: Category)

  function StableId(path: string): string {
    "components." + path
  }

  function BulletFor(d: SchemaDiff, category: Category, line: SchemaDiff -> string): Bullet {
    Bullet(StableId(d.path), "`" + StableId(d.path) + "` — " + line(d), category)
  }

  function CategoryOf(c: Class): Category {
    if c == Breaking then BreakingBullet else OtherBullet
  }

  function Elements(s: seq<SchemaDiff>): set<SchemaDiff> {
    set d | d in s
  }

  function AddedOrRemoved(kind: Kind, category: Category, bucket: set<SchemaDiff>, line: SchemaDiff -> string)
    : SchemaDiff -> seq<Bullet>
  {
    (d: SchemaDiff) => if IsRedundant(d, kind, bucket) then [] else [BulletFor(d, category, line)]
  }

  function ModifiedBullet(line: SchemaDiff -> string): SchemaDiff -> seq<Bullet> {
    (d: SchemaDiff) => [BulletOfModified(d, line)]
  }

  /** The bullets of a summary, in the order in which they are found. */
  function Found(summary: Summary, line: SchemaDiff -> string): seq<Bullet> {
    Flat(AddedOrRemoved(Removed, BreakingBullet, Elements(summary.removed), line), summary.removed)
    + Flat(AddedOrRemoved(Added, AdditionBullet, Elements(summary.added), line), summary.added)
    + Flat(ModifiedBullet(line), summary.modified)
  }

  /** The order of bullets: by identifier, then by text. */
  predicate BulletLeq(a: Bullet, b: Bullet) {
    if a.stableId != b.stableId then LexLeq(a.stableId, b.stableId) else LexLeq(a.text, b.text)
  }

  /** The bullets of a summary, sorted. */
  function Bullets(summary: Summary, line: SchemaDiff -> string): seq<Bullet> {
    Sort(Found(summary, line), BulletLeq)
  }

  method BuildBreakingChangesBullets(summary: Summary, line: SchemaDiff -> string) returns (out: seq<Bullet>)
    ensures out == Bullets(summary, line)
  {
    hide IsRedundant, BulletFor, PropertyClass, SchemaClass;
    out := [];
    ghost var fr := AddedOrRemoved(Removed, BreakingBullet, Elements(summary.removed), line);
    for i := 0 to |summary.removed|
      invariant out == Flat(fr, summary.removed[..i])
    {
      FlatNext(fr, summary.removed, i);
      if !IsRedundant(summary.removed[i], Removed, Elements(summary.removed)) {
        out := out + [BulletFor(summary.removed[i], BreakingBullet, line)];
      }
    }
    assert summary.removed[..|summary.removed|] == summary.removed;
    ghost var fa := AddedOrRemoved(Added, AdditionBullet, Elements(summary.added), line);
    ghost var before := out;
    for i := 0 to |summary.added|
      invariant out == before + Flat(fa, summary.added[..i])
    {
      FlatNext(fa, summary.added, i);
      if !IsRedundant(summary.added[i], Added, Elements(summary.added)) {
        out := out + [BulletFor(summary.added[i], AdditionBullet, line)];
      }
    }
    assert summary.added[..|summary.added|] == summary.added;
    before := out;
    for i := 0 to |summary.modified|
      invariant out == before + Flat(ModifiedBullet(line), summary.modified[..i])
    {
      FlatNext(ModifiedBullet(line), summary.modified, i);
      var d := summary.modified[i];
      var verdict := NotBreaking;
      if d.item == SchemaItem {
        verdict := ClassifyModifiedSchema(d);
      } else {
        verdict := ClassifyModifiedProperty(d);
      }
      out := out + [BulletFor(d, CategoryOf(verdict), line)];
    }
    assert summary.modified[..|summary.modified|] == summary.modified;
    out := Sort(out, BulletLeq);
  }

  lemma FlatNext(f: SchemaDiff -> seq<Bullet>, s: seq<SchemaDiff>, i: nat)
    requires i < |s|
    ensures Flat(f, s[..i + 1]) == Flat(f, s[..i]) + f(s[i])
  {
    assert s[..i + 1] == s[..i] + [s[i]];
    FlatConcat(f, s[..i], [s[i]]);
    assert Flat(f, [s[i]]) == f(s[i]) + [];
  }

  // ------------------------------------------------------------------ what the bullets cover

  lemma BulletLeqIsPreorder()
    ensures TotalPreorder(BulletLeq)
  {
    LexIsTotalOrder();
    hide LexLeq;
  }

  lemma FoundOnceSorted(summary: Summary, line: SchemaDiff -> string)
    ensures multiset(Bullets(summary, line)) == multiset(Found(summary, line))
    ensures Sorted(Bullets(summary, line), BulletLeq)
  {
    hide BulletLeq, Found;
    BulletLeqIsPreorder();
    SortSorts(Found(summary, line), BulletLeq);
  }

  /** How many of the diffs of a bucket are not redundant. */
  function Kept(ds: seq<SchemaDiff>, kind: Kind, bucket: set<SchemaDiff>): nat {
    if ds == [] then 0 else (if IsRedundant(ds[0], kind, bucket) then 0 else 1) + Kept(ds[1..], kind, bucket)
  }

  lemma {:induction false} KeptCounts(ds: seq<SchemaDiff>, kind: Kind, category: Category, bucket: set<SchemaDiff>,
      line: SchemaDiff -> string)
    ensures |Flat(AddedOrRemoved(kind, category, bucket, line), ds)| == Kept(ds, kind, bucket)
  {
    hide IsRedundant, BulletFor;
    if ds != [] {
      KeptCounts(ds[1..], kind, category, bucket, line);
    }
  }

  /** The bullet that a modification gets. */
  function BulletOfModified(d: SchemaDiff, line: SchemaDiff -> string): Bullet {
    BulletFor(d, CategoryOf(if d.item == SchemaItem then SchemaClass(d) else PropertyClass(d)), line)
  }

  /** How many kept diffs of a bucket have the bullet `b`. */
  function KeptWith(ds: seq<SchemaDiff>, kind: Kind, bucket: set<SchemaDiff>, category: Category,
      line: SchemaDiff -> string, b: Bullet): nat
  {
    if ds == [] then 0
    else (if !IsRedundant(ds[0], kind, bucket) && BulletFor(ds[0], category, line) == b then 1 else 0)
         + KeptWith(ds[1..], kind, bucket, category, line, b)
  }

  /** How many modifications have the bullet `b`. */
  function ModifiedWith(ds: seq<SchemaDiff>, line: SchemaDiff -> string, b: Bullet): nat {
    if ds == [] then 0 else (if BulletOfModified(ds[0], line) == b then 1 else 0) + ModifiedWith(ds[1..], line, b)
  }

  /** How often the bullet `b` is due: once for each diff that has it and is not redundant. */
  function TimesDue(summary: Summary, line: SchemaDiff -> string, b: Bullet): nat {
    KeptWith(summary.removed, Removed, Elements(summary.removed), BreakingBullet, line, b)
    + KeptWith(summary.added, Added, Elements(summary.added), AdditionBullet, line, b)
    + ModifiedWith(summary.modified, line, b)
  }

  lemma {:induction false} KeptWithCounts(ds: seq<SchemaDiff>, kind: Kind, bucket: set<SchemaDiff>, category: Category,
      line: SchemaDiff -> string, b: Bullet)
    ensures multiset(Flat(AddedOrRemoved(kind, category, bucket, line), ds))[b]
         == KeptWith(ds, kind, bucket, category, line, b)
  {
    hide IsRedundant, BulletFor;
    if ds != [] {
      KeptWithCounts(ds[1..], kind, bucket, category, line, b);
    }
  }

  lemma {:induction false} ModifiedWithCounts(ds: seq<SchemaDiff>, line: SchemaDiff -> string, b: Bullet)
    ensures multiset(Flat(ModifiedBullet(line), ds))[b] == ModifiedWith(ds, line, b)
  {
    hide BulletFor, PropertyClass, SchemaClass;
    if ds != [] {
      ModifiedWithCounts(ds[1..], line, b);
    }
  }

  /**
   * Every bullet is in the document exactly as often as there are removals and additions that have it and are
   * not announced by their own class, and modifications that have it: none is lost, doubled or made up.
   */
  lemma OneBulletPerDiff(summary: Summary, line: SchemaDiff -> string)
    ensures |Bullets(summary, line)| == Kept(summary.removed, Removed, Elements(summary.removed))
                                        + Kept(summary.added, Added, Elements(summary.added)) + |summary.modified|
    ensures forall b :: multiset(Bullets(summary, line))[b] == TimesDue(summary, line, b)
  {
    hide IsRedundant, BulletFor, PropertyClass, SchemaClass, Sort;
    var bullets, found := Bullets(summary, line), Found(summary, line);
    FoundOnceSorted(summary, line);
    assert |bullets| == |multiset(found)| == |found|;
    KeptCounts(summary.removed, Removed, BreakingBullet, Elements(summary.removed), line);
    KeptCounts(summary.added, Added, AdditionBullet, Elements(summary.added), line);
    FlatLength(ModifiedBullet(line), summary.modified, 1);
    forall b ensures multiset(bullets)[b] == TimesDue(summary, line, b) {
      KeptWithCounts(summary.removed, Removed, Elements(summary.removed), BreakingBullet, line, b);
      KeptWithCounts(summary.added, Added, Elements(summary.added), AdditionBullet, line, b);
      ModifiedWithCounts(summary.modified, line, b);
    }
  }

  lemma {:induction false} KeptHasBullet(ds: seq<SchemaDiff>, kind: Kind, bucket: set<SchemaDiff>, category: Category,
      line: SchemaDiff -> string, d: SchemaDiff)
    requires d in ds && !IsRedundant(d, kind, bucket)
    ensures KeptWith(ds, kind, bucket, category, line, BulletFor(d, category, line)) > 0
  {
    hide IsRedundant, BulletFor;
    if d != ds[0] {
      KeptHasBullet(ds[1..], kind, bucket, category, line, d);
    }
  }

  lemma {:induction false} ModifiedHasBullet(ds: seq<SchemaDiff>, line: SchemaDiff -> string, d: SchemaDiff)
    requires d in ds
    ensures ModifiedWith(ds, line, BulletOfModified(d, line)) > 0
  {
    hide BulletOfModified;
    if d != ds[0] {
      ModifiedHasBullet(ds[1..], line, d);
    }
  }

  /** Each removal and addition that is not redundant, and each modification, has its bullet in the document. */
  lemma EveryDiffIsCovered(summary: Summary, line: SchemaDiff -> string, d: SchemaDiff)
    ensures d in summary.removed && !IsRedundant(d, Removed, Elements(summary.removed)) ==>
      BulletFor(d, BreakingBullet, line) in Bullets(summary, line)
    ensures d in summary.added && !IsRedundant(d, Added, Elements(summary.added)) ==>
      BulletFor(d, AdditionBullet, line) in Bullets(summary, line)
    ensures d in summary.modified ==> BulletOfModified(d, line) in Bullets(summary, line)
  {
    hide IsRedundant, BulletFor, BulletOfModified, Bullets, KeptWith, ModifiedWith;
    OneBulletPerDiff(summary, line);
    if d in summary.removed && !IsRedundant(d, Removed, Elements(summary.removed)) {
      KeptHasBullet(summary.removed, Removed, Elements(summary.removed), BreakingBullet, line, d);
      assert BulletFor(d, BreakingBullet, line) in multiset(Bullets(summary, line));
    }
    if d in summary.added && !IsRedundant(d, Added, Elements(summary.added)) {
      KeptHasBullet(summary.added, Added, Elements(summary.added), AdditionBullet, line, d);
      assert BulletFor(d, AdditionBullet, line) in multiset(Bullets(summary, line));
    }
    if d in summary.modified {
      ModifiedHasBullet(summary.modified, line, d);
      assert BulletOfModified(d, line) in multiset(Bullets(summary, line));
    }
  }

  /** A removal left out as redundant is covered by the bullet of its class's removal. */
  lemma RedundantRemovalIsAnnounced(summary: Summary, line: SchemaDiff -> string, d: SchemaDiff)
    requires d in summary.removed && IsRedundant(d, Removed, Elements(summary.removed))
    ensures exists b :: (b in Bullets(summary, line) && b.category == BreakingBullet
                         && b.stableId == StableId("schemas." + ClassOf(d.path).value))
  {
    hide Bullets, SchemaClass, PropertyClass;
    var bucket := Elements(summary.removed);
    var x :| x in bucket && AnnouncesClass(x, Removed, ClassOf(d.path).value);
    EveryDiffIsCovered(summary, line, x);
    assert x in summary.removed && !IsRedundant(x, Removed, bucket);
    assert BulletFor(x, BreakingBullet, line) in Bullets(summary, line);
  }

  // ------------------------------------------------------------------ the document

  function Texts(bullets: seq<Bullet>, category: Category): seq<string> {
    if bullets == [] then []
    else (if bullets[0].category == category then [bullets[0].text] else []) + Texts(bullets[1..], category)
  }

  function Items(texts: seq<string>): seq<string> {
    if texts == [] then [] else ["- " + texts[0], ""] + Items(texts[1..])
  }

  function SectionLines(texts: seq<string>): seq<string> {
    if texts == [] then ["_None._", ""] else Items(texts)
  }

  function Header(base: string, target: string): seq<string> {
    ["<!-- apiome-breaking-changes v1 -->", "", "# Schema changes (generated)", "",
     "**Range:** " + base + " → " + target, "", "**Template:** `apiome-breaking-changes` v1", "", "## Breaking", ""]
  }

  function DropNewlines(s: string): string {
    if s != "" && s[|s| - 1] == '\n' then DropNewlines(s[..|s| - 1]) else s
  }

  /** `replace(/\n+$/, "\n")`. */
  function OneFinalNewline(s: string): string {
    if DropNewlines(s) == s then s else DropNewlines(s) + "\n"
  }

  /** The document for given bullets. */
  function Document(bullets: seq<Bullet>, base: string, target: string): string {
    OneFinalNewline(Join(
      Header(base, target) + SectionLines(Texts(bullets, BreakingBullet))
      + ["## Additions", ""] + SectionLines(Texts(bullets, AdditionBullet))
      + ["## Other", ""] + SectionLines(Texts(bullets, OtherBullet)), "\n"))
  }

  /** The lines of one section, pushed one by one. */
  method PushSection(lines: seq<string>, texts: seq<string>) returns (r: seq<string>)
    ensures r == lines + SectionLines(texts)
  {
    if |texts| == 0 {
      return lines + ["_None._", ""];
    }
    r := lines;
    assert texts[0..] == texts;
    for i := 0 to |texts|
      invariant r + Items(texts[i..]) == lines + Items(texts)
    {
      assert texts[i..][1..] == texts[i + 1..];
      assert r + ["- " + texts[i], ""] + Items(texts[i + 1..]) == r + Items(texts[i..]);
      r := r + ["- " + texts[i], ""];
    }
    assert texts[|texts|..] == [];
    assert r + [] == r;
  }

  method GenerateMarkdown(summary: Summary, line: SchemaDiff -> string, base: string, target: string)
    returns (markdown: string)
    ensures markdown == Document(Bullets(summary, line), base, target)
  {
    hide Bullets, SectionLines, Join, OneFinalNewline;
    var bullets := BuildBreakingChangesBullets(summary, line);
    var lines := Header(base, target);
    lines := PushSection(lines, Texts(bullets, BreakingBullet));
    lines := PushSection(lines + ["## Additions", ""], Texts(bullets, AdditionBullet));
    lines := PushSection(lines + ["## Other", ""], Texts(bullets, OtherBullet));
    markdown := OneFinalNewline(Join(lines, "\n"));
  }

  // ------------------------------------------------------------------ order does not matter

  function OfCategory(bullets: seq<Bullet>, category: Category): seq<Bullet> {
    if bullets == [] then []
    else (if bullets[0].category == category then [bullets[0]] else []) + OfCategory(bullets[1..], category)
  }

  lemma {:induction false} OfCategoryCounts(bullets: seq<Bullet>, category: Category, b: Bullet)
    ensures multiset(OfCategory(bullets, category))[b] == if b.category == category then multiset(bullets)[b] else 0
  {
    if bullets != [] {
      OfCategoryCounts(bullets[1..], category, b);
      assert bullets == [bullets[0]] + bullets[1..];
    }
  }

  /** Bullet order made total: of two bullets that print alike the category decides. */
  predicate StrictLeq(a: Bullet, b: Bullet) {
    if a.stableId != b.stableId || a.text != b.text then BulletLeq(a, b) else Rank(a.category) <= Rank(b.category)
  }

  function Rank(c: Category): nat {
    match c
    case BreakingBullet => 0
    case AdditionBullet => 1
    case OtherBullet => 2
  }

  lemma StrictLeqAntisymmetric()
    ensures Antisymmetric(StrictLeq)
  {
    LexIsTotalOrder();
    hide LexLeq;
  }

  lemma {:induction false} OfCategorySorted(bullets: seq<Bullet>, category: Category)
    requires Sorted(bullets, BulletLeq)
    ensures Sorted(OfCategory(bullets, category), StrictLeq)
    ensures forall i :: 0 <= i < |OfCategory(bullets, category)| ==>
      OfCategory(bullets, category)[i].category == category
    ensures forall b :: b in OfCategory(bullets, category) ==> b in bullets
  {
    hide BulletLeq;
    if bullets != [] {
      OfCategorySorted(bullets[1..], category);
      var rest := OfCategory(bullets[1..], category);
      if bullets[0].category == category {
        forall j | 0 <= j < |rest| ensures StrictLeq(bullets[0], rest[j]) {
          assert rest[j] in bullets[1..];
        }
      }
    }
  }

  lemma {:induction false} TextsOf(bullets: seq<Bullet>, category: Category)
    ensures Texts(bullets, category) == Texts(OfCategory(bullets, category), category)
  {
    if bullets != [] {
      TextsOf(bullets[1..], category);
      if bullets[0].category == category {
        assert OfCategory(bullets, category)[1..] == OfCategory(bullets[1..], category);
      } else {
        assert OfCategory(bullets, category) == OfCategory(bullets[1..], category);
      }
    }
  }

  /** Sorted bullets with the same elements print the same texts in each category. */
  lemma SortedTextsAgree(a: seq<Bullet>, b: seq<Bullet>, category: Category)
    requires Sorted(a, BulletLeq) && Sorted(b, BulletLeq) && multiset(a) == multiset(b)
    ensures Texts(a, category) == Texts(b, category)
  {
    hide BulletLeq, StrictLeq;
    OfCategorySorted(a, category);
    OfCategorySorted(b, category);
    forall x ensures multiset(OfCategory(a, category))[x] == multiset(OfCategory(b, category))[x] {
      OfCategoryCounts(a, category, x);
      OfCategoryCounts(b, category, x);
    }
    assert multiset(OfCategory(a, category)) == multiset(OfCategory(b, category));
    StrictLeqAntisymmetric();
    SortedUnique(OfCategory(a, category), OfCategory(b, category), StrictLeq);
    TextsOf(a, category);
    TextsOf(b, category);
  }

  lemma FoundPermutes(s: Summary, t: Summary, line: SchemaDiff -> string)
    requires multiset(s.removed) == multiset(t.removed)
    requires multiset(s.added) == multiset(t.added)
    requires multiset(s.modified) == multiset(t.modified)
    ensures multiset(Found(s, line)) == multiset(Found(t, line))
  {
    hide AddedOrRemoved, ModifiedBullet;
    SameElements(s.removed, t.removed);
    SameElements(s.added, t.added);
    FlatPermutes(AddedOrRemoved(Removed, BreakingBullet, Elements(s.removed), line), s.removed, t.removed);
    FlatPermutes(AddedOrRemoved(Added, AdditionBullet, Elements(s.added), line), s.added, t.added);
    FlatPermutes(ModifiedBullet(line), s.modified, t.modified);
  }

  lemma SameElements(s: seq<SchemaDiff>, t: seq<SchemaDiff>)
    requires multiset(s) == multiset(t)
    ensures Elements(s) == Elements(t)
  {
    forall d ensures d in s <==> d in t {
      assert d in s <==> d in multiset(s);
      assert d in t <==> d in multiset(t);
    }
  }

  /**
   * The document depends only on which diffs there are and how often: reordering the additions, the
   * removals or the modifications leaves every character as it is.
   */
  lemma DocumentIgnoresOrder(s: Summary, t: Summary, line: SchemaDiff -> string, base: string, target: string)
    requires multiset(s.removed) == multiset(t.removed)
    requires multiset(s.added) == multiset(t.added)
    requires multiset(s.modified) == multiset(t.modified)
    ensures Document(Bullets(s, line), base, target) == Document(Bullets(t, line), base, target)
  {
    hide Bullets, Found, BulletLeq, Join, OneFinalNewline, SectionLines, Header;
    FoundPermutes(s, t, line);
    FoundOnceSorted(s, line);
    FoundOnceSorted(t, line);
    SortedTextsAgree(Bullets(s, line), Bullets(t, line), BreakingBullet);
    SortedTextsAgree(Bullets(s, line), Bullets(t, line), AdditionBullet);
    SortedTextsAgree(Bullets(s, line), Bullets(t, line), OtherBullet);
  }
}
