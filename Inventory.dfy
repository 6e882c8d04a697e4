/** The inventory records of `ComponentManager` (script.js) and the pure
    queries the class computes over its `components` array: the low-stock
    count of `updateStats`, the search filter of `handleSearch`, the index
    lookup of `getOriginalIndex` and the seed data of `getDefaultData`. */
module Inventory {
  import opened Seqs
  import opened Text

  /** One inventory entry, with the fields in the order `handleSubmit` builds them. */
  datatype Component = Component(
    name: string,
    category: string,
    partNumber: string,
    location: string,
    package: string,
    parameters: string,
    stock: int,
    datasheet: string)

  type Collection = seq<Component>

  /** The two records `getDefaultData` seeds an empty store with. */
  function DefaultData(): (cs: Collection)
    ensures |cs| == 2
    ensures forall i :: 0 <= i < |cs| ==> cs[i].datasheet == ""
  {
    [ Component("AMS1117-3.3", "线性稳压器(LDO)", "C347223", "1", "SOT-223",
                "输出电压5V，输出电流1A，耐压12V", 10, ""),
      Component("APH25201DT2K2M", "功率电感", "C5349606", "2", "1008",
                "电感值2.2uH，额定电流2.1A，饱和电流3A，精度±20%", 5, "") ]
  }

  /** Records below this stock level are flagged (the table row and the counter). */
  const LowStockThreshold := 5

  predicate IsLowStock(c: Component) {
    c.stock < LowStockThreshold
  }

  /** `this.components.filter(c => c.stock < 5)`. */
  function LowStock(cs: Collection): Collection
  {
    Filter(cs, IsLowStock)
  }

  /** The counter `updateStats` writes: the number of low-stock records. */
  function LowStockCount(cs: Collection): nat
  {
    |LowStock(cs)|
  }

  /** The low-stock list holds every record whose stock is below five, as
      often as it occurs, and nothing else, in the original order; so the
      counter never exceeds the total `updateStats` shows beside it. */
  lemma LowStockExact(cs: Collection, c: Component)
    ensures multiset(LowStock(cs))[c] == if c.stock < 5 then multiset(cs)[c] else 0
    ensures IsSubsequence(LowStock(cs), cs)
    ensures LowStockCount(cs) <= |cs|
  {
    FilterMultiplicity(cs, IsLowStock, c);
    FilterIsSubsequence(cs, IsLowStock);
  }

  /** The threshold is strict: four is low, five is not; neither seed record is low. */
  lemma LowStockBoundary(c: Component)
    ensures LowStockCount([c.(stock := 4)]) == 1
    ensures LowStockCount([c.(stock := 5)]) == 0
    ensures LowStockCount(DefaultData()) == 0
  {
    assert [c.(stock := 4)][1..] == [];
    assert [c.(stock := 5)][1..] == [];
    var d := DefaultData();
    assert d[1..][1..] == [];
  }

  /** The match of `handleSearch`: the lower-cased query occurs in the name,
      the category, the part number or the parameters (not the location,
      package or datasheet). The query is used as typed, untrimmed. */
  predicate Matches(c: Component, query: string) {
    var q := Lower(query);
    Contains(Lower(c.name), q) || Contains(Lower(c.category), q)
    || Contains(Lower(c.partNumber), q) || Contains(Lower(c.parameters), q)
  }

  /** What the table shows: the whole collection (`renderTable()` with no
      argument), or a filtered list (`renderTable(filtered)`). */
  datatype View = All | Filtered(shown: Collection)

  /** `handleSearch(query)`: a query that `trim()`s to nothing shows every
      record; any other query shows the records that match it. */
  function Search(cs: Collection, query: string): View
  {
    if Trim(query) == "" then All else Filtered(Filter(cs, c => Matches(c, query)))
  }

  /** The rows a view puts on screen. */
  function Rows(cs: Collection, v: View): Collection
  {
    match v
    case All => cs
    case Filtered(shown) => shown
  }

  /** A whitespace-only query shows the full list, and a query that is not
      whitespace-only shows a sub-list. */
  lemma SearchBlankShowsAll(cs: Collection, query: string)
    ensures Search(cs, query) == All <==> AllWhitespace(query)
    ensures AllWhitespace(query) ==> Rows(cs, Search(cs, query)) == cs
  {
    TrimEmptyIff(query);
  }

  /** A non-blank query shows exactly the matching records, each as often as
      it occurs and in the original order. */
  lemma SearchShowsMatches(cs: Collection, query: string, c: Component)
    requires !AllWhitespace(query)
    ensures Search(cs, query).Filtered?
    ensures IsSubsequence(Rows(cs, Search(cs, query)), cs)
    ensures multiset(Rows(cs, Search(cs, query)))[c] == if Matches(c, query) then multiset(cs)[c] else 0
  {
    TrimEmptyIff(query);
    var p := (x: Component) => Matches(x, query);
    FilterIsSubsequence(cs, p);
    FilterMultiplicity(cs, p, c);
  }

  /** `indexOf` on the collection: the first position holding `c`, or -1. */
  function IndexOf(cs: Collection, c: Component): (r: int)
    ensures -1 <= r < |cs|
    ensures r == -1 <==> c !in cs
    ensures r >= 0 ==> cs[r] == c && forall j :: 0 <= j < r ==> cs[j] != c
  {
    if cs == [] then -1
    else if cs[0] == c then 0
    else var k := IndexOf(cs[1..], c); if k == -1 then -1 else k + 1
  }

  /** The natural key: two records are taken for the same record when their
      name and part number agree. */
  predicate SameKey(a: Component, b: Component) {
    a.name == b.name && a.partNumber == b.partNumber
  }

  /** `findIndex` by natural key: the first position whose record has the
      key of `c`, or -1 if there is none. */
  function FindByKey(cs: Collection, c: Component): (r: int)
    ensures -1 <= r < |cs|
    ensures r == -1 <==> forall j :: 0 <= j < |cs| ==> !SameKey(cs[j], c)
    ensures r >= 0 ==> SameKey(cs[r], c) && forall j :: 0 <= j < r ==> !SameKey(cs[j], c)
  {
    if cs == [] then -1
    else if SameKey(cs[0], c) then 0
    else var k := FindByKey(cs[1..], c); if k == -1 then -1 else k + 1
  }

  /** `getOriginalIndex(component, filteredComponents)`: the position in the
      collection that a table row's buttons act on. Unfiltered, the row's own
      position by `indexOf`; filtered, the position found by natural key. */
  function OriginalIndex(cs: Collection, c: Component, filtered: bool): int
  {
    if filtered then FindByKey(cs, c) else IndexOf(cs, c)
  }

  /** A record that is in the collection resolves to a valid position no
      later than its own, holding a record with the same natural key. */
  lemma OriginalIndexBounds(cs: Collection, k: int, filtered: bool)
    requires 0 <= k < |cs|
    ensures 0 <= OriginalIndex(cs, cs[k], filtered) <= k
    ensures SameKey(cs[OriginalIndex(cs, cs[k], filtered)], cs[k])
  {
    if !filtered {
      assert cs[k] in cs;
    }
  }

  /** No two records share a natural key. */
  predicate UniqueKeys(cs: Collection) {
    forall i, j :: 0 <= i < j < |cs| ==> !SameKey(cs[i], cs[j])
  }

  /** With unique natural keys, every row of a filtered table resolves to its
      record's true position, so edit and delete act on the row clicked. */
  lemma FilteredRowResolves(cs: Collection, query: string, k: int)
    requires UniqueKeys(cs)
    requires Search(cs, query).Filtered? && 0 <= k < |Search(cs, query).shown|
    ensures var row := Search(cs, query).shown[k];
            var r := OriginalIndex(cs, row, true);
            0 <= r < |cs| && cs[r] == row
  {
    var p := (x: Component) => Matches(x, query);
    var shown := Search(cs, query).shown;
    assert shown == Filter(cs, p);
    var row := shown[k];
    assert row in shown;
    FilterMembership(cs, p, row);
    var i :| 0 <= i < |cs| && cs[i] == row;
    var r := FindByKey(cs, row);
    assert 0 <= r <= i && SameKey(cs[r], cs[i]);
    KeyedPositionUnique(cs, r, i);
  }

  /** Under unique keys, one natural key sits at no more than one position. */
  lemma KeyedPositionUnique(cs: Collection, i: int, j: int)
    requires UniqueKeys(cs)
    requires 0 <= i <= j < |cs| && SameKey(cs[i], cs[j])
    ensures i == j
  {
  }

  /** When a record shares its natural key with an earlier one, a filtered
      row showing it resolves to the earlier record instead: editing or
      deleting it from a search result acts on the wrong record. */
  lemma DuplicateKeyResolvesToFirst(cs: Collection, i: int, k: int)
    requires 0 <= i < k < |cs| && SameKey(cs[i], cs[k])
    ensures 0 <= OriginalIndex(cs, cs[k], true) <= i < k
  {
  }
}
