/**
 * The dashboard grid: the markers that have a range entry, grouped into
 * sections by the entry's category, sections in order of first appearance
 * and markers in their original order within each section.
 */
module DashboardGrid {
  import opened Options
  import opened JsArray
  import opened JsRecord
  import opened Ranges

  /** `{ key, value, def }` for a marker whose key has a range entry. */
  datatype Item = Item(key: string, value: real, def: RangeDef)

  function ItemOf(e: (string, real), ranges: seq<RangeDef>): Option<Item> {
    match FindRange(ranges, e.0)
    case None => None
    case Some(d) => Some(Item(e.0, e.1, d))
  }

  /** `Object.entries(data.markers).map(...).filter(m => m.def)`. */
  function KnownItems(markers: Record<real>, ranges: seq<RangeDef>): seq<Item> {
    MapNonNull(markers, (e: (string, real)) => ItemOf(e, ranges))
  }

  /** The kept items are exactly the markers whose key has a range entry, with that entry. */
  lemma KnownItemsMembers(markers: Record<real>, ranges: seq<RangeDef>, it: Item)
    ensures it in KnownItems(markers, ranges) <==>
      (exists i :: 0 <= i < |markers| && markers[i] == (it.key, it.value)) &&
      FindRange(ranges, it.key) == Some(it.def)
  {
    MapNonNullMembers(markers, (e: (string, real)) => ItemOf(e, ranges), it);
  }

  /** The kept items keep the markers' order. */
  lemma KnownItemsAppend(a: Record<real>, b: Record<real>, ranges: seq<RangeDef>)
    ensures KnownItems(a + b, ranges) == KnownItems(a, ranges) + KnownItems(b, ranges)
  {
    MapNonNullAppend(a, b, (e: (string, real)) => ItemOf(e, ranges));
  }

  /** `m.def?.category || "Other"`: a missing or empty category becomes "Other". */
  function CategoryOf(d: RangeDef): (c: string)
    ensures c != ""
    ensures d.category.Some? && d.category.value != "" ==> c == d.category.value
  {
    match d.category
    case Some(c) => if c != "" then c else "Other"
    case None => "Other"
  }

  /** The `categories` object: each category with its items. */
  type Groups = Record<seq<Item>>

  /** `it` appended to the list of its category, which is created if missing. */
  function Push(g: Groups, it: Item): Groups {
    var c := CategoryOf(it.def);
    var list := match Get(g, c) case None => [] case Some(l) => l;
    Put(g, c, list + [it])
  }

  /** `categories` after the `forEach` has seen `items`. */
  function Group(items: seq<Item>): (g: Groups)
    ensures WellFormed(g)
  {
    if items == [] then [] else Push(Group(items[..|items| - 1]), items[|items| - 1])
  }

  /** Creating the list first and pushing onto it afterwards is `Push`. */
  lemma CreateThenPush(g: Groups, it: Item)
    ensures var c := CategoryOf(it.def);
      var g1 := if Get(g, c).None? then Put(g, c, []) else g;
      Get(g1, c).Some? && Put(g1, c, Get(g1, c).value + [it]) == Push(g, it)
  {
    var c := CategoryOf(it.def);
    if Get(g, c).None? {
      PutPut(g, c, [], [it]);
    }
  }

  /**
   * The grouping as the component runs it: an empty list is created the
   * first time a category is seen, and each item is pushed onto its
   * category's list.
   */
  method GroupByCategory(items: seq<Item>) returns (categories: Groups)
    ensures categories == Group(items)
  {
    categories := [];
    for i := 0 to |items|
      invariant categories == Group(items[..i])
    {
      assert items[..i + 1][..i] == items[..i];
      var m := items[i];
      var cat := CategoryOf(m.def);
      CreateThenPush(categories, m);
      if Get(categories, cat).None? {
        categories := Put(categories, cat, []);
      }
      categories := Put(categories, cat, Get(categories, cat).value + [m]);
    }
    assert items[..|items|] == items;
  }

  // Reference definitions.

  function CategoriesOf(items: seq<Item>): (cs: seq<string>)
    ensures |cs| == |items|
    ensures forall i :: 0 <= i < |items| ==> cs[i] == CategoryOf(items[i].def)
  {
    seq(|items|, i requires 0 <= i < |items| => CategoryOf(items[i].def))
  }

  /** The items of category `c`, in order. */
  function OfCategory(items: seq<Item>, c: string): (r: seq<Item>)
    ensures |r| <= |items|
  {
    if items == [] then []
    else
      var it := items[|items| - 1];
      OfCategory(items[..|items| - 1], c) + (if CategoryOf(it.def) == c then [it] else [])
  }

  /** The items of a category keep their order: over a concatenation, those of each part in turn. */
  lemma {:induction false} OfCategoryAppend(a: seq<Item>, b: seq<Item>, c: string)
    ensures OfCategory(a + b, c) == OfCategory(a, c) + OfCategory(b, c)
    decreases |b|
  {
    if b == [] {
      assert a + b == a;
    } else {
      var b' := b[..|b| - 1];
      var last := if CategoryOf(b[|b| - 1].def) == c then [b[|b| - 1]] else [];
      assert OfCategory(a + b, c) == OfCategory(a + b', c) + last by {
        assert (a + b)[..|a + b| - 1] == a + b';
        assert (a + b)[|a + b| - 1] == b[|b| - 1];
      }
      assert OfCategory(b, c) == OfCategory(b', c) + last;
      OfCategoryAppend(a, b', c);
      assert OfCategory(a, c) + OfCategory(b', c) + last == OfCategory(a, c) + (OfCategory(b', c) + last);
    }
  }

  /** A single item is of category `c` or not. */
  lemma OfCategoryOne(it: Item, c: string)
    ensures OfCategory([it], c) == if CategoryOf(it.def) == c then [it] else []
  {
    assert [it][..0] == [];
  }

  /** Sections appear in order of the first item of their category. */
  lemma {:induction false} GroupKeysInFirstAppearanceOrder(items: seq<Item>)
    ensures Keys(Group(items)) == FirstOccurrences(CategoriesOf(items))
  {
    if items != [] {
      var p := items[..|items| - 1];
      GroupKeysInFirstAppearanceOrder(p);
      assert CategoriesOf(items)[..|items| - 1] == CategoriesOf(p);
    }
  }

  lemma PushGet(g: Groups, it: Item, c: string)
    ensures Get(Push(g, it), c) ==
      if c == CategoryOf(it.def) then Some((match Get(g, c) case None => [] case Some(l) => l) + [it])
      else Get(g, c)
  {
  }

  /** What the section of `c` should be: its items when some item has category `c`, else none. */
  function Expected(items: seq<Item>, c: string): Option<seq<Item>> {
    if c in CategoriesOf(items) then Some(OfCategory(items, c)) else None
  }

  /** `Expected` follows the same step as `Push`. */
  lemma ExpectedSnoc(items: seq<Item>, c: string)
    requires items != []
    ensures var it := items[|items| - 1];
      var e := Expected(items[..|items| - 1], c);
      Expected(items, c) ==
        if c == CategoryOf(it.def) then Some((match e case None => [] case Some(l) => l) + [it])
        else e
  {
    var p := items[..|items| - 1];
    var it := items[|items| - 1];
    assert CategoriesOf(items) == CategoriesOf(p) + [CategoryOf(it.def)];
    assert OfCategory(items, c) == OfCategory(p, c) + (if CategoryOf(it.def) == c then [it] else []);
    if c == CategoryOf(it.def) {
      if c !in CategoriesOf(p) {
        NoItemsOfAbsentCategory(p, c);
      }
    } else {
      assert c in CategoriesOf(items) <==> c in CategoriesOf(p);
      assert OfCategory(items, c) == OfCategory(p, c) + [];
      assert OfCategory(p, c) + [] == OfCategory(p, c);
    }
  }

  /** Each section holds exactly the items of its category, in their original order. */
  lemma {:induction false} GroupHoldsItsCategory(items: seq<Item>, c: string)
    ensures Get(Group(items), c) == Expected(items, c)
  {
    if items != [] {
      var p := items[..|items| - 1];
      var it := items[|items| - 1];
      GroupHoldsItsCategory(p, c);
      PushGet(Group(p), it, c);
      ExpectedSnoc(items, c);
    } else {
      assert CategoriesOf(items) == [];
    }
  }

  lemma {:induction false} NoItemsOfAbsentCategory(items: seq<Item>, c: string)
    requires c !in CategoriesOf(items)
    ensures OfCategory(items, c) == []
  {
    if items != [] {
      var p := items[..|items| - 1];
      assert CategoriesOf(items) == CategoriesOf(p) + [CategoryOf(items[|items| - 1].def)];
      NoItemsOfAbsentCategory(p, c);
    }
  }

  /** The number of items over all sections. */
  function TotalSize(g: Groups): nat {
    if g == [] then 0 else TotalSize(g[..|g| - 1]) + |g[|g| - 1].1|
  }

  lemma {:induction false} TotalSizeUpdate(g: Groups, i: nat, l: seq<Item>)
    requires i < |g|
    ensures TotalSize(g[i := (g[i].0, l)]) == TotalSize(g) - |g[i].1| + |l|
  {
    var g' := g[i := (g[i].0, l)];
    var n := |g| - 1;
    if i < n {
      assert g'[..n] == g[..n][i := (g[i].0, l)];
      TotalSizeUpdate(g[..n], i, l);
    } else {
      assert g'[..n] == g[..n];
    }
  }

  /** Every kept item lands in exactly one section: the sections together hold all of them. */
  lemma {:induction false} GroupKeepsEveryItem(items: seq<Item>)
    ensures TotalSize(Group(items)) == |items|
  {
    if items != [] {
      var p := items[..|items| - 1];
      var it := items[|items| - 1];
      var g := Group(p);
      var c := CategoryOf(it.def);
      GroupKeepsEveryItem(p);
      match Get(g, c)
      case None =>
        var r := g + [(c, [it])];
        assert r[..|r| - 1] == g;
      case Some(l) =>
        var i := IndexOf(g, c).value;
        var r := Put(g, c, l + [it]);
        assert r == g[i := (c, l + [it])];
        TotalSizeUpdate(g, i, l + [it]);
    }
  }
}
