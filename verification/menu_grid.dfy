/** The menu grid: an availability filter, a case-insensitive search over name, description
    and category, the grouping of the kept items by category, and the button counts. */
module MenuGrid {
  import opened Common
  import opened Text

  /** The grid's own item record; the category is optional. */
  datatype GridItem = GridItem(
    id: string,
    name: string,
    description: string,
    price: int,
    category: Option<string>,
    isAvailable: bool)

  datatype AvailabilityFilter = All | Available | Unavailable

  function MatchesFilter(filter: AvailabilityFilter, item: GridItem): bool {
    match filter
    case All => true
    case Available => item.isAvailable
    case Unavailable => !item.isAvailable
  }

  /** `includes` of the lower-cased query in the lower-cased name, description or category; an
      absent category does not match. */
  function MatchesSearch(query: string, item: GridItem): bool {
    var q := ToLower(query);
    Contains(ToLower(item.name), q) ||
    Contains(ToLower(item.description), q) ||
    (item.category.Some? && Contains(ToLower(item.category.value), q))
  }

  function Keeps(filter: AvailabilityFilter, query: string): GridItem -> bool {
    (item: GridItem) => MatchesFilter(filter, item) && MatchesSearch(query, item)
  }

  /** `filteredItems` */
  function FilteredItems(items: seq<GridItem>, filter: AvailabilityFilter, query: string): (r: seq<GridItem>)
    ensures r == Filter(items, Keeps(filter, query))
    ensures IsSubsequence(r, items)
    ensures forall k :: 0 <= k < |items| ==>
      (items[k] in r <==> MatchesFilter(filter, items[k]) && MatchesSearch(query, items[k]))
  {
    var p := Keeps(filter, query);
    var r := Filter(items, p);
    forall k | 0 <= k < |items| && items[k] in r ensures p(items[k]) {
      var j :| 0 <= j < |r| && r[j] == items[k];
    }
    r
  }

  /** `item.category || 'Sem categoria'` */
  function GroupKey(item: GridItem): string {
    match item.category
    case Some(c) => if c == "" then "Sem categoria" else c
    case None => "Sem categoria"
  }

  /** The key of each item, in item order. */
  function GroupKeys(items: seq<GridItem>): (ks: seq<string>)
    ensures |ks| == |items| && forall k :: 0 <= k < |items| ==> ks[k] == GroupKey(items[k])
  {
    seq(|items|, k requires 0 <= k < |items| => GroupKey(items[k]))
  }

  /** `Record<string, MenuItem[]>` with its keys in insertion order. */
  datatype Grouping = Grouping(keys: seq<string>, groups: map<string, seq<GridItem>>)

  /** `itemsByCategory`: the reduce that pushes each item onto its key's array, creating the
      array on the key's first appearance. */
  function ItemsByCategory(items: seq<GridItem>): Grouping
    decreases |items|
  {
    if |items| == 0 then Grouping([], map[])
    else
      var acc := ItemsByCategory(items[..|items| - 1]);
      var item := items[|items| - 1];
      var key := GroupKey(item);
      if key in acc.groups then acc.(groups := acc.groups[key := acc.groups[key] + [item]])
      else Grouping(acc.keys + [key], acc.groups[key := [item]])
  }

  function HasKey(key: string): GridItem -> bool {
    (item: GridItem) => GroupKey(item) == key
  }

  /** The button counts: `items.filter(i => i.isAvailable).length` and its complement. */
  function AvailableCount(items: seq<GridItem>): nat {
    |Filter(items, (item: GridItem) => item.isAvailable)|
  }

  function UnavailableCount(items: seq<GridItem>): nat {
    |Filter(items, (item: GridItem) => !item.isAvailable)|
  }

  /** `filteredItems.length === 0` */
  predicate ShowsEmptyState(items: seq<GridItem>, filter: AvailabilityFilter, query: string) {
    |FilteredItems(items, filter, query)| == 0
  }

  // ---------------------------------------------------------------------------------------

  /** An empty query matches every item. */
  lemma EmptyQueryMatches(item: GridItem)
    ensures MatchesSearch("", item)
  {
    ToLowerEmpty();
    ContainsEmpty(ToLower(item.name));
  }

  /** 'all' with an empty query keeps every item. */
  lemma AllWithEmptyQuery(items: seq<GridItem>)
    ensures FilteredItems(items, All, "") == items
  {
    forall k | 0 <= k < |items| ensures Keeps(All, "")(items[k]) {
      EmptyQueryMatches(items[k]);
    }
    FilterAll(items, Keeps(All, ""));
  }

  /** For one query, 'available' and 'unavailable' split what 'all' keeps: the first keeps
      exactly its available items, the second exactly its unavailable ones. */
  lemma AvailabilitySplitsAll(items: seq<GridItem>, query: string)
    ensures Filter(FilteredItems(items, All, query), (item: GridItem) => item.isAvailable) == FilteredItems(items, Available, query)
    ensures Filter(FilteredItems(items, All, query), (item: GridItem) => !item.isAvailable) == FilteredItems(items, Unavailable, query)
    ensures |FilteredItems(items, Available, query)| + |FilteredItems(items, Unavailable, query)| == |FilteredItems(items, All, query)|
  {
    var avail := (item: GridItem) => item.isAvailable;
    var unavail := (item: GridItem) => !item.isAvailable;
    var all := FilteredItems(items, All, query);
    FilterOfFilter(items, Keeps(All, query), Keeps(Available, query));
    FilterOfFilter(items, Keeps(All, query), Keeps(Unavailable, query));
    FilterSameOn(all, avail, Keeps(Available, query));
    FilterSameOn(all, unavail, Keeps(Unavailable, query));
    FilterSplitCount(all, avail, unavail);
  }

  /** The available count plus the unavailable count is the total count. */
  lemma CountsAddUp(items: seq<GridItem>)
    ensures AvailableCount(items) + UnavailableCount(items) == |items|
  {
    FilterSplitCount(items, (item: GridItem) => item.isAvailable, (item: GridItem) => !item.isAvailable);
  }

  /** The empty state shows exactly when no item passes both tests. */
  lemma EmptyStateIffNoMatch(items: seq<GridItem>, filter: AvailabilityFilter, query: string)
    ensures ShowsEmptyState(items, filter, query) <==>
      forall k :: 0 <= k < |items| ==> !(MatchesFilter(filter, items[k]) && MatchesSearch(query, items[k]))
  {
    var r := FilteredItems(items, filter, query);
    if |r| > 0 {
      assert r[0] in items;
      var k :| 0 <= k < |items| && items[k] == r[0];
      assert items[k] in r;
    }
  }

  /** The grouping's keys are distinct and cover every item. */
  lemma {:induction false} GroupingKeys(items: seq<GridItem>)
    ensures var g := ItemsByCategory(items);
      && Distinct(g.keys)
      && (forall key :: key in g.groups <==> key in g.keys)
      && (forall k :: 0 <= k < |items| ==> GroupKey(items[k]) in g.groups)
    decreases |items|
  {
    if |items| > 0 {
      var prefix := items[..|items| - 1];
      GroupingKeys(prefix);
      forall k | 0 <= k < |items| ensures GroupKey(items[k]) in ItemsByCategory(items).groups {
        if k < |prefix| {
          assert items[k] == prefix[k];
        }
      }
    }
  }

  /** The grouping's keys are the distinct keys of the items, as they first appear. */
  lemma {:induction false} GroupingKeysDedup(items: seq<GridItem>)
    ensures ItemsByCategory(items).keys == Dedup(GroupKeys(items))
    decreases |items|
  {
    if |items| > 0 {
      var n := |items| - 1;
      var prefix := items[..n];
      GroupingKeysDedup(prefix);
      GroupingKeys(prefix);
      var ks := GroupKeys(items);
      assert ks[..n] == GroupKeys(prefix);
    }
  }

  /** The array of a key is exactly the items with that key, in their original order. */
  lemma {:induction false} GroupingArrays(items: seq<GridItem>)
    ensures var g := ItemsByCategory(items);
      forall key :: key in g.groups ==> g.groups[key] == Filter(items, HasKey(key))
    decreases |items|
  {
    if |items| > 0 {
      var prefix := items[..|items| - 1];
      var item := items[|items| - 1];
      GroupingArrays(prefix);
      GroupingKeys(prefix);
      assert items == prefix + [item];
      forall key | key in ItemsByCategory(items).groups
        ensures ItemsByCategory(items).groups[key] == Filter(items, HasKey(key))
      {
        GroupingArraysAt(prefix, item, key);
      }
    }
  }

  lemma GroupingArraysAt(prefix: seq<GridItem>, item: GridItem, key: string)
    requires forall key :: key in ItemsByCategory(prefix).groups ==>
      ItemsByCategory(prefix).groups[key] == Filter(prefix, HasKey(key))
    requires forall k :: 0 <= k < |prefix| ==> GroupKey(prefix[k]) in ItemsByCategory(prefix).groups
    requires key in ItemsByCategory(prefix + [item]).groups
    ensures ItemsByCategory(prefix + [item]).groups[key] == Filter(prefix + [item], HasKey(key))
  {
    var acc := ItemsByCategory(prefix);
    if key in acc.groups {
      GroupingArraysStep(prefix, item, key, acc.groups[key]);
    } else {
      NoKeyNoItems(prefix, key);
      GroupingArraysStep(prefix, item, key, []);
    }
  }

  /** One step of the reduce keeps a key's array equal to its filter. */
  lemma GroupingArraysStep(prefix: seq<GridItem>, item: GridItem, key: string, before: seq<GridItem>)
    requires before == Filter(prefix, HasKey(key))
    requires key in ItemsByCategory(prefix).groups ==> ItemsByCategory(prefix).groups[key] == before
    requires key !in ItemsByCategory(prefix).groups ==> before == []
    requires key in ItemsByCategory(prefix + [item]).groups
    ensures ItemsByCategory(prefix + [item]).groups[key] == Filter(prefix + [item], HasKey(key))
  {
    var p := HasKey(key);
    ItemsByCategorySnoc(prefix, item);
    FilterConcat(prefix, [item], p);
    FilterSingleton(item, p);
  }

  /** The grouping holds one array per distinct key, its keys listed in the order the items
      first show them, and the array of a key is exactly the items with that key in their
      original order. */
  lemma GroupingSpec(items: seq<GridItem>)
    ensures var g := ItemsByCategory(items);
      && g.keys == Dedup(GroupKeys(items))
      && (forall i, j :: 0 <= i < j < |g.keys| ==>
            FirstIndex(GroupKeys(items), g.keys[i]) < FirstIndex(GroupKeys(items), g.keys[j]))
      && Distinct(g.keys)
      && (forall key :: key in g.groups <==> key in g.keys)
      && (forall key :: key in g.groups ==> g.groups[key] == Filter(items, HasKey(key)))
      && (forall k :: 0 <= k < |items| ==> GroupKey(items[k]) in g.groups)
  {
    GroupingKeys(items);
    GroupingKeysDedup(items);
    DedupFirstAppearance(GroupKeys(items));
    GroupingArrays(items);
  }

  /** One more item extends the grouping of the items before it. */
  lemma ItemsByCategorySnoc(prefix: seq<GridItem>, item: GridItem)
    ensures var acc := ItemsByCategory(prefix);
      var key := GroupKey(item);
      ItemsByCategory(prefix + [item]) ==
        if key in acc.groups then acc.(groups := acc.groups[key := acc.groups[key] + [item]])
        else Grouping(acc.keys + [key], acc.groups[key := [item]])
  {
    assert (prefix + [item])[..|prefix|] == prefix;
  }

  lemma NoKeyNoItems(prefix: seq<GridItem>, key: string)
    requires forall k :: 0 <= k < |prefix| ==> GroupKey(prefix[k]) != key
    ensures Filter(prefix, HasKey(key)) == []
  {
    FilterNone(prefix, HasKey(key));
  }

  /** Every filtered item lands in exactly one group: the group of its own key. */
  lemma EachItemInOneGroup(items: seq<GridItem>, filter: AvailabilityFilter, query: string, k: int, key: string)
    requires var r := FilteredItems(items, filter, query); 0 <= k < |r|
    ensures var r := FilteredItems(items, filter, query);
      var g := ItemsByCategory(r);
      key in g.groups ==> (r[k] in g.groups[key] <==> key == GroupKey(r[k]))
    ensures var r := FilteredItems(items, filter, query);
      GroupKey(r[k]) in ItemsByCategory(r).groups
  {
    var r := FilteredItems(items, filter, query);
    GroupingSpec(r);
  }

  /** No groups are rendered exactly when the empty state is shown. */
  lemma NoGroupsIffEmptyState(items: seq<GridItem>, filter: AvailabilityFilter, query: string)
    ensures |ItemsByCategory(FilteredItems(items, filter, query)).keys| == 0 <==> ShowsEmptyState(items, filter, query)
  {
    var r := FilteredItems(items, filter, query);
    GroupingSpec(r);
    if |r| > 0 {
      assert GroupKey(r[0]) in ItemsByCategory(r).keys;
    }
  }
}
