/** GET /api/orders and the re-fetch after a create: the LEFT JOIN of orders, order_items and
    menu_items, grouped by order id with `reduce`, and returned with `Object.values`.

    The query sorts only by `created_at DESC`. Timestamps are outside the model, and the
    query fixes neither the order of one order's rows nor that of orders created in the same
    second, so the rows the database returns are modelled as ANY sequence holding the rows of
    the join: a join result. Because the grouping object's keys are integer ids,
    `Object.values` enumerates them in ascending numeric order, so the listing's orders, ids
    and headers do not depend on the row order; each order's items do, but only up to a
    permutation. */
module OrderListing {
  import opened Common
  import opened Types
  import opened OrderStore

  /** An element of an order's `items` in a response: `{id, menu_item_id, name, quantity, price}`. */
  datatype ItemView = ItemView(id: int, menuItemId: int, name: Option<string>, quantity: int, price: int)

  /** One row of the join. `item` is `None` when the LEFT JOIN found no `order_items` row. */
  datatype JoinRow = JoinRow(orderId: int, header: OrderRow, item: Option<ItemView>)

  /** An element of the GET response. */
  datatype OrderView = OrderView(id: int, header: OrderRow, items: seq<ItemView>)

  /** The order a create or full update answers with; its items are mapped from every join row. */
  datatype FetchedOrder = FetchedOrder(id: int, header: OrderRow, items: seq<Option<ItemView>>)

  /** `mi.name` of the LEFT JOIN with `menu_items`. */
  function NameOf(menu: map<int, MenuItem>, menuItemId: int): Option<string> {
    if menuItemId in menu then Some(menu[menuItemId].name) else None
  }

  function ViewOf(menu: map<int, MenuItem>, row: ItemRow): ItemView {
    ItemView(row.id, row.menuItemId, NameOf(menu, row.menuItemId), row.quantity, row.price)
  }

  function ViewsOf(menu: map<int, MenuItem>, rows: seq<ItemRow>): seq<ItemView> {
    seq(|rows|, k requires 0 <= k < |rows| => ViewOf(menu, rows[k]))
  }

  /** The join rows of one order: one per `order_items` row, or a single row of NULL item
      columns when it has none. */
  function JoinBlock(s: Store, id: int): seq<JoinRow>
    requires id in s.orders
  {
    var rows := RowsOf(s.items, id);
    if |rows| == 0 then [JoinRow(id, s.orders[id], None)]
    else seq(|rows|, k requires 0 <= k < |rows| => JoinRow(id, s.orders[id], Some(ViewOf(s.menu, rows[k]))))
  }

  /** The whole join, visiting the orders in `arrangement`. */
  function Join(s: Store, arrangement: seq<int>): seq<JoinRow>
    requires forall k :: 0 <= k < |arrangement| ==> arrangement[k] in s.orders
    decreases |arrangement|
  {
    if |arrangement| == 0 then []
    else
      var n := |arrangement| - 1;
      Join(s, arrangement[..n]) + JoinBlock(s, arrangement[n])
  }

  /** `arrangement` lists every order of the store exactly once; joined in that order, each
      order's rows come in table order. */
  predicate IsArrangement(s: Store, arrangement: seq<int>) {
    && Distinct(arrangement)
    && (forall k :: 0 <= k < |arrangement| ==> arrangement[k] in s.orders)
    && (forall id :: id in s.orders ==> id in arrangement)
  }

  /** The orders in ascending id order: one arrangement the join may use. */
  function TableOrder(s: Store): (r: seq<int>)
    ensures forall k :: 0 <= k < |r| ==> r[k] in s.orders
  {
    var r := AscendingKeys(s.orders.Keys, 0, s.nextOrderId);
    assert forall k :: 0 <= k < |r| ==> r[k] in r;
    r
  }

  /** The rows of the join in one fixed order. */
  function FullJoin(s: Store): seq<JoinRow> {
    Join(s, TableOrder(s))
  }

  /** `rows` is what the query may return: the rows of the join, in any order. */
  predicate IsJoinResult(s: Store, rows: seq<JoinRow>) {
    multiset(rows) == multiset(FullJoin(s))
  }

  /** `if (row.item_id)`: a present, non-zero item id. */
  predicate HasItemId(row: JoinRow) {
    row.item.Some? && row.item.value.id != 0
  }

  // ---------------------------------------------------------------------------------------
  // The reduce over the join rows

  function IdsOf(rows: seq<JoinRow>): set<int>
    decreases |rows|
  {
    if |rows| == 0 then {} else IdsOf(rows[..|rows| - 1]) + {rows[|rows| - 1].orderId}
  }

  /** The items `reduce` pushes for order `id`: its rows with an item id, in row order. */
  function ItemsFor(rows: seq<JoinRow>, id: int): seq<ItemView>
    decreases |rows|
  {
    if |rows| == 0 then []
    else
      var row := rows[|rows| - 1];
      ItemsFor(rows[..|rows| - 1], id) + (if row.orderId == id && HasItemId(row) then [row.item.value] else [])
  }

  /** The header of the first row of order `id`, which creates its entry. */
  function FirstHeader(rows: seq<JoinRow>, id: int): OrderRow
    requires id in IdsOf(rows)
    decreases |rows|
  {
    var prefix := rows[..|rows| - 1];
    if id in IdsOf(prefix) then FirstHeader(prefix, id) else rows[|rows| - 1].header
  }

  /** `orders.reduce((acc, row) => ..., {})`: an entry created from the first row of each
      order id, and an item pushed for every row that has an item id. */
  function Group(rows: seq<JoinRow>): map<int, OrderView>
    decreases |rows|
  {
    if |rows| == 0 then map[]
    else
      var acc := Group(rows[..|rows| - 1]);
      var row := rows[|rows| - 1];
      var created := if row.orderId in acc then acc else acc[row.orderId := OrderView(row.orderId, row.header, [])];
      if HasItemId(row) then
        created[row.orderId := created[row.orderId].(items := created[row.orderId].items + [row.item.value])]
      else created
  }

  /** The integers of `keys` within `[lo, hi)`, ascending. */
  function AscendingKeys(keys: set<int>, lo: int, hi: int): (r: seq<int>)
    ensures forall k :: k in r <==> k in keys && lo <= k < hi
    ensures forall i, j :: 0 <= i < j < |r| ==> r[i] < r[j]
    decreases hi - lo
  {
    if lo >= hi then []
    else
      var rest := AscendingKeys(keys, lo + 1, hi);
      assert forall j :: 0 <= j < |rest| ==> rest[j] in rest;
      (if lo in keys then [lo] else []) + rest
  }

  /** `Object.values` of an object whose keys are array indices below `bound`: the values in
      ascending key order. */
  function ObjectValues<V>(m: map<int, V>, bound: int): seq<V>
    requires forall k :: k in m ==> 0 <= k < bound
  {
    var ks := AscendingKeys(m.Keys, 0, bound);
    seq(|ks|, i requires 0 <= i < |ks| => m[ks[i]])
  }

  /** GET /api/orders on a given join result. */
  function ListRows(rows: seq<JoinRow>, bound: int): seq<OrderView>
    requires forall k :: 0 <= k < |rows| ==> 0 <= rows[k].orderId < bound
  {
    IdsOfBelow(rows, bound);
    GroupSpec(rows);
    ObjectValues(Group(rows), bound)
  }

  /** GET /api/orders on the store, for the rows the query returned. */
  function ListOrders(s: Store, rows: seq<JoinRow>): seq<OrderView>
    requires Valid(s) && IsJoinResult(s, rows)
  {
    JoinResultHeaders(s, rows);
    ListRows(rows, s.nextOrderId)
  }

  function RowItem(): JoinRow -> Option<ItemView> {
    (row: JoinRow) => row.item
  }

  /** The order a create or full update re-fetches after its commit, formatted from the join
      rows of that order (`rows.map(row => ...)`); `None` when no row came back. */
  function Format(rows: seq<JoinRow>): Option<FetchedOrder> {
    if |rows| == 0 then None
    else Some(FetchedOrder(rows[0].orderId, rows[0].header, Map(rows, RowItem())))
  }

  /** What GET answers for a store, with each order's items in table order. */
  function ExpectedMap(s: Store): map<int, OrderView> {
    map id | id in s.orders :: OrderView(id, s.orders[id], ViewsOf(s.menu, RowsOf(s.items, id)))
  }

  // ---------------------------------------------------------------------------------------
  // Facts about the reduce

  lemma {:induction false} IdsOfBelow(rows: seq<JoinRow>, bound: int)
    requires forall k :: 0 <= k < |rows| ==> 0 <= rows[k].orderId < bound
    ensures forall id :: id in IdsOf(rows) ==> 0 <= id < bound
    decreases |rows|
  {
    if |rows| > 0 {
      IdsOfBelow(rows[..|rows| - 1], bound);
    }
  }

  lemma {:induction false} IdsOfConcat(a: seq<JoinRow>, b: seq<JoinRow>)
    ensures IdsOf(a + b) == IdsOf(a) + IdsOf(b)
    decreases |b|
  {
    if |b| == 0 {
      assert a + b == a;
    } else {
      assert (a + b)[..|a + b| - 1] == a + b[..|b| - 1];
      IdsOfConcat(a, b[..|b| - 1]);
    }
  }

  lemma {:induction false} ItemsForConcat(a: seq<JoinRow>, b: seq<JoinRow>, id: int)
    ensures ItemsFor(a + b, id) == ItemsFor(a, id) + ItemsFor(b, id)
    decreases |b|
  {
    if |b| == 0 {
      assert a + b == a;
    } else {
      assert (a + b)[..|a + b| - 1] == a + b[..|b| - 1];
      ItemsForConcat(a, b[..|b| - 1], id);
    }
  }

  lemma {:induction false} IdsOfUniform(rows: seq<JoinRow>, id: int)
    requires |rows| > 0
    requires forall k :: 0 <= k < |rows| ==> rows[k].orderId == id
    ensures IdsOf(rows) == {id}
    decreases |rows|
  {
    if |rows| > 1 {
      IdsOfUniform(rows[..|rows| - 1], id);
    } else {
      assert rows[..0] == [];
    }
  }

  lemma {:induction false} ItemsForAbsent(rows: seq<JoinRow>, id: int)
    requires forall k :: 0 <= k < |rows| ==> rows[k].orderId != id
    ensures ItemsFor(rows, id) == []
    decreases |rows|
  {
    if |rows| > 0 {
      ItemsForAbsent(rows[..|rows| - 1], id);
    }
  }

  /** When every row belongs to `id` and has an item id, `reduce` pushes all their items. */
  lemma {:induction false} ItemsForPresent(rows: seq<JoinRow>, id: int)
    requires forall k :: 0 <= k < |rows| ==> rows[k].orderId == id && HasItemId(rows[k])
    ensures |ItemsFor(rows, id)| == |rows|
    ensures forall k :: 0 <= k < |rows| ==> rows[k].item == Some(ItemsFor(rows, id)[k])
    decreases |rows|
  {
    if |rows| > 0 {
      ItemsForPresent(rows[..|rows| - 1], id);
    }
  }

  /** Every join row carries the header of the order it belongs to. */
  predicate HeadersFrom(orders: map<int, OrderRow>, rows: seq<JoinRow>) {
    forall k :: 0 <= k < |rows| ==> rows[k].orderId in orders && rows[k].header == orders[rows[k].orderId]
  }

  lemma {:induction false} FirstHeaderFrom(orders: map<int, OrderRow>, rows: seq<JoinRow>, id: int)
    requires HeadersFrom(orders, rows)
    requires id in IdsOf(rows)
    ensures id in orders && FirstHeader(rows, id) == orders[id]
    decreases |rows|
  {
    var prefix := rows[..|rows| - 1];
    if id in IdsOf(prefix) {
      FirstHeaderFrom(orders, prefix, id);
    }
  }

  /** The reduce leaves one entry per order id seen, holding the header of that order's first
      row and the items of its rows that have an item id, in row order. */
  lemma {:induction false} ItemsForUnseen(rows: seq<JoinRow>, id: int)
    requires id !in IdsOf(rows)
    ensures ItemsFor(rows, id) == []
    decreases |rows|
  {
    if |rows| > 0 {
      ItemsForUnseen(rows[..|rows| - 1], id);
    }
  }

  lemma {:induction false} GroupSpec(rows: seq<JoinRow>)
    ensures Group(rows).Keys == IdsOf(rows)
    ensures forall id :: id in Group(rows) ==>
      Group(rows)[id] == OrderView(id, FirstHeader(rows, id), ItemsFor(rows, id))
    decreases |rows|
  {
    if |rows| > 0 {
      var prefix := rows[..|rows| - 1];
      GroupSpec(prefix);
      var acc := Group(prefix);
      var row := rows[|rows| - 1];
      var created := if row.orderId in acc then acc else acc[row.orderId := OrderView(row.orderId, row.header, [])];
      forall id | id in created
        ensures created[id] == OrderView(id, FirstHeader(rows, id), ItemsFor(prefix, id))
      {
        if id !in IdsOf(prefix) {
          ItemsForUnseen(prefix, id);
        }
      }
    }
  }

  // ---------------------------------------------------------------------------------------
  // Facts about the join

  lemma {:induction false} JoinHeaders(s: Store, arrangement: seq<int>)
    requires forall k :: 0 <= k < |arrangement| ==> arrangement[k] in s.orders
    ensures HeadersFrom(s.orders, Join(s, arrangement))
    decreases |arrangement|
  {
    if |arrangement| > 0 {
      var n := |arrangement| - 1;
      JoinHeaders(s, arrangement[..n]);
      BlockHeaders(s, arrangement[n]);
      HeadersConcat(s.orders, Join(s, arrangement[..n]), JoinBlock(s, arrangement[n]));
    }
  }

  /** Every row of an order's block carries that order's id and header. */
  lemma BlockHeaders(s: Store, id: int)
    requires id in s.orders
    ensures forall k :: 0 <= k < |JoinBlock(s, id)| ==>
      JoinBlock(s, id)[k].orderId == id && JoinBlock(s, id)[k].header == s.orders[id]
  {
  }

  lemma HeadersConcat(orders: map<int, OrderRow>, a: seq<JoinRow>, b: seq<JoinRow>)
    requires HeadersFrom(orders, a) && HeadersFrom(orders, b)
    ensures HeadersFrom(orders, a + b)
  {
    var rows := a + b;
    forall k | 0 <= k < |rows| ensures rows[k].orderId in orders && rows[k].header == orders[rows[k].orderId] {
      if k < |a| {
        assert rows[k] == a[k];
      } else {
        assert rows[k] == b[k - |a|];
      }
    }
  }

  lemma IdsOfBlock(s: Store, id: int)
    requires id in s.orders
    ensures IdsOf(JoinBlock(s, id)) == {id}
  {
    IdsOfUniform(JoinBlock(s, id), id);
  }

  lemma ItemsForBlock(s: Store, id: int, o: int)
    requires Valid(s) && id in s.orders
    ensures ItemsFor(JoinBlock(s, id), o) == if o == id then ViewsOf(s.menu, RowsOf(s.items, id)) else []
  {
    var block := JoinBlock(s, id);
    if o != id {
      BlockHeaders(s, id);
      ItemsForAbsent(block, o);
    } else if |RowsOf(s.items, id)| == 0 {
      assert block == [JoinRow(id, s.orders[id], None)];
      assert block[..0] == [];
    } else {
      ItemsForFullBlock(s, id);
    }
  }

  /** An order with items contributes the views of its rows. */
  lemma ItemsForFullBlock(s: Store, id: int)
    requires Valid(s) && id in s.orders && |RowsOf(s.items, id)| > 0
    ensures ItemsFor(JoinBlock(s, id), id) == ViewsOf(s.menu, RowsOf(s.items, id))
  {
    var block := JoinBlock(s, id);
    var rows := RowsOf(s.items, id);
    RowIdsPositive(s, id);
    FullBlockRows(s, id);
    ItemsForPresent(block, id);
    var views := ItemsFor(block, id);
    var expected := ViewsOf(s.menu, rows);
    assert |views| == |expected|;
    forall k | 0 <= k < |rows| ensures views[k] == expected[k] {
      assert block[k].item == Some(views[k]);
    }
  }

  lemma RowIdsPositive(s: Store, id: int)
    requires Valid(s)
    ensures forall k :: 0 <= k < |RowsOf(s.items, id)| ==> RowsOf(s.items, id)[k].id >= 1
  {
    var rows := RowsOf(s.items, id);
    forall k | 0 <= k < |rows| ensures rows[k].id >= 1 {
      assert rows[k] in s.items;
    }
  }

  lemma FullBlockRows(s: Store, id: int)
    requires id in s.orders && |RowsOf(s.items, id)| > 0
    requires forall k :: 0 <= k < |RowsOf(s.items, id)| ==> RowsOf(s.items, id)[k].id >= 1
    ensures var rows := RowsOf(s.items, id);
      && |JoinBlock(s, id)| == |rows|
      && (forall k :: 0 <= k < |rows| ==>
            JoinBlock(s, id)[k] == JoinRow(id, s.orders[id], Some(ViewOf(s.menu, rows[k]))))
      && (forall k :: 0 <= k < |rows| ==> JoinBlock(s, id)[k].orderId == id && HasItemId(JoinBlock(s, id)[k]))
  {
  }

  lemma {:induction false} JoinIds(s: Store, arrangement: seq<int>)
    requires forall k :: 0 <= k < |arrangement| ==> arrangement[k] in s.orders
    ensures forall id :: id in IdsOf(Join(s, arrangement)) <==> id in arrangement
    decreases |arrangement|
  {
    if |arrangement| > 0 {
      var n := |arrangement| - 1;
      JoinIds(s, arrangement[..n]);
      IdsOfConcat(Join(s, arrangement[..n]), JoinBlock(s, arrangement[n]));
      IdsOfBlock(s, arrangement[n]);
      assert IdsOf(Join(s, arrangement)) == IdsOf(Join(s, arrangement[..n])) + {arrangement[n]};
      MemberOfLast(arrangement);
    }
  }

  lemma {:induction false} JoinItems(s: Store, arrangement: seq<int>, id: int)
    requires Valid(s)
    requires Distinct(arrangement)
    requires forall k :: 0 <= k < |arrangement| ==> arrangement[k] in s.orders
    ensures ItemsFor(Join(s, arrangement), id) ==
            if id in arrangement then ViewsOf(s.menu, RowsOf(s.items, id)) else []
    decreases |arrangement|
  {
    if |arrangement| > 0 {
      var n := |arrangement| - 1;
      var prefix := arrangement[..n];
      assert arrangement == prefix + [arrangement[n]];
      assert Distinct(prefix);
      JoinItems(s, prefix, id);
      ItemsForConcat(Join(s, prefix), JoinBlock(s, arrangement[n]), id);
      ItemsForBlock(s, arrangement[n], id);
      if arrangement[n] == id {
        assert id !in prefix;
      }
    }
  }

  lemma JoinKeys(s: Store, arrangement: seq<int>)
    requires IsArrangement(s, arrangement)
    ensures IdsOf(Join(s, arrangement)) == s.orders.Keys
  {
    JoinIds(s, arrangement);
    forall id ensures id in IdsOf(Join(s, arrangement)) <==> id in s.orders {
      if id in arrangement {
        var k :| 0 <= k < |arrangement| && arrangement[k] == id;
      }
    }
  }

  lemma GroupJoinAt(s: Store, arrangement: seq<int>, id: int)
    requires Valid(s) && IsArrangement(s, arrangement)
    requires id in s.orders
    ensures id in Group(Join(s, arrangement))
    ensures Group(Join(s, arrangement))[id] == OrderView(id, s.orders[id], ViewsOf(s.menu, RowsOf(s.items, id)))
  {
    var rows := Join(s, arrangement);
    GroupSpec(rows);
    JoinKeys(s, arrangement);
    JoinHeaders(s, arrangement);
    FirstHeaderFrom(s.orders, rows, id);
    JoinItems(s, arrangement, id);
  }

  /** The grouped join holds exactly one entry per order, built from the store. */
  lemma GroupJoin(s: Store, arrangement: seq<int>)
    requires Valid(s) && IsArrangement(s, arrangement)
    ensures Group(Join(s, arrangement)) == ExpectedMap(s)
  {
    var rows := Join(s, arrangement);
    GroupJoinKeys(s, arrangement);
    GroupJoinValues(s, arrangement);
    MapExt(Group(rows), ExpectedMap(s));
  }

  lemma GroupJoinKeys(s: Store, arrangement: seq<int>)
    requires IsArrangement(s, arrangement)
    ensures Group(Join(s, arrangement)).Keys == ExpectedMap(s).Keys
  {
    GroupSpec(Join(s, arrangement));
    JoinKeys(s, arrangement);
  }

  lemma GroupJoinValues(s: Store, arrangement: seq<int>)
    requires Valid(s) && IsArrangement(s, arrangement)
    ensures forall id :: id in Group(Join(s, arrangement)) && id in ExpectedMap(s) ==>
      Group(Join(s, arrangement))[id] == ExpectedMap(s)[id]
  {
    var g := Group(Join(s, arrangement));
    forall id | id in g && id in ExpectedMap(s) ensures g[id] == ExpectedMap(s)[id] {
      GroupJoinAt(s, arrangement, id);
    }
  }

  // ---------------------------------------------------------------------------------------
  // Facts about join results

  lemma ItemsForSingle(row: JoinRow, id: int)
    ensures ItemsFor([row], id) == if row.orderId == id && HasItemId(row) then [row.item.value] else []
  {
    assert [row][..0] == [];
  }

  /** The items pushed for an order depend only on the multiset of rows. */
  lemma {:induction false} ItemsForPerm(a: seq<JoinRow>, b: seq<JoinRow>, id: int)
    requires multiset(a) == multiset(b)
    ensures multiset(ItemsFor(a, id)) == multiset(ItemsFor(b, id))
    decreases |a|
  {
    if |a| == 0 {
      assert |b| == |multiset(b)|;
    } else {
      var n := |a| - 1;
      assert a[n] in multiset(b) by {
        assert a[n] in multiset(a);
      }
      var j :| 0 <= j < |b| && b[j] == a[n];
      PermRemoveLast(a, b, j);
      var b1, b2 := b[..j], b[j + 1..];
      ItemsForPerm(a[..n], b1 + b2, id);
      ItemsForConcat(b1 + [b[j]], b2, id);
      ItemsForConcat(b1, [b[j]], id);
      ItemsForConcat(b1, b2, id);
      ItemsForSingle(b[j], id);
    }
  }

  /** The order ids seen depend only on the multiset of rows. */
  lemma {:induction false} IdsOfPerm(a: seq<JoinRow>, b: seq<JoinRow>)
    requires multiset(a) == multiset(b)
    ensures IdsOf(a) == IdsOf(b)
    decreases |a|
  {
    if |a| == 0 {
      assert |b| == |multiset(b)|;
    } else {
      var n := |a| - 1;
      assert a[n] in multiset(b) by {
        assert a[n] in multiset(a);
      }
      var j :| 0 <= j < |b| && b[j] == a[n];
      PermRemoveLast(a, b, j);
      var b1, b2 := b[..j], b[j + 1..];
      IdsOfPerm(a[..n], b1 + b2);
      IdsOfConcat(b1 + [b[j]], b2);
      IdsOfConcat(b1, [b[j]]);
      IdsOfConcat(b1, b2);
      assert [b[j]][..0] == [];
    }
  }

  /** Rows taken from a join whose rows carry their order's header carry it too. */
  lemma HeadersFromPerm(orders: map<int, OrderRow>, a: seq<JoinRow>, b: seq<JoinRow>)
    requires multiset(a) == multiset(b) && HeadersFrom(orders, b)
    ensures HeadersFrom(orders, a)
  {
    forall k | 0 <= k < |a| ensures a[k].orderId in orders && a[k].header == orders[a[k].orderId] {
      assert a[k] in multiset(b) by {
        assert a[k] in multiset(a);
      }
      var m :| 0 <= m < |b| && b[m] == a[k];
    }
  }

  lemma TableOrderIsArrangement(s: Store)
    requires Valid(s)
    ensures IsArrangement(s, TableOrder(s))
  {
    var r := TableOrder(s);
    assert forall i, j :: 0 <= i < j < |r| ==> r[i] < r[j];
  }

  lemma JoinResultHeaders(s: Store, rows: seq<JoinRow>)
    requires Valid(s) && IsJoinResult(s, rows)
    ensures HeadersFrom(s.orders, rows)
    ensures forall k :: 0 <= k < |rows| ==> 0 <= rows[k].orderId < s.nextOrderId
  {
    JoinHeaders(s, TableOrder(s));
    HeadersFromPerm(s.orders, rows, FullJoin(s));
  }

  /** Two views of an order agree but for the order of their items. */
  predicate SameUpToItemOrder(a: OrderView, b: OrderView) {
    a.id == b.id && a.header == b.header && multiset(a.items) == multiset(b.items)
  }

  function SameOrder(): (OrderView, OrderView) -> bool {
    (a: OrderView, b: OrderView) => SameUpToItemOrder(a, b)
  }

  /** Whatever order the rows come in, the reduce builds an entry for exactly the orders of
      the store, each with its stored header and its rows' views up to their order. */
  lemma GroupJoinResult(s: Store, rows: seq<JoinRow>)
    requires Valid(s) && IsJoinResult(s, rows)
    ensures Group(rows).Keys == ExpectedMap(s).Keys
    ensures forall id :: id in Group(rows) ==> SameUpToItemOrder(Group(rows)[id], ExpectedMap(s)[id])
  {
    var order := TableOrder(s);
    var full := FullJoin(s);
    TableOrderIsArrangement(s);
    GroupSpec(rows);
    IdsOfPerm(rows, full);
    JoinKeys(s, order);
    JoinResultHeaders(s, rows);
    forall id | id in Group(rows) ensures SameUpToItemOrder(Group(rows)[id], ExpectedMap(s)[id]) {
      GroupJoinResultAt(s, rows, id);
    }
  }

  lemma GroupJoinResultAt(s: Store, rows: seq<JoinRow>, id: int)
    requires Valid(s) && IsJoinResult(s, rows)
    requires id in IdsOf(rows) && id in s.orders
    ensures id in Group(rows) && SameUpToItemOrder(Group(rows)[id], ExpectedMap(s)[id])
  {
    TableOrderIsArrangement(s);
    GroupSpec(rows);
    JoinResultHeaders(s, rows);
    FirstHeaderFrom(s.orders, rows, id);
    ItemsForPerm(rows, FullJoin(s), id);
    JoinItems(s, TableOrder(s), id);
  }

  /** `Object.values` of two objects with the same keys pairs their values key by key. */
  lemma ObjectValuesPointwise<V>(m1: map<int, V>, m2: map<int, V>, bound: int, rel: (V, V) -> bool)
    requires m1.Keys == m2.Keys
    requires forall k :: k in m1 ==> 0 <= k < bound
    requires forall k :: k in m1 ==> rel(m1[k], m2[k])
    ensures |ObjectValues(m1, bound)| == |ObjectValues(m2, bound)|
    ensures forall i :: 0 <= i < |ObjectValues(m1, bound)| ==> rel(ObjectValues(m1, bound)[i], ObjectValues(m2, bound)[i])
  {
    ObjectValuesAt(m1, bound);
    ObjectValuesAt(m2, bound);
    var ks := AscendingKeys(m1.Keys, 0, bound);
    assert forall i :: 0 <= i < |ks| ==> ks[i] in ks;
  }

  // ---------------------------------------------------------------------------------------
  // The listing

  /** The `ORDER BY o.created_at DESC` of the query does not reach the caller: any two row
      orders yield listings with the same orders, ids and headers at every position, and the
      same items up to their order. */
  lemma ListingIgnoresRowOrder(s: Store, rows1: seq<JoinRow>, rows2: seq<JoinRow>)
    requires Valid(s) && IsJoinResult(s, rows1) && IsJoinResult(s, rows2)
    ensures var out1, out2 := ListOrders(s, rows1), ListOrders(s, rows2);
      |out1| == |out2| && forall i :: 0 <= i < |out1| ==> SameUpToItemOrder(out1[i], out2[i])
  {
    ListIsExpected(s, rows1);
    ListIsExpected(s, rows2);
  }

  /** `Object.values` of the expected map: ascending ids, each order once, each value the one
      built from the store. */
  lemma ExpectedValues(s: Store)
    requires Valid(s)
    ensures forall id :: id in ExpectedMap(s) ==> 0 <= id < s.nextOrderId
    ensures var out := ObjectValues(ExpectedMap(s), s.nextOrderId);
      && (forall i, j :: 0 <= i < j < |out| ==> out[i].id < out[j].id)
      && (forall i :: 0 <= i < |out| ==> out[i].id in s.orders && out[i] == ExpectedMap(s)[out[i].id])
      && (forall id :: id in s.orders ==> exists i :: 0 <= i < |out| && out[i].id == id)
  {
    ExpectedIds(s);
    ObjectValuesSpec(ExpectedMap(s), s.nextOrderId, ViewId());
  }

  function ViewId(): OrderView -> int {
    (v: OrderView) => v.id
  }

  /** `Object.values` of a map whose values carry their own key lists every value once, in
      ascending key order. */
  lemma ObjectValuesSpec<V>(m: map<int, V>, bound: int, key: V -> int)
    requires forall k :: k in m ==> 0 <= k < bound && key(m[k]) == k
    ensures var out := ObjectValues(m, bound);
      && (forall i, j :: 0 <= i < j < |out| ==> key(out[i]) < key(out[j]))
      && (forall i :: 0 <= i < |out| ==> key(out[i]) in m && out[i] == m[key(out[i])])
      && (forall k :: k in m ==> exists i :: 0 <= i < |out| && key(out[i]) == k)
  {
    var ks := AscendingKeys(m.Keys, 0, bound);
    var out := ObjectValues(m, bound);
    ObjectValuesAt(m, bound);
    assert forall i :: 0 <= i < |ks| ==> ks[i] in ks;
    assert forall i :: 0 <= i < |out| ==> key(out[i]) == ks[i];
    forall k | k in m ensures exists i :: 0 <= i < |out| && key(out[i]) == k {
      assert k in ks;
      var i :| 0 <= i < |ks| && ks[i] == k;
      assert key(out[i]) == k;
    }
  }

  /** The expected map is keyed by the order ids, and each view carries its own key. */
  lemma ExpectedIds(s: Store)
    requires Valid(s)
    ensures forall id :: id in ExpectedMap(s) <==> id in s.orders
    ensures forall id :: id in ExpectedMap(s) ==> 0 <= id < s.nextOrderId && ExpectedMap(s)[id].id == id
  {
  }

  lemma ObjectValuesAt<V>(m: map<int, V>, bound: int)
    requires forall k :: k in m ==> 0 <= k < bound
    ensures var ks := AscendingKeys(m.Keys, 0, bound);
      var out := ObjectValues(m, bound);
      |out| == |ks| && forall i :: 0 <= i < |ks| ==> out[i] == m[ks[i]]
  {
  }

  /** The reduce and `Object.values` over any join result give the values of the expected
      map, position by position, up to the order of each order's items. */
  lemma ListIsExpected(s: Store, rows: seq<JoinRow>)
    requires Valid(s) && IsJoinResult(s, rows)
    ensures forall id :: id in ExpectedMap(s) ==> 0 <= id < s.nextOrderId
    ensures var out, expected := ListOrders(s, rows), ObjectValues(ExpectedMap(s), s.nextOrderId);
      |out| == |expected| && forall i :: 0 <= i < |out| ==> SameUpToItemOrder(out[i], expected[i])
  {
    ExpectedIds(s);
    GroupJoinResult(s, rows);
    ObjectValuesPointwise(Group(rows), ExpectedMap(s), s.nextOrderId, SameOrder());
  }

  /** GET lists each order exactly once, in ascending id order, with its stored header and
      the views of exactly its own `order_items` rows, in some order; an order without rows
      is listed with no items. */
  lemma ListShowsEachOrderOnce(s: Store, rows: seq<JoinRow>)
    requires Valid(s) && IsJoinResult(s, rows)
    ensures var out := ListOrders(s, rows);
      && (forall i, j :: 0 <= i < j < |out| ==> out[i].id < out[j].id)
      && (forall i :: 0 <= i < |out| ==>
            && out[i].id in s.orders
            && out[i].header == s.orders[out[i].id]
            && multiset(out[i].items) == multiset(ViewsOf(s.menu, RowsOf(s.items, out[i].id))))
      && (forall id :: id in s.orders ==> exists i :: 0 <= i < |out| && out[i].id == id)
  {
    var out, expected := ListOrders(s, rows), ObjectValues(ExpectedMap(s), s.nextOrderId);
    ListIsExpected(s, rows);
    ExpectedValues(s);
    forall i, j | 0 <= i < j < |out| ensures out[i].id < out[j].id {
      assert SameUpToItemOrder(out[i], expected[i]) && SameUpToItemOrder(out[j], expected[j]);
    }
    forall i | 0 <= i < |out|
      ensures out[i].id in s.orders && out[i].header == s.orders[out[i].id]
      ensures multiset(out[i].items) == multiset(ViewsOf(s.menu, RowsOf(s.items, out[i].id)))
    {
      assert SameUpToItemOrder(out[i], expected[i]);
    }
    forall id | id in s.orders ensures exists i :: 0 <= i < |out| && out[i].id == id {
      var i :| 0 <= i < |expected| && expected[i].id == id;
      assert SameUpToItemOrder(out[i], expected[i]);
    }
  }

  /** The views of an order's rows name menu items of the store. */
  lemma StoredViewsOnMenu(s: Store, id: int)
    requires Valid(s)
    ensures var views := ViewsOf(s.menu, RowsOf(s.items, id));
      forall k :: 0 <= k < |views| ==> views[k].menuItemId in s.menu
  {
    var stored := RowsOf(s.items, id);
    forall k | 0 <= k < |stored| ensures stored[k].menuItemId in s.menu {
      assert stored[k] in s.items;
    }
  }

  /** Every item listed for an order names a menu item of the store. */
  lemma ListedItemsOnMenu(s: Store, rows: seq<JoinRow>, i: int)
    requires Valid(s) && IsJoinResult(s, rows)
    requires 0 <= i < |ListOrders(s, rows)|
    ensures var items := ListOrders(s, rows)[i].items;
      forall k :: 0 <= k < |items| ==> items[k].menuItemId in s.menu
  {
    var order := ListOrders(s, rows)[i];
    var views := ViewsOf(s.menu, RowsOf(s.items, order.id));
    assert multiset(order.items) == multiset(views) by {
      ListShowsEachOrderOnce(s, rows);
    }
    StoredViewsOnMenu(s, order.id);
    forall k | 0 <= k < |order.items| ensures order.items[k].menuItemId in s.menu {
      assert order.items[k] in multiset(views) by {
        assert order.items[k] in multiset(order.items);
      }
      var m :| 0 <= m < |views| && views[m] == order.items[k];
    }
  }

  /** The 201 answer of a create is the new order re-read from the store, its rows in
      whatever order the unsorted query returns them: status 'pending', the computed total,
      and the views of the submitted items, one each, up to their order. */
  lemma CreateResponds(s: Store, tableNumber: int, body: ItemsField, fetched: seq<JoinRow>)
    requires Valid(s)
    requires Create(s, tableNumber, body).code == Created
    requires multiset(fetched) == multiset(JoinBlock(Create(s, tableNumber, body).store, s.nextOrderId))
    ensures var after := Create(s, tableNumber, body).store;
      var id := s.nextOrderId;
      var response := Format(fetched);
      && response.Some?
      && response.value.id == id
      && response.value.header == OrderRow(tableNumber, "pending", SubmittedTotal(body.items))
      && |response.value.items| == |body.items|
      && multiset(response.value.items) == multiset(Present(ViewsOf(after.menu, NewRows(id, s.nextItemId, body.items))))
  {
    var after := Create(s, tableNumber, body).store;
    var id := s.nextOrderId;
    var block := JoinBlock(after, id);
    CreatedBlock(s, tableNumber, body);
    assert |fetched| == |block| by {
      assert |multiset(fetched)| == |multiset(block)|;
    }
    assert fetched[0] in multiset(block) by {
      assert fetched[0] in multiset(fetched);
    }
    MapPerm(fetched, block, RowItem());
  }

  /** The join rows of a newly created order: one per submitted item, each carrying the new
      header and the view of its inserted row. */
  lemma CreatedBlock(s: Store, tableNumber: int, body: ItemsField)
    requires Valid(s)
    requires Create(s, tableNumber, body).code == Created
    ensures var after := Create(s, tableNumber, body).store;
      var id := s.nextOrderId;
      var block := JoinBlock(after, id);
      && |block| == |body.items| > 0
      && (forall k :: 0 <= k < |block| ==>
            block[k].orderId == id && block[k].header == OrderRow(tableNumber, "pending", SubmittedTotal(body.items)))
      && Map(block, RowItem()) == Present(ViewsOf(after.menu, NewRows(id, s.nextItemId, body.items)))
  {
    var after := Create(s, tableNumber, body).store;
    var id := s.nextOrderId;
    CreateRows(s, tableNumber, body);
    CreatePreservesValid(s, tableNumber, body);
    assert |RowsOf(after.items, id)| == |body.items| > 0;
    RowIdsPositive(after, id);
    FullBlockRows(after, id);
    BlockHeaders(after, id);
  }

  /** The 200 answer of a full update is the order re-read after its commit, its rows in
      whatever order the unsorted query returns them: the submitted table and status, the
      recomputed total, and the views of the replacement items, one each, up to their order. */
  lemma UpdateResponds(s: Store, id: int, tableNumber: int, status: string, body: ItemsField, fetched: seq<JoinRow>)
    requires Valid(s)
    requires Update(s, id, tableNumber, status, body).code == Ok
    requires multiset(fetched) == multiset(JoinBlock(Update(s, id, tableNumber, status, body).store, id))
    ensures var after := Update(s, id, tableNumber, status, body).store;
      var response := Format(fetched);
      && response.Some?
      && response.value.id == id
      && response.value.header == OrderRow(tableNumber, status, SubmittedTotal(body.items))
      && |response.value.items| == |body.items|
      && multiset(response.value.items) == multiset(Present(ViewsOf(after.menu, NewRows(id, s.nextItemId, body.items))))
  {
    var after := Update(s, id, tableNumber, status, body).store;
    var block := JoinBlock(after, id);
    UpdatedBlock(s, id, tableNumber, status, body);
    assert |fetched| == |block| by {
      assert |multiset(fetched)| == |multiset(block)|;
    }
    assert fetched[0] in multiset(block) by {
      assert fetched[0] in multiset(fetched);
    }
    MapPerm(fetched, block, RowItem());
  }

  /** The join rows of an updated order: one per replacement item, each carrying the new
      header and the view of its inserted row. */
  lemma UpdatedBlock(s: Store, id: int, tableNumber: int, status: string, body: ItemsField)
    requires Valid(s)
    requires Update(s, id, tableNumber, status, body).code == Ok
    ensures var after := Update(s, id, tableNumber, status, body).store;
      var block := JoinBlock(after, id);
      && |block| == |body.items| > 0
      && (forall k :: 0 <= k < |block| ==>
            block[k].orderId == id && block[k].header == OrderRow(tableNumber, status, SubmittedTotal(body.items)))
      && Map(block, RowItem()) == Present(ViewsOf(after.menu, NewRows(id, s.nextItemId, body.items)))
  {
    var after := Update(s, id, tableNumber, status, body).store;
    UpdateRows(s, id, tableNumber, status, body);
    UpdatePreservesValid(s, id, tableNumber, status, body);
    assert |RowsOf(after.items, id)| == |body.items| > 0;
    RowIdsPositive(after, id);
    FullBlockRows(after, id);
    BlockHeaders(after, id);
  }

  /** Each view as a present item. */
  function Present(views: seq<ItemView>): seq<Option<ItemView>> {
    Map(views, (v: ItemView) => Some(v))
  }

  /** The views of freshly inserted rows carry the submitted menu ids, quantities and prices. */
  lemma ViewsOfNewRows(menu: map<int, MenuItem>, orderId: int, firstId: int, items: seq<SubmittedItem>)
    requires forall k :: 0 <= k < |items| ==> items[k].id.Some?
    ensures var views := ViewsOf(menu, NewRows(orderId, firstId, items));
      && |views| == |items|
      && (forall k :: 0 <= k < |items| ==>
            && Some(views[k].menuItemId) == items[k].id
            && views[k].quantity == items[k].quantity
            && views[k].price == items[k].price)
  {
  }

  /** Every order of the store is listed with its header and the views of its rows, up to
      their order. */
  lemma ListedOrder(s: Store, rows: seq<JoinRow>, id: int)
    requires Valid(s) && IsJoinResult(s, rows)
    requires id in s.orders
    ensures var out := ListOrders(s, rows);
      exists i :: 0 <= i < |out| && out[i].id == id && out[i].header == s.orders[id]
        && multiset(out[i].items) == multiset(ViewsOf(s.menu, RowsOf(s.items, id)))
  {
    ListShowsEachOrderOnce(s, rows);
  }

  /** After a create, GET lists the new order with status 'pending', the computed total, and
      the views of the submitted items, one each, up to their order. */
  lemma CreatedOrderIsListed(s: Store, tableNumber: int, body: ItemsField, rows: seq<JoinRow>)
    requires Valid(s)
    requires Create(s, tableNumber, body).code == Created
    requires Valid(Create(s, tableNumber, body).store) ==> IsJoinResult(Create(s, tableNumber, body).store, rows)
    ensures var after := Create(s, tableNumber, body).store;
      Valid(after) &&
      var out := ListOrders(after, rows);
      exists i :: 0 <= i < |out| && out[i].id == s.nextOrderId
        && out[i].header == OrderRow(tableNumber, "pending", SubmittedTotal(body.items))
        && |out[i].items| == |body.items|
        && multiset(out[i].items) == multiset(ViewsOf(after.menu, NewRows(s.nextOrderId, s.nextItemId, body.items)))
  {
    var after := Create(s, tableNumber, body).store;
    CreatePreservesValid(s, tableNumber, body);
    CreateRows(s, tableNumber, body);
    ListedOrder(after, rows, s.nextOrderId);
    var out := ListOrders(after, rows);
    var i :| 0 <= i < |out| && out[i].id == s.nextOrderId && out[i].header == after.orders[s.nextOrderId]
      && multiset(out[i].items) == multiset(ViewsOf(after.menu, RowsOf(after.items, s.nextOrderId)));
    assert |out[i].items| == |body.items| by {
      assert |multiset(out[i].items)| == |out[i].items|;
    }
  }

  /** After a delete, GET no longer lists the order. */
  lemma DeletedOrderIsNotListed(s: Store, id: int, rows: seq<JoinRow>)
    requires Valid(s)
    requires Valid(Delete(s, id).store) ==> IsJoinResult(Delete(s, id).store, rows)
    ensures Valid(Delete(s, id).store) &&
      var out := ListOrders(Delete(s, id).store, rows);
      forall i :: 0 <= i < |out| ==> out[i].id != id
  {
    DeletePreservesValid(s, id);
    ListShowsEachOrderOnce(Delete(s, id).store, rows);
  }
}
