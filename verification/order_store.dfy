/** The order and menu-item write endpoints of the Express server as a pure state machine.

    The store holds the three tables: `menu_items` as a map from id, `orders` as a map from
    id to its header row, and `order_items` as a sequence of rows in table (insertion) order,
    together with the two auto-increment counters. Every handler returns the HTTP status it
    answers with and the store after the request. A begin/commit/rollback block either
    yields the committed store or, after a rollback, the store it started from. */
module OrderStore {
  import opened Common
  import opened Types

  const Ok: int := 200
  const Created: int := 201
  const NoContent: int := 204
  const BadRequest: int := 400
  const NotFound: int := 404
  const ServerError: int := 500

  /** One element of a request's `items` array. `id` is `None` when the element has no `id`
      key, which the database driver turns into SQL NULL. */
  datatype SubmittedItem = SubmittedItem(id: Option<int>, quantity: int, price: int)

  /** The request body's `items` field: missing (or null), present but not an array, or an array. */
  datatype ItemsField = Absent | NotAnArray | Items(items: seq<SubmittedItem>)

  /** The `table_number`, `status` and `total_amount` columns of an `orders` row. */
  datatype OrderRow = OrderRow(tableNumber: int, status: string, total: int)

  /** An `order_items` row. */
  datatype ItemRow = ItemRow(id: int, orderId: int, menuItemId: int, quantity: int, price: int)

  datatype Store = Store(
    menu: map<int, MenuItem>,
    orders: map<int, OrderRow>,
    items: seq<ItemRow>,
    nextOrderId: int,
    nextItemId: int)

  datatype Reply = Reply(code: int, store: Store)

  /** The fields of a menu item a PUT request carries. */
  datatype MenuFields = MenuFields(
    name: string,
    description: string,
    price: int,
    category: string,
    isAvailable: bool)

  /** The guard `!items || !Array.isArray(items) || items.length === 0` fails. */
  predicate HasItems(body: ItemsField) {
    body.Items? && |body.items| > 0
  }

  function SubmittedValue(it: SubmittedItem): int {
    it.price * it.quantity
  }

  /** `items.reduce((sum, item) => sum + (item.price * item.quantity), 0)` */
  function SubmittedTotal(items: seq<SubmittedItem>): int {
    SumBy(items, SubmittedValue)
  }

  function RowValue(row: ItemRow): int {
    row.price * row.quantity
  }

  /** The NOT NULL constraint and the foreign key on `order_items.menu_item_id` accept every
      row built from `items`; otherwise the multi-row INSERT fails as a whole. */
  predicate Insertable(menu: map<int, MenuItem>, items: seq<SubmittedItem>) {
    forall k :: 0 <= k < |items| ==> items[k].id.Some? && items[k].id.value in menu
  }

  /** The rows `INSERT INTO order_items ... VALUES ?` adds, with consecutive auto-increment ids. */
  function NewRows(orderId: int, firstId: int, items: seq<SubmittedItem>): seq<ItemRow>
    requires forall k :: 0 <= k < |items| ==> items[k].id.Some?
  {
    seq(|items|, k requires 0 <= k < |items| =>
      ItemRow(firstId + k, orderId, items[k].id.value, items[k].quantity, items[k].price))
  }

  function OfOrder(id: int): ItemRow -> bool {
    (row: ItemRow) => row.orderId == id
  }

  function NotOfOrder(id: int): ItemRow -> bool {
    (row: ItemRow) => row.orderId != id
  }

  /** `SELECT ... FROM order_items WHERE order_id = id`, in table order. */
  function RowsOf(rows: seq<ItemRow>, id: int): seq<ItemRow> {
    Filter(rows, OfOrder(id))
  }

  /** The table after `DELETE FROM order_items WHERE order_id = id`. */
  function RowsNotOf(rows: seq<ItemRow>, id: int): seq<ItemRow> {
    Filter(rows, NotOfOrder(id))
  }

  predicate Referenced(rows: seq<ItemRow>, menuItemId: int) {
    exists k :: 0 <= k < |rows| && rows[k].menuItemId == menuItemId
  }

  function IdBelow(): (ItemRow, ItemRow) -> bool {
    (a: ItemRow, b: ItemRow) => a.id < b.id
  }

  predicate IdsIncreasing(rows: seq<ItemRow>) {
    forall j, k :: 0 <= j < k < |rows| ==> rows[j].id < rows[k].id
  }

  /** What the schema and the auto-increment counters guarantee of the tables: ids are
      positive and below their counter, `order_items` rows appear in increasing id order,
      and both foreign keys of `order_items` hold. */
  predicate Valid(s: Store) {
    && s.nextOrderId >= 1
    && s.nextItemId >= 1
    && (forall id :: id in s.orders ==> 1 <= id < s.nextOrderId)
    && (forall id :: id in s.menu ==> s.menu[id].id == id)
    && (forall k :: 0 <= k < |s.items| ==>
          && s.items[k].orderId in s.orders
          && s.items[k].menuItemId in s.menu
          && 1 <= s.items[k].id < s.nextItemId)
    && IdsIncreasing(s.items)
  }

  /** Every order's `total_amount` is Σ price×quantity over its current `order_items` rows. */
  predicate Consistent(s: Store) {
    forall id :: id in s.orders ==> s.orders[id].total == SumBy(RowsOf(s.items, id), RowValue)
  }

  /** POST /api/orders */
  function Create(s: Store, tableNumber: int, body: ItemsField): (r: Reply)
    ensures !HasItems(body) ==> r == Reply(BadRequest, s)
    ensures r.code == Created <==> HasItems(body) && Insertable(s.menu, body.items)
    ensures HasItems(body) && !Insertable(s.menu, body.items) ==> r == Reply(ServerError, s)
    ensures r.code == Created ==>
      var id := s.nextOrderId;
      && r.store.orders.Keys == s.orders.Keys + {id}
      && r.store.orders[id] == OrderRow(tableNumber, "pending", SubmittedTotal(body.items))
      && (forall o :: o in s.orders && o != id ==> r.store.orders[o] == s.orders[o])
      && r.store.menu == s.menu
      && r.store.nextOrderId == id + 1
      && r.store.nextItemId == s.nextItemId + |body.items|
  {
    if !HasItems(body) then Reply(BadRequest, s)
    else if !Insertable(s.menu, body.items) then Reply(ServerError, s)
    else
      var id := s.nextOrderId;
      var header := OrderRow(tableNumber, "pending", SubmittedTotal(body.items));
      Reply(Created, s.(
        orders := s.orders[id := header],
        items := s.items + NewRows(id, s.nextItemId, body.items),
        nextOrderId := id + 1,
        nextItemId := s.nextItemId + |body.items|))
  }

  /** PUT /api/orders/:id */
  function Update(s: Store, id: int, tableNumber: int, status: string, body: ItemsField): (r: Reply)
    ensures !HasItems(body) ==> r == Reply(BadRequest, s)
    ensures HasItems(body) && id !in s.orders ==> r == Reply(NotFound, s)
    ensures r.code == Ok <==> HasItems(body) && id in s.orders && Insertable(s.menu, body.items)
    ensures HasItems(body) && id in s.orders && !Insertable(s.menu, body.items) ==> r == Reply(ServerError, s)
    ensures r.code == Ok ==>
      && r.store.orders.Keys == s.orders.Keys
      && r.store.orders[id] == OrderRow(tableNumber, status, SubmittedTotal(body.items))
      && (forall o :: o in s.orders && o != id ==> r.store.orders[o] == s.orders[o])
      && r.store.menu == s.menu
      && r.store.nextOrderId == s.nextOrderId
      && r.store.nextItemId == s.nextItemId + |body.items|
  {
    if !HasItems(body) then Reply(BadRequest, s)
    else if id !in s.orders then Reply(NotFound, s)
    else if !Insertable(s.menu, body.items) then Reply(ServerError, s)
    else
      var header := OrderRow(tableNumber, status, SubmittedTotal(body.items));
      Reply(Ok, s.(
        orders := s.orders[id := header],
        items := RowsNotOf(s.items, id) + NewRows(id, s.nextItemId, body.items),
        nextItemId := s.nextItemId + |body.items|))
  }

  /** PUT /api/orders/:id/status: a single UPDATE of the status column; any string is accepted,
      the column width of 50 is not modelled. */
  function UpdateStatus(s: Store, id: int, status: string): (r: Reply)
    ensures id !in s.orders ==> r == Reply(NotFound, s)
    ensures id in s.orders ==>
      && r.code == Ok
      && r.store.orders.Keys == s.orders.Keys
      && r.store.orders[id].status == status
      && r.store.orders[id].tableNumber == s.orders[id].tableNumber
      && r.store.orders[id].total == s.orders[id].total
      && (forall o :: o in s.orders && o != id ==> r.store.orders[o] == s.orders[o])
      && r.store.items == s.items
      && r.store.menu == s.menu
      && r.store.nextOrderId == s.nextOrderId
      && r.store.nextItemId == s.nextItemId
  {
    if id !in s.orders then Reply(NotFound, s)
    else Reply(Ok, s.(orders := s.orders[id := s.orders[id].(status := status)]))
  }

  /** DELETE /api/orders/:id: the order's items, then the order; rolled back when no order matched. */
  function Delete(s: Store, id: int): (r: Reply)
    ensures id !in s.orders ==> r == Reply(NotFound, s)
    ensures id in s.orders ==>
      && r.code == NoContent
      && r.store.orders.Keys == s.orders.Keys - {id}
      && (forall o :: o in r.store.orders ==> r.store.orders[o] == s.orders[o])
      && r.store.menu == s.menu
      && r.store.nextOrderId == s.nextOrderId
      && r.store.nextItemId == s.nextItemId
  {
    var remaining := RowsNotOf(s.items, id);
    if id !in s.orders then Reply(NotFound, s)
    else Reply(NoContent, s.(orders := s.orders - {id}, items := remaining))
  }

  /** PUT /api/menu-items/:id: the UPDATE, then a SELECT that answers 404 when no row has that id. */
  function UpdateMenuItem(s: Store, id: int, f: MenuFields): (r: Reply)
    ensures id !in s.menu ==> r == Reply(NotFound, s)
    ensures id in s.menu ==>
      && r.code == Ok
      && r.store.menu.Keys == s.menu.Keys
      && r.store.menu[id] == MenuItem(id, f.name, f.description, f.price, f.category, f.isAvailable)
      && (forall m :: m in s.menu && m != id ==> r.store.menu[m] == s.menu[m])
      && r.store.orders == s.orders
      && r.store.items == s.items
  {
    if id !in s.menu then Reply(NotFound, s)
    else
      var item := MenuItem(id, f.name, f.description, f.price, f.category, f.isAvailable);
      Reply(Ok, s.(menu := s.menu[id := item]))
  }

  /** DELETE /api/menu-items/:id. A menu item that an `order_items` row references is protected
      by the foreign key, so the DELETE throws and the error handler answers 500. */
  function DeleteMenuItem(s: Store, id: int): (r: Reply)
    ensures r.code in {NoContent, NotFound, ServerError}
    ensures r.code != NoContent ==> r.store == s
    ensures r.code == NotFound <==> id !in s.menu
    ensures r.code == ServerError <==> id in s.menu && Referenced(s.items, id)
    ensures r.code == NoContent ==>
      && r.store.menu.Keys == s.menu.Keys - {id}
      && (forall m :: m in r.store.menu ==> r.store.menu[m] == s.menu[m])
      && r.store.orders == s.orders
      && r.store.items == s.items
  {
    if id in s.menu && Referenced(s.items, id) then Reply(ServerError, s)
    else if id !in s.menu then Reply(NotFound, s)
    else Reply(NoContent, s.(menu := s.menu - {id}))
  }

  // ---------------------------------------------------------------------------------------
  // Row-level facts

  lemma RowsOfConcat(a: seq<ItemRow>, b: seq<ItemRow>, id: int)
    ensures RowsOf(a + b, id) == RowsOf(a, id) + RowsOf(b, id)
  {
    FilterConcat(a, b, OfOrder(id));
  }

  lemma RowsOfNone(rows: seq<ItemRow>, id: int)
    requires forall k :: 0 <= k < |rows| ==> rows[k].orderId != id
    ensures RowsOf(rows, id) == []
  {
    FilterNone(rows, OfOrder(id));
  }

  lemma RowsOfNewRows(orderId: int, firstId: int, items: seq<SubmittedItem>, id: int)
    requires forall k :: 0 <= k < |items| ==> items[k].id.Some?
    ensures RowsOf(NewRows(orderId, firstId, items), id) ==
            if id == orderId then NewRows(orderId, firstId, items) else []
  {
    var rows := NewRows(orderId, firstId, items);
    if id == orderId {
      FilterAll(rows, OfOrder(id));
    } else {
      RowsOfNone(rows, id);
    }
  }

  /** Deleting one order's rows leaves every other order's rows, in order, and none of its own. */
  lemma RowsOfRowsNotOf(rows: seq<ItemRow>, id: int, o: int)
    ensures RowsOf(RowsNotOf(rows, id), o) == if o == id then [] else RowsOf(rows, o)
  {
    var rest := RowsNotOf(rows, id);
    if o == id {
      RowsOfNone(rest, o);
    } else {
      FilterOfFilter(rows, NotOfOrder(id), OfOrder(o));
    }
  }

  lemma FilterKeepsIdsIncreasing(rows: seq<ItemRow>, p: ItemRow -> bool)
    requires IdsIncreasing(rows)
    ensures IdsIncreasing(Filter(rows, p))
  {
    FilterKeepsPairwise(rows, p, IdBelow());
  }

  lemma NewRowsTotal(orderId: int, firstId: int, items: seq<SubmittedItem>)
    requires forall k :: 0 <= k < |items| ==> items[k].id.Some?
    ensures SumBy(NewRows(orderId, firstId, items), RowValue) == SubmittedTotal(items)
  {
    SumByPointwise(NewRows(orderId, firstId, items), RowValue, items, SubmittedValue);
  }

  // ---------------------------------------------------------------------------------------
  // Create

  /** The rows a successful create leaves for each order. */
  lemma CreateRows(s: Store, tableNumber: int, body: ItemsField)
    requires Valid(s)
    requires Create(s, tableNumber, body).code == Created
    ensures var after := Create(s, tableNumber, body).store;
      && RowsOf(after.items, s.nextOrderId) == NewRows(s.nextOrderId, s.nextItemId, body.items)
      && (forall o :: o != s.nextOrderId ==> RowsOf(after.items, o) == RowsOf(s.items, o))
  {
    var id := s.nextOrderId;
    var added := NewRows(id, s.nextItemId, body.items);
    var after := Create(s, tableNumber, body).store;
    assert after.items == s.items + added;
    RowsOfConcat(s.items, added, id);
    RowsOfNone(s.items, id);
    RowsOfNewRows(id, s.nextItemId, body.items, id);
    forall o | o != id ensures RowsOf(after.items, o) == RowsOf(s.items, o) {
      RowsOfConcat(s.items, added, o);
      RowsOfNewRows(id, s.nextItemId, body.items, o);
    }
  }

  /** A created order gets one `order_items` row per submitted item, in submission order, each
      carrying the new order id and the item's menu id, quantity and price; no other order's
      rows change. */
  lemma CreateInsertsOneRowPerItem(s: Store, tableNumber: int, body: ItemsField)
    requires Valid(s)
    requires Create(s, tableNumber, body).code == Created
    ensures var after := Create(s, tableNumber, body).store;
      var id := s.nextOrderId;
      var rows := RowsOf(after.items, id);
      && id !in s.orders
      && |rows| == |body.items|
      && (forall k :: 0 <= k < |rows| ==>
            && rows[k].orderId == id
            && rows[k].id == s.nextItemId + k
            && Some(rows[k].menuItemId) == body.items[k].id
            && rows[k].quantity == body.items[k].quantity
            && rows[k].price == body.items[k].price)
      && (forall o :: o != id ==> RowsOf(after.items, o) == RowsOf(s.items, o))
  {
    var after := Create(s, tableNumber, body).store;
    var id := s.nextOrderId;
    assert Insertable(s.menu, body.items);
    var added := NewRows(id, s.nextItemId, body.items);
    assert RowsOf(after.items, id) == added && forall o :: o != id ==> RowsOf(after.items, o) == RowsOf(s.items, o) by {
      CreateRows(s, tableNumber, body);
    }
    NewRowsFields(id, s.nextItemId, body.items);
  }

  /** Row `k` of an insert carries id `firstId + k` and the fields of item `k`. */
  lemma NewRowsFields(orderId: int, firstId: int, items: seq<SubmittedItem>)
    requires forall k :: 0 <= k < |items| ==> items[k].id.Some?
    ensures var rows := NewRows(orderId, firstId, items);
      && |rows| == |items|
      && (forall k :: 0 <= k < |rows| ==>
            && rows[k].orderId == orderId
            && rows[k].id == firstId + k
            && Some(rows[k].menuItemId) == items[k].id
            && rows[k].quantity == items[k].quantity
            && rows[k].price == items[k].price)
  {
  }

  lemma CreatePreservesValid(s: Store, tableNumber: int, body: ItemsField)
    requires Valid(s)
    ensures Valid(Create(s, tableNumber, body).store)
  {
    var r := Create(s, tableNumber, body);
    if r.code == Created {
      var added := NewRows(s.nextOrderId, s.nextItemId, body.items);
      assert r.store.items == s.items + added;
      NewRowsValid(s, s.nextOrderId, body.items, r.store.orders.Keys);
      AppendRowsValid(s.items, added, r.store.orders.Keys, s.menu.Keys, s.nextItemId, r.store.nextItemId);
    }
  }

  /** The stored total of a created order is Σ price×quantity over the rows it was given,
      and no other order's total goes stale. */
  lemma CreatePreservesConsistent(s: Store, tableNumber: int, body: ItemsField)
    requires Valid(s) && Consistent(s)
    ensures Consistent(Create(s, tableNumber, body).store)
  {
    var r := Create(s, tableNumber, body);
    if r.code == Created {
      var id := s.nextOrderId;
      CreateRows(s, tableNumber, body);
      forall o | o in r.store.orders
        ensures r.store.orders[o].total == SumBy(RowsOf(r.store.items, o), RowValue)
      {
        if o == id {
          NewRowsTotal(id, s.nextItemId, body.items);
        } else {
          assert RowsOf(r.store.items, o) == RowsOf(s.items, o);
        }
      }
    }
  }

  // ---------------------------------------------------------------------------------------
  // Update

  /** The rows a successful full update leaves for each order. */
  lemma UpdateRows(s: Store, id: int, tableNumber: int, status: string, body: ItemsField)
    requires Update(s, id, tableNumber, status, body).code == Ok
    ensures var after := Update(s, id, tableNumber, status, body).store;
      && RowsOf(after.items, id) == NewRows(id, s.nextItemId, body.items)
      && (forall o :: o != id ==> RowsOf(after.items, o) == RowsOf(s.items, o))
  {
    var added := NewRows(id, s.nextItemId, body.items);
    var kept := RowsNotOf(s.items, id);
    var after := Update(s, id, tableNumber, status, body).store;
    assert after.items == kept + added;
    RowsOfConcat(kept, added, id);
    RowsOfRowsNotOf(s.items, id, id);
    RowsOfNewRows(id, s.nextItemId, body.items, id);
    forall o | o != id ensures RowsOf(after.items, o) == RowsOf(s.items, o) {
      RowsOfConcat(kept, added, o);
      RowsOfRowsNotOf(s.items, id, o);
      RowsOfNewRows(id, s.nextItemId, body.items, o);
    }
  }

  /** After a successful full update the order's rows are exactly the submitted items, in
      order (the old rows are all gone), its total is recomputed from them, and every other
      order keeps its rows. */
  lemma UpdateReplacesItems(s: Store, id: int, tableNumber: int, status: string, body: ItemsField)
    requires Update(s, id, tableNumber, status, body).code == Ok
    ensures var after := Update(s, id, tableNumber, status, body).store;
      var rows := RowsOf(after.items, id);
      && |rows| == |body.items|
      && (forall k :: 0 <= k < |rows| ==>
            && rows[k].orderId == id
            && rows[k].id == s.nextItemId + k
            && Some(rows[k].menuItemId) == body.items[k].id
            && rows[k].quantity == body.items[k].quantity
            && rows[k].price == body.items[k].price)
      && SumBy(rows, RowValue) == after.orders[id].total
      && (forall o :: o != id ==> RowsOf(after.items, o) == RowsOf(s.items, o))
  {
    var after := Update(s, id, tableNumber, status, body).store;
    assert Insertable(s.menu, body.items);
    var added := NewRows(id, s.nextItemId, body.items);
    assert RowsOf(after.items, id) == added && forall o :: o != id ==> RowsOf(after.items, o) == RowsOf(s.items, o) by {
      UpdateRows(s, id, tableNumber, status, body);
    }
    NewRowsFields(id, s.nextItemId, body.items);
    NewRowsTotal(id, s.nextItemId, body.items);
  }

  lemma UpdatePreservesValid(s: Store, id: int, tableNumber: int, status: string, body: ItemsField)
    requires Valid(s)
    ensures Valid(Update(s, id, tableNumber, status, body).store)
  {
    var r := Update(s, id, tableNumber, status, body);
    if r.code == Ok {
      var added := NewRows(id, s.nextItemId, body.items);
      var kept := RowsNotOf(s.items, id);
      assert r.store.items == kept + added;
      KeptRowsValid(s, id);
      NewRowsValid(s, id, body.items, s.orders.Keys);
      AppendRowsValid(kept, added, s.orders.Keys, s.menu.Keys, s.nextItemId, r.store.nextItemId);
    }
  }

  /** The row facts `Valid` demands of `order_items`, for given order and menu ids and an id
      range below `hi`. */
  predicate RowsWithin(rows: seq<ItemRow>, orders: set<int>, menu: set<int>, lo: int, hi: int) {
    && IdsIncreasing(rows)
    && forall k :: 0 <= k < |rows| ==>
         rows[k].orderId in orders && rows[k].menuItemId in menu && lo <= rows[k].id < hi
  }

  lemma AppendRowsValid(a: seq<ItemRow>, b: seq<ItemRow>, orders: set<int>, menu: set<int>, mid: int, hi: int)
    requires 1 <= mid <= hi
    requires RowsWithin(a, orders, menu, 1, mid) && RowsWithin(b, orders, menu, mid, hi)
    ensures RowsWithin(a + b, orders, menu, 1, hi)
  {
    var rows := a + b;
    forall k | 0 <= k < |rows|
      ensures rows[k].orderId in orders && rows[k].menuItemId in menu && 1 <= rows[k].id < hi
    {
      if k < |a| { assert rows[k] == a[k]; } else { assert rows[k] == b[k - |a|]; }
    }
    forall j, k | 0 <= j < k < |rows| ensures rows[j].id < rows[k].id {
      if k < |a| {
        assert rows[j] == a[j] && rows[k] == a[k];
      } else if j >= |a| {
        assert rows[j] == b[j - |a|] && rows[k] == b[k - |a|];
      } else {
        assert rows[j] == a[j] && rows[k] == b[k - |a|];
      }
    }
  }

  /** The rows left after deleting one order's rows keep the row facts, for the same orders. */
  lemma KeptRowsValid(s: Store, id: int)
    requires Valid(s)
    ensures RowsWithin(RowsNotOf(s.items, id), s.orders.Keys, s.menu.Keys, 1, s.nextItemId)
  {
    var kept := RowsNotOf(s.items, id);
    FilterKeepsIdsIncreasing(s.items, NotOfOrder(id));
    forall k | 0 <= k < |kept|
      ensures kept[k].orderId in s.orders.Keys && kept[k].menuItemId in s.menu.Keys
      ensures 1 <= kept[k].id < s.nextItemId
    {
      assert kept[k] in s.items;
    }
  }

  /** Inserted rows of insertable items satisfy the row facts for their id range. */
  lemma NewRowsValid(s: Store, orderId: int, items: seq<SubmittedItem>, orders: set<int>)
    requires Insertable(s.menu, items) && orderId in orders
    ensures RowsWithin(NewRows(orderId, s.nextItemId, items), orders, s.menu.Keys, s.nextItemId, s.nextItemId + |items|)
  {
    NewRowsFields(orderId, s.nextItemId, items);
  }

  lemma UpdatePreservesConsistent(s: Store, id: int, tableNumber: int, status: string, body: ItemsField)
    requires Consistent(s)
    ensures Consistent(Update(s, id, tableNumber, status, body).store)
  {
    var r := Update(s, id, tableNumber, status, body);
    if r.code == Ok {
      UpdateRows(s, id, tableNumber, status, body);
      forall o | o in r.store.orders
        ensures r.store.orders[o].total == SumBy(RowsOf(r.store.items, o), RowValue)
      {
        if o == id {
          NewRowsTotal(id, s.nextItemId, body.items);
        } else {
          assert RowsOf(r.store.items, o) == RowsOf(s.items, o);
        }
      }
    }
  }

  // ---------------------------------------------------------------------------------------
  // Status update and delete

  lemma UpdateStatusPreservesInvariants(s: Store, id: int, status: string)
    ensures Valid(s) ==> Valid(UpdateStatus(s, id, status).store)
    ensures Consistent(s) ==> Consistent(UpdateStatus(s, id, status).store)
  {
  }

  /** Deleting an order removes every `order_items` row of that order and no row of another. */
  lemma DeleteCascades(s: Store, id: int)
    requires id in s.orders
    ensures var after := Delete(s, id).store;
      && RowsOf(after.items, id) == []
      && (forall o :: o != id ==> RowsOf(after.items, o) == RowsOf(s.items, o))
  {
    RowsOfRowsNotOf(s.items, id, id);
    forall o | o != id ensures RowsOf(Delete(s, id).store.items, o) == RowsOf(s.items, o) {
      RowsOfRowsNotOf(s.items, id, o);
    }
  }

  lemma DeletePreservesValid(s: Store, id: int)
    requires Valid(s)
    ensures Valid(Delete(s, id).store)
  {
    if id in s.orders {
      var after := Delete(s, id).store;
      var kept := RowsNotOf(s.items, id);
      assert after.items == kept;
      FilterKeepsIdsIncreasing(s.items, NotOfOrder(id));
      forall k | 0 <= k < |kept|
        ensures kept[k].orderId in after.orders && kept[k].menuItemId in after.menu
        ensures 1 <= kept[k].id < after.nextItemId
      {
        assert kept[k] in s.items;
      }
    }
  }

  lemma DeletePreservesConsistent(s: Store, id: int)
    requires Consistent(s)
    ensures Consistent(Delete(s, id).store)
  {
    if id in s.orders {
      DeleteCascades(s, id);
    }
  }

  lemma MenuWritesPreserveInvariants(s: Store, id: int, f: MenuFields)
    ensures Valid(s) ==> Valid(UpdateMenuItem(s, id, f).store) && Valid(DeleteMenuItem(s, id).store)
    ensures Consistent(s) ==> Consistent(UpdateMenuItem(s, id, f).store) && Consistent(DeleteMenuItem(s, id).store)
  {
  }
}
