/** What the client pages send to the order endpoints, fed through the server model: the order
    form's cart, the orders dialog, the status-only update of the API service, and the cart
    rebuilt when an order is edited. */
module Checkout {
  import opened Common
  import opened Types
  import opened OrderStore
  import opened OrderListing
  import opened OrderCart
  import opened OrderDialog
  import opened StatusFlow

  /** The order form sends its cart lines as they are: `{menu_item_id, name, quantity, price}`.
      The server reads `item.id`, which these lines do not have. */
  function CartPayload(cart: Cart): seq<SubmittedItem> {
    seq(|cart|, k requires 0 <= k < |cart| => SubmittedItem(None, cart[k].quantity, cart[k].price))
  }

  /** The cart lines with `id` set to the line's menu item id. */
  function CartPayloadFixed(cart: Cart): (items: seq<SubmittedItem>)
    ensures |items| == |cart|
    ensures forall k :: 0 <= k < |cart| ==> items[k].id == Some(cart[k].menuItemId)
  {
    seq(|cart|, k requires 0 <= k < |cart| => SubmittedItem(Some(cart[k].menuItemId), cart[k].quantity, cart[k].price))
  }

  /** The dialog's lines already carry `id`. */
  function DialogPayload(items: seq<Selection>): (payload: seq<SubmittedItem>)
    ensures |payload| == |items|
    ensures forall k :: 0 <= k < |items| ==> payload[k].id == Some(items[k].id)
  {
    seq(|items|, k requires 0 <= k < |items| => SubmittedItem(Some(items[k].id), items[k].quantity, items[k].price))
  }

  /** The order form's cart rebuilt from a listed order by `handleEdit`: `item.id ||
      item.menu_item_id` takes the order line's own id whenever it is non-zero. */
  function EditCartAsWritten(order: OrderView): Cart {
    seq(|order.items|, k requires 0 <= k < |order.items| =>
      var v := order.items[k];
      OrderItem(if v.id != 0 then v.id else v.menuItemId, v.name.GetOr(""), v.quantity, v.price))
  }

  /** The cart rebuilt from the lines' menu item ids. */
  function EditCart(order: OrderView): (cart: Cart)
    ensures |cart| == |order.items|
    ensures forall k :: 0 <= k < |cart| ==>
      cart[k].menuItemId == order.items[k].menuItemId &&
      cart[k].quantity == order.items[k].quantity && cart[k].price == order.items[k].price
  {
    seq(|order.items|, k requires 0 <= k < |order.items| =>
      var v := order.items[k];
      OrderItem(v.menuItemId, v.name.GetOr(""), v.quantity, v.price))
  }

  // ---------------------------------------------------------------------------------------
  // The order form's submit

  /** Whatever the store holds, the order form cannot create an order: every non-empty cart is
      answered 500 and the store is left unchanged. */
  lemma CartCreateFails(s: Store, tableNumber: int, cart: Cart)
    requires |cart| > 0
    ensures Create(s, tableNumber, Items(CartPayload(cart))) == Reply(ServerError, s)
  {
    assert CartPayload(cart)[0].id == None;
  }

  /** Nor can it save an edited order: an existing order answers 500, a missing one 404, and
      the store is unchanged either way. */
  lemma CartUpdateFails(s: Store, id: int, tableNumber: int, status: string, cart: Cart)
    requires |cart| > 0
    ensures Update(s, id, tableNumber, status, Items(CartPayload(cart))) ==
      Reply(if id in s.orders then ServerError else NotFound, s)
  {
    assert CartPayload(cart)[0].id == None;
  }

  /** With the id sent, a cart whose items are all on the menu creates an order whose
      `total_amount` is the total the form displayed. */
  lemma CartCreateFixed(s: Store, tableNumber: int, cart: Cart)
    requires |cart| > 0
    requires forall k :: 0 <= k < |cart| ==> cart[k].menuItemId in s.menu
    ensures var r := Create(s, tableNumber, Items(CartPayloadFixed(cart)));
      && r.code == Created
      && r.store.orders[s.nextOrderId] == OrderRow(tableNumber, "pending", Total(cart))
  {
    SumByPointwise(CartPayloadFixed(cart), SubmittedValue, cart, LineValue);
  }

  /** With the id sent, saving an edited order replaces its items and sets its total to the
      total the form displayed. */
  lemma CartUpdateFixed(s: Store, id: int, tableNumber: int, status: string, cart: Cart)
    requires |cart| > 0 && id in s.orders
    requires forall k :: 0 <= k < |cart| ==> cart[k].menuItemId in s.menu
    ensures var r := Update(s, id, tableNumber, status, Items(CartPayloadFixed(cart)));
      && r.code == Ok
      && r.store.orders[id] == OrderRow(tableNumber, status, Total(cart))
  {
    SumByPointwise(CartPayloadFixed(cart), SubmittedValue, cart, LineValue);
  }

  /** An enabled submit button never draws the 400 of a missing or empty `items`. */
  lemma EnabledSubmitIsNotBadRequest(s: Store, tableNumber: int, isSubmitting: bool, cart: Cart)
    requires SubmitEnabled(isSubmitting, cart)
    ensures Create(s, tableNumber, Items(CartPayload(cart))).code != BadRequest
    ensures Create(s, tableNumber, Items(CartPayloadFixed(cart))).code != BadRequest
  {
    CartCreateFails(s, tableNumber, cart);
  }

  // ---------------------------------------------------------------------------------------
  // The orders dialog and the API service

  /** A dialog submission creates an order at the chosen table whose total is the total of the
      selection, provided its items are on the menu; otherwise it is answered 500 and nothing
      is stored. */
  lemma DialogSubmitCreates(s: Store, d: Dialog)
    requires Submit(d).Some?
    ensures var req := Submit(d).value;
      var r := Create(s, req.tableNumber, Items(DialogPayload(req.items)));
      && (r.code == Created <==> forall k :: 0 <= k < |d.selected| ==> d.selected[k].id in s.menu)
      && (r.code == Created ==> r.store.orders[s.nextOrderId] == OrderRow(d.tableNumber, "pending", SelectionTotal(d.selected)))
      && (r.code != Created ==> r == Reply(ServerError, s))
  {
    var payload := DialogPayload(d.selected);
    SumByPointwise(payload, SubmittedValue, d.selected, SelectionValue);
    if !(forall k :: 0 <= k < |d.selected| ==> d.selected[k].id in s.menu) {
      var k :| 0 <= k < |d.selected| && d.selected[k].id !in s.menu;
      assert payload[k].id == Some(d.selected[k].id);
    }
  }

  /** `ordersApi.updateStatus` sends only `{status}` to the full-update route, which rejects
      it with 400 before touching the store. */
  lemma StatusOnlyUpdateRejected(s: Store, id: int, tableNumber: int, status: string)
    ensures Update(s, id, tableNumber, status, Absent) == Reply(BadRequest, s)
  {
  }

  /** The same status change sent to the status route instead: an existing order takes the new
      status and keeps its table, total and items; an unknown id answers 404 with nothing
      changed. */
  lemma StatusRouteUpdate(s: Store, id: int, status: string)
    ensures var r := UpdateStatus(s, id, status);
      && (r.code == Ok <==> id in s.orders)
      && (id !in s.orders ==> r == Reply(NotFound, s))
      && (id in s.orders ==>
            && r.store.orders[id] == s.orders[id].(status := status)
            && r.store.items == s.items
            && (forall o :: o in s.orders && o != id ==> r.store.orders[o] == s.orders[o]))
  {
  }

  /** The routing of `PATCH /orders/:id`, which the kitchen view's buttons send. This models
      no handler: the server registers no PATCH route, so Express's router answers 404 and the
      store is untouched. */
  function PatchOrder(s: Store, id: int, status: string): Reply {
    Reply(NotFound, s)
  }

  /** As written, pressing an advance button never changes the stored status: the request is
      answered 404 and the view shows its update error. */
  lemma KitchenAdvanceNeverStored(s: Store, id: int, st: Status)
    requires id in s.orders && Next(st).Some?
    ensures var r := PatchOrder(s, id, Wire(Next(st).value));
      r.code == NotFound && r.store.orders[id].status == s.orders[id].status
  {
  }

  /** The status route stores any string within the column width, including 'cancelled',
      which lies outside the kitchen view's four statuses. */
  lemma ServerAcceptsAnyStatus(s: Store, id: int, status: string)
    requires id in s.orders
    ensures UpdateStatus(s, id, status).code == Ok
    ensures UpdateStatus(s, id, status).store.orders[id].status == status
    ensures UpdateStatus(s, id, "cancelled").code == Ok && ParseStatus("cancelled") == None
  {
  }

  /** The kitchen view's advance button, sent to the status route, stores the wire name of the
      next status, which reads back as that next status. */
  lemma AdvanceStoresNext(s: Store, id: int, st: Status)
    requires id in s.orders && Next(st).Some?
    ensures var r := UpdateStatus(s, id, Wire(Next(st).value));
      r.code == Ok && ParseStatus(r.store.orders[id].status) == Next(st)
  {
    WireRoundTrip(Next(st).value, Wire(Next(st).value));
  }

  // ---------------------------------------------------------------------------------------
  // Editing a listed order

  /** An order line whose own id differs from its menu item id is put in the cart under the
      wrong key, so adding that menu item again opens a second line instead of raising the
      quantity. */
  lemma EditCartExample()
    ensures var order := OrderView(1, OrderRow(4, "pending", 1000), [ItemView(7, 3, Some("Suco"), 2, 500)]);
      var cart := EditCartAsWritten(order);
      && cart == [OrderItem(7, "Suco", 2, 500)]
      && |OrderCart.AddItem(cart, MenuItem(3, "Suco", "", 500, "bebida", true))| == 2
      && |OrderCart.AddItem(EditCart(order), MenuItem(3, "Suco", "", 500, "bebida", true))| == 1
  {
    var order := OrderView(1, OrderRow(4, "pending", 1000), [ItemView(7, 3, Some("Suco"), 2, 500)]);
    var m := MenuItem(3, "Suco", "", 500, "bebida", true);
    assert !Selected(EditCartAsWritten(order), 3);
    assert EditCart(order)[0].menuItemId == 3;
    assert Selected(EditCart(order), 3);
  }

  /** For an order listed from a consistent store, whatever order its rows came back in, the
      rebuilt cart holds menu items of the store and its total is the order's stored
      `total_amount`. */
  lemma EditCartMatchesOrder(s: Store, rows: seq<JoinRow>, i: int)
    requires Valid(s) && Consistent(s) && IsJoinResult(s, rows)
    requires 0 <= i < |ListOrders(s, rows)|
    ensures var order := ListOrders(s, rows)[i];
      && Total(EditCart(order)) == order.header.total
      && (forall k :: 0 <= k < |EditCart(order)| ==> EditCart(order)[k].menuItemId in s.menu)
  {
    var order := ListOrders(s, rows)[i];
    SumByPointwise(EditCart(order), LineValue, order.items, ViewValue);
    CalculateTotalMatchesStored(s, rows, i);
    ListedItemsOnMenu(s, rows, i);
  }
}
