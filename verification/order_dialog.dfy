/** The "New Order" dialog of the orders page: a selection of `{id, quantity, price}` lines,
    the submit guard, the per-order total and the status chip colour. */
module OrderDialog {
  import opened Common
  import opened Types
  import opened Text
  import opened OrderStore
  import opened OrderListing

  /** A selected line: the menu item id, the quantity and the price snapshot. */
  datatype Selection = Selection(id: int, quantity: int, price: int)

  datatype Dialog = Dialog(open: bool, selected: seq<Selection>, tableNumber: int)

  /** The request body `ordersApi.create` posts. */
  datatype CreateRequest = CreateRequest(tableNumber: int, items: seq<Selection>)

  predicate Chosen(selected: seq<Selection>, id: int) {
    exists k :: 0 <= k < |selected| && selected[k].id == id
  }

  predicate DistinctIds(selected: seq<Selection>) {
    forall i, j :: 0 <= i < j < |selected| ==> selected[i].id != selected[j].id
  }

  function BumpSelection(line: Selection, id: int): Selection {
    if line.id == id then line.(quantity := line.quantity + 1) else line
  }

  /** `handleAddItem` */
  function AddItem(selected: seq<Selection>, m: MenuItem): (r: seq<Selection>)
    ensures forall id :: Chosen(r, id) <==> Chosen(selected, id) || id == m.id
  {
    if Chosen(selected, m.id) then
      var r := seq(|selected|, k requires 0 <= k < |selected| => BumpSelection(selected[k], m.id));
      assert forall k :: 0 <= k < |selected| ==> r[k].id == selected[k].id;
      r
    else
      var r := selected + [Selection(m.id, 1, m.price)];
      assert r[|selected|].id == m.id;
      assert forall k :: 0 <= k < |selected| ==> r[k] == selected[k];
      r
  }

  function KeepsSelection(id: int): Selection -> bool {
    (line: Selection) => line.id != id
  }

  /** `handleRemoveItem` */
  function RemoveItem(selected: seq<Selection>, id: int): (r: seq<Selection>)
    ensures !Chosen(r, id)
    ensures IsSubsequence(r, selected)
    ensures forall k :: 0 <= k < |selected| && selected[k].id != id ==> selected[k] in r
  {
    Filter(selected, KeepsSelection(id))
  }

  /** `handleOpen`: the dialog opens with no selection at table 1. */
  function HandleOpen(d: Dialog): Dialog {
    Dialog(true, [], 1)
  }

  /** `handleSubmit`: nothing is sent for an empty selection. */
  function Submit(d: Dialog): (r: Option<CreateRequest>)
    ensures r.Some? <==> |d.selected| > 0
    ensures r.Some? ==> r.value.items == d.selected && r.value.tableNumber == d.tableNumber
  {
    if |d.selected| == 0 then None else Some(CreateRequest(d.tableNumber, d.selected))
  }

  function ViewValue(item: ItemView): int {
    item.price * item.quantity
  }

  /** `calculateTotal` over an order's items as the listing returns them. */
  function CalculateTotal(items: seq<ItemView>): int {
    SumBy(items, ViewValue)
  }

  function SelectionValue(line: Selection): int {
    line.price * line.quantity
  }

  function SelectionTotal(selected: seq<Selection>): int {
    SumBy(selected, SelectionValue)
  }

  /** `getStatusColor`: a switch on the lower-cased status. */
  function GetStatusColor(status: string): string {
    match ToLower(status)
    case "pending" => "warning"
    case "preparing" => "info"
    case "ready" => "success"
    case _ => "default"
  }

  // ---------------------------------------------------------------------------------------

  /** Adding an item already chosen raises its quantity by one and leaves the other lines
      unchanged. */
  lemma AddExisting(selected: seq<Selection>, m: MenuItem, i: int)
    requires DistinctIds(selected) && 0 <= i < |selected| && selected[i].id == m.id
    ensures AddItem(selected, m) == selected[i := selected[i].(quantity := selected[i].quantity + 1)]
    ensures SelectionTotal(AddItem(selected, m)) == SelectionTotal(selected) + selected[i].price
  {
    assert forall k :: 0 <= k < |selected| && k != i ==> selected[k].id != m.id;
    SumByUpdate(selected, i, selected[i].(quantity := selected[i].quantity + 1), SelectionValue);
  }

  /** Adding an item not yet chosen appends `{id, quantity: 1, price}` at the end. */
  lemma AddNew(selected: seq<Selection>, m: MenuItem)
    requires !Chosen(selected, m.id)
    ensures AddItem(selected, m) == selected + [Selection(m.id, 1, m.price)]
    ensures SelectionTotal(AddItem(selected, m)) == SelectionTotal(selected) + m.price
  {
    SumByConcat(selected, [Selection(m.id, 1, m.price)], SelectionValue);
    SumBySingleton(Selection(m.id, 1, m.price), SelectionValue);
  }

  /** Removing a chosen id drops exactly its line and keeps the others in order. */
  lemma RemoveAt(selected: seq<Selection>, i: int)
    requires DistinctIds(selected) && 0 <= i < |selected|
    ensures RemoveItem(selected, selected[i].id) == selected[..i] + selected[i + 1..]
  {
    var p := KeepsSelection(selected[i].id);
    var a, b := selected[..i], selected[i + 1..];
    assert selected == a + [selected[i]] + b;
    assert forall k :: 0 <= k < |a| ==> p(a[k]) by {
      forall k | 0 <= k < |a| ensures p(a[k]) {
        assert a[k] == selected[k];
      }
    }
    assert forall k :: 0 <= k < |b| ==> p(b[k]) by {
      forall k | 0 <= k < |b| ensures p(b[k]) {
        assert b[k] == selected[i + 1 + k];
      }
    }
    FilterDropOne(a, selected[i], b, p);
  }

  lemma FilterKeepsDistinct(selected: seq<Selection>, p: Selection -> bool)
    requires DistinctIds(selected)
    ensures DistinctIds(Filter(selected, p))
  {
    FilterKeepsPairwise(selected, p, (a: Selection, b: Selection) => a.id != b.id);
  }

  /** Add and remove keep the chosen ids distinct. */
  lemma OperationsKeepDistinct(selected: seq<Selection>, m: MenuItem, id: int)
    requires DistinctIds(selected)
    ensures DistinctIds(AddItem(selected, m))
    ensures DistinctIds(RemoveItem(selected, id))
  {
    FilterKeepsDistinct(selected, KeepsSelection(id));
    if Chosen(selected, m.id) {
      var i :| 0 <= i < |selected| && selected[i].id == m.id;
      AddExisting(selected, m, i);
    }
  }

  /** Submitting right after opening the dialog sends nothing. */
  lemma OpenThenSubmitSendsNothing(d: Dialog)
    ensures HandleOpen(d).open && HandleOpen(d).tableNumber == 1
    ensures Submit(HandleOpen(d)) == None
  {
  }

  /** An empty order totals zero. */
  lemma CalculateTotalEmpty()
    ensures CalculateTotal([]) == 0
  {
  }

  /** For an order as listed from a consistent store, whatever order its rows came back in,
      `calculateTotal` of its items agrees with its stored `total_amount`. */
  lemma CalculateTotalMatchesStored(s: Store, rows: seq<JoinRow>, i: int)
    requires Valid(s) && Consistent(s) && IsJoinResult(s, rows)
    requires 0 <= i < |ListOrders(s, rows)|
    ensures var order := ListOrders(s, rows)[i];
      CalculateTotal(order.items) == order.header.total
  {
    ListShowsEachOrderOnce(s, rows);
    var order := ListOrders(s, rows)[i];
    var stored := RowsOf(s.items, order.id);
    SumByPerm(order.items, ViewsOf(s.menu, stored), ViewValue);
    SumByPointwise(ViewsOf(s.menu, stored), ViewValue, stored, RowValue);
  }

  /** The colour depends on the status only up to ASCII case. */
  lemma StatusColorIgnoresCase(status: string)
    ensures GetStatusColor(status) == GetStatusColor(ToLower(status))
  {
    ToLowerIdempotent(status);
  }

  /** Only the three active statuses get a colour of their own; every other status, including
      'delivered' and 'cancelled', gets 'default'. */
  lemma StatusColorDefault(status: string)
    ensures GetStatusColor(status) != "default" <==>
      ToLower(status) == "pending" || ToLower(status) == "preparing" || ToLower(status) == "ready"
    ensures GetStatusColor("cancelled") == "default" && GetStatusColor("delivered") == "default"
  {
    assert ToLower("cancelled") == "cancelled";
    assert ToLower("delivered") == "delivered";
  }
}
