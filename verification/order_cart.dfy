/** The order form's selection ("cart") and menu picker: a sequence of lines keyed by
    `menu_item_id`, with add, remove, set-quantity, the running total, the category buttons
    and the filtered menu. */
module OrderCart {
  import opened Common
  import opened Types
  import opened Text

  type Cart = seq<OrderItem>

  function LineValue(line: OrderItem): int {
    line.price * line.quantity
  }

  /** `selectedItems.reduce((sum, item) => sum + price * item.quantity, 0)`: the displayed
      total and the submitted `total_amount`. */
  function Total(cart: Cart): int {
    SumBy(cart, LineValue)
  }

  /** `selectedItems.find(item => item.menu_item_id === id)` finds a line. */
  predicate Selected(cart: Cart, id: int) {
    exists k :: 0 <= k < |cart| && cart[k].menuItemId == id
  }

  predicate DistinctIds(cart: Cart) {
    forall i, j :: 0 <= i < j < |cart| ==> cart[i].menuItemId != cart[j].menuItemId
  }

  /** The invariant add, remove and set-quantity keep. */
  predicate WellFormed(cart: Cart) {
    DistinctIds(cart) && forall k :: 0 <= k < |cart| ==> cart[k].quantity >= 1
  }

  function QuantityTerm(id: int): OrderItem -> int {
    (line: OrderItem) => if line.menuItemId == id then line.quantity else 0
  }

  /** How many units of menu item `id` the cart holds: the abstract view of a cart. */
  function QuantityOf(cart: Cart, id: int): int {
    SumBy(cart, QuantityTerm(id))
  }

  function Bump(line: OrderItem, id: int): OrderItem {
    if line.menuItemId == id then line.(quantity := line.quantity + 1) else line
  }

  /** `handleAddItem`: one more unit of a selected item, or a new line of quantity 1 at the
      menu price. */
  function AddItem(cart: Cart, m: MenuItem): (r: Cart)
    ensures |r| == if Selected(cart, m.id) then |cart| else |cart| + 1
    ensures forall id :: Selected(r, id) <==> Selected(cart, id) || id == m.id
  {
    if Selected(cart, m.id) then
      var r := seq(|cart|, k requires 0 <= k < |cart| => Bump(cart[k], m.id));
      assert forall k :: 0 <= k < |cart| ==> r[k].menuItemId == cart[k].menuItemId;
      r
    else
      var r := cart + [OrderItem(m.id, m.name, 1, m.price)];
      assert r[|cart|].menuItemId == m.id;
      assert forall k :: 0 <= k < |cart| ==> r[k] == cart[k];
      r
  }

  function Keeps(id: int): OrderItem -> bool {
    (line: OrderItem) => line.menuItemId != id
  }

  /** `handleRemoveItem`: `filter(item => item.menu_item_id !== id)`. */
  function Remove(cart: Cart, id: int): (r: Cart)
    ensures !Selected(r, id)
    ensures forall x :: x != id ==> (Selected(r, x) <==> Selected(cart, x))
    ensures IsSubsequence(r, cart)
  {
    var r := Filter(cart, Keeps(id));
    forall x | x != id && Selected(cart, x) ensures Selected(r, x) {
      var k :| 0 <= k < |cart| && cart[k].menuItemId == x;
      var j :| 0 <= j < |r| && r[j] == cart[k];
    }
    forall x | Selected(r, x) ensures Selected(cart, x) {
      var j :| 0 <= j < |r| && r[j].menuItemId == x;
      var k :| 0 <= k < |cart| && cart[k] == r[j];
    }
    r
  }

  function SetLine(line: OrderItem, id: int, quantity: int): OrderItem {
    if line.menuItemId == id then line.(quantity := quantity) else line
  }

  /** `handleUpdateQuantity`: below 1 removes the line, otherwise sets the matching line's
      quantity. */
  function UpdateQuantity(cart: Cart, id: int, quantity: int): (r: Cart)
    ensures quantity < 1 ==> r == Remove(cart, id)
    ensures quantity >= 1 ==> |r| == |cart| && forall x :: Selected(r, x) <==> Selected(cart, x)
  {
    if quantity < 1 then Remove(cart, id)
    else
      var r := seq(|cart|, k requires 0 <= k < |cart| => SetLine(cart[k], id, quantity));
      assert forall k :: 0 <= k < |cart| ==> r[k].menuItemId == cart[k].menuItemId;
      r
  }

  /** `disabled={isSubmitting || selectedItems.length === 0}` negated. */
  predicate SubmitEnabled(isSubmitting: bool, cart: Cart) {
    !isSubmitting && |cart| > 0
  }

  // ---------------------------------------------------------------------------------------
  // Categories and the filtered menu

  /** `item.category || 'other'` */
  function CategoryKey(item: MenuItem): string {
    if item.category == "" then "other" else item.category
  }

  function CategoryKeys(menu: seq<MenuItem>): (keys: seq<string>)
    ensures |keys| == |menu| && forall k :: 0 <= k < |menu| ==> keys[k] == CategoryKey(menu[k])
  {
    seq(|menu|, k requires 0 <= k < |menu| => CategoryKey(menu[k]))
  }

  /** `['all', ...new Set(menuItems.map(item => item.category || 'other'))]` */
  function Categories(menu: seq<MenuItem>): (r: seq<string>)
    ensures |r| > 0 && r[0] == "all"
    ensures forall k :: 0 <= k < |menu| ==> CategoryKey(menu[k]) in r[1..]
    ensures forall k :: 1 <= k < |r| ==> exists j :: 0 <= j < |menu| && r[k] == CategoryKey(menu[j])
    ensures Distinct(r[1..])
    ensures forall k :: 1 <= k < |r| ==> r[k] in CategoryKeys(menu)
    ensures forall i, j :: 1 <= i < j < |r| ==>
      FirstIndex(CategoryKeys(menu), r[i]) < FirstIndex(CategoryKeys(menu), r[j])
  {
    PrependDedup("all", CategoryKeys(menu));
    CategoriesFromMenu(menu);
    ["all"] + Dedup(CategoryKeys(menu))
  }

  /** Each button after 'all' is the key of an item of the menu. */
  lemma CategoriesFromMenu(menu: seq<MenuItem>)
    ensures var r := ["all"] + Dedup(CategoryKeys(menu));
      forall k :: 1 <= k < |r| ==> exists j :: 0 <= j < |menu| && r[k] == CategoryKey(menu[j])
  {
    var keys := CategoryKeys(menu);
    var r := ["all"] + Dedup(keys);
    forall k | 1 <= k < |r| ensures exists j :: 0 <= j < |menu| && r[k] == CategoryKey(menu[j]) {
      assert r[k] == Dedup(keys)[k - 1];
      var j :| 0 <= j < |keys| && keys[j] == r[k];
    }
  }

  /** The category test and the case-insensitive name search of `filteredMenuItems`. */
  function MenuMatch(selectedCategory: string, searchTerm: string): MenuItem -> bool {
    (item: MenuItem) =>
      (selectedCategory == "all" || item.category == selectedCategory) &&
      Contains(ToLower(item.name), ToLower(searchTerm))
  }

  /** `filteredMenuItems` */
  function FilteredMenuItems(menu: seq<MenuItem>, selectedCategory: string, searchTerm: string): (r: seq<MenuItem>)
    ensures r == Filter(menu, MenuMatch(selectedCategory, searchTerm))
    ensures IsSubsequence(r, menu)
    ensures forall k :: 0 <= k < |menu| ==>
      (menu[k] in r <==>
        (selectedCategory == "all" || menu[k].category == selectedCategory) &&
        Contains(ToLower(menu[k].name), ToLower(searchTerm)))
  {
    var p := MenuMatch(selectedCategory, searchTerm);
    var r := Filter(menu, p);
    forall k | 0 <= k < |menu| && menu[k] in r ensures p(menu[k]) {
      var j :| 0 <= j < |r| && r[j] == menu[k];
    }
    r
  }

  // ---------------------------------------------------------------------------------------
  // Properties of the cart operations

  lemma {:induction false} QuantityOfAbsent(cart: Cart, id: int)
    requires !Selected(cart, id)
    ensures QuantityOf(cart, id) == 0
    decreases |cart|
  {
    if |cart| > 0 {
      var n := |cart| - 1;
      assert forall k :: 0 <= k < n ==> cart[..n][k] == cart[k];
      QuantityOfAbsent(cart[..n], id);
    }
  }

  /** The only line of `id` in a cart with distinct ids is at `i`. */
  lemma OnlyLine(cart: Cart, i: int, id: int)
    requires DistinctIds(cart) && 0 <= i < |cart| && cart[i].menuItemId == id
    ensures forall k :: 0 <= k < |cart| && k != i ==> cart[k].menuItemId != id
  {
  }

  /** With distinct ids, the units of the item at `i` are that line's quantity. */
  lemma QuantityOfAt(cart: Cart, i: int)
    requires DistinctIds(cart) && 0 <= i < |cart|
    ensures QuantityOf(cart, cart[i].menuItemId) == cart[i].quantity
  {
    var id := cart[i].menuItemId;
    var zeroed := cart[i := cart[i].(menuItemId := id + 1)];
    assert !Selected(zeroed, id) by {
      forall k | 0 <= k < |zeroed| ensures zeroed[k].menuItemId != id {
        if k != i {
          assert cart[k].menuItemId != id;
        }
      }
    }
    QuantityOfAbsent(zeroed, id);
    SumByUpdate(zeroed, i, cart[i], QuantityTerm(id));
    assert zeroed[i := cart[i]] == cart;
  }

  /** Adding a selected item is replacing its line by one with one more unit. */
  lemma AddExistingIsBump(cart: Cart, m: MenuItem, i: int)
    requires DistinctIds(cart) && 0 <= i < |cart| && cart[i].menuItemId == m.id
    ensures AddItem(cart, m) == cart[i := cart[i].(quantity := cart[i].quantity + 1)]
  {
    OnlyLine(cart, i, m.id);
  }

  /** Adding an item already selected raises its quantity by one and its total by its line
      price, and leaves every other line unchanged. */
  lemma AddExisting(cart: Cart, m: MenuItem, i: int)
    requires DistinctIds(cart) && 0 <= i < |cart| && cart[i].menuItemId == m.id
    ensures var r := AddItem(cart, m);
      && |r| == |cart|
      && r[i].quantity == cart[i].quantity + 1
      && r[i].menuItemId == m.id && r[i].name == cart[i].name && r[i].price == cart[i].price
      && (forall k :: 0 <= k < |cart| && k != i ==> r[k] == cart[k])
      && Total(r) == Total(cart) + cart[i].price
      && (forall id :: QuantityOf(r, id) == QuantityOf(cart, id) + (if id == m.id then 1 else 0))
  {
    AddExistingIsBump(cart, m, i);
    var bumped := cart[i].(quantity := cart[i].quantity + 1);
    SumByUpdate(cart, i, bumped, LineValue);
    forall id ensures QuantityOf(AddItem(cart, m), id) == QuantityOf(cart, id) + (if id == m.id then 1 else 0) {
      SumByUpdate(cart, i, bumped, QuantityTerm(id));
    }
  }

  /** Adding an unselected item appends one line with quantity 1 and the item's menu price. */
  lemma AddNew(cart: Cart, m: MenuItem)
    requires !Selected(cart, m.id)
    ensures var r := AddItem(cart, m);
      && r == cart + [OrderItem(m.id, m.name, 1, m.price)]
      && Total(r) == Total(cart) + m.price
      && (forall id :: QuantityOf(r, id) == QuantityOf(cart, id) + (if id == m.id then 1 else 0))
  {
    var line := OrderItem(m.id, m.name, 1, m.price);
    SumByConcat(cart, [line], LineValue);
    SumBySingleton(line, LineValue);
    forall id ensures QuantityOf(AddItem(cart, m), id) == QuantityOf(cart, id) + (if id == m.id then 1 else 0) {
      SumByConcat(cart, [line], QuantityTerm(id));
      SumBySingleton(line, QuantityTerm(id));
    }
  }

  /** Removing a selected id drops exactly its line and keeps the rest in order. */
  lemma RemoveAt(cart: Cart, i: int)
    requires DistinctIds(cart) && 0 <= i < |cart|
    ensures Remove(cart, cart[i].menuItemId) == cart[..i] + cart[i + 1..]
  {
    var p := Keeps(cart[i].menuItemId);
    var a, b := cart[..i], cart[i + 1..];
    assert cart == a + [cart[i]] + b;
    assert forall k :: 0 <= k < |a| ==> p(a[k]) by {
      forall k | 0 <= k < |a| ensures p(a[k]) {
        assert a[k] == cart[k];
      }
    }
    assert forall k :: 0 <= k < |b| ==> p(b[k]) by {
      forall k | 0 <= k < |b| ensures p(b[k]) {
        assert b[k] == cart[i + 1 + k];
      }
    }
    FilterDropOne(a, cart[i], b, p);
  }

  /** Removing a selected id lowers the total by that line's value. */
  lemma RemoveAtTotal(cart: Cart, i: int)
    requires DistinctIds(cart) && 0 <= i < |cart|
    ensures Total(Remove(cart, cart[i].menuItemId)) == Total(cart) - LineValue(cart[i])
  {
    RemoveAt(cart, i);
    var a, b := cart[..i], cart[i + 1..];
    assert cart == a + [cart[i]] + b;
    SumByDropOne(a, cart[i], b, LineValue);
  }

  lemma DropLineQuantities(cart: Cart, i: int)
    requires 0 <= i < |cart|
    ensures forall x :: x != cart[i].menuItemId ==> QuantityOf(cart[..i] + cart[i + 1..], x) == QuantityOf(cart, x)
  {
    var a, b := cart[..i], cart[i + 1..];
    assert cart == a + [cart[i]] + b;
    forall x | x != cart[i].menuItemId ensures QuantityOf(a + b, x) == QuantityOf(cart, x) {
      SumByDropOne(a, cart[i], b, QuantityTerm(x));
    }
  }

  /** Removing leaves no units of that id and every other id's units unchanged. */
  lemma RemoveQuantities(cart: Cart, id: int)
    requires DistinctIds(cart)
    ensures forall x :: QuantityOf(Remove(cart, id), x) == if x == id then 0 else QuantityOf(cart, x)
  {
    QuantityOfAbsent(Remove(cart, id), id);
    if Selected(cart, id) {
      var i :| 0 <= i < |cart| && cart[i].menuItemId == id;
      RemoveAt(cart, i);
      DropLineQuantities(cart, i);
    } else {
      RemoveAbsent(cart, id);
    }
  }

  /** Removing an id that is not selected changes nothing. */
  lemma RemoveAbsent(cart: Cart, id: int)
    requires !Selected(cart, id)
    ensures Remove(cart, id) == cart
  {
    FilterAll(cart, Keeps(id));
  }

  /** Setting a quantity of at least 1 on a selected id replaces that line's quantity and the
      line's share of the total, and nothing else. */
  lemma UpdateQuantityAt(cart: Cart, i: int, quantity: int)
    requires DistinctIds(cart) && 0 <= i < |cart| && quantity >= 1
    ensures var r := UpdateQuantity(cart, cart[i].menuItemId, quantity);
      && r == cart[i := cart[i].(quantity := quantity)]
      && Total(r) == Total(cart) - LineValue(cart[i]) + cart[i].price * quantity
  {
    OnlyLine(cart, i, cart[i].menuItemId);
    SumByUpdate(cart, i, cart[i].(quantity := quantity), LineValue);
  }

  /** Setting a quantity of at least 1 on a selected id makes that id's units the new
      quantity and leaves every other id's units unchanged. */
  lemma UpdateQuantityQuantities(cart: Cart, i: int, quantity: int)
    requires DistinctIds(cart) && 0 <= i < |cart| && quantity >= 1
    ensures var r := UpdateQuantity(cart, cart[i].menuItemId, quantity);
      forall x :: QuantityOf(r, x) == if x == cart[i].menuItemId then quantity else QuantityOf(cart, x)
  {
    var id := cart[i].menuItemId;
    UpdateQuantityAt(cart, i, quantity);
    QuantityOfAt(cart, i);
    forall x ensures QuantityOf(UpdateQuantity(cart, id, quantity), x) ==
      if x == id then quantity else QuantityOf(cart, x)
    {
      SumByUpdate(cart, i, cart[i].(quantity := quantity), QuantityTerm(x));
    }
  }

  /** Setting a quantity on an id that is not selected changes nothing. */
  lemma UpdateQuantityAbsent(cart: Cart, id: int, quantity: int)
    requires !Selected(cart, id)
    ensures UpdateQuantity(cart, id, quantity) == cart
  {
    if quantity < 1 {
      RemoveAbsent(cart, id);
    }
  }

  lemma FilterKeepsWellFormed(cart: Cart, p: OrderItem -> bool)
    requires WellFormed(cart)
    ensures WellFormed(Filter(cart, p))
  {
    FilterKeepsPairwise(cart, p, (a: OrderItem, b: OrderItem) => a.menuItemId != b.menuItemId);
  }

  /** Adding keeps the ids distinct and every quantity at least 1. */
  lemma AddPreservesWellFormed(cart: Cart, m: MenuItem)
    requires WellFormed(cart)
    ensures WellFormed(AddItem(cart, m))
  {
    if Selected(cart, m.id) {
      var i :| 0 <= i < |cart| && cart[i].menuItemId == m.id;
      AddExistingIsBump(cart, m, i);
    }
  }

  /** Removing keeps the ids distinct and every quantity at least 1. */
  lemma RemovePreservesWellFormed(cart: Cart, id: int)
    requires WellFormed(cart)
    ensures WellFormed(Remove(cart, id))
  {
    FilterKeepsWellFormed(cart, Keeps(id));
  }

  /** Setting a quantity keeps the ids distinct and every quantity at least 1. */
  lemma UpdateQuantityPreservesWellFormed(cart: Cart, id: int, quantity: int)
    requires WellFormed(cart)
    ensures WellFormed(UpdateQuantity(cart, id, quantity))
  {
    if quantity < 1 {
      RemovePreservesWellFormed(cart, id);
    } else if Selected(cart, id) {
      var i :| 0 <= i < |cart| && cart[i].menuItemId == id;
      UpdateQuantityAt(cart, i, quantity);
    } else {
      UpdateQuantityAbsent(cart, id, quantity);
    }
  }

  /** The submit button is disabled whenever the selection is empty. */
  lemma EmptyCartCannotSubmit(isSubmitting: bool)
    ensures !SubmitEnabled(isSubmitting, [])
  {
  }

  // ---------------------------------------------------------------------------------------
  // Properties of the menu picker

  /** Category 'all' with an empty search shows the whole menu. */
  lemma AllWithEmptySearch(menu: seq<MenuItem>)
    ensures FilteredMenuItems(menu, "all", "") == menu
  {
    ToLowerEmpty();
    forall k | 0 <= k < |menu| ensures MenuMatch("all", "")(menu[k]) {
      ContainsEmpty(ToLower(menu[k].name));
    }
    FilterAll(menu, MenuMatch("all", ""));
  }

  /** The category buttons are duplicate-free exactly when no item's key is 'all'. */
  lemma CategoriesDistinct(menu: seq<MenuItem>)
    ensures Distinct(Categories(menu)) <==> forall k :: 0 <= k < |menu| ==> CategoryKey(menu[k]) != "all"
  {
    var keys := CategoryKeys(menu);
    assert Categories(menu) == ["all"] + Dedup(keys);
    PrependDistinct("all", Dedup(keys));
    assert "all" in Dedup(keys) <==> "all" in keys;
    assert "all" in keys ==> exists k :: 0 <= k < |menu| && CategoryKey(menu[k]) == "all" by {
      if "all" in keys {
        var k :| 0 <= k < |keys| && keys[k] == "all";
      }
    }
  }

  /** The category test compares the raw category, so the 'other' button that the categories
      list offers for uncategorised items shows none of them. */
  lemma OtherButtonMissesUncategorised(menu: seq<MenuItem>, searchTerm: string, k: int)
    requires 0 <= k < |menu| && menu[k].category == ""
    ensures "other" in Categories(menu)
    ensures menu[k] !in FilteredMenuItems(menu, "other", searchTerm)
  {
    assert CategoryKey(menu[k]) == "other";
  }

  /** A one-item menu without a category: its only category button besides 'all' is 'other',
      and that button shows nothing. */
  lemma OtherButtonExample()
    ensures var menu := [MenuItem(1, "Agua", "", 500, "", true)];
      Categories(menu) == ["all", "other"] && FilteredMenuItems(menu, "other", "") == []
  {
    var menu := [MenuItem(1, "Agua", "", 500, "", true)];
    SingleItemCategories(menu[0]);
    OtherButtonMissesUncategorised(menu, "", 0);
    SingleItemFilter(menu[0], "other", "");
  }

  lemma SingleItemCategories(item: MenuItem)
    ensures Categories([item]) == ["all", CategoryKey(item)]
  {
    assert CategoryKeys([item]) == [CategoryKey(item)];
    assert Dedup([CategoryKey(item)]) == [CategoryKey(item)] by {
      assert [CategoryKey(item)][..0] == [];
    }
  }

  lemma SingleItemFilter(item: MenuItem, selectedCategory: string, searchTerm: string)
    requires item !in FilteredMenuItems([item], selectedCategory, searchTerm)
    ensures FilteredMenuItems([item], selectedCategory, searchTerm) == []
  {
  }

  /** `filteredMenuItems` with the category test on the same key the buttons are built from. */
  function FilteredMenuItemsByKey(menu: seq<MenuItem>, selectedCategory: string, searchTerm: string): (r: seq<MenuItem>)
    ensures IsSubsequence(r, menu)
    ensures forall k :: 0 <= k < |menu| ==>
      (menu[k] in r <==>
        (selectedCategory == "all" || CategoryKey(menu[k]) == selectedCategory) &&
        Contains(ToLower(menu[k].name), ToLower(searchTerm)))
  {
    var p := (item: MenuItem) =>
      (selectedCategory == "all" || CategoryKey(item) == selectedCategory) &&
      Contains(ToLower(item.name), ToLower(searchTerm));
    var r := Filter(menu, p);
    forall k | 0 <= k < |menu| && menu[k] in r ensures p(menu[k]) {
      var j :| 0 <= j < |r| && r[j] == menu[k];
    }
    r
  }

  /** With the key-based test every item matching the search is shown under the button of its
      own category, and a button shows no item of another category. */
  lemma EveryItemHasItsButton(menu: seq<MenuItem>, searchTerm: string, k: int, c: string)
    requires 0 <= k < |menu|
    requires Contains(ToLower(menu[k].name), ToLower(searchTerm))
    ensures CategoryKey(menu[k]) in Categories(menu)[1..]
    ensures menu[k] in FilteredMenuItemsByKey(menu, CategoryKey(menu[k]), searchTerm)
    ensures c != "all" && c != CategoryKey(menu[k]) ==> menu[k] !in FilteredMenuItemsByKey(menu, c, searchTerm)
  {
  }
}
