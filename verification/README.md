# Restaurant POS: orders and menu, modelled in Dafny

This project models the order and menu core of a small restaurant point-of-sale system: an
Express server over three MySQL tables (`menu_items`, `orders`, `order_items`) and the React
pages that build orders, move them through the kitchen statuses and administer the menu.

- **OrderStore** (`order_store.dfy`) is the server's write endpoints as a pure state machine:
  create, full update, status update and delete of orders, and update and delete of menu items.
  The store holds the three tables and the two auto-increment counters. Each handler returns
  the HTTP status and the store after the request, and a rollback returns the store it started
  from. `Valid` captures what the schema guarantees: positive ids below their counters, foreign
  keys, and `order_items` rows in id order. `Consistent` says each order's `total_amount` is
  the sum over its rows.
- **OrderListing** (`order_listing.dfy`) is `GET /api/orders`: the LEFT JOIN, the `reduce`
  that groups it by order id, and `Object.values`. The rows the database returns are any
  sequence holding exactly the join's rows: `ORDER BY created_at DESC` compares timestamps of
  one-second resolution, and nothing orders the rows within an order, nor the rows re-read
  after a create. The listing's orders, ids and headers are proved independent of that row
  order; each order's items are its rows' views up to permutation.
- **OrderCart** (`order_cart.dfy`) is the order form's cart, category buttons and menu filter.
  **OrderDialog** (`order_dialog.dfy`) is the orders page's "New Order" dialog.
  **StatusFlow** (`status_flow.dfy`) is the kitchen view's four statuses and advance buttons.
- **MenuGrid**, **MenuItemForm** and **MenuItems** are the menu grid (filter, search,
  grouping), the menu item form's validation, and the menu administration page.
- **Checkout** (`checkout.dfy`) feeds what the client pages send into the server model. This is
  where most of the findings below live.
- **Common**, **Text** and **Types** hold shared building blocks:
  - `reduce` sums, `filter`, de-duplication;
  - `toLowerCase`, `includes`, `trim`;
  - the client's records.

Prices are integer cents throughout.

## Model

| member | source | states |
|---|---|---|
| OrderStore.Create | server/index.js:214-286 | A missing, non-array or empty `items` answers 400 and changes nothing. The order is created (201) exactly when every item has an id on the menu; otherwise the answer is 500 and the store is rolled back. A created order takes the next id, status 'pending' and total Σ price×quantity; the other orders and the menu are untouched. |
| OrderStore.Update | server/index.js:289-370 | The guard answers 400 first, then an unknown id 404, then a bad item 500 with rollback. Only a full success answers 200: it sets table, status and recomputed total on that order alone and keeps the set of orders. |
| OrderStore.UpdateStatus | server/index.js:373-392 | An unknown id answers 404 with nothing changed. Otherwise the answer is 200 and only that order's status changes; any string within the column width is stored. |
| OrderStore.Delete | server/index.js:395-426 | An unknown id answers 404 (rolled back). Otherwise the answer is 204, the order is removed and every other order is unchanged. |
| OrderStore.UpdateMenuItem | server/index.js:137-155 | An unknown id answers 404. Otherwise the answer is 200, that item takes the new fields, other items are unchanged, and orders and rows are untouched. |
| OrderStore.DeleteMenuItem | server/index.js:157-169 | The answer is 404 iff the id is not on the menu. It is 500 iff the item is referenced by an order row (foreign key). Otherwise it is 204 and the item alone is removed; any failure leaves the store unchanged. |
| OrderStore.CreateInsertsOneRowPerItem | server/index.js:236-246 | A created order gets exactly one row per submitted item, in submission order, with the submitted menu id, quantity and price. No other order's rows change. |
| OrderStore.CreatePreservesValid | server/index.js:55-94 | Creating keeps ids below their counters, both foreign keys, and the increasing row ids. |
| OrderStore.CreatePreservesConsistent | server/index.js:227-246 | After a create, every order's stored total is still the sum of its rows. |
| OrderStore.UpdateReplacesItems | server/index.js:317-330 | After a full update, the order's rows are exactly the submitted items in order; other orders' rows are unchanged. |
| OrderStore.UpdatePreservesValid | server/index.js:303-330 | A full update keeps the schema invariant. |
| OrderStore.UpdatePreservesConsistent | server/index.js:303-330 | A full update keeps every stored total equal to the sum of its rows. |
| OrderStore.UpdateStatusPreservesInvariants | server/index.js:378-381 | A status update keeps both invariants. |
| OrderStore.DeleteCascades | server/index.js:404-407 | Deleting an order removes all of its rows and no row of another order. |
| OrderStore.DeletePreservesValid | server/index.js:404-415 | Deleting keeps the schema invariant; no row is left pointing at the removed order. |
| OrderStore.DeletePreservesConsistent | server/index.js:404-415 | Deleting keeps the remaining totals equal to the sums of their rows. |
| OrderStore.MenuWritesPreserveInvariants | server/index.js:137-169 | The menu PUT and DELETE keep both invariants; the foreign key keeps referenced items in place. |
| OrderListing.ListShowsEachOrderOnce | server/index.js:172-212 | For any row order the database returns, GET lists every order exactly once, in ascending id order. Each order carries its stored header, and its items are a permutation of its own rows' views; an order without rows is listed with no items. |
| OrderListing.ListingIgnoresRowOrder | server/index.js:174-180 | Any two row orders of the same join give listings of the same length with, at every position, the same id and header and the same items up to permutation. |
| OrderListing.ListIsExpected | server/index.js:182-208 | For any row order, the reduce over the join, then `Object.values`, matches position by position the values of the map built directly from the tables: same id, same header, items equal up to permutation. |
| OrderListing.GroupJoinResult | server/index.js:182-206 | For any row order, the reduce makes an entry for exactly the store's orders, each with its stored header and a permutation of its rows' views. |
| OrderListing.ItemsForPerm | server/index.js:182-206 | The items the reduce pushes for an order depend only on the multiset of rows, not their order. |
| OrderListing.IdsOfPerm | server/index.js:182-206 | The set of order ids the reduce sees depends only on the multiset of rows. |
| OrderListing.ListedItemsOnMenu | server/index.js:174-178 | Every listed item names a menu item of the store. |
| OrderListing.GroupSpec | server/index.js:182-206 | The reduce makes one entry per order id seen, headed by that id's first row. The entry's items are the rows with a non-zero item id, in row order. |
| OrderListing.AscendingKeys | server/index.js:208 | The integer keys within the bound, strictly ascending, each present exactly when it is a key. |
| OrderListing.ObjectValuesSpec | server/index.js:208 | The values of an object keyed by their own ids come out once each, in ascending id order. |
| OrderListing.ListedOrder | server/index.js:172-212 | For any row order, every order of the store appears in the listing with its header and a permutation of its row views. |
| OrderListing.CreateResponds | server/index.js:251-275 | Whatever order the unsorted re-read returns, the 201 body is the new order: status 'pending', the computed total, one item per submitted item, and those items a permutation of the views of the inserted rows. |
| OrderListing.UpdateResponds | server/index.js:331-357 | Whatever order the unsorted re-read returns, the 200 body of a full update is that order: the submitted table and status, the recomputed total, one item per replacement item, and those items a permutation of the views of the inserted rows. |
| OrderListing.CreatedOrderIsListed | server/index.js:214-286 | After a create, for any row order, GET lists the new order as 'pending' with the computed total, one item per submitted item, the items a permutation of the inserted rows' views. |
| OrderListing.DeletedOrderIsNotListed | server/index.js:395-426 | After a delete, GET no longer lists the order. |
| OrderCart.AddExisting | src/components/Orders.tsx:162-170 | Adding a selected item raises that line's quantity by one and the total by its price. Every other item's units are unchanged. |
| OrderCart.AddNew | src/components/Orders.tsx:171-177 | Adding an unselected item appends one line with quantity 1 at the menu price. |
| OrderCart.RemoveAt | src/components/Orders.tsx:181-183 | Removing a selected id drops exactly its line and keeps the rest in order. |
| OrderCart.RemoveAtTotal | src/components/Orders.tsx:181-183 | Removing a line lowers the total by that line's value. |
| OrderCart.RemoveQuantities | src/components/Orders.tsx:181-183 | After a remove, that id has no units and every other id keeps its units. |
| OrderCart.RemoveAbsent | src/components/Orders.tsx:181-183 | Removing an unselected id changes nothing. |
| OrderCart.UpdateQuantityAt | src/components/Orders.tsx:185-194 | A quantity of at least 1 replaces that line's quantity and moves the total by the difference. |
| OrderCart.UpdateQuantityQuantities | src/components/Orders.tsx:185-194 | After setting a quantity, that id's units are the new quantity and other ids are unchanged. |
| OrderCart.UpdateQuantityAbsent | src/components/Orders.tsx:185-194 | Setting a quantity on an unselected id changes nothing. |
| OrderCart.AddPreservesWellFormed | src/components/Orders.tsx:162-179 | Adding keeps the ids distinct and every quantity at least 1. |
| OrderCart.RemovePreservesWellFormed | src/components/Orders.tsx:181-183 | Removing keeps the cart well formed. |
| OrderCart.UpdateQuantityPreservesWellFormed | src/components/Orders.tsx:185-194 | Setting a quantity keeps the cart well formed; a quantity below 1 removes the line. |
| OrderCart.EmptyCartCannotSubmit | src/components/Orders.tsx:425 | The submit button is disabled for an empty cart. |
| OrderCart.Categories | src/components/Orders.tsx:201 | 'all' comes first, then each item's key exactly once, and nothing else. The keys after 'all' come in the order in which the menu first shows them. |
| Common.DedupFirstAppearance | src/components/Orders.tsx:201 | `[...new Set(xs)]` lists the distinct elements in the order of their first occurrence in `xs`. |
| OrderCart.CategoriesDistinct | src/components/Orders.tsx:201 | The buttons are duplicate-free iff no item's key is 'all'. |
| OrderCart.FilteredMenuItems | src/components/Orders.tsx:203-207 | The result is the menu filtered by the category-and-search test, so duplicates and order are kept. An item is shown iff it passes the raw category test and its name contains the search, case-insensitively. |
| OrderCart.AllWithEmptySearch | src/components/Orders.tsx:203-207 | 'all' with an empty search shows the whole menu. |
| OrderCart.OtherButtonMissesUncategorised | src/components/Orders.tsx:201-207 | An uncategorised item gets an 'other' button, but the 'other' filter never shows it. |
| OrderCart.OtherButtonExample | src/components/Orders.tsx:201-207 | A one-item menu without a category has the buttons 'all' and 'other', and 'other' shows nothing. |
| OrderCart.FilteredMenuItemsByKey | src/components/Orders.tsx:201-207 | With the test on the button key, an item is shown iff its key matches (or 'all') and its name matches the search. |
| OrderCart.EveryItemHasItsButton | src/components/Orders.tsx:201-207 | With the key-based test, each item matching the search is shown under its own button and under no other category button. |
| OrderDialog.AddItem | src/pages/Orders.tsx:63-74 | After an add, the chosen ids are the previous ones plus the added id. |
| OrderDialog.AddExisting | src/pages/Orders.tsx:64-70 | Adding a chosen item raises its quantity by one and the total by its price. |
| OrderDialog.AddNew | src/pages/Orders.tsx:71-73 | Adding a new item appends `{id, 1, price}` and raises the total by the price. |
| OrderDialog.RemoveItem | src/pages/Orders.tsx:76-78 | After a remove, the id is gone, other lines are kept, and order is preserved. |
| OrderDialog.RemoveAt | src/pages/Orders.tsx:76-78 | Removing a chosen id drops exactly its line. |
| OrderDialog.OperationsKeepDistinct | src/pages/Orders.tsx:63-78 | Add and remove keep the chosen ids distinct. |
| OrderDialog.Submit | src/pages/Orders.tsx:80-89 | A request is sent iff the selection is non-empty; it carries the selection and the table. |
| OrderDialog.OpenThenSubmitSendsNothing | src/pages/Orders.tsx:53-57 | Opening resets to table 1 with no selection, so an immediate submit sends nothing. |
| OrderDialog.CalculateTotalMatchesStored | src/pages/Orders.tsx:118-120 | For an order listed from a consistent store, whatever the row order, the page's total equals the stored `total_amount`. |
| OrderDialog.StatusColorIgnoresCase | src/pages/Orders.tsx:108-116 | The colour depends on the status only up to ASCII case. |
| OrderDialog.StatusColorDefault | src/pages/Orders.tsx:108-116 | Only pending, preparing and ready get their own colour; delivered, cancelled and any other string get 'default'. |
| StatusFlow.ParseStatus | src/components/features/orders/Orders.tsx:9 | A parsed status prints back as the string it came from. |
| StatusFlow.Next | src/components/features/orders/Orders.tsx:140-163 | The next status is one rank further on; only 'delivered' has none. |
| StatusFlow.Path | src/components/features/orders/Orders.tsx:140-163 | Pressing the offered button repeatedly visits 4 − rank statuses, from the start to 'delivered'. |
| StatusFlow.DomainIsLifecycle | src/components/features/orders/Orders.tsx:9 | There are exactly four distinct statuses, ranked in lifecycle order; 'cancelled' is not one of them. |
| StatusFlow.WireRoundTrip | src/components/features/orders/Orders.tsx:9 | A status and its API string determine each other. |
| StatusFlow.OfferedIsNext | src/components/features/orders/Orders.tsx:140-163 | The buttons shown for a status string are exactly the next-status function applied to the parsed status. |
| StatusFlow.OfferedTransitions | src/components/features/orders/Orders.tsx:140-163 | pending→preparing, preparing→ready, ready→delivered; delivered has no button. |
| StatusFlow.TablesAreTotalAndInjective | src/components/features/orders/Orders.tsx:20-32 | Every status has a non-empty label and colours, and no two statuses share either. |
| StatusFlow.PathIncreases | src/components/features/orders/Orders.tsx:140-163 | Ranks strictly increase along a path, so no status repeats. |
| StatusFlow.PendingReachesDelivered | src/components/features/orders/Orders.tsx:140-163 | From pending, three presses visit all four statuses in lifecycle order. |
| MenuGrid.FilteredItems | src/components/menu/MenuGrid.tsx:30-42 | The result is the items filtered by the availability-and-search test. An item is kept iff it passes the availability filter and the search. The search is case-insensitive over name, description and present category; order is kept. |
| MenuGrid.AllWithEmptyQuery | src/components/menu/MenuGrid.tsx:30-42 | 'all' with an empty query keeps every item. |
| MenuGrid.AvailabilitySplitsAll | src/components/menu/MenuGrid.tsx:30-42 | For one query, 'available' and 'unavailable' keep exactly the available and unavailable parts of what 'all' keeps; together they count the same. |
| MenuGrid.CountsAddUp | src/components/menu/MenuGrid.tsx:93-113 | The available and unavailable button counts add up to the total count. |
| MenuGrid.EmptyStateIffNoMatch | src/components/menu/MenuGrid.tsx:154 | The empty state shows iff no item passes both tests. |
| MenuGrid.GroupingSpec | src/components/menu/MenuGrid.tsx:45-52 | The keys are the de-duplicated item keys, each after every key that first appears earlier among the items, and there is one array per key. A key's array is exactly the items with that key in their original order; a missing category groups under 'Sem categoria'. |
| MenuGrid.GroupingKeysDedup | src/components/menu/MenuGrid.tsx:45-52 | The reduce's keys are exactly `Dedup` of the items' keys: a key is added on its first appearance only. |
| MenuGrid.EachItemInOneGroup | src/components/menu/MenuGrid.tsx:45-52 | Every shown item is in its own key's group and in no other. |
| MenuGrid.NoGroupsIffEmptyState | src/components/menu/MenuGrid.tsx:121-154 | No group is rendered iff the empty state is shown. |
| MenuItemForm.Validate | src/components/features/menu/MenuItemForm.tsx:42-63 | Each of name, description, price and category has an error iff it is blank, non-positive or empty respectively, with the fixed message. The image is never checked. |
| MenuItemForm.HandleSubmit | src/components/features/menu/MenuItemForm.tsx:65-71 | The form data is submitted iff all four checks pass, and is then passed on unchanged. |
| MenuItemForm.HandleChange | src/components/features/menu/MenuItemForm.tsx:73-81 | The named field takes the input, the price as parsed or 0; every other field is unchanged. |
| MenuItemForm.ValidIffNoError | src/components/features/menu/MenuItemForm.tsx:61-62 | The form is valid iff none of the four fields has an error. |
| MenuItemForm.ImageNeverValidated | src/components/features/menu/MenuItemForm.tsx:42-71 | Changing the image never changes validation or submission. |
| MenuItemForm.EmptyFormHasFourErrors | src/components/features/menu/MenuItemForm.tsx:27-63 | A freshly opened form has exactly four errors and cannot be submitted. |
| MenuItemForm.UnparsablePriceIsRejected | src/components/features/menu/MenuItemForm.tsx:79 | A price that does not parse becomes 0, which is rejected. |
| MenuItems.FilteredItems | src/components/MenuItems.tsx:151-153 | 'all' shows the whole menu. Another category gives the menu filtered by that category, so exactly its items, duplicates and order kept. |
| MenuItems.ClassifyDelete | src/components/MenuItems.tsx:97-120 | Success is shown iff the status is 200, and a refetch happens iff 200 or 404. Any other 2xx does nothing; a rejection never shows success. |
| MenuItems.AfterSave | src/components/MenuItems.tsx:51-83 | A 200 or 201 resets the draft and closes the form, with the update or add message chosen by whether an item was being edited. Any other 2xx leaves the page alone; a rejection sets the save error. |
| MenuItems.SaveEditOutcome | src/components/MenuItems.tsx:51-83 | Saving an edit against the server's PUT: the page resets its form and reports the update iff the item is on the menu, and the store then holds the submitted fields. Otherwise the store is unchanged and the page keeps the draft and shows the save error. |
| MenuItems.CategoryLabelsComplete | src/components/MenuItems.tsx:155-164 | The seven category buttons are distinct, each has its own label, and only they have one. |
| MenuItems.ConflictShowsServerText | src/components/MenuItems.tsx:109-112 | A 409 or 400 answer shows the server's own error text. |
| MenuItems.ServerDeleteNeverSucceeds | src/components/MenuItems.tsx:97-120 | Against the server's answers, no delete shows success. A removed item's 204 is silently ignored without refetch; a referenced item shows the generic failure; a missing one shows 'not found' and refetches. |
| MenuItems.ClassifyDeleteFixed | src/components/MenuItems.tsx:97-120 | With success on any 2xx, success is shown iff the request resolved; the rejection paths are unchanged. |
| MenuItems.FixedDeleteReportsRemoval | server/index.js:157-169 | With success on any 2xx, the page reports success iff the server removed the item, and then refetches. |
| Checkout.CartPayloadFixed | src/components/Orders.tsx:76-81 | Each sent line carries the cart line's menu item id as `id`. |
| Checkout.CartCreateFails | src/components/Orders.tsx:76-81 | Every non-empty cart, as sent, is answered 500 with the store unchanged. |
| Checkout.CartUpdateFails | src/components/Orders.tsx:76-81 | Saving an edited order as sent answers 500 (or 404 for an unknown id) and changes nothing. |
| Checkout.CartCreateFixed | server/index.js:236-246 | With the id sent and all items on the menu, the order is created with the total the form displayed. |
| Checkout.CartUpdateFixed | server/index.js:317-330 | With the id sent, saving sets the order's table, status and the displayed total. |
| Checkout.EnabledSubmitIsNotBadRequest | src/components/Orders.tsx:425 | An enabled submit button never draws the empty-items 400. |
| Checkout.DialogPayload | src/services/api.ts:47-48 | Each dialog line is sent with its menu item id. |
| Checkout.DialogSubmitCreates | src/pages/Orders.tsx:80-97 | A dialog submission creates an order iff its items are on the menu, with the selection's total and 'pending'. Otherwise the answer is 500 and nothing is stored. |
| Checkout.StatusOnlyUpdateRejected | src/services/api.ts:49 | `{status}` sent to the full-update route is answered 400 and stores nothing. |
| Checkout.StatusRouteUpdate | server/index.js:373-392 | Sent to the status route, an existing order takes the new status and keeps everything else; an unknown id is 404. |
| Checkout.KitchenAdvanceNeverStored | src/components/features/orders/Orders.tsx:54-60 | The kitchen view's PATCH is answered 404 and the order keeps its status. |
| Checkout.AdvanceStoresNext | server/index.js:373-392 | The advance sent to the status route stores the next status, which reads back as that status. |
| Checkout.ServerAcceptsAnyStatus | server/index.js:373-392 | The status route stores any string within the column width, including 'cancelled', which the kitchen view cannot parse. |
| Checkout.EditCart | src/components/Orders.tsx:109-128 | The rebuilt cart keeps each order line's menu item id, quantity and price, in order. |
| Checkout.EditCartExample | src/components/Orders.tsx:114-123 | A line whose own id differs from its menu item id is filed under the wrong key, so adding that item again opens a second line. |
| Checkout.EditCartMatchesOrder | src/components/Orders.tsx:109-128 | For a listed order of a consistent store, whatever the row order, the rebuilt cart's total is the stored total and all its items are on the menu. |
| Text.TrimEmptyIffBlank | src/components/features/menu/MenuItemForm.tsx:45-51 | `trim()` yields the empty string iff the text is all whitespace. |

## Left out

- The auto-increment counters are restored by a rollback in the model. InnoDB does not give
  back ids consumed by a failed insert, so real ids can skip values that the model's ids do
  not skip; nothing proved here depends on ids being consecutive across requests.
- Integer widths: `INT` ids and `DECIMAL(10,2)` prices are unbounded integers (prices in
  cents); overflow and rounding of JavaScript floats are not modelled.
- OrderStore.Update, OrderStore.UpdateStatus, OrderStore.UpdateMenuItem, OrderStore.MenuFields,
  Checkout.ServerAcceptsAnyStatus, Checkout.StatusRouteUpdate, MenuItems.SaveEditOutcome: string
  columns have no width in the model. The schema declares `status VARCHAR(50)`, `name
  VARCHAR(100)` and `category VARCHAR(50)` (server/index.js:74, :58, :61); a longer value
  fails with 500 under MySQL's strict mode or is truncated without it. Also `description TEXT`
  and `is_available BOOLEAN DEFAULT true` are nullable (server/index.js:59, :62), so a PUT
  without them stores NULL, which MenuFields cannot express. None of this is modelled.
- Checkout.StatusRouteUpdate: "200 iff the order exists" holds only for a status of at most 50
  characters; a longer one is answered 500 (strict mode) or stored truncated.
- MenuItems.SaveEditOutcome: "reset iff the item exists" holds only for a name of at most 100
  and a category of at most 50 characters; a longer one makes the PUT answer 500 (strict
  mode), so the form shows the save error although the item exists.
- `toLowerCase` folds ASCII letters only; non-ASCII case mapping is not modelled.
- `parseFloat` is the parameter `parseCents` of `MenuItemForm.HandleChange`; its parsing rules
  are not modelled.
- Timestamps (`created_at`) are outside the model; the row order of a query is left open (any
  sequence with the join's rows), so no result depends on it.
- OrderListing.ListShowsEachOrderOnce, OrderListing.ListedOrder, OrderListing.CreateResponds,
  OrderListing.UpdateResponds and OrderListing.CreatedOrderIsListed promise each order's items only up to permutation:
  the queries order rows by `created_at` at most, so the items' order within an order is
  not determined by the source.
- Path parameters are taken as integers. Missing `table_number` or `status` fields in a body,
  which MySQL would reject or store as NULL, are not modelled.
- OrderStore.SubmittedItem, OrderStore.Create and OrderStore.Update: a submitted item always
  has a `quantity` and a `price`. In the source a missing one makes the total NaN
  (server/index.js:227) and inserts NULL into NOT NULL columns (server/index.js:87-88), so
  the request fails with 500;
  that path is not modelled.
- OrderStore.MenuFields and OrderStore.UpdateMenuItem: a menu PUT always carries `name`,
  `price` and `category`. In the source a missing one writes NULL into a NOT NULL column
  (server/index.js:58-61, 142-145) and the answer is 500; that path is not modelled.
- A NULL `name` from the LEFT JOIN is an `Option`. The client's edit form copies
  `name: item.name` unchanged (src/components/Orders.tsx:115, :124); the cart line's name is a
  plain string, so the model maps an absent name to "" there. No proved property depends on
  the name.
- MenuGrid's `Object.entries` order is modelled as insertion order. JavaScript lists
  integer-like keys first, and a category named like an `Object.prototype` member
  ("constructor") would find an inherited value; neither is modelled.
- `GET /api/menu-items` and `POST /api/menu-items` are outside this model's core.
- Networking, polling and loading flags, the delete confirmation dialog, and the timers that
  clear messages are left out; responses are inputs.
- Express plumbing (CORS, JSON parsing, logging). The one piece that matters is modelled: the
  error middleware is registered before the routes, so a failing handler's `next(error)`
  reaches Express's default handler, which answers 500 without an `error` field.

## Findings

| source | as written | input that shows it | evidently intended | confidence | as-written member | corrected member |
|---|---|---|---|---|---|---|
| src/components/Orders.tsx:76-81 | Cart lines are sent as `{menu_item_id, name, quantity, price}`; the server inserts `item.id` (server/index.js:238), which is absent | any non-empty cart | send `id: menu_item_id` | not executed | Checkout.CartCreateFails | Checkout.CartCreateFixed |
| src/components/MenuItems.tsx:103 | Delete success requires status 200; the server answers 204 (server/index.js:165) | deleting an unreferenced item | treat any 2xx as success | not executed | MenuItems.ServerDeleteNeverSucceeds | MenuItems.FixedDeleteReportsRemoval |
| src/components/Orders.tsx:201-207 | Buttons use `category \|\| 'other'`, the filter compares the raw category | a menu item with category "" and the 'other' button | filter on the same key as the buttons | not executed | OrderCart.OtherButtonExample | OrderCart.EveryItemHasItsButton |
| src/components/Orders.tsx:114-123 | `item.id \|\| item.menu_item_id` takes the order line's own id | an order line with id 7 for menu item 3 | use `menu_item_id` | not executed | Checkout.EditCartExample | Checkout.EditCartMatchesOrder |
| src/services/api.ts:49 | `updateStatus` sends `{status}` to `PUT /orders/:id`, which requires `items` | any status change from the orders page | call `PUT /orders/:id/status` | not executed | Checkout.StatusOnlyUpdateRejected | Checkout.StatusRouteUpdate |
| src/components/features/orders/Orders.tsx:56 | The advance buttons send `PATCH /orders/:id`; the server has no PATCH route | pressing "Iniciar Preparo" on a pending order | call `PUT /orders/:id/status` | not executed | Checkout.KitchenAdvanceNeverStored | Checkout.AdvanceStoresNext |
