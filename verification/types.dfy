/** The shared records of the client: a menu item and an order line.
    Prices are integer cents standing in for the `DECIMAL(10,2)` columns. */
module Types {

  datatype MenuItem = MenuItem(
    id: int,
    name: string,
    description: string,
    price: int,
    category: string,
    isAvailable: bool)

  /** A line of an order as the client keeps it: keyed by `menuItemId`, with a price snapshot. */
  datatype OrderItem = OrderItem(menuItemId: int, name: string, quantity: int, price: int)
}
