/**
  The in-memory dataset the queries read: products, and customers that own
  their orders. Dates are calendar dates; prices and totals are whole
  numbers of the smallest currency unit.
 */
module Data {

  /** A calendar date; months are numbered 1 to 12. */
  datatype Date = Date(year: int, month: int, day: int)

  /** Chronological order: year, then month, then day. */
  predicate DateLe(a: Date, b: Date)
  {
    if a.year != b.year then a.year < b.year
    else if a.month != b.month then a.month < b.month
    else a.day <= b.day
  }

  datatype Product = Product(productId: int, productName: string, category: string, unitPrice: int, unitsInStock: int)

  datatype Order = Order(orderId: int, orderDate: Date, total: int)

  datatype Customer = Customer(customerId: string, orders: seq<Order>)

  datatype DataSource = DataSource(customers: seq<Customer>, products: seq<Product>)

  /** What the loader guarantees: unique identifiers, no negative stock and
      no negative order total. */
  ghost predicate ValidDataSource(ds: DataSource)
  {
    && (forall i, j :: 0 <= i < j < |ds.products| ==> ds.products[i].productId != ds.products[j].productId)
    && (forall i, j :: 0 <= i < j < |ds.customers| ==> ds.customers[i].customerId != ds.customers[j].customerId)
    && (forall i :: 0 <= i < |ds.products| ==> ds.products[i].unitsInStock >= 0)
    && (forall i, k :: 0 <= i < |ds.customers| && 0 <= k < |ds.customers[i].orders| ==>
          ds.customers[i].orders[k].total >= 0)
  }
}
