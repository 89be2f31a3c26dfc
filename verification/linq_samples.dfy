/**
  The query pipelines of the LINQ sample class: Linq1 and Linq2 (`where`),
  Linq5 (customer activity summary), Linq7 (products by category and stock
  state) and Linq10 (order counts per month, year and year-month). Each is a
  pure function of the dataset; the printing that follows each query in the
  source is not modelled.
 */
module LinqSamples {
  import opened Seqs
  import opened Sorting
  import opened Grouping
  import opened Data

  // ---------------------------------------------------------------------
  // Linq1: `from num in numbers where num < 5 select num`

  /** The array the sample queries. */
  const SampleNumbers: seq<int> := [5, 4, 1, 3, 9, 8, 6, 7, 2, 0]

  predicate IsLow(n: int)
  {
    n < 5
  }

  /** The query of Linq1 over any array. */
  function LowNums(numbers: seq<int>): (r: seq<int>)
    ensures |r| <= |numbers|
    ensures forall i :: 0 <= i < |r| ==> r[i] < 5
    ensures forall n :: n in r <==> n in numbers && n < 5
    ensures forall n :: multiset(r)[n] == if n < 5 then multiset(numbers)[n] else 0
    ensures IsSubsequence(r, numbers)
  {
    FilterIsSubsequence(numbers, IsLow);
    FilterMembers(numbers, IsLow);
    FilterMultiplicities(numbers, IsLow);
    Filter(numbers, IsLow)
  }

  /** Linq1 itself. */
  function Linq1(): (r: seq<int>)
    ensures r == [4, 1, 3, 2, 0]
  {
    SampleNumbersLow();
    LowNums(SampleNumbers)
  }

  /** The filter evaluated on the sample array, one half at a time. */
  lemma {:induction false} SampleNumbersLow()
    ensures Filter(SampleNumbers, IsLow) == [4, 1, 3, 2, 0]
  {
    SampleNumbersHalves();
    FilterAppend([5, 4, 1, 3, 9], [8, 6, 7, 2, 0], IsLow);
    FirstHalfLow();
    SecondHalfLow();
    LowHalves();
  }

  lemma SampleNumbersHalves()
    ensures SampleNumbers == [5, 4, 1, 3, 9] + [8, 6, 7, 2, 0]
  {
  }

  lemma LowHalves()
    ensures [4, 1, 3] + [2, 0] == [4, 1, 3, 2, 0]
  {
  }

  lemma FirstHalfLow()
    ensures Filter([5, 4, 1, 3, 9], IsLow) == [4, 1, 3]
  {
  }

  lemma SecondHalfLow()
    ensures Filter([8, 6, 7, 2, 0], IsLow) == [2, 0]
  {
  }

  // ---------------------------------------------------------------------
  // Linq2: `from p in dataSource.Products where p.UnitsInStock > 0 select p`

  predicate IsInStock(p: Product)
  {
    p.unitsInStock > 0
  }

  predicate IsOutOfStock(p: Product)
  {
    p.unitsInStock == 0
  }

  function Linq2(ds: DataSource): (r: seq<Product>)
    ensures forall i :: 0 <= i < |r| ==> r[i].unitsInStock > 0
    ensures forall p :: p in r <==> p in ds.products && p.unitsInStock > 0
    ensures forall p :: multiset(r)[p] == if p.unitsInStock > 0 then multiset(ds.products)[p] else 0
    ensures IsSubsequence(r, ds.products)
  {
    FilterIsSubsequence(ds.products, IsInStock);
    FilterMembers(ds.products, IsInStock);
    FilterMultiplicities(ds.products, IsInStock);
    Filter(ds.products, IsInStock)
  }

  /** The products in stock and those out of stock together are all products. */
  lemma {:induction false} Linq2Partition(ds: DataSource)
    requires ValidDataSource(ds)
    ensures multiset(Linq2(ds)) + multiset(Filter(ds.products, IsOutOfStock)) == multiset(ds.products)
  {
    var ps := ds.products;
    forall i | 0 <= i < |ps|
      ensures Not(IsInStock)(ps[i]) == IsOutOfStock(ps[i])
    {
      assert ps[i].unitsInStock >= 0;
      assert Not(IsInStock)(ps[i]) == !IsInStock(ps[i]);
    }
    FilterPartition(ps, IsInStock);
    FilterCongruent(ps, Not(IsInStock), IsOutOfStock);
    assert Linq2(ds) == Filter(ps, IsInStock);
  }

  // ---------------------------------------------------------------------
  // Linq5: customers with orders, as (id, first order date, turnover),
  // ordered by year, month, turnover and id, all descending.

  datatype CustomerSummary = CustomerSummary(customerId: string, startDate: Date, moneyTurnover: int)

  /** `c.Orders.Any()` */
  predicate HasOrders(c: Customer)
  {
    |c.orders| > 0
  }

  /** The comparison of `OrderBy(order => order.OrderDate)`. */
  predicate OrderDateLe(a: Order, b: Order)
  {
    DateLe(a.orderDate, b.orderDate)
  }

  lemma {:induction false} OrderDateLeIsTotalPreorder()
    ensures TotalPreorder(OrderDateLe)
  {
  }

  /** `orders.Sum(order => order.Total)` */
  function SumTotals(orders: seq<Order>): int
  {
    if orders == [] then 0 else orders[0].total + SumTotals(orders[1..])
  }

  /** `orders.OrderBy(o => o.OrderDate).Select(o => o.OrderDate).First()`:
      the date of an earliest order. `First()` fails on an empty sequence,
      which Linq5's `Any()` filter rules out. */
  function StartDate(orders: seq<Order>): (d: Date)
    requires |orders| > 0
    ensures forall o :: o in orders ==> DateLe(d, o.orderDate)
    ensures exists o :: o in orders && o.orderDate == d
  {
    OrderDateLeIsTotalPreorder();
    var sorted := StableSort(orders, OrderDateLe);
    assert forall o :: o in orders ==> o in multiset(sorted);
    assert sorted[0] in multiset(orders);
    sorted[0].orderDate
  }

  /** The projection of one customer. */
  function Summarize(c: Customer): (r: CustomerSummary)
    requires HasOrders(c)
    ensures r.customerId == c.customerId
    ensures forall o :: o in c.orders ==> DateLe(r.startDate, o.orderDate)
    ensures exists o :: o in c.orders && o.orderDate == r.startDate
    ensures r.moneyTurnover == SumTotals(c.orders)
  {
    CustomerSummary(c.customerId, StartDate(c.orders), SumTotals(c.orders))
  }

  /** `Select(Summarize)` over customers that all have orders. */
  function Summaries(cs: seq<Customer>): (r: seq<CustomerSummary>)
    requires forall i :: 0 <= i < |cs| ==> HasOrders(cs[i])
    ensures |r| == |cs|
    ensures forall i :: 0 <= i < |r| ==> r[i] == Summarize(cs[i])
  {
    if cs == [] then [] else [Summarize(cs[0])] + Summaries(cs[1..])
  }

  /** The composite comparison of `OrderByDescending(Year)
      .ThenByDescending(Month).ThenByDescending(MoneyTurnover)
      .ThenByDescending(CustomerId)`: `a` may come before `b`. */
  predicate RanksBefore(a: CustomerSummary, b: CustomerSummary)
  {
    if a.startDate.year != b.startDate.year then a.startDate.year > b.startDate.year
    else if a.startDate.month != b.startDate.month then a.startDate.month > b.startDate.month
    else if a.moneyTurnover != b.moneyTurnover then a.moneyTurnover > b.moneyTurnover
    else StringLe(b.customerId, a.customerId)
  }

  lemma {:induction false} RanksBeforeIsTotalPreorder()
    ensures TotalPreorder(RanksBefore)
  {
    forall a, b
      ensures RanksBefore(a, b) || RanksBefore(b, a)
    {
      StringLeTotal(a.customerId, b.customerId);
    }
    forall a, b, c | RanksBefore(a, b) && RanksBefore(b, c)
      ensures RanksBefore(a, c)
    {
      if a.startDate.year == b.startDate.year == c.startDate.year
         && a.startDate.month == b.startDate.month == c.startDate.month
         && a.moneyTurnover == b.moneyTurnover == c.moneyTurnover
      {
        StringLeTransitive(c.customerId, b.customerId, a.customerId);
      }
    }
  }

  function Linq5(ds: DataSource): (r: seq<CustomerSummary>)
    ensures Sorted(r, RanksBefore)
    ensures multiset(r) == multiset(Summaries(Filter(ds.customers, HasOrders)))
    ensures |r| == |Filter(ds.customers, HasOrders)|
    ensures forall row :: row in r ==>
      exists c :: c in ds.customers && HasOrders(c) && row == Summarize(c)
    ensures forall c :: c in ds.customers && HasOrders(c) ==> Summarize(c) in r
  {
    var active := Filter(ds.customers, HasOrders);
    var rows := Summaries(active);
    RanksBeforeIsTotalPreorder();
    var r := StableSort(rows, RanksBefore);
    SummariesMembers(ds.customers, active, rows, r);
    r
  }

  /** The rows of Linq5 are the summaries of the customers with orders. */
  lemma {:induction false} SummariesMembers(customers: seq<Customer>, active: seq<Customer>,
                         rows: seq<CustomerSummary>, r: seq<CustomerSummary>)
    requires active == Filter(customers, HasOrders)
    requires rows == Summaries(active)
    requires multiset(r) == multiset(rows)
    ensures forall row :: row in r ==>
      exists c :: c in customers && HasOrders(c) && row == Summarize(c)
    ensures forall c :: c in customers && HasOrders(c) ==> Summarize(c) in r
  {
    FilterMembers(customers, HasOrders);
    forall row | row in r
      ensures exists c :: c in customers && HasOrders(c) && row == Summarize(c)
    {
      assert row in multiset(rows);
      var i :| 0 <= i < |rows| && rows[i] == row;
      assert active[i] in active;
    }
    forall c | c in customers && HasOrders(c)
      ensures Summarize(c) in r
    {
      assert c in active;
      var i :| 0 <= i < |active| && active[i] == c;
      assert rows[i] == Summarize(c);
      assert Summarize(c) in multiset(r);
    }
  }

  /** The final key is a tie-break: rows of different customers never
      compare equal, so their order is fully determined. */
  lemma {:induction false} Linq5StrictOrder(ds: DataSource, i: int, j: int)
    requires 0 <= i < j < |Linq5(ds)|
    requires Linq5(ds)[i].customerId != Linq5(ds)[j].customerId
    ensures RanksBefore(Linq5(ds)[i], Linq5(ds)[j])
    ensures !RanksBefore(Linq5(ds)[j], Linq5(ds)[i])
  {
    var a := Linq5(ds)[i];
    var b := Linq5(ds)[j];
    if RanksBefore(b, a) {
      StringLeAntisymmetric(a.customerId, b.customerId);
    }
  }

  function CustomerIdOf(c: Customer): string
  {
    c.customerId
  }

  /** With unique customer ids, sortedness by the four keys alone fixes the
      result: every sorted arrangement of the summaries is Linq5's. */
  lemma {:induction false} Linq5Determined(ds: DataSource, t: seq<CustomerSummary>)
    requires ValidDataSource(ds)
    requires Sorted(t, RanksBefore)
    requires multiset(t) == multiset(Summaries(Filter(ds.customers, HasOrders)))
    ensures t == Linq5(ds)
  {
    var active := Filter(ds.customers, HasOrders);
    var rows := Summaries(active);
    FilterKeepsDistinct(ds.customers, HasOrders, CustomerIdOf);
    RanksBeforeIsTotalPreorder();
    forall i, j | 0 <= i < j < |rows|
      ensures !(RanksBefore(rows[i], rows[j]) && RanksBefore(rows[j], rows[i]))
    {
      assert CustomerIdOf(active[i]) != CustomerIdOf(active[j]);
      RanksBeforeTies(rows[i], rows[j]);
    }
    SortedPermutationUnique(rows, t, RanksBefore);
  }

  /** Rows that rank before each other belong to the same customer. */
  lemma {:induction false} RanksBeforeTies(a: CustomerSummary, b: CustomerSummary)
    ensures RanksBefore(a, b) && RanksBefore(b, a) ==> a.customerId == b.customerId
  {
    if RanksBefore(a, b) && RanksBefore(b, a) {
      StringLeAntisymmetric(a.customerId, b.customerId);
    }
  }

  /** With no negative order totals no row has a negative turnover. */
  lemma {:induction false} Linq5TurnoverNonNegative(ds: DataSource)
    requires ValidDataSource(ds)
    ensures forall row :: row in Linq5(ds) ==> row.moneyTurnover >= 0
  {
    forall row | row in Linq5(ds)
      ensures row.moneyTurnover >= 0
    {
      SummaryTurnoverNonNegative(ds, row);
    }
  }

  lemma {:induction false} SummaryTurnoverNonNegative(ds: DataSource, row: CustomerSummary)
    requires ValidDataSource(ds)
    requires exists c :: c in ds.customers && HasOrders(c) && row == Summarize(c)
    ensures row.moneyTurnover >= 0
  {
    var c :| c in ds.customers && HasOrders(c) && row == Summarize(c);
    var n :| 0 <= n < |ds.customers| && ds.customers[n] == c;
    assert forall k :: 0 <= k < |c.orders| ==> c.orders[k].total >= 0;
    SumTotalsNonNegative(c.orders);
  }

  /** The turnover does not depend on how the orders are arranged. */
  lemma {:induction false} SumTotalsPermutation(a: seq<Order>, b: seq<Order>)
    requires multiset(a) == multiset(b)
    ensures SumTotals(a) == SumTotals(b)
  {
    if a == [] {
      assert |multiset(b)| == 0;
    } else {
      assert a[0] in multiset(b);
      var k :| 0 <= k < |b| && b[k] == a[0];
      var rest := b[..k] + b[k + 1..];
      assert b == b[..k] + [b[k]] + b[k + 1..];
      SumTotalsAppend(b[..k] + [b[k]], b[k + 1..]);
      SumTotalsAppend(b[..k], [b[k]]);
      SumTotalsAppend(b[..k], b[k + 1..]);
      assert a == [a[0]] + a[1..];
      assert multiset(a[1..]) == multiset(rest) by {
        calc {
          multiset(a[1..]);
          multiset(a) - multiset{a[0]};
          multiset(b) - multiset{b[k]};
          multiset(rest);
        }
      }
      SumTotalsPermutation(a[1..], rest);
    }
  }

  lemma {:induction false} SumTotalsAppend(a: seq<Order>, b: seq<Order>)
    ensures SumTotals(a + b) == SumTotals(a) + SumTotals(b)
  {
    if a == [] {
      assert a + b == b;
    } else {
      assert (a + b)[1..] == a[1..] + b;
      SumTotalsAppend(a[1..], b);
    }
  }

  /** With no negative order totals the turnover is not negative. */
  lemma {:induction false} SumTotalsNonNegative(orders: seq<Order>)
    requires forall k :: 0 <= k < |orders| ==> orders[k].total >= 0
    ensures SumTotals(orders) >= 0
  {
    if orders != [] {
      SumTotalsNonNegative(orders[1..]);
    }
  }

  // ---------------------------------------------------------------------
  // Linq7: products grouped by category, each category split by whether
  // the product is in stock, each part ordered by unit price.

  /** `new { ContainsInStock = g.Key, Products = g.OrderBy(p => p.UnitPrice) }` */
  datatype StockGroup = StockGroup(containsInStock: bool, products: seq<Product>)

  /** `new { Category = g.Key, StockedProducts = ... }` */
  datatype CategoryGroup = CategoryGroup(category: string, stockedProducts: seq<StockGroup>)

  function CategoryOf(p: Product): string
  {
    p.category
  }

  function PriceOf(p: Product): int
  {
    p.unitPrice
  }

  /** The comparison of `OrderBy(p => p.UnitPrice)`. */
  predicate PriceLe(a: Product, b: Product)
  {
    a.unitPrice <= b.unitPrice
  }

  lemma {:induction false} PriceLeIsTotalPreorder()
    ensures TotalPreorder(PriceLe)
  {
  }

  /** `OrderBy(p => p.UnitPrice)`: ascending by price, products of equal
      price in their source order. */
  function SortByPrice(ps: seq<Product>): (r: seq<Product>)
    ensures Sorted(r, PriceLe)
    ensures multiset(r) == multiset(ps)
    ensures forall v :: Filter(r, HasKey(PriceOf, v)) == Filter(ps, HasKey(PriceOf, v))
  {
    PriceLeIsTotalPreorder();
    SortByPriceStable(ps);
    StableSort(ps, PriceLe)
  }

  lemma {:induction false} SortByPriceStable(ps: seq<Product>)
    requires TotalPreorder(PriceLe)
    ensures forall v :: Filter(StableSort(ps, PriceLe), HasKey(PriceOf, v)) == Filter(ps, HasKey(PriceOf, v))
  {
    forall v
      ensures Filter(StableSort(ps, PriceLe), HasKey(PriceOf, v)) == Filter(ps, HasKey(PriceOf, v))
    {
      StableSortStable(ps, PriceLe, HasKey(PriceOf, v));
    }
  }

  /** The products of all stock groups, group after group. */
  function StockProducts(sgs: seq<StockGroup>): seq<Product>
  {
    if sgs == [] then [] else sgs[0].products + StockProducts(sgs[1..])
  }

  /** The inner query of Linq7 over the products of one category:
      `items.GroupBy(p => p.UnitsInStock > 0).Select(...)`. One subgroup per
      stock state that occurs, each holding exactly the products in that
      state, ordered by price. `StockReportOrder`, `StockReportCells` and
      `StockReportPermutation` state the rest. */
  function StockReport(items: seq<Product>): (r: seq<StockGroup>)
    ensures |r| <= 2
    ensures |r| == 2 ==> r[0].containsInStock != r[1].containsInStock
    ensures forall x :: x in items ==> exists i :: 0 <= i < |r| && r[i].containsInStock == IsInStock(x)
    ensures forall i :: 0 <= i < |r| ==> r[i].products != []
    ensures forall i :: 0 <= i < |r| ==>
      r[i].products == SortByPrice(Filter(items, HasKey(IsInStock, r[i].containsInStock)))
  {
    var gs := GroupBy(items, IsInStock);
    var r := StockRows(gs);
    StockReportMeaning(items, gs, r);
    r
  }

  /** `Select(g => new { ContainsInStock = g.Key, Products = g.OrderBy(p => p.UnitPrice) })` */
  function StockRows(gs: seq<Group<bool, Product>>): (r: seq<StockGroup>)
    ensures |r| == |gs|
    ensures forall i :: 0 <= i < |r| ==> r[i] == StockGroup(gs[i].key, SortByPrice(gs[i].items))
  {
    if gs == [] then [] else [StockGroup(gs[0].key, SortByPrice(gs[0].items))] + StockRows(gs[1..])
  }

  /** The contract of `StockReport`, from the properties of the grouping. */
  lemma {:induction false} StockReportMeaning(items: seq<Product>, gs: seq<Group<bool, Product>>, r: seq<StockGroup>)
    requires Distinct(Keys(gs))
    requires forall i :: 0 <= i < |gs| ==> gs[i].items == Filter(items, HasKey(IsInStock, gs[i].key))
    requires forall i :: 0 <= i < |gs| ==> gs[i].items != []
    requires forall x :: x in items ==> IsInStock(x) in Keys(gs)
    requires |r| == |gs|
    requires forall i :: 0 <= i < |r| ==> r[i] == StockGroup(gs[i].key, SortByPrice(gs[i].items))
    ensures |r| <= 2
    ensures |r| == 2 ==> r[0].containsInStock != r[1].containsInStock
    ensures forall x :: x in items ==> exists i :: 0 <= i < |r| && r[i].containsInStock == IsInStock(x)
    ensures forall i :: 0 <= i < |r| ==> r[i].products != []
    ensures forall i :: 0 <= i < |r| ==>
      r[i].products == SortByPrice(Filter(items, HasKey(IsInStock, r[i].containsInStock)))
  {
    StockReportKeys(gs, r);
    StockReportCovers(items, gs, r);
    StockReportContents(items, gs, r);
  }

  /** Distinct boolean keys: at most two subgroups, with different flags. */
  lemma {:induction false} StockReportKeys(gs: seq<Group<bool, Product>>, r: seq<StockGroup>)
    requires Distinct(Keys(gs))
    requires |r| == |gs| && forall i :: 0 <= i < |r| ==> r[i].containsInStock == gs[i].key
    ensures |r| <= 2
    ensures |r| == 2 ==> r[0].containsInStock != r[1].containsInStock
  {
    DistinctBools(Keys(gs));
    if |r| == 2 {
      assert Keys(gs)[0] != Keys(gs)[1];
    }
  }

  lemma {:induction false} StockReportCovers(items: seq<Product>, gs: seq<Group<bool, Product>>, r: seq<StockGroup>)
    requires forall x :: x in items ==> IsInStock(x) in Keys(gs)
    requires |r| == |gs| && forall i :: 0 <= i < |r| ==> r[i].containsInStock == gs[i].key
    ensures forall x :: x in items ==> exists i :: 0 <= i < |r| && r[i].containsInStock == IsInStock(x)
  {
    forall x | x in items
      ensures exists i :: 0 <= i < |r| && r[i].containsInStock == IsInStock(x)
    {
      var n := KeyPosition(gs, IsInStock(x));
      assert r[n].containsInStock == IsInStock(x);
    }
  }

  lemma {:induction false} StockReportContents(items: seq<Product>, gs: seq<Group<bool, Product>>, r: seq<StockGroup>)
    requires forall i :: 0 <= i < |gs| ==> gs[i].items == Filter(items, HasKey(IsInStock, gs[i].key))
    requires forall i :: 0 <= i < |gs| ==> gs[i].items != []
    requires |r| == |gs|
    requires forall i :: 0 <= i < |r| ==> r[i] == StockGroup(gs[i].key, SortByPrice(gs[i].items))
    ensures forall i :: 0 <= i < |r| ==> r[i].products != []
    ensures forall i :: 0 <= i < |r| ==>
      r[i].products == SortByPrice(Filter(items, HasKey(IsInStock, r[i].containsInStock)))
  {
    forall i | 0 <= i < |r|
      ensures r[i].products != []
    {
      assert |SortByPrice(gs[i].items)| == |gs[i].items|;
    }
  }

  /** The subgroups come in the order in which their stock states first
      occur among the category's products. */
  lemma {:induction false} StockReportOrder(items: seq<Product>)
    ensures var r := StockReport(items);
            |r| == 2 ==> FirstIndex(items, IsInStock, r[0].containsInStock) < FirstIndex(items, IsInStock, r[1].containsInStock)
  {
    var gs := GroupBy(items, IsInStock);
    GroupByFirstOccurrence(items, IsInStock);
    if |gs| == 2 {
      assert FirstIndex(items, IsInStock, gs[0].key) < FirstIndex(items, IsInStock, gs[1].key);
    }
  }

  /** Every product of a subgroup has that subgroup's stock state. */
  lemma {:induction false} StockReportCells(items: seq<Product>, i: int, k: int)
    requires 0 <= i < |StockReport(items)| && 0 <= k < |StockReport(items)[i].products|
    ensures var g := StockReport(items)[i];
            g.products[k] in items && IsInStock(g.products[k]) == g.containsInStock
  {
    var g := StockReport(items)[i];
    var cell := Filter(items, HasKey(IsInStock, g.containsInStock));
    assert g.products[k] in multiset(cell);
    FilterMembers(items, HasKey(IsInStock, g.containsInStock));
  }

  /** The subgroups together hold every product exactly as often as the
      category does. */
  lemma {:induction false} StockReportPermutation(items: seq<Product>)
    ensures multiset(StockProducts(StockReport(items))) == multiset(items)
  {
    var gs := GroupBy(items, IsInStock);
    StockProductsFlatten(gs, StockReport(items));
  }

  lemma {:induction false} StockProductsFlatten(gs: seq<Group<bool, Product>>, r: seq<StockGroup>)
    requires r == StockRows(gs)
    ensures multiset(StockProducts(r)) == multiset(Flatten(gs))
  {
    if r != [] {
      StockProductsFlatten(gs[1..], r[1..]);
    }
  }

  /** The products listed anywhere in a Linq7 result, category after
      category. */
  function ListedProducts(cgs: seq<CategoryGroup>): seq<Product>
  {
    if cgs == [] then [] else StockProducts(cgs[0].stockedProducts) + ListedProducts(cgs[1..])
  }

  /** Linq7: one row per category in first-occurrence order, holding the
      stock report of that category's products. */
  function Linq7(ds: DataSource): (r: seq<CategoryGroup>)
    ensures forall i, j :: 0 <= i < j < |r| ==> r[i].category != r[j].category
    ensures forall p :: p in ds.products ==> exists i :: 0 <= i < |r| && r[i].category == p.category
    ensures forall i :: 0 <= i < |r| ==> FirstIndex(ds.products, CategoryOf, r[i].category) < |ds.products|
    ensures forall i, j :: 0 <= i < j < |r| ==>
      FirstIndex(ds.products, CategoryOf, r[i].category) < FirstIndex(ds.products, CategoryOf, r[j].category)
    ensures forall i :: 0 <= i < |r| ==>
      r[i].stockedProducts == StockReport(Filter(ds.products, HasKey(CategoryOf, r[i].category)))
    ensures multiset(ListedProducts(r)) == multiset(ds.products)
  {
    var gs := GroupBy(ds.products, CategoryOf);
    var r := CategoryRows(gs);
    Linq7Meaning(ds.products, gs, r);
    r
  }

  /** `Select(g => new { Category = g.Key, StockedProducts = ... })` */
  function CategoryRows(gs: seq<Group<string, Product>>): (r: seq<CategoryGroup>)
    ensures |r| == |gs|
    ensures forall i :: 0 <= i < |r| ==> r[i] == CategoryGroup(gs[i].key, StockReport(gs[i].items))
  {
    if gs == [] then [] else [CategoryGroup(gs[0].key, StockReport(gs[0].items))] + CategoryRows(gs[1..])
  }

  lemma {:induction false} Linq7Meaning(products: seq<Product>, gs: seq<Group<string, Product>>, r: seq<CategoryGroup>)
    requires gs == GroupBy(products, CategoryOf)
    requires |r| == |gs|
    requires forall i :: 0 <= i < |r| ==> r[i] == CategoryGroup(gs[i].key, StockReport(gs[i].items))
    ensures forall i, j :: 0 <= i < j < |r| ==> r[i].category != r[j].category
    ensures forall p :: p in products ==> exists i :: 0 <= i < |r| && r[i].category == p.category
    ensures forall i :: 0 <= i < |r| ==> FirstIndex(products, CategoryOf, r[i].category) < |products|
    ensures forall i, j :: 0 <= i < j < |r| ==>
      FirstIndex(products, CategoryOf, r[i].category) < FirstIndex(products, CategoryOf, r[j].category)
    ensures forall i :: 0 <= i < |r| ==>
      r[i].stockedProducts == StockReport(Filter(products, HasKey(CategoryOf, r[i].category)))
    ensures multiset(ListedProducts(r)) == multiset(products)
  {
    GroupByFirstOccurrence(products, CategoryOf);
    CategoryRowsKeys(products, gs, r);
    CategoryRowsCover(products, gs, r);
    CategoryRowsContents(products, gs, r);
    ListedProductsFlatten(gs, r);
  }

  /** Distinct category keys in first-occurrence order. */
  lemma {:induction false} CategoryRowsKeys(products: seq<Product>, gs: seq<Group<string, Product>>, r: seq<CategoryGroup>)
    requires Distinct(Keys(gs)) && FirstOccurrenceOrder(gs, products, CategoryOf)
    requires |r| == |gs| && forall i :: 0 <= i < |r| ==> r[i].category == gs[i].key
    ensures forall i, j :: 0 <= i < j < |r| ==> r[i].category != r[j].category
    ensures forall i :: 0 <= i < |r| ==> FirstIndex(products, CategoryOf, r[i].category) < |products|
    ensures forall i, j :: 0 <= i < j < |r| ==>
      FirstIndex(products, CategoryOf, r[i].category) < FirstIndex(products, CategoryOf, r[j].category)
  {
    GroupKeysDistinct(gs);
  }

  lemma {:induction false} CategoryRowsCover(products: seq<Product>, gs: seq<Group<string, Product>>, r: seq<CategoryGroup>)
    requires forall x :: x in products ==> CategoryOf(x) in Keys(gs)
    requires |r| == |gs| && forall i :: 0 <= i < |r| ==> r[i].category == gs[i].key
    ensures forall p :: p in products ==> exists i :: 0 <= i < |r| && r[i].category == p.category
  {
    forall p | p in products
      ensures exists i :: 0 <= i < |r| && r[i].category == p.category
    {
      var n := KeyPosition(gs, CategoryOf(p));
      assert r[n].category == p.category;
    }
  }

  lemma {:induction false} CategoryRowsContents(products: seq<Product>, gs: seq<Group<string, Product>>, r: seq<CategoryGroup>)
    requires forall i :: 0 <= i < |gs| ==> gs[i].items == Filter(products, HasKey(CategoryOf, gs[i].key))
    requires |r| == |gs|
    requires forall i :: 0 <= i < |r| ==> r[i] == CategoryGroup(gs[i].key, StockReport(gs[i].items))
    ensures forall i :: 0 <= i < |r| ==>
      r[i].stockedProducts == StockReport(Filter(products, HasKey(CategoryOf, r[i].category)))
  {
  }

  lemma {:induction false} ListedProductsFlatten(gs: seq<Group<string, Product>>, r: seq<CategoryGroup>)
    requires |r| == |gs|
    requires forall i :: 0 <= i < |r| ==> r[i] == CategoryGroup(gs[i].key, StockReport(gs[i].items))
    ensures multiset(ListedProducts(r)) == multiset(Flatten(gs))
  {
    if r != [] {
      StockReportPermutation(gs[0].items);
      ListedProductsFlatten(gs[1..], r[1..]);
    }
  }

  /** Every listed product belongs to the category of its row and to the
      stock state of its group, and comes no later than any dearer product
      of the same group. */
  lemma {:induction false} Linq7Cell(ds: DataSource, i: int, j: int, k: int)
    requires 0 <= i < |Linq7(ds)|
    requires 0 <= j < |Linq7(ds)[i].stockedProducts|
    requires 0 <= k < |Linq7(ds)[i].stockedProducts[j].products|
    ensures var row := Linq7(ds)[i];
            var g := row.stockedProducts[j];
            && g.products[k] in ds.products
            && g.products[k].category == row.category
            && IsInStock(g.products[k]) == g.containsInStock
            && forall m :: k < m < |g.products| ==> g.products[k].unitPrice <= g.products[m].unitPrice
  {
    var row := Linq7(ds)[i];
    var items := Filter(ds.products, HasKey(CategoryOf, row.category));
    StockReportCells(items, j, k);
    FilterMembers(ds.products, HasKey(CategoryOf, row.category));
  }

  /** Every product appears in the row of its category, in the stock group
      of its stock state. */
  lemma {:induction false} Linq7Placement(ds: DataSource, p: Product)
    requires p in ds.products
    ensures exists i, j ::
      && 0 <= i < |Linq7(ds)| && 0 <= j < |Linq7(ds)[i].stockedProducts|
      && Linq7(ds)[i].category == p.category
      && Linq7(ds)[i].stockedProducts[j].containsInStock == IsInStock(p)
      && p in Linq7(ds)[i].stockedProducts[j].products
  {
    var r := Linq7(ds);
    var i :| 0 <= i < |r| && r[i].category == p.category;
    var items := Filter(ds.products, HasKey(CategoryOf, p.category));
    FilterMembers(ds.products, HasKey(CategoryOf, p.category));
    assert r[i].stockedProducts == StockReport(items);
    var j := StockReportPlacement(items, p);
  }

  /** A product of `items` sits in the stock group of its stock state. */
  lemma {:induction false} StockReportPlacement(items: seq<Product>, p: Product) returns (j: nat)
    requires p in items
    ensures j < |StockReport(items)|
    ensures StockReport(items)[j].containsInStock == IsInStock(p)
    ensures p in StockReport(items)[j].products
  {
    var sr := StockReport(items);
    assert exists k :: 0 <= k < |sr| && sr[k].containsInStock == IsInStock(p);
    j :| 0 <= j < |sr| && sr[j].containsInStock == IsInStock(p);
    var cell := Filter(items, HasKey(IsInStock, IsInStock(p)));
    assert sr[j].products == SortByPrice(cell);
    CellMember(items, p, cell, sr[j].products);
  }

  lemma {:induction false} CellMember(items: seq<Product>, p: Product, cell: seq<Product>, ps: seq<Product>)
    requires p in items
    requires cell == Filter(items, HasKey(IsInStock, IsInStock(p)))
    requires ps == SortByPrice(cell)
    ensures p in ps
  {
    FilterMembers(items, HasKey(IsInStock, IsInStock(p)));
    assert p in multiset(cell);
    assert p in multiset(ps);
  }

  // ---------------------------------------------------------------------
  // Linq10: for every customer, the number of orders per month, per year
  // and per (year, month).

  /** The anonymous key `new { order.OrderDate.Year, order.OrderDate.Month }`. */
  datatype YearMonth = YearMonth(year: int, month: int)

  datatype CustomerStatistic = CustomerStatistic(
    customerId: string,
    monthsStatistic: seq<KeyCount<int>>,
    yearsStatistic: seq<KeyCount<int>>,
    yearMonthStatistic: seq<KeyCount<YearMonth>>)

  function MonthOf(o: Order): int
  {
    o.orderDate.month
  }

  function YearOf(o: Order): int
  {
    o.orderDate.year
  }

  function YearMonthOf(o: Order): YearMonth
  {
    YearMonth(o.orderDate.year, o.orderDate.month)
  }

  /** The projection of one customer. */
  function Statistic(c: Customer): (r: CustomerStatistic)
    ensures r.customerId == c.customerId
    ensures IsCountBy(r.monthsStatistic, c.orders, MonthOf)
    ensures IsCountBy(r.yearsStatistic, c.orders, YearOf)
    ensures IsCountBy(r.yearMonthStatistic, c.orders, YearMonthOf)
  {
    CustomerStatistic(c.customerId, CountBy(c.orders, MonthOf), CountBy(c.orders, YearOf),
                      CountBy(c.orders, YearMonthOf))
  }

  /** Linq10: every customer, orders or not, in source order. */
  function Linq10(ds: DataSource): (r: seq<CustomerStatistic>)
    ensures |r| == |ds.customers|
    ensures forall i :: 0 <= i < |r| ==> r[i].customerId == ds.customers[i].customerId
    ensures forall i :: 0 <= i < |r| ==>
      && IsCountBy(r[i].monthsStatistic, ds.customers[i].orders, MonthOf)
      && IsCountBy(r[i].yearsStatistic, ds.customers[i].orders, YearOf)
      && IsCountBy(r[i].yearMonthStatistic, ds.customers[i].orders, YearMonthOf)
  {
    seq(|ds.customers|, i requires 0 <= i < |ds.customers| => Statistic(ds.customers[i]))
  }

  /** A customer without orders has no row in Linq5 and a row of three
      empty statistics in Linq10. */
  lemma {:induction false} CustomerWithoutOrders(ds: DataSource, n: int)
    requires ValidDataSource(ds)
    requires 0 <= n < |ds.customers| && ds.customers[n].orders == []
    ensures forall row :: row in Linq5(ds) ==> row.customerId != ds.customers[n].customerId
    ensures var st := Linq10(ds)[n];
            && st.customerId == ds.customers[n].customerId
            && st.monthsStatistic == [] && st.yearsStatistic == [] && st.yearMonthStatistic == []
  {
    forall row | row in Linq5(ds)
      ensures row.customerId != ds.customers[n].customerId
    {
      NoRowWithoutOrders(ds, n, row);
    }
  }

  lemma {:induction false} NoRowWithoutOrders(ds: DataSource, n: int, row: CustomerSummary)
    requires ValidDataSource(ds)
    requires 0 <= n < |ds.customers| && ds.customers[n].orders == []
    requires exists c :: c in ds.customers && HasOrders(c) && row == Summarize(c)
    ensures row.customerId != ds.customers[n].customerId
  {
    var d :| d in ds.customers && HasOrders(d) && row == Summarize(d);
    var m :| 0 <= m < |ds.customers| && ds.customers[m] == d;
    assert m != n;
  }
}
