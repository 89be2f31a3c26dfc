# LINQ sample queries — a Dafny model

This project models the query evaluator of the `LinqSamples` class: the five
query pipelines `Linq1`, `Linq2`, `Linq5`, `Linq7` and `Linq10`. Each query is
a pure function of an in-memory dataset of products and of customers with
their orders. The LINQ operators the queries use are written out as explicit
functions over `seq`. Their documented semantics are proved about them:
- `Where` keeps order.
- `GroupBy` lists keys in first-occurrence order and keeps element order
  inside each group.
- `OrderBy`/`ThenBy` are one stable sort under a composite comparison.

Modules:

- `Seqs` (`seqs.dfy`): `Filter` (`Where`), key predicates, subsequences,
  distinct keys and first positions.
- `Sorting` (`sorting.dfy`): total preorders, the stable insertion sort that
  stands for `OrderBy`/`ThenBy` and its uniqueness theorems, and the ordinal
  string order.
- `Grouping` (`grouping.dfy`): first-occurrence `GroupBy` and the
  `{ Key, Count() }` reduction `CountBy`.
- `Data` (`data.dfy`): `Date`, `Product`, `Order`, `Customer`, `DataSource`,
  and the invariants the loader guarantees.
- `LinqSamples` (`linq_samples.dfy`): the five queries and their properties.

In the code, Linq1's threshold is the literal `5` and its array is the literal
`{ 5, 4, 1, 3, 9, 8, 6, 7, 2, 0 }`. The model follows the code: `LowNums`
runs the query on any array, and `Linq1` runs it on that one.

`CountBy` is one generic `KeyCount` record. The source instead builds one
anonymous shape per statistic (`{ Month, OrdersCount }`, `{ Year, OrdersCount }`,
`{ Year, Month, OrdersCount }`). The year-month key is the record `YearMonth`.

## Model

| member | source | states |
|---|---|---|
| Seqs.Filter | Task/Task/Task/LinqSamples.cs:36-39 | `where` never lengthens its input, and every kept element satisfies the predicate |
| Seqs.FilterMembers | Task/Task/Task/LinqSamples.cs:38 | a value is kept if and only if it occurs in the input and satisfies the predicate |
| Seqs.FilterIsSubsequence | Task/Task/Task/LinqSamples.cs:36-39 | the kept elements keep their original relative order |
| Seqs.FilterMultiplicity | Task/Task/Task/LinqSamples.cs:36-39 | a value that satisfies the predicate is kept as often as it occurs; any other value never appears |
| Seqs.FilterPartition | Task/Task/Task/LinqSamples.cs:56 | kept and dropped elements together are the input, as a multiset |
| Seqs.FilterAppend | Task/Task/Task/LinqSamples.cs:36-39 | filtering distributes over concatenation |
| Sorting.StableSort | Task/Task/Task/LinqSamples.cs:74 | `OrderBy` returns a permutation of its input, sorted under the comparison |
| Sorting.StableSortStable | Task/Task/Task/LinqSamples.cs:104 | elements the comparison cannot tell apart keep their source order |
| Sorting.StableSortCharacterization | Task/Task/Task/LinqSamples.cs:78-81 | any sorted permutation that keeps the source order inside every class of equal elements is the sort's result, so a stable `OrderBy` has exactly one possible output |
| Sorting.SortedPermutationUnique | Task/Task/Task/LinqSamples.cs:78-81 | when no two inputs compare equal, every sorted permutation is the sort's result |
| Sorting.StringLeTotal | Task/Task/Task/LinqSamples.cs:81 | the string key order compares any two ids |
| Sorting.StringLeTransitive | Task/Task/Task/LinqSamples.cs:81 | the string key order is transitive |
| Sorting.StringLeAntisymmetric | Task/Task/Task/LinqSamples.cs:81 | two ids ordered both ways are equal, so the last sort key breaks every tie |
| Grouping.GroupBy | Task/Task/Task/LinqSamples.cs:96 | group keys are distinct and cover every element's key; each group is non-empty and holds exactly the elements with its key, in source order; the groups together are a permutation of the input |
| Grouping.GroupByFirstOccurrence | Task/Task/Task/LinqSamples.cs:96 | every group key occurs in the input, and groups come in the order their keys first occur |
| Grouping.CountBy | Task/Task/Task/LinqSamples.cs:138-143 | one entry per key of the input, in first-occurrence order; each count is at least 1 and equals the number of elements with that key; the counts sum to the input length; no entries exactly when the input is empty |
| Grouping.CountByUnique | Task/Task/Task/LinqSamples.cs:138-143 | those properties determine the per-key count completely: any list that satisfies them is `CountBy`'s result |
| LinqSamples.LowNums | Task/Task/Task/LinqSamples.cs:36-39 | keeps exactly the values below 5, each as often as it occurs, in original order, and never more elements than the input |
| LinqSamples.Linq1 | Task/Task/Task/LinqSamples.cs:34-39 | the sample array gives `[4, 1, 3, 2, 0]` |
| LinqSamples.Linq2 | Task/Task/Task/LinqSamples.cs:54-57 | keeps exactly the products with stock above zero, each as often as it occurs, in source order |
| LinqSamples.Linq2Partition | Task/Task/Task/LinqSamples.cs:54-57 | when stock is never negative, the in-stock products and the zero-stock products together are all products |
| LinqSamples.StartDate | Task/Task/Task/LinqSamples.cs:74-76 | the start date is no later than any order date and is the date of one of the orders; a customer with orders is required, which is what makes `First()` safe |
| LinqSamples.Summarize | Task/Task/Task/LinqSamples.cs:71-77 | the row keeps the customer's id; its start date is the earliest order date; its turnover is the sum of the order totals |
| LinqSamples.Linq5 | Task/Task/Task/LinqSamples.cs:70-81 | sorted by the four descending keys; a permutation of the summaries of the customers with orders; every row is the summary of a customer with orders, and every such customer has their row |
| LinqSamples.Linq5StrictOrder | Task/Task/Task/LinqSamples.cs:78-81 | rows of different customers are strictly ordered by the four keys |
| LinqSamples.Linq5Determined | Task/Task/Task/LinqSamples.cs:78-81 | with unique customer ids, every arrangement of the summaries sorted by the four keys is Linq5's output |
| LinqSamples.Linq5TurnoverNonNegative | Task/Task/Task/LinqSamples.cs:77 | with no negative order totals, no turnover is negative |
| LinqSamples.SumTotalsPermutation | Task/Task/Task/LinqSamples.cs:77 | the turnover does not depend on the order of the orders |
| LinqSamples.RanksBeforeIsTotalPreorder | Task/Task/Task/LinqSamples.cs:78-81 | the four-key descending comparison is total and transitive, so the sort is well defined |
| LinqSamples.SortByPrice | Task/Task/Task/LinqSamples.cs:104 | a permutation sorted by ascending unit price, in which products of equal price keep their source order |
| LinqSamples.StockReport | Task/Task/Task/LinqSamples.cs:100-105 | at most two subgroups with distinct stock flags, covering every product of the category; each subgroup is non-empty and holds exactly the category's products whose `UnitsInStock > 0` equals its flag, sorted by price |
| LinqSamples.StockReportOrder | Task/Task/Task/LinqSamples.cs:100 | when both stock states occur, the subgroups come in the order in which the states first occur among the category's products |
| LinqSamples.StockReportCells | Task/Task/Task/LinqSamples.cs:100-104 | every product of a subgroup is a product of the category and its stock state is the subgroup's flag |
| LinqSamples.StockReportPermutation | Task/Task/Task/LinqSamples.cs:100-105 | the subgroups together hold every product of the category exactly as often as it occurs |
| LinqSamples.Linq7 | Task/Task/Task/LinqSamples.cs:95-106 | distinct categories in first-occurrence order, covering every product; each row holds the stock report of exactly that category's products; all listed products together are a permutation of the product list |
| LinqSamples.Linq7Cell | Task/Task/Task/LinqSamples.cs:95-105 | every listed product is a product of the source, of its row's category and its subgroup's stock state, and no dearer than any later product of its subgroup |
| LinqSamples.Linq7Placement | Task/Task/Task/LinqSamples.cs:95-105 | every product appears in the row of its own category, in the subgroup of its own stock state |
| LinqSamples.Statistic | Task/Task/Task/LinqSamples.cs:135-163 | the row keeps the customer's id; its month, year and year-month statistics are the per-key counts of the customer's orders |
| LinqSamples.Linq10 | Task/Task/Task/LinqSamples.cs:134-164 | one row per customer, in customer order, including customers without orders; each statistic has distinct keys in first-occurrence order and counts of at least 1, and its counts sum to that customer's number of orders |
| LinqSamples.CustomerWithoutOrders | Task/Task/Task/LinqSamples.cs:134-164 | a customer with no orders has no Linq5 row (whose `Any()` filter drops them) and has a Linq10 row with three empty statistics |

## Left out

- Printing is not modelled. This covers the `foreach` loops, `Console.WriteLine`, `ObjectDumper.Write` and the string interpolation that follow each query: they are presentation output only.
- The `SampleHarness` base class and the `[Title]`, `[Category]`, `[Description]` and `[Prefix]` attributes are not modelled. They are reflection-driven sample registration.
- Loading the `DataSource` is not modelled. It is an external XML loader. The dataset is a given immutable value, and `ValidDataSource` states what the loader guarantees: unique ids, no negative stock, no negative order total.
- Lazy `IEnumerable` evaluation is not modelled. Results are eager sequences, which give the same results over immutable data.
- `DateTime` is a calendar date (year, month, day) with chronological order. The time of day is not modelled. It could only change which of several orders on the earliest day is picked, and only the date is used.
- `decimal` prices and totals are unbounded integers, for example cents. Decimal scale and overflow are not modelled.
- The `CustomerId` sort key uses ordinal (code-point) string order. .NET's default string comparer is culture-sensitive. Culture rules are outside the model.
- Failing on a null sequence (`ArgumentNullException`) is not modelled. Dafny sequences cannot be null.
- Linq5's idempotence is not stated as a lemma. Every query is a pure function, so two evaluations on the same dataset are equal by definition.
