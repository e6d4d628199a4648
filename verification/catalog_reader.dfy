/**
 * The catalog read path, `listByCountry` (service/ProductService.kt).
 *
 * The query is an outer join of products with their discounts, filtered on
 * the lower-cased country and ordered by product id; its answer is given
 * here as a sequence of join rows. Each row carries a product's columns and,
 * when a discount matched, that discount's id and percent; a product with no
 * discount contributes one row whose discount id is null.
 *
 * The rows are folded into an insertion-ordered map from product id to
 * product: the first row of an id creates the product, and every row whose
 * discount id is non-null appends one discount to it.
 */
module CatalogReader {
  import opened Wrappers
  import opened Text
  import opened ProductDomain

  datatype Row = Row(
    id: string,
    name: string,
    basePrice: real,
    country: string,
    discountId: Option<string>,
    percent: real)

  // ------------------------------------------------ reference definitions

  predicate HasId(rows: seq<Row>, id: string)
  {
    exists i :: 0 <= i < |rows| && rows[i].id == id
  }

  /** The distinct product ids of `rows`, in the order they first occur. */
  function ProductIds(rows: seq<Row>): (ids: seq<string>)
    ensures forall x :: x in ids <==> HasId(rows, x)
    ensures forall i, j :: 0 <= i < j < |ids| ==> ids[i] != ids[j]
    decreases |rows|
  {
    if |rows| == 0 then []
    else
      var prev := ProductIds(rows[..|rows| - 1]);
      var last := rows[|rows| - 1];
      assert forall x :: HasId(rows[..|rows| - 1], x) ==> HasId(rows, x);
      assert forall x :: HasId(rows, x) && x != last.id ==> HasId(rows[..|rows| - 1], x);
      if last.id in prev then prev else prev + [last.id]
  }

  /** The first row of product `id`: where its name, price and country come from. */
  function FirstRow(rows: seq<Row>, id: string): (r: Row)
    requires HasId(rows, id)
    ensures r in rows && r.id == id
    ensures exists b :: FirstOccurrence(rows, id, b) && rows[b] == r
    decreases |rows|
  {
    var init := rows[..|rows| - 1];
    if HasId(init, id) then
      var r := FirstRow(init, id);
      var b :| FirstOccurrence(init, id, b) && init[b] == r;
      assert rows[..b] == init[..b];
      assert FirstOccurrence(rows, id, b);
      r
    else
      assert rows[..|rows| - 1] == init;
      assert FirstOccurrence(rows, id, |rows| - 1);
      rows[|rows| - 1]
  }

  /** Row `b` is the first row of product `id`. */
  predicate FirstOccurrence(rows: seq<Row>, id: string, b: int)
  {
    0 <= b < |rows| && rows[b].id == id && !HasId(rows[..b], id)
  }

  /** The discounts of product `id`: one per row of it with a non-null discount id, in row order. */
  function RowDiscounts(rows: seq<Row>, id: string): seq<Discount>
    decreases |rows|
  {
    if |rows| == 0 then []
    else
      var last := rows[|rows| - 1];
      RowDiscounts(rows[..|rows| - 1], id)
        + (if last.id == id && last.discountId.Some? then [Discount(last.discountId.value, last.percent)] else [])
  }

  /** The product the rows of `id` describe. */
  function Expected(rows: seq<Row>, id: string): Product
    requires HasId(rows, id)
  {
    var first := FirstRow(rows, id);
    Product(id, first.name, first.basePrice, first.country, RowDiscounts(rows, id))
  }

  /** The product `Expected` describes after one more row `r` is read. */
  function Extend(before: Option<Product>, r: Row): Product
  {
    var product := before.GetOr(Product(r.id, r.name, r.basePrice, r.country, []));
    if r.discountId.Some? then product.(discounts := product.discounts + [Discount(r.discountId.value, r.percent)])
    else product
  }

  /** Reading one more row changes the expected product of that row's id only, as `Extend` says. */
  lemma ExpectedAfterRow(rows: seq<Row>, r: Row, k: string)
    requires HasId(rows + [r], k)
    ensures k != r.id ==> HasId(rows, k) && Expected(rows + [r], k) == Expected(rows, k)
    ensures k == r.id && HasId(rows, k) ==> Expected(rows + [r], k) == Extend(Some(Expected(rows, k)), r)
    ensures k == r.id && !HasId(rows, k) ==> Expected(rows + [r], k) == Extend(None, r)
  {
    var rows' := rows + [r];
    assert rows'[..|rows'| - 1] == rows;
    if k != r.id {
      var i :| 0 <= i < |rows'| && rows'[i].id == k;
      assert rows[i].id == k;
    } else if !HasId(rows, k) {
      NoRowsNoDiscounts(rows, k);
    }
  }

  /** A product id with no rows has no discounts. */
  lemma {:induction false} NoRowsNoDiscounts(rows: seq<Row>, id: string)
    requires !HasId(rows, id)
    ensures RowDiscounts(rows, id) == []
    decreases |rows|
  {
    if |rows| > 0 {
      var init := rows[..|rows| - 1];
      assert forall i :: 0 <= i < |init| ==> init[i] == rows[i];
      NoRowsNoDiscounts(init, id);
    }
  }

  /** The state of the fold after `rows`: the map's keys in order and its entries. */
  ghost predicate Grouped(rows: seq<Row>, order: seq<string>, byId: map<string, Product>)
  {
    && order == ProductIds(rows)
    && (forall k :: k in byId <==> k in order)
    && (forall k :: k in order ==> HasId(rows, k) && byId[k] == Expected(rows, k))
  }

  /** One iteration of the loop keeps the fold state in step with the rows read. */
  lemma GroupStep(rows: seq<Row>, r: Row, order: seq<string>, byId: map<string, Product>)
    requires Grouped(rows, order, byId)
    ensures r.id in byId ==> Grouped(rows + [r], order, byId[r.id := Extend(Some(byId[r.id]), r)])
    ensures r.id !in byId ==> Grouped(rows + [r], order + [r.id], byId[r.id := Extend(None, r)])
  {
    var rows' := rows + [r];
    assert rows'[..|rows'| - 1] == rows;
    var order' := if r.id in byId then order else order + [r.id];
    var byId' := byId[r.id := Extend(if r.id in byId then Some(byId[r.id]) else None, r)];
    assert order' == ProductIds(rows');
    forall k | k in order'
      ensures HasId(rows', k) && byId'[k] == Expected(rows', k)
    {
      ExpectedAfterRow(rows, r, k);
    }
  }

  // ------------------------------------------------------------ the fold

  /**
   * The `while (rs.next())` loop of `listByCountry` with its
   * `linkedMapOf<String, Product>`: `order` holds the map's keys in
   * insertion order and `byId` its entries.
   */
  method GroupRows(rows: seq<Row>) returns (products: seq<Product>)
    ensures |products| == |ProductIds(rows)|
    ensures rows == [] ==> products == []
    ensures forall j :: 0 <= j < |products| ==> products[j] == Expected(rows, ProductIds(rows)[j])
  {
    var order: seq<string> := [];
    var byId: map<string, Product> := map[];
    var i := 0;
    while i < |rows|
      invariant 0 <= i <= |rows|
      invariant Grouped(rows[..i], order, byId)
    {
      var r := rows[i];
      GroupStep(rows[..i], r, order, byId);
      assert rows[..i + 1] == rows[..i] + [r];
      if r.id in byId {
        byId := byId[r.id := Extend(Some(byId[r.id]), r)];
      } else {
        byId := byId[r.id := Extend(None, r)];
        order := order + [r.id];
      }
      i := i + 1;
    }
    assert rows[..i] == rows;
    products := seq(|order|, j requires 0 <= j < |order| => byId[order[j]]);
  }

  // ------------------------------------------- properties of the grouping

  /** Every product comes before any row of a product listed after it. */
  lemma {:induction false} ProductIdsInFirstOccurrenceOrder(rows: seq<Row>, i: int, j: int, b: int)
    requires 0 <= i < j < |ProductIds(rows)|
    requires 0 <= b < |rows| && rows[b].id == ProductIds(rows)[j]
    ensures HasId(rows[..b], ProductIds(rows)[i])
    decreases |rows|
  {
    var n := |rows|;
    var init := rows[..n - 1];
    var last := rows[n - 1];
    var ids, prev := ProductIds(rows), ProductIds(init);
    assert forall a :: 0 <= a < n - 1 ==> init[a] == rows[a];
    if b < n - 1 && j < |prev| {
      assert init[..b] == rows[..b];
      ProductIdsInFirstOccurrenceOrder(init, i, j, b);
    } else if b < n - 1 {
      assert false;
    } else if j < |prev| {
      assert HasId(init, prev[j]);
      var b' :| 0 <= b' < n - 1 && init[b'].id == prev[j];
      ProductIdsInFirstOccurrenceOrder(init, i, j, b');
      assert init[..b'] == rows[..b'];
      var a :| 0 <= a < b' && rows[..b'][a].id == ids[i];
      assert rows[..b][a].id == ids[i];
    } else {
      assert rows[..b] == init;
      assert ids[i] == prev[i];
    }
  }

  ghost predicate SortedById(rows: seq<Row>)
  {
    forall a, b :: 0 <= a < b < |rows| ==> StrLe(rows[a].id, rows[b].id)
  }

  /** Rows ordered by id give products in strictly ascending id order. */
  lemma SortedRowsGiveSortedProducts(rows: seq<Row>)
    requires SortedById(rows)
    ensures forall i, j :: 0 <= i < j < |ProductIds(rows)| ==> StrLt(ProductIds(rows)[i], ProductIds(rows)[j])
  {
    var ids := ProductIds(rows);
    forall i, j | 0 <= i < j < |ids|
      ensures StrLt(ids[i], ids[j])
    {
      assert ids[j] in ids;
      var b :| 0 <= b < |rows| && rows[b].id == ids[j];
      ProductIdsInFirstOccurrenceOrder(rows, i, j, b);
      var a :| 0 <= a < b && rows[..b][a].id == ids[i];
      assert StrLe(rows[a].id, rows[b].id);
    }
  }

  /** Row `r` records discount `d` of product `id`. */
  predicate RecordsDiscount(r: Row, id: string, d: Discount)
  {
    r.id == id && r.discountId == Some(d.discountId) && r.percent == d.percent
  }

  /** A product's discounts are exactly those its rows with a non-null discount id record. */
  lemma {:induction false} RowDiscountsExactlyRecorded(rows: seq<Row>, id: string, d: Discount)
    ensures d in RowDiscounts(rows, id) <==> exists i :: 0 <= i < |rows| && RecordsDiscount(rows[i], id, d)
    decreases |rows|
  {
    if |rows| > 0 {
      var init := rows[..|rows| - 1];
      assert forall i :: 0 <= i < |init| ==> init[i] == rows[i];
      RowDiscountsExactlyRecorded(init, id, d);
      if exists i :: 0 <= i < |rows| && RecordsDiscount(rows[i], id, d) {
        var i :| 0 <= i < |rows| && RecordsDiscount(rows[i], id, d);
        if i < |rows| - 1 {
          assert RecordsDiscount(init[i], id, d);
        }
      }
    }
  }

  /** A product whose rows all have a null discount id gets an empty discount list. */
  lemma {:induction false} NullDiscountRowsGiveNoDiscounts(rows: seq<Row>, id: string)
    requires forall i :: 0 <= i < |rows| && rows[i].id == id ==> rows[i].discountId.None?
    ensures RowDiscounts(rows, id) == []
    decreases |rows|
  {
    if |rows| > 0 {
      var init := rows[..|rows| - 1];
      assert forall i :: 0 <= i < |init| ==> init[i] == rows[i];
      NullDiscountRowsGiveNoDiscounts(init, id);
    }
  }

  /** Two rows of one product, each with a discount, then one product with no discount. */
  const ExampleRows: seq<Row> := [
    Row("swe-001", "Vacuum Cleaner", 199.99, "Sweden", Some("D1"), 10.0),
    Row("swe-001", "Vacuum Cleaner", 199.99, "Sweden", Some("D2"), 5.0),
    Row("swe-002", "Air Purifier", 149.50, "Sweden", None, 0.0)]

  /** A product with two discount rows and a product with none both appear once, with 2 and 0 discounts. */
  lemma TwoDiscountsAndNoneExample()
    ensures ProductIds(ExampleRows) == ["swe-001", "swe-002"]
    ensures |RowDiscounts(ExampleRows, "swe-001")| == 2
    ensures RowDiscounts(ExampleRows, "swe-002") == []
  {
    ExampleIds();
    ExampleDiscounts();
    NullDiscountRowsGiveNoDiscounts(ExampleRows, "swe-002");
  }

  lemma ExampleIds()
    ensures ProductIds(ExampleRows) == ["swe-001", "swe-002"]
  {
    var rows := ExampleRows;
    var one, two := rows[..1], rows[..2];
    assert one[..0] == [] && two[..1] == one && rows[..2] == two;
    assert ProductIds(one) == ["swe-001"];
    assert ProductIds(two) == ["swe-001"];
  }

  lemma ExampleDiscounts()
    ensures RowDiscounts(ExampleRows, "swe-001") == [Discount("D1", 10.0), Discount("D2", 5.0)]
  {
    var rows := ExampleRows;
    var one, two := rows[..1], rows[..2];
    assert one[..0] == [] && two[..1] == one && rows[..2] == two;
    assert RowDiscounts(one, "swe-001") == [Discount("D1", 10.0)];
    assert RowDiscounts(two, "swe-001") == [Discount("D1", 10.0), Discount("D2", 5.0)];
  }

  // --------------------------------------------------- the country filter

  /** `WHERE LOWER(p.country) = LOWER(?)`: the join rows of products in `country`, in query order. */
  function RowsForCountry(rows: seq<Row>, country: string): (matched: seq<Row>)
    ensures forall r :: r in matched <==> r in rows && Lower(r.country) == Lower(country)
    ensures SortedById(rows) ==> SortedById(matched)
  {
    if |rows| == 0 then []
    else
      var rest := RowsForCountry(rows[1..], country);
      assert forall r :: r in rows[1..] ==> r in rows;
      assert forall r :: r in rest ==> StrLe(rows[0].id, r.id) || !SortedById(rows);
      if Lower(rows[0].country) == Lower(country) then [rows[0]] + rest else rest
  }

  predicate Listed(products: seq<Product>, id: string)
  {
    exists j :: 0 <= j < |products| && products[j].id == id
  }

  /** Some row offers product `id` in `country`, ignoring case. */
  predicate OffersInCountry(rows: seq<Row>, country: string, id: string)
  {
    exists r :: r in rows && r.id == id && EqualsIgnoreCase(r.country, country)
  }

  /**
   * `listByCountry`: the products of `country`, one per distinct id, each
   * with all of its discounts. `rows` is the unfiltered join in query order.
   */
  method ListByCountry(rows: seq<Row>, country: string) returns (products: seq<Product>)
    ensures var matched := RowsForCountry(rows, country);
      && |products| == |ProductIds(matched)|
      && forall j :: 0 <= j < |products| ==> products[j] == Expected(matched, ProductIds(matched)[j])
    ensures forall j :: 0 <= j < |products| ==> EqualsIgnoreCase(products[j].country, country)
    ensures forall x :: Listed(products, x) <==> OffersInCountry(rows, country, x)
    ensures SortedById(rows) ==> forall i, j :: 0 <= i < j < |products| ==> StrLt(products[i].id, products[j].id)
    ensures rows == [] ==> products == []
  {
    var matched := RowsForCountry(rows, country);
    products := GroupRows(matched);
    var ids := ProductIds(matched);
    forall j | 0 <= j < |products|
      ensures EqualsIgnoreCase(products[j].country, country)
    {
      LowerEqualIffEqualsIgnoreCase(FirstRow(matched, ids[j]).country, country);
    }
    forall x
      ensures Listed(products, x) <==> OffersInCountry(rows, country, x)
    {
      if OffersInCountry(rows, country, x) {
        var r :| r in rows && r.id == x && EqualsIgnoreCase(r.country, country);
        LowerEqualIffEqualsIgnoreCase(r.country, country);
        assert r in matched;
        var i :| 0 <= i < |matched| && matched[i] == r;
        assert HasId(matched, x);
        var j :| 0 <= j < |ids| && ids[j] == x;
        assert products[j].id == x;
      }
      if Listed(products, x) {
        var j :| 0 <= j < |products| && products[j].id == x;
        var r := FirstRow(matched, ids[j]);
        LowerEqualIffEqualsIgnoreCase(r.country, country);
      }
    }
    if SortedById(rows) {
      SortedRowsGiveSortedProducts(matched);
    }
  }
}
