/**
 * The product domain: discounts, products, the VAT table and the derived
 * final price (model/ProductDomain.kt).
 *
 * Prices and percents are exact reals. The only rounding is the final
 * `round(x * 100.0) / 100.0` to cents, where Kotlin's `round` sends a value
 * to the nearest integer and breaks ties towards the even one.
 */
module ProductDomain {
  import opened Text

  datatype Discount = Discount(discountId: string, percent: real)

  datatype Product = Product(
    id: string,
    name: string,
    basePrice: real,
    country: string,
    discounts: seq<Discount>)

  // ---------------------------------------------------------------- VAT table

  /**
   * VAT percentage of a country: the lower-cased name is looked up in a
   * fixed table and every other name, the empty one included, gets 0.
   */
  function VatFor(country: string): (vat: real)
    ensures vat == 25.0 <==> EqualsIgnoreCase(country, "sweden")
    ensures vat == 19.0 <==> EqualsIgnoreCase(country, "germany")
    ensures vat == 20.0 <==> EqualsIgnoreCase(country, "france")
    ensures vat == 0.0 <==>
      !EqualsIgnoreCase(country, "sweden") && !EqualsIgnoreCase(country, "germany")
      && !EqualsIgnoreCase(country, "france")
  {
    LowerOfLowerCase("sweden");
    LowerOfLowerCase("germany");
    LowerOfLowerCase("france");
    LowerEqualIffEqualsIgnoreCase(country, "sweden");
    LowerEqualIffEqualsIgnoreCase(country, "germany");
    LowerEqualIffEqualsIgnoreCase(country, "france");
    match Lower(country)
    case "sweden" => 25.0
    case "germany" => 19.0
    case "france" => 20.0
    case _ => 0.0
  }

  /** Two spellings of a country that differ only in case get the same VAT. */
  lemma VatCaseInsensitive(a: string, b: string)
    requires EqualsIgnoreCase(a, b)
    ensures VatFor(a) == VatFor(b)
  {
    LowerEqualIffEqualsIgnoreCase(a, b);
  }

  /** The table's rows, in the spellings the seed data and the tests use. */
  lemma VatTableEntries()
    ensures VatFor("Sweden") == 25.0 && VatFor("SWEDEN") == 25.0
    ensures VatFor("Germany") == 19.0
    ensures VatFor("France") == 20.0
    ensures VatFor("") == 0.0 && VatFor("Atlantis") == 0.0
  {
    assert EqualsIgnoreCase("Sweden", "sweden");
    assert EqualsIgnoreCase("SWEDEN", "sweden");
    assert EqualsIgnoreCase("Germany", "germany");
    assert EqualsIgnoreCase("France", "france");
    assert !EqualsIgnoreCase("Atlantis", "germany");
  }

  // ------------------------------------------------------------ discounts

  /**
   * Total of the percents of a discount list (Kotlin's `sumOf { it.percent }`),
   * which accumulates from the first discount to the last.
   */
  function SumPercent(ds: seq<Discount>): (total: real)
    ensures (forall i :: 0 <= i < |ds| ==> ds[i].percent >= 0.0) ==> total >= 0.0
  {
    if |ds| == 0 then 0.0 else ds[0].percent + SumPercent(ds[1..])
  }

  /** The total is the one `sumOf` accumulates: all but the last discount, plus the last. */
  lemma SumPercentLeftToRight(ds: seq<Discount>)
    requires |ds| > 0
    ensures SumPercent(ds) == SumPercent(ds[..|ds| - 1]) + ds[|ds| - 1].percent
  {
    var init, last := ds[..|ds| - 1], ds[|ds| - 1];
    SumPercentAppend(init, [last]);
    assert SumPercent([last]) == last.percent + SumPercent([]);
    assert init + [last] == ds;
  }

  lemma {:induction false} SumPercentAppend(a: seq<Discount>, b: seq<Discount>)
    ensures SumPercent(a + b) == SumPercent(a) + SumPercent(b)
    decreases |a|
  {
    if |a| == 0 {
      assert a + b == b;
    } else {
      assert (a + b)[1..] == a[1..] + b;
      SumPercentAppend(a[1..], b);
    }
  }

  /** The total of the percents does not depend on the order of the discounts. */
  lemma {:induction false} SumPercentPermutation(a: seq<Discount>, b: seq<Discount>)
    requires multiset(a) == multiset(b)
    ensures SumPercent(a) == SumPercent(b)
    decreases |a|
  {
    if |a| == 0 {
      assert |multiset(b)| == 0;
    } else {
      var x := a[0];
      assert x in multiset(b);
      var i :| 0 <= i < |b| && b[i] == x;
      var rest := b[..i] + b[i + 1..];
      assert b == b[..i] + [x] + b[i + 1..];
      assert a == [x] + a[1..];
      assert multiset(b) == multiset(b[..i]) + multiset([x]) + multiset(b[i + 1..]);
      assert multiset(rest) == multiset(b[..i]) + multiset(b[i + 1..]);
      assert multiset(a) == multiset([x]) + multiset(a[1..]);
      assert multiset(a[1..]) == multiset(a) - multiset{x};
      assert multiset(rest) == multiset(b) - multiset{x};
      SumPercentPermutation(a[1..], rest);
      SumPercentAppend(b[..i] + [x], b[i + 1..]);
      SumPercentAppend(b[..i], [x]);
      SumPercentAppend(b[..i], b[i + 1..]);
      assert SumPercent([x]) == x.percent;
    }
  }

  /**
   * The multiplier the discounts leave of the price: percents add up, and
   * a total of 100 or more removes the whole price but never goes below 0.
   */
  function DiscountFactor(ds: seq<Discount>): (f: real)
    ensures 0.0 <= f
    ensures SumPercent(ds) >= 0.0 ==> f <= 1.0
    ensures f == 0.0 <==> SumPercent(ds) >= 100.0
    ensures SumPercent(ds) < 100.0 ==> f == 1.0 - SumPercent(ds) / 100.0
  {
    var f := 1.0 - SumPercent(ds) / 100.0;
    if f > 0.0 then f else 0.0
  }

  /** With non-negative percents the factor is a fraction in [0, 1]. */
  lemma DiscountFactorInUnit(ds: seq<Discount>)
    requires forall i :: 0 <= i < |ds| ==> ds[i].percent >= 0.0
    ensures 0.0 <= DiscountFactor(ds) <= 1.0
  {
  }

  // ---------------------------------------------------------------- rounding

  /**
   * Kotlin's `round(Double)`: the nearest integer, ties to the even one.
   */
  function RoundHalfEven(x: real): (n: int)
    ensures x - 0.5 <= n as real <= x + 0.5
    ensures (n as real - x == 0.5 || x - n as real == 0.5) ==> n % 2 == 0
  {
    var f := x.Floor;
    var frac := x - f as real;
    if frac < 0.5 then f
    else if frac > 0.5 then f + 1
    else if f % 2 == 0 then f
    else f + 1
  }

  /** The two properties in RoundHalfEven's contract pin its result down. */
  lemma RoundHalfEvenUnique(x: real, m: int)
    requires x - 0.5 <= m as real <= x + 0.5
    requires (m as real - x == 0.5 || x - m as real == 0.5) ==> m % 2 == 0
    ensures m == RoundHalfEven(x)
  {
  }

  /** `round(x * 100.0) / 100.0`: `x` to the nearest cent. */
  function RoundCents(x: real): (c: real)
    ensures -0.005 <= c - x <= 0.005
    ensures (c * 100.0).Floor as real == c * 100.0
    ensures x >= 0.0 ==> c >= 0.0
  {
    var y := x * 100.0;
    var n := RoundHalfEven(y);
    var c := n as real / 100.0;
    assert c * 100.0 == n as real;
    assert c - x == (n as real - y) / 100.0;
    assert (c * 100.0).Floor == n;
    assert x >= 0.0 ==> n >= 0;
    c
  }

  // ---------------------------------------------------------------- price

  /** `basePrice × discount factor × (1 + VAT/100)`, before rounding. */
  function RawPrice(p: Product): (raw: real)
    ensures p.basePrice >= 0.0 ==> raw >= 0.0
    ensures SumPercent(p.discounts) >= 100.0 ==> raw == 0.0
  {
    var f := DiscountFactor(p.discounts);
    var v := 1.0 + VatFor(p.country) / 100.0;
    assert p.basePrice >= 0.0 ==> p.basePrice * f * v >= 0.0 by {
      if p.basePrice >= 0.0 { ScaleMonotone(p.basePrice, 0.0, f, v); }
    }
    p.basePrice * f * v
  }

  /** The `finalPrice` getter: the raw price rounded to cents. */
  function FinalPrice(p: Product): (price: real)
    ensures -0.005 <= price - RawPrice(p) <= 0.005
    ensures (price * 100.0).Floor as real == price * 100.0
  {
    RoundCents(RawPrice(p))
  }

  /** A non-negative base price gives a non-negative price. */
  lemma RawPriceNonNegative(p: Product)
    requires p.basePrice >= 0.0
    ensures RawPrice(p) >= 0.0
    ensures FinalPrice(p) >= 0.0
  {
  }

  /** Only the multiset of discounts matters: reordering them keeps the price. */
  lemma PriceIgnoresDiscountOrder(p: Product, q: Product)
    requires p.basePrice == q.basePrice && p.country == q.country
    requires multiset(p.discounts) == multiset(q.discounts)
    ensures RawPrice(p) == RawPrice(q)
    ensures FinalPrice(p) == FinalPrice(q)
  {
    SumPercentPermutation(p.discounts, q.discounts);
  }

  /** No discounts and a country outside the table: the base price, unchanged. */
  lemma PlainPriceWithoutVat(p: Product)
    requires p.discounts == []
    requires VatFor(p.country) == 0.0
    ensures RawPrice(p) == p.basePrice
  {
  }

  /** Stacking one more discount with a positive percent never raises the price. */
  lemma AddingDiscountNeverRaisesPrice(p: Product, d: Discount)
    requires p.basePrice >= 0.0
    requires d.percent > 0.0
    ensures RawPrice(p.(discounts := p.discounts + [d])) <= RawPrice(p)
  {
    var q := p.(discounts := p.discounts + [d]);
    SumPercentAppend(p.discounts, [d]);
    assert SumPercent([d]) == d.percent;
    var f, g := DiscountFactor(p.discounts), DiscountFactor(q.discounts);
    assert g <= f;
    ScaleMonotone(p.basePrice, g, f, 1.0 + VatFor(p.country) / 100.0);
  }

  lemma ScaleMonotone(a: real, g: real, f: real, v: real)
    requires a >= 0.0 && g <= f && v >= 0.0
    ensures a * g * v <= a * f * v
  {
    assert a * g <= a * f;
  }

  /** Sweden with one 10% discount: the base price times 0.9 times 1.25. */
  lemma SwedenTenPercent(p: Product, id: string)
    requires EqualsIgnoreCase(p.country, "sweden")
    requires p.discounts == [Discount(id, 10.0)]
    ensures RawPrice(p) == p.basePrice * 0.9 * 1.25
  {
    assert SumPercent(p.discounts) == 10.0;
  }

  /** The worked example: 199.99 in Sweden with 10% off is 224.98875, shown as 224.99. */
  lemma VacuumCleanerExample()
    ensures RawPrice(Product("swe-001", "Vacuum Cleaner", 199.99, "Sweden", [Discount("DISC-TEST-1", 10.0)])) == 224.98875
    ensures FinalPrice(Product("swe-001", "Vacuum Cleaner", 199.99, "Sweden", [Discount("DISC-TEST-1", 10.0)])) == 224.99
  {
    var p := Product("swe-001", "Vacuum Cleaner", 199.99, "Sweden", [Discount("DISC-TEST-1", 10.0)]);
    assert EqualsIgnoreCase("Sweden", "sweden");
    SwedenTenPercent(p, "DISC-TEST-1");
    assert RawPrice(p) * 100.0 == 22498.875;
    assert (22498.875).Floor == 22498;
    assert RoundHalfEven(22498.875) == 22499;
  }
}
