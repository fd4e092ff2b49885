/** Pricing rules of the checkout system (checkout/price.py).

    Each factory of the source captures its configuration and returns a
    "pricer": a callable that maps an item count to a pair
    (unit price or None, total), money held in integer minor units (cents).
    Here a pricer is a value of the datatype `Pricer` holding exactly the
    captured configuration, and calling it is the function `Apply`. The two
    pricers that read the wall clock get the clock reading as an explicit
    `Clock` argument, so every pricer is a total function of
    (configuration, clock, count). */
module Price {
  import opened Wrappers

  /** The clock collaborator: `datetime.today().hour` and
      `datetime.today().weekday()` (Monday = 0). */
  type Hour = h: int | 0 <= h < 24
  type Weekday = d: int | 0 <= d < 7
  datatype Clock = Clock(hour: Hour, weekday: Weekday)

  type Pos = d: int | d > 0 witness 1

  /** The float `discount` of the daily special, taken as the exact
      fraction num / den. */
  datatype Fraction = Fraction(num: int, den: Pos)

  /** What a pricer returns: the unit price (None for the bundle rule)
      and the total for the requested count. */
  datatype Quote = Quote(unitPrice: Option<int>, total: int)

  /** Errors raised when a pricer is constructed: the RuntimeError of
      buy_n_get_m_free, and the IndexError of the weekday-name lookup that
      daily_special performs while building its description. */
  datatype ConfigError = CannotBuyAndGetFree(n: nat, m: nat) | NoSuchWeekday(day: int)

  /** The AssertionError of the bundle pricer's `paid + free == count` check. */
  datatype PricerError = AssertionFailed

  /** A constructed pricer: the configuration its factory captured. */
  datatype Pricer =
    | StaticPricer(price: int)
    | AfterDinnerPricer(priceBefore: int, priceAfter: int, dinnertime: int)
    | DailySpecialPricer(price: int, dayOfWeek: int, discount: Fraction)
    | BuyNPricer(price: int, n: nat, m: nat)

  /** What construction guarantees about the captured configuration. */
  predicate Valid(p: Pricer) {
    match p
    case DailySpecialPricer(_, day, _) => -7 <= day < 7
    case BuyNPricer(_, n, m) => m < n
    case _ => true
  }

  /** The quote reports a unit price and the total is that price times the count. */
  predicate Consistent(q: Quote, count: int) {
    q.unitPrice.Some? && q.total == q.unitPrice.value * count
  }

  // ---------------------------------------------------------------------
  // static(price)

  /** StaticPricer.__call__: the same unit price for every count. */
  function StaticPrice(price: int, count: nat): (q: Quote)
    ensures q.unitPrice == Some(price)
    ensures Consistent(q, count)
  {
    Quote(Some(price), price * count)
  }

  /** The static total is linear in the count: nothing for no items, and
      the total for a + b items is the sum of the totals for a and for b. */
  lemma StaticLinear(price: int, a: nat, b: nat)
    ensures StaticPrice(price, 0).total == 0
    ensures StaticPrice(price, a + b).total == StaticPrice(price, a).total + StaticPrice(price, b).total
    ensures StaticPrice(price, a).unitPrice == StaticPrice(price, b).unitPrice
  {
  }

  // ---------------------------------------------------------------------
  // cheap_after_dinner(price_before, price_after, dinnertime)

  /** AfterDinnerPricer.__call__ at the given hour. The reported unit price
      is price_before in both branches; only the total switches. */
  function AfterDinnerPrice(priceBefore: int, priceAfter: int, dinnertime: int, hour: Hour, count: nat): (q: Quote)
    ensures q.unitPrice == Some(priceBefore)
  {
    if hour >= dinnertime then
      Quote(Some(priceBefore), priceAfter * count)
    else
      Quote(Some(priceBefore), priceBefore * count)
  }

  /** Before dinnertime the pricer behaves exactly as static(price_before);
      from dinnertime on its total is that of static(price_after) while its
      unit price is still price_before. */
  lemma AfterDinnerBranches(priceBefore: int, priceAfter: int, dinnertime: int, hour: Hour, count: nat)
    ensures hour < dinnertime ==> AfterDinnerPrice(priceBefore, priceAfter, dinnertime, hour, count) == StaticPrice(priceBefore, count)
    ensures hour >= dinnertime ==>
      AfterDinnerPrice(priceBefore, priceAfter, dinnertime, hour, count)
        == Quote(StaticPrice(priceBefore, count).unitPrice, StaticPrice(priceAfter, count).total)
  {
  }

  /** The reported unit price explains the total exactly when it is before
      dinnertime, the two prices agree, or nothing is bought. */
  lemma AfterDinnerConsistentIff(priceBefore: int, priceAfter: int, dinnertime: int, hour: Hour, count: nat)
    ensures Consistent(AfterDinnerPrice(priceBefore, priceAfter, dinnertime, hour, count), count)
        <==> (hour < dinnertime || priceAfter == priceBefore || count == 0)
  {
  }

  // ---------------------------------------------------------------------
  // daily_special(price, day_of_week, discount)

  /** Python's int() of a float: division rounding toward zero, which for a
      negative numerator differs from Dafny's Euclidean `/`. */
  function TruncDiv(a: int, d: Pos): (r: int)
    ensures 0 <= a ==> 0 <= r && r * d <= a < r * d + d
    ensures a < 0 ==> r <= 0 && a <= r * d < a + d
  {
    if a >= 0 then a / d else -((-a) / d)
  }

  /** int(price * discount), with the discount an exact fraction: the
      product num * price / den rounded toward zero. */
  function DiscountedPrice(price: int, discount: Fraction): (r: int)
    ensures 0 <= price * discount.num ==>
      0 <= r && r * discount.den <= price * discount.num < r * discount.den + discount.den
    ensures price * discount.num < 0 ==>
      r <= 0 && price * discount.num <= r * discount.den < price * discount.num + discount.den
  {
    TruncDiv(price * discount.num, discount.den)
  }

  /** A discount between 0 and 1 on a non-negative price gives a price
      between 0 and the undiscounted price. */
  lemma DiscountedPriceBounds(price: int, discount: Fraction)
    requires 0 <= price
    requires 0 <= discount.num <= discount.den
    ensures 0 <= DiscountedPrice(price, discount) <= price
  {
    var r, d := DiscountedPrice(price, discount), discount.den;
    MulMonotone(price, discount.num, d);
    MulCancel(r, price, d);
  }

  lemma MulCancel(a: int, b: int, d: int)
    requires d > 0 && a * d <= b * d
    ensures a <= b
  {
  }

  lemma MulMonotone(a: int, b: int, c: int)
    requires 0 <= a && b <= c
    ensures a * b <= a * c
  {
  }

  /** daily_special_pricer at the given weekday: the truncated discounted
      price on the configured day, the plain price on every other day. */
  function DailySpecialPrice(price: int, dayOfWeek: int, discount: Fraction, weekday: Weekday, count: nat): (q: Quote)
    ensures Consistent(q, count)
    ensures weekday == dayOfWeek ==> q.unitPrice == Some(DiscountedPrice(price, discount))
    ensures weekday != dayOfWeek ==> q == StaticPrice(price, count)
  {
    var myprice := if weekday == dayOfWeek then DiscountedPrice(price, discount) else price;
    Quote(Some(myprice), myprice * count)
  }

  /** daily_special: the description looks the day up in a seven-entry
      weekday table, so a day outside -7..6 raises at construction. */
  function DailySpecial(price: int, dayOfWeek: int, discount: Fraction): (r: Result<Pricer, ConfigError>)
    ensures r.Ok? <==> -7 <= dayOfWeek < 7
    ensures r.Ok? ==> r.value == DailySpecialPricer(price, dayOfWeek, discount) && Valid(r.value)
    ensures r.Err? ==> r.error == NoSuchWeekday(dayOfWeek)
  {
    if -7 <= dayOfWeek < 7 then Ok(DailySpecialPricer(price, dayOfWeek, discount))
    else Err(NoSuchWeekday(dayOfWeek))
  }

  /** A negative day index passes the weekday-table lookup but never equals
      a clock weekday, so such a pricer never discounts. */
  lemma NegativeDayNeverDiscounts(price: int, dayOfWeek: int, discount: Fraction, clock: Clock, count: nat)
    requires -7 <= dayOfWeek < 0
    ensures DailySpecial(price, dayOfWeek, discount).Ok?
    ensures Apply(DailySpecial(price, dayOfWeek, discount).value, clock, count) == Ok(StaticPrice(price, count))
  {
  }

  /** With price 1000 and discount 1/4 on day 2, four items cost 250 each
      on day 2 and 1000 each on any other day. */
  lemma DailySpecialExample(otherDay: Weekday)
    requires otherDay != 2
    ensures DailySpecialPrice(1000, 2, Fraction(1, 4), 2, 4) == Quote(Some(250), 1000)
    ensures DailySpecialPrice(1000, 2, Fraction(1, 4), otherDay, 4) == Quote(Some(1000), 4000)
  {
  }

  // ---------------------------------------------------------------------
  // buy_n_get_m_free(price, n, m)

  /** buy_n_get_m_free: refuses m >= n, otherwise yields the pricer. */
  function BuyNGetMFree(price: int, n: nat, m: nat): (r: Result<Pricer, ConfigError>)
    ensures r.Err? <==> m >= n
    ensures r.Err? ==> r.error == CannotBuyAndGetFree(n, m)
    ensures r.Ok? ==> r.value == BuyNPricer(price, n, m) && Valid(r.value)
  {
    if m >= n then Err(CannotBuyAndGetFree(n, m)) else Ok(BuyNPricer(price, n, m))
  }

  /** How many items are paid for and how many are free. */
  datatype Tally = Tally(paid: nat, free: nat)

  /** The bundle arithmetic of buy_n_pricer, as written: when the leftover
      exceeds n, paid and free are overwritten, discarding the full groups. */
  function Bundle(n: nat, m: nat, count: nat): (t: Tally)
    requires n + m > 0
    ensures count % (n + m) <= n ==>
      t.paid == (count / (n + m)) * n + count % (n + m) && t.paid + t.free == count
  {
    var groups := count / (n + m);
    var leftover := count % (n + m);
    var free := groups * m;
    var paid := groups * n;
    if leftover > n then
      Tally(n, leftover - n)
    else
      Tally(paid + leftover, free)
  }

  /** Dividing by the group size: no full group below it, at least one from it on. */
  lemma GroupsZeroIff(count: nat, s: int)
    requires s > 0
    ensures count / s == 0 <==> count < s
  {
  }

  /** When the leftover exceeds n the tally is exactly (n, leftover - n),
      and it accounts for every item precisely when there is no full group. */
  lemma BundleOverwrite(n: nat, m: nat, count: nat)
    requires n + m > 0
    requires count % (n + m) > n
    ensures Bundle(n, m, count) == Tally(n, count % (n + m) - n)
    ensures Bundle(n, m, count).paid + Bundle(n, m, count).free == count <==> count < n + m
  {
  }

  /** The line-92 assertion holds exactly when the leftover is at most n
      or the count is below one full group. */
  lemma BundleAssertionIff(n: nat, m: nat, count: nat)
    requires n + m > 0
    ensures Bundle(n, m, count).paid + Bundle(n, m, count).free == count
        <==> (count % (n + m) <= n || count < n + m)
  {
  }

  /** Fewer items than one full group: the customer pays for min(count, n)
      items and the assertion holds. */
  lemma BundleBelowThreshold(n: nat, m: nat, count: nat)
    requires n + m > 0
    requires count < n + m
    ensures Bundle(n, m, count).paid == if count <= n then count else n
    ensures Bundle(n, m, count).paid + Bundle(n, m, count).free == count
  {
  }

  /** buy_n_pricer: no unit price, and the paid items times the price as
      total; the assertion error exactly when the tally loses items. */
  function BuyNPrice(price: int, n: nat, m: nat, count: nat): (r: Result<Quote, PricerError>)
    requires n + m > 0
    ensures r.Ok? <==> (count % (n + m) <= n || count < n + m)
    ensures r.Ok? ==> r.value == Quote(None, Bundle(n, m, count).paid * price)
    ensures r.Ok? ==> r.value.total == BundleIntended(n, m, count).paid * price
  {
    BundleAssertionIff(n, m, count);
    var t := Bundle(n, m, count);
    if t.paid + t.free == count then
      BundleIntendedAgrees(n, m, count);
      Ok(Quote(None, t.paid * price))
    else
      Err(AssertionFailed)
  }

  /** Buying anywhere from n to n + m items costs the same as buying n:
      free items below a full group are not credited. */
  lemma BuyNThresholdFloor(price: int, n: nat, m: nat, count: nat)
    requires n + m > 0
    requires n <= count <= n + m
    ensures BuyNPrice(price, n, m, count) == Ok(Quote(None, n * price))
  {
    if count < n + m {
      BundleBelowThreshold(n, m, count);
    } else {
      DivModUnique(count, n + m, 1, 0);
    }
  }

  /** The docstring's example "buy 5 get 2 free": buying 5, 6 or 7 items
      costs the same as buying 5. */
  lemma BuyFiveGetTwoExample(price: int)
    ensures forall k: nat | 5 <= k <= 7 :: BuyNPrice(price, 5, 2, k) == Ok(Quote(None, 5 * price))
  {
    forall k: nat | 5 <= k <= 7
      ensures BuyNPrice(price, 5, 2, k) == Ok(Quote(None, 5 * price))
    {
      BuyNThresholdFloor(price, 5, 2, k);
    }
  }

  /** Twelve items under "buy 5 get 2 free" are one full group and a
      leftover of five: ten items paid for. */
  lemma BuyFiveGetTwoTwelve(price: int)
    ensures BuyNPrice(price, 5, 2, 12) == Ok(Quote(None, 10 * price))
  {
    DivModUnique(12, 7, 1, 5);
  }

  /** Buying 13 items under "buy 5 get 2 free" leaves a leftover of 6 > 5
      after one full group, so the as-written tally is (5, 1) and the
      pricer raises the assertion error instead of pricing. */
  lemma BuyFiveGetTwoThirteenFails(price: int)
    ensures Bundle(5, 2, 13) == Tally(5, 1)
    ensures BuyNPrice(price, 5, 2, 13) == Err(AssertionFailed)
  {
  }

  /** The evidently intended leftover rule: a leftover beyond n adds n paid
      and leftover - n free items to the full groups' counts. */
  function BundleIntended(n: nat, m: nat, count: nat): (t: Tally)
    requires n + m > 0
    ensures t.paid + t.free == count
    ensures t.free <= (count / (n + m)) * m + (if m == 0 then 0 else m - 1)
  {
    var groups := count / (n + m);
    var leftover := count % (n + m);
    if leftover > n then
      Tally(groups * n + n, groups * m + (leftover - n))
    else
      Tally(groups * n + leftover, groups * m)
  }

  /** Wherever the as-written pricer does not raise, it agrees with the
      intended rule. */
  lemma BundleIntendedAgrees(n: nat, m: nat, count: nat)
    requires n + m > 0
    requires count % (n + m) <= n || count < n + m
    ensures Bundle(n, m, count) == BundleIntended(n, m, count)
  {
    if count % (n + m) > n {
      GroupsZeroIff(count, n + m);
      assert count / (n + m) == 0;
    }
  }

  /** "Buy n get m free" read item by item: each full group of n + m items
      is n paid and m free; in a last partial group the first n items are
      paid and the rest free. An independent reference for BundleIntended. */
  function BundleByGroups(n: nat, m: nat, count: nat): (t: Tally)
    requires n + m > 0
    ensures t.paid + t.free == count
    ensures count >= n ==> t.paid >= n
    decreases count
  {
    if count < n + m then
      if count <= n then Tally(count, 0) else Tally(n, count - n)
    else
      var rest := BundleByGroups(n, m, count - (n + m));
      Tally(rest.paid + n, rest.free + m)
  }

  /** The corrected closed form, by division and remainder, is the
      group-by-group reading. */
  lemma {:induction false} BundleIntendedByGroups(n: nat, m: nat, count: nat)
    requires n + m > 0
    ensures BundleIntended(n, m, count) == BundleByGroups(n, m, count)
    decreases count
  {
    if count < n + m {
      GroupsZeroIff(count, n + m);
    } else {
      BundleIntendedByGroups(n, m, count - (n + m));
      BundleIntendedStep(n, m, count - (n + m));
    }
  }

  /** One more full group adds n paid and m free items to the corrected tally. */
  lemma BundleIntendedStep(n: nat, m: nat, c: nat)
    requires n + m > 0
    ensures BundleIntended(n, m, c + (n + m))
      == Tally(BundleIntended(n, m, c).paid + n, BundleIntended(n, m, c).free + m)
  {
    var s := n + m;
    var g, l := c / s, c % s;
    DivModUnique(c + s, s, g + 1, l);
    assert (g + 1) * n == g * n + n;
    assert (g + 1) * m == g * m + m;
  }

  /** Group by group, one more item never lowers the number paid for. */
  lemma {:induction false} BundleByGroupsMonotone(n: nat, m: nat, count: nat)
    requires n + m > 0
    ensures BundleByGroups(n, m, count).paid <= BundleByGroups(n, m, count + 1).paid
    decreases count
  {
    if count >= n + m {
      BundleByGroupsMonotone(n, m, count - (n + m));
    }
  }

  /** Under the corrected rule, one more item never lowers the number paid for. */
  lemma BundleIntendedMonotone(n: nat, m: nat, count: nat)
    requires n + m > 0
    ensures BundleIntended(n, m, count).paid <= BundleIntended(n, m, count + 1).paid
  {
    BundleIntendedByGroups(n, m, count);
    BundleIntendedByGroups(n, m, count + 1);
    BundleByGroupsMonotone(n, m, count);
  }

  /** Quotient and remainder are the only pair with a == q * s + r and 0 <= r < s. */
  lemma DivModUnique(a: int, s: int, q: int, r: int)
    requires s > 0 && 0 <= r < s && a == q * s + r
    ensures a / s == q && a % s == r
  {
    var q0, r0 := a / s, a % s;
    assert (q - q0) * s == r0 - r;
    if q > q0 {
      MulMonotone(s, 1, q - q0);
    } else if q < q0 {
      MulMonotone(s, 1, q0 - q);
    }
  }

  // ---------------------------------------------------------------------
  // Calling a pricer

  /** pricer(count) at the given clock reading. Only the bundle pricer can
      fail, and only it reports no unit price. */
  function Apply(p: Pricer, clock: Clock, count: nat): (r: Result<Quote, PricerError>)
    requires Valid(p)
    ensures !p.BuyNPricer? ==> r.Ok? && r.value.unitPrice.Some?
    ensures p.BuyNPricer? && r.Ok? ==> r.value.unitPrice.None?
    ensures (p.StaticPricer? || p.DailySpecialPricer?) ==> Consistent(r.value, count)
    ensures p.AfterDinnerPricer? ==> r.value.unitPrice == Some(p.priceBefore)
  {
    match p
    case StaticPricer(price) => Ok(StaticPrice(price, count))
    case AfterDinnerPricer(before, after, dinnertime) => Ok(AfterDinnerPrice(before, after, dinnertime, clock.hour, count))
    case DailySpecialPricer(price, day, discount) => Ok(DailySpecialPrice(price, day, discount, clock.weekday, count))
    case BuyNPricer(price, n, m) => BuyNPrice(price, n, m, count)
  }

  /** Every configured price (and the discount) is non-negative. */
  predicate NonNegativeConfig(p: Pricer) {
    match p
    case StaticPricer(price) => 0 <= price
    case AfterDinnerPricer(before, after, _) => 0 <= before && 0 <= after
    case DailySpecialPricer(price, _, discount) => 0 <= price && 0 <= discount.num
    case BuyNPricer(price, _, _) => 0 <= price
  }

  /** Non-negative prices give a non-negative total for every count and clock. */
  lemma TotalNonNegative(p: Pricer, clock: Clock, count: nat)
    requires Valid(p) && NonNegativeConfig(p)
    ensures Apply(p, clock, count).Ok? ==> Apply(p, clock, count).value.total >= 0
  {
    match p
    case StaticPricer(price) =>
      MulMonotone(count, 0, price);
    case AfterDinnerPricer(before, after, _) =>
      MulMonotone(count, 0, before);
      MulMonotone(count, 0, after);
    case DailySpecialPricer(price, _, discount) =>
      MulMonotone(price, 0, discount.num);
      var d := DiscountedPrice(price, discount);
      assert 0 <= d;
      MulMonotone(count, 0, price);
      MulMonotone(count, 0, d);
    case BuyNPricer(price, n, m) =>
      MulMonotone(Bundle(n, m, count).paid, 0, price);
  }
}
