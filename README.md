# Checkout pricing rules in Dafny

This project models the pricing module of a small checkout system
(`checkout/price.py`). The module has four factories. Each one captures its
configuration and returns a *pricer*. A pricer maps an item count to a pair
(unit price or `None`, total), with money in integer minor units (cents):

- `static(price)` charges `price` per item.
- `cheap_after_dinner(price_before, price_after, dinnertime)` switches the
  total to `price_after` once the hour reaches `dinnertime`. The unit price it
  reports is `price_before` in both branches.
- `daily_special(price, day_of_week, discount)` charges `int(price * discount)`
  on one weekday (Monday = 0).
- `buy_n_get_m_free(price, n, m)` does bundle arithmetic. It refuses
  `m >= n` at construction, and it checks `paid + free == count` on every call.

In the model, a constructed pricer is a value of the datatype `Price.Pricer`
that holds exactly the captured configuration. Calling a pricer is
`Price.Apply(pricer, clock, count)`. The clock reads `datetime.today().hour`
and `datetime.today().weekday()` become an explicit `Clock(hour, weekday)`
argument, so every pricer is a total function of (configuration, clock,
count). Because these are Dafny functions, calling a pricer twice with the
same count and clock always gives the same answer. Within the modelled
domain (`n` and `m` natural numbers, see "Left out"), the source raises
errors in three places, apart from float overflow of astronomically large
prices or discounts (also under "Left out"). Each of the three becomes a `Result` error
value:

- `buy_n_get_m_free` raises `RuntimeError` when `m >= n`; here it is
  `CannotBuyAndGetFree`.
- `daily_special` raises `IndexError` when `weekdays[day_of_week]` is out of
  range while it builds its description; here it is `NoSuchWeekday`.
- The `assert` at line 92 raises `AssertionError`; here it is
  `AssertionFailed`.

The bundle arithmetic follows the code literally, including lines 87-89. There,
a leftover greater than `n` *overwrites* `paid` and `free` instead of adding to
them. Because of this, the line-92 assertion holds exactly when
`count % (n+m) <= n` or `count < n+m` (`Price.BundleAssertionIff`).

The daily special disagrees with itself. Its description string (lines
61-62) prints `discount * 100` followed by "% off", so a discount of 0.25 is
announced as "25% off". The price charged at line 58 is `int(price * discount)`,
so with price 1000 the unit price is 250, which is 75% off, and four items
cost 1000 (`Price.DailySpecialExample`). The model follows the arithmetic,
because that is what the pricer returns. `int()` of the float product
truncates toward zero, which differs from flooring only for a negative
product (`Price.TruncDiv`, `Price.DiscountedPrice`).

## Model

| member | source | states |
|---|---|---|
| `Price.StaticPrice` | checkout/price.py:27-28 | the unit price is `price` whatever the count, and the total is that unit price times the count |
| `Price.StaticLinear` | checkout/price.py:27-28 | the static total is linear in the count: 0 for no items, total(a+b) = total(a) + total(b), and the same unit price for every count |
| `Price.AfterDinnerPrice` | checkout/price.py:42-45 | the reported unit price is `price_before` in both branches of the hour test |
| `Price.AfterDinnerBranches` | checkout/price.py:42-45 | before dinnertime the pricer equals `static(price_before)`; from dinnertime on, the total is `static(price_after)`'s total while the unit price stays `price_before` |
| `Price.AfterDinnerConsistentIff` | checkout/price.py:42-45 | the reported unit price times the count equals the total exactly when it is before dinnertime, or the two prices are equal, or the count is 0 |
| `Price.TruncDiv` | checkout/price.py:58 | `int()` of the quotient: for a non-negative numerator it is the floor, for a negative one it rounds toward zero (bounds on `r * d` in both cases) |
| `Price.DiscountedPrice` | checkout/price.py:58 | `int(price * discount)` with the discount `num / den`: for a non-negative product, the largest `r >= 0` with `r * den <= price * num`; for a negative product, the `r <= 0` with `price * num <= r * den < price * num + den` (truncation toward zero) |
| `Price.DiscountedPriceBounds` | checkout/price.py:58 | a discount between 0 and 1 on a non-negative price gives a price between 0 and the original price |
| `Price.DailySpecialPrice` | checkout/price.py:55-59 | on every day, the total is the reported unit price times the count; on the configured day the unit price is the truncated discounted price; on every other day the result equals `static(price)` |
| `Price.DailySpecial` | checkout/price.py:50-65 | construction succeeds exactly when the weekday-table lookup succeeds (`-7 <= day_of_week < 7`), and otherwise reports that day |
| `Price.NegativeDayNeverDiscounts` | checkout/price.py:55-62 | a negative day index passes construction, but the pricer then behaves as `static(price)` at every clock reading |
| `Price.DailySpecialExample` | checkout/price.py:55-59 | price 1000, discount 1/4 on day 2, 4 items: (250, 1000) on day 2 and (1000, 4000) on every other day |
| `Price.BuyNGetMFree` | checkout/price.py:79-80 | construction fails exactly when `m >= n`, with that configuration in the error; when `m < n` it yields the bundle pricer, which satisfies the constructor invariant |
| `Price.Bundle` | checkout/price.py:83-91 | when `count % (n+m) <= n`, `paid == (count / (n+m)) * n + count % (n+m)` and `paid + free == count` |
| `Price.BundleOverwrite` | checkout/price.py:87-92 | when `count % (n+m) > n`, the tally is exactly `(n, leftover - n)`, and `paid + free == count` holds exactly when `count < n+m` |
| `Price.BundleAssertionIff` | checkout/price.py:83-92 | the line-92 assertion holds exactly when `count % (n+m) <= n` or `count < n+m` |
| `Price.BundleBelowThreshold` | checkout/price.py:83-91 | for fewer than `n+m` items the customer pays for `min(count, n)` items, and the assertion holds |
| `Price.BuyNPrice` | checkout/price.py:82-94 | the pricer succeeds exactly when the line-92 condition holds; on success the unit price is `None` and the total is `paid * price`, which equals the intended rule's `paid * price` |
| `Price.BuyNThresholdFloor` | checkout/price.py:76-91 | buying anywhere from `n` to `n+m` items costs `n * price`, the same as buying `n` |
| `Price.BuyFiveGetTwoExample` | checkout/price.py:76-77 | with buy 5 get 2 free, buying 5, 6 or 7 items costs `5 * price` |
| `Price.BuyFiveGetTwoTwelve` | checkout/price.py:83-94 | with buy 5 get 2 free, 12 items cost `10 * price` |
| `Price.BuyFiveGetTwoThirteenFails` | checkout/price.py:83-92 | with buy 5 get 2 free, 13 items give the as-written tally (5, 1), and the pricer raises the assertion error |
| `Price.BundleIntended` | checkout/price.py:87-91 | the corrected leftover rule (add `n` paid and `leftover - n` free items to the full groups) always accounts for every item, and grants at most `m - 1` free items beyond the full groups (none when `m = 0`) |
| `Price.BundleIntendedAgrees` | checkout/price.py:83-91 | wherever the as-written tally passes the assertion, it equals the corrected tally |
| `Price.BundleIntendedStep` | checkout/price.py:83-91 | under the corrected rule, one more full group of `n+m` items adds exactly `n` paid and `m` free items |
| `Price.BundleByGroups` | checkout/price.py:70-77 | the rule read item by item, one group at a time (`n` paid, then `m` free, with a partial last group paying for at most `n`): it accounts for every item, and from `n` items on at least `n` are paid for |
| `Price.BundleIntendedByGroups` | checkout/price.py:83-91 | the corrected division-and-remainder tally equals the group-by-group reading for every count |
| `Price.BundleByGroupsMonotone` | checkout/price.py:70-77 | in the group-by-group reading, one more item never lowers the number of items paid for |
| `Price.BundleIntendedMonotone` | checkout/price.py:83-91 | under the corrected rule, buying one more item never lowers the number of items paid for |
| `Price.Apply` | checkout/price.py:18-98 | only the bundle pricer can fail, and only it reports no unit price; the static and daily-special totals equal their unit price times the count; the after-dinner unit price is `price_before` |
| `Price.TotalNonNegative` | checkout/price.py:18-98 | with non-negative configured prices and discount, every successful call has a non-negative total |

## Findings

| source | as written | input that shows it | evidently intended | confidence | as-written member | corrected member |
|---|---|---|---|---|---|---|
| checkout/price.py:87-89 | when the leftover exceeds `n`, `paid = n` and `free = leftover - n` replace the full groups' counts | `buy_n_get_m_free(price, 5, 2)` called with 13: one group, leftover 6, tally (5, 1), and the assertion at line 92 fails | `paid += n` and `free += leftover - n` | high; not executed | `Price.BuyFiveGetTwoThirteenFails` | `Price.BundleIntended` |

`Price.Apply` and `Price.BuyNPrice` keep the code as written, because the
model describes the repository's behaviour. `Price.BuyNPrice` also proves
that every total it returns equals the total under `Price.BundleIntended`.
So the two definitions differ only on the inputs where the code raises.

## Left out

- Description strings (lines 25, 39-40, 61-62, 95). Those at lines 25, 39-40
  and 61-62 format the float `price / 100.0` to two decimals. Line 62 also
  prints the float `discount * 100` through `%d`, which truncates it to an
  integer: 0.255 prints as "25% off". The one at line 95,
  `'Buy %d get %d free'`, formats the two integers and carries no arithmetic. The only effect of these strings that is modelled is the
  `IndexError` raised by the weekday-name lookup at line 62.
- `discount` is a float in the source. It is modelled as an exact fraction
  `num / den`, and `int(price * discount)` as truncating division. Float
  rounding of the product is not modelled.
- The wall clock, `datetime.today()` at lines 43 and 57: it becomes the
  explicit `Clock` argument (hour 0..23, weekday 0..6).
- The zope.interface declarations (`implementer`, `directlyProvides`,
  `IPricer`): they declare an interface and have no behaviour. The
  `checkout/interface.py` file is not part of this model.
- The ignored `**kw` arguments of every pricer.
- The `Product` consumer named in the module docstring: it is not part of
  this model.
- Negative and non-integer item counts: `count` is a `nat`. The source accepts
  other numbers; for example `static(100)(2.5)` returns `(100, 250.0)`. The
  pricers' behaviour for such counts is unspecified.
- Float overflow. Python 2 converts the configured prices to floats while it
  builds the descriptions: `price / 100.0` at lines 25 and 62, and
  `price_before / 100.0` and `price_after / 100.0` at line 40. That conversion
  raises `OverflowError` at construction once a price's magnitude reaches
  about 2**1024. Line 62 also formats the float `discount * 100` with `%d`.
  Once that product is infinite (a discount of about 1.8e306 or more),
  converting it to an integer raises `OverflowError` at construction, for
  example `daily_special(100, 0, 1e307)`. At call time, `int(price * discount)` at line 58 raises
  `OverflowError` when the float product is infinite, for example
  `daily_special(10**10, 0, 1e300)` on a Monday. The model's prices are
  unbounded integers and its discount an exact fraction, so `Price.Pricer`
  values, `Price.DailySpecial` and `Price.DiscountedPrice` succeed in these
  cases.
- Negative `n` or `m` for `buy_n_get_m_free`: they are `nat` here. In the
  source, `buy_n_get_m_free(p, 1, -1)` passes the guard and then divides by
  zero on every call.
- Python's `assert` disappears under `python -O`. The model always performs
  the check.
