# Amazon US offers bot: selection and ledger model

A Dafny model of the decision core of `amazon_eeuu_bot.py`. The bot polls a
price-aggregation API once an hour. It announces discounted products to a
channel and keeps a ledger, `sent_products`, that maps each announced ASIN to the
time it was sent. The model covers two parts:

- the per-cycle selection loop of `price_watcher`. It walks the batch in order
  and stops after `MAX_PER_HOUR` (5) announcements. It skips ASINs already in the
  ledger. It skips records whose `buyBoxPrice` or `buyBoxShipping` is missing or
  zero, and records whose baseline is not positive. It announces an offer whose
  discount is at least `DISCOUNT_THRESHOLD` (10%), stamps it in the ledger and
  bumps the counter;
- the ledger eviction of `clean_old_cache`. It deletes every entry strictly older
  than seven days.

Layout:

- `wrappers.dfy`: `Option`, for record fields that may be absent.
- `sent_products.dfy` (module `SentProducts`): the retention window, the
  specification function `Retained`, and the class `Ledger`. `Ledger` holds the
  dictionary as a `map<string, int>` field. Its `Evict` method deletes stale keys
  in a loop over a snapshot, as the source does.
- `selection.dfy` (module `Selection`): the `Offer` record and the tests of one
  loop iteration (`Decide`). It also holds `Run`, a value-level specification of
  a whole cycle, and the lemmas about that specification.
- `watcher.dfy` (module `Watcher`): `RunCycle`, the imperative loop. It mutates the
  `Ledger` in place with the source's `break`/`continue` structure and is proved
  equal to `Run`. `WatchCycle` is one iteration of the watcher: fetch, select,
  evict. `FetchedOffers` stands in for `get_keepa_offers`: a non-200 status, or a
  response without `products`, gives the empty batch.

The discount baseline is the `buyBoxShipping` field, as the source reads it.
`Qualifies` states the source's percentage formula `(1 - cur/old) * 100 >= 10` in
exact real arithmetic. The loop evaluates the equivalent integer test
`100 * cur <= 90 * old` (`MeetsThreshold`), and `ThresholdIsPercentTest` proves
the two agree whenever the baseline is positive. "Missing or zero" is Python
truthiness (`Falsy`). A negative `buyBoxPrice` is truthy, so such an offer passes
the field check, and with a positive baseline it counts as a discount of more
than 100% and is announced.

The model follows the code as written, in particular:

- The baseline is `buyBoxShipping`, not a separate list price.
- A zero price is skipped as missing, not only an absent one.
- The ledger is stamped only after `send_offer` returns.

## Model

| member | source | states |
|---|---|---|
| `SentProducts.Retained` | amazon_eeuu_bot.py:74-77 | The ledger after eviction adds no key. Every entry strictly older than seven days is removed. Every entry at most seven days old is kept, and every kept entry has its old timestamp. |
| `SentProducts.RetainedIdempotent` | amazon_eeuu_bot.py:75-77 | Evicting twice at the same instant gives the same ledger as evicting once. |
| `SentProducts.RetentionBoundary` | amazon_eeuu_bot.py:76 | An entry exactly seven days old is kept (the test is strict). An entry one second older, or eight days old, is dropped. A six-day-old entry is kept. |
| `SentProducts.Ledger.constructor` | amazon_eeuu_bot.py:28-32 | The ledger starts as the persisted dictionary when one exists, and empty otherwise. |
| `SentProducts.Ledger.Evict` | amazon_eeuu_bot.py:73-77 | Deleting stale keys while walking a snapshot leaves exactly `Retained` of the old ledger: every stale entry is gone, every non-stale old entry stays with its old timestamp, and nothing else is present. |
| `Selection.ThresholdIsPercentTest` | amazon_eeuu_bot.py:103-104 | With a positive baseline, the integer test `100*cur <= 90*old` holds iff `(1 - cur/old)*100 >= 10` in exact arithmetic. |
| `Selection.DecideAnnouncesExactly` | amazon_eeuu_bot.py:92-104 | An offer is announced iff all of these hold: its ASIN is not in the ledger, both price fields are truthy, the baseline is positive, and the discount is at least 10%. |
| `Selection.RunCap` | amazon_eeuu_bot.py:85-107 | At most `MAX_PER_HOUR` offers are announced in a cycle, counting from the counter's value. |
| `Selection.RunSubsequence` | amazon_eeuu_bot.py:87-107 | The announced offers are a subsequence of the batch, in batch order. |
| `Selection.RunAnnouncesFreshQualifying` | amazon_eeuu_bot.py:92-106 | Every announced offer qualifies, and its ASIN was not in the ledger at the start. No ASIN is announced twice in one cycle, even when the batch repeats it. |
| `Selection.RunLedger` | amazon_eeuu_bot.py:106 | The ledger only gains entries: its keys become the old keys plus the announced ASINs. Old entries keep their timestamps. Each announced ASIN is stamped with the cycle's time. |
| `Selection.RunAppend` | amazon_eeuu_bot.py:87-107 | Splitting a batch anywhere, the second part continues from the ledger and the count that the first part leaves. |
| `Selection.RunAnnouncesReachedOffer` | amazon_eeuu_bot.py:87-107 | Say an offer is reached before the cap, qualifies, and its ASIN is neither in the ledger nor announced earlier in the cycle. Then it is announced right after the announcements made before it. |
| `Selection.RunStopsAtCap` | amazon_eeuu_bot.py:88-89 | Once the cap is reached, later offers are not examined: the outcome equals that of the prefix. Later offers that were not already sent stay out of the ledger. |
| `Selection.RunIgnoresSkipped` | amazon_eeuu_bot.py:92-101 | An offer whose ASIN is in the ledger when it is reached (sent before, or announced earlier in the same batch), or with a missing or zero price, a non-positive baseline or too small a discount, has no effect. The outcome equals that of the batch without it. |
| `Selection.RunTakesFirstQualifying` | amazon_eeuu_bot.py:87-107 | In a batch of distinct, fresh, qualifying offers, exactly the first `MAX_PER_HOUR` (less those already counted) are announced. |
| `Selection.RunDefersBeyondCap` | amazon_eeuu_bot.py:88-89 | In such a batch, the offers past the cap are not recorded, so they are eligible in the next cycle. |
| `Selection.BoundaryScenario` | amazon_eeuu_bot.py:103-104 | In exact arithmetic, with an empty ledger, 900 against a 1000 baseline (exactly 10%) is announced and recorded. 950 against 1000 (5%) is not. |
| `Watcher.RunCycle` | amazon_eeuu_bot.py:85-107 | The in-place loop returns the announced offers and leaves the ledger that `Run` specifies. Its contract also states the cap, the subsequence, freshness, qualification, distinctness, and that the ledger only grows. |
| `Watcher.WatchCycle` | amazon_eeuu_bot.py:82-109 | One iteration announces what `Run` selects from the fetched batch and leaves the evicted ledger. A failed fetch announces nothing and only evicts. |

## Left out

- `Selection.DecideAnnouncesExactly`: the discount test is exact; the source divides in IEEE doubles. There every price ratio of exactly 9/10 rounds to the double nearest 0.9, and `(1 - 0.9) * 100` evaluates to `9.999999999999998`. So the source skips every offer with a discount of exactly 10%, which the model announces, and it can skip offers a hair above 10% as well. `Selection.BoundaryScenario` states the exact-arithmetic result.
- The HTTP exchange of `get_keepa_offers`: only its outcome, a status and an optional products list, reaches the model (`Watcher.FetchedOffers`). Network errors that raise are not modelled.
- `send_offer`: its formatting, the `price / 100` display conversion and the Telegram call are left out. An announcement is the offer appended to the returned sequence, and the model's send always succeeds. In the source a raising send is not caught. It leaves that ASIN unstamped, abandons the rest of the batch and the eviction, and ends the watcher task for good. The model captures none of these effects.
- The JSON load and dump of `sent_products.json` are file I/O. The constructor takes the persisted dictionary, if any, as a parameter. Persisting after eviction is not modelled.
- The `while True` loop, `asyncio.sleep(CHECK_INTERVAL)`, the bot/dispatcher wiring and `main` are scheduling and framework code. The model covers one cycle.
- Clock readings are parameters in whole seconds: `now` for the cycle's stamps, `cleanNow` for eviction.
- `Watcher.RunCycle`: the source calls `time.time()` (a float) afresh for each announcement. The model stamps all announcements of one cycle with the same value.
- A record without an `asin` key makes the source raise `KeyError`. In the model every offer has an ASIN. Prices are integers; other JSON value types are not modelled.
