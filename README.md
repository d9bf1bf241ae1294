# rodbot exchange core, in Dafny

This project models the part of rodbot that reasons about exchange data. rodbot is a Python 2 crypto-trading bot for the Cobinhood exchange. The model covers two files.

- **lib/pair.py**
  - `check_pair_is_valid`: the regular expression `^\w{3,5}-\w{3,5}$` on byte strings, including Python's `$` matching before a final newline.
  - The `Pair` class: its constructor and `update_values`. The latter overwrites the seven market figures from a stats record. When a key is missing, it falls back to the entry under the pair's own name.
- **lib/api_exchange.py**
  - `get_currency_multiplier`: the decision table that converts a pair's quote-currency volume into BTC, ETH, USDT or another currency through a bridge pair.
  - The queries over a stats snapshot: `get_pairs_by_volume`, `get_pairs_volume_sorted`, `get_pairs_without_volume` and `is_pair_in_exchange`.
  - The `ApiExchange` class: its snapshot field and its three bridge pairs (BTC-USDT, ETH-USDT, ETH-BTC). `update_basic_pairs` refreshes the bridges from the snapshot. `update_stats` only replaces the snapshot and does not refresh the bridges.

Modules:

- `Results`: `Option` and `Result`.
- `Stats`: the snapshot, the JSON-like values that `update_values` receives, and the exceptions.
- `PairNames`: `check_pair_is_valid`.
- `Pairs`: the `Pair` class and a pure specification of `update_values`.
- `Currency`: `get_currency_multiplier`.
- `Volume`: the read-only queries.
- `Exchange`: the `ApiExchange` class.

The network is replaced by parameters:

- The snapshot that `get_pairs_stats` would fetch is passed in as a `Snapshot`.
- The list that `get_all_pairs` would fetch is passed in as `tradeable`.
- The order in which the Python dictionary yields its keys is passed in as `order`.

The queries take the client's `lastPairStats` as their `stats` argument.

Besides the branch-by-branch behaviour, the model proves what the multipliers mean. Take any valuation `worth` of currencies that the snapshot's last prices agree with: the last price of `B-Q` times the worth of `Q` is the worth of `B`. Assume also that USD-like tickers are pegged to USDT. Then:

- every multiplier turns a worth counted in the pair's quote currency into the same worth counted in the target;
- every converted volume is the pair's base volume valued in its base currency;
- so the ranking by volume is the same in every target currency, as the docstring of `get_pairs_volume_sorted` claims.

## Model

| member | source | states |
|---|---|---|
| PairNames.ValidFromSides | lib/pair.py:71 | two sides of 3 to 5 word characters (`[A-Za-z0-9_]`) joined by `-` are accepted, with or without one final newline |
| PairNames.SidesOfValid | lib/pair.py:71 | every accepted identifier is exactly such a pair of sides, optionally followed by one newline |
| PairNames.SidesUnique | lib/pair.py:71 | an identifier determines its two sides, since `-` is not a word character |
| PairNames.AcceptedExamples | lib/unittests/test_pair.py:24-28 | BTC-USDT, BTC-LTC, ETH-COB, LALA-USDT and BURGO-USDT are accepted |
| PairNames.RejectedExamples | lib/unittests/test_pair.py:29-35 | BTC-US, BT-USDT, BTC/USDT, BTCUSDT, BT-ETH, BURGOS-USDT and BTC-CARAME are rejected |
| Pairs.Pair.constructor | lib/pair.py:27-42 | a pair built from a valid name keeps that name and the exchange, with every figure unset |
| Pairs.Pair.Create | lib/pair.py:27-31 | construction fails with AttributeError exactly when the name fails `check_pair_is_valid`; otherwise it yields a fresh pair with the given name and exchange and no figure set |
| Pairs.Pair.AssignFigures | lib/pair.py:51-58 | the try block overwrites the figures of the leading keys that are present and numeric, in key order, and leaves the rest; it reports whether it stopped at a missing key, at a non-number, or not at all |
| Pairs.Pair.UpdateValues | lib/pair.py:44-62 | the new figures and the exception raised are those of the specification `Apply` on the old figures; name and exchange never change |
| Pairs.ApplyRecord | lib/pair.py:52-58 | a record holding all seven keys as numbers sets each figure to its value and raises nothing, whatever the figures were |
| Pairs.ApplyTable | lib/pair.py:59-60 | a table with no top-level `base_volume` that holds the pair's own name behaves exactly like an update from the entry under that name |
| Pairs.ApplyNoData | lib/pair.py:50-62 | absent, zero or empty data raises AttributeError and changes no figure |
| Pairs.ApplyMissingKey | lib/pair.py:52-60 | a record whose first missing key is the i-th, without the pair's own name, raises KeyError; the figures before key i are overwritten and the others are untouched |
| Pairs.ApplyFromFilled | lib/pair.py:52-58 | reading present numeric keys only overwrites their own figures, one after the other |
| Pairs.ApplyByGap | lib/pair.py:51-60 | `update_values` on a non-empty dictionary is decided by where its try block stops: done, TypeError, or a fallback to the pair's own entry (else KeyError) |
| Currency.Quote | lib/api_exchange.py:174 | `split('-')[1]` raises IndexError exactly when the key has no dash; the piece it returns holds no dash |
| Currency.SplitPair | lib/api_exchange.py:174 | the base and quote read off `b-q` are `b` and `q` |
| Currency.QuoteOfValid | lib/api_exchange.py:174 | the quote of a valid identifier is its second side |
| Currency.Price | lib/api_exchange.py:179 | a bridge price is found exactly when the pair and its `last_price` are in the snapshot, and it is that last price; otherwise KeyError names the missing pair, or `last_price` when the pair is present |
| Currency.Inverse | lib/api_exchange.py:187 | `1 / price` succeeds exactly for a nonzero price, and the result times the price is 1; a failed lookup passes its own exception on, and a zero price raises ZeroDivisionError |
| Currency.Normalise | lib/api_exchange.py:171 | the normalised target is never USD, and every target other than USD is kept as it is (`UsdIsUsdt` states what USD becomes) |
| Currency.ContainsOccurs | lib/api_exchange.py:193 | the substring test `'USD' in quote` holds exactly when USD occurs at some position of the quote |
| Currency.FactorOutcomes | lib/api_exchange.py:174-203 | one step of the loop: a key without a dash raises IndexError, a key quoted in the target gets 1, and any other failure is a KeyError, a ZeroDivisionError, or the unsupported-target error for a target other than ETH and BTC (the QuotedIn* lemmas give the successful branches) |
| Currency.MalformedKey | lib/api_exchange.py:174 | one key without a dash makes the whole table fail, with IndexError for that key |
| Currency.Multipliers | lib/api_exchange.py:172-205 | the table exists exactly when every key has a factor, and then it has exactly the snapshot's keys |
| Currency.GetCurrencyMultiplier | lib/api_exchange.py:163-205 | the loop succeeds exactly when every key converts and then returns the table of `Multipliers`; on failure it raises the exception of one of the snapshot's keys |
| Currency.MultiplierIsFactor | lib/api_exchange.py:173-203 | each entry of the table is the factor the decision table gives its key |
| Currency.MultiplierInOwnQuote | lib/api_exchange.py:175-176 | a key quoted in the normalised target has multiplier 1 |
| Currency.UsdIsUsdt | lib/api_exchange.py:171 | the target USD gives the same table as USDT |
| Currency.QuotedInTarget | lib/api_exchange.py:175-176 | a pair quoted in the target gets factor 1 whatever the bridge pairs are, since this test comes first |
| Currency.QuotedInEth | lib/api_exchange.py:177-184 | quote ETH: price of ETH-BTC towards BTC, price of ETH-USDT towards USDT, and any other target makes the whole table fail |
| Currency.QuotedInBtc | lib/api_exchange.py:185-192 | quote BTC: inverse ETH-BTC price towards ETH, BTC-USDT price towards USDT, and any other target makes the whole table fail |
| Currency.QuotedInUsd | lib/api_exchange.py:193-200 | a quote containing USD (other than the target): inverse ETH-USDT price towards ETH, inverse BTC-USDT price towards BTC, and any other target makes the whole table fail |
| Currency.QuotedInOther | lib/api_exchange.py:201-203 | any other quote Q gets the last price of `Q-target`, and the table fails when that pair is absent |
| Currency.PriceRelates | lib/api_exchange.py:179 | under a valuation the snapshot agrees with, the last price of `B-Q` times the worth of Q is the worth of B |
| Currency.EthFactorConverts | lib/api_exchange.py:177-184 | the factor of an ETH-quoted pair times the worth of the target is the worth of ETH |
| Currency.BtcFactorConverts | lib/api_exchange.py:185-192 | the factor of a BTC-quoted pair times the worth of the target is the worth of BTC |
| Currency.UsdFactorConverts | lib/api_exchange.py:193-200 | with USD-like tickers pegged to USDT, the factor of a USD-quoted pair times the worth of the target is the worth of its quote |
| Currency.FactorConverts | lib/api_exchange.py:173-203 | every factor the table can hold converts a worth in the pair's quote currency into the same worth in the target currency |
| Volume.PairsByVolume | lib/api_exchange.py:121-126 | the volume table has exactly the snapshot's keys; with no currency it exists iff every record has `base_volume`, otherwise iff the multipliers exist and every record has `base_volume` and `last_price` |
| Volume.RawVolumes | lib/api_exchange.py:122 | the raw table has exactly the snapshot's keys, each mapped to its record's `base_volume` |
| Volume.Converted | lib/api_exchange.py:125-126 | the converted table has exactly the snapshot's keys, each mapped to its base volume times its last price times its multiplier |
| Volume.ConvertedVolume | lib/api_exchange.py:123-126 | with a currency, a volume table exists only with its multipliers, and each pair's volume is its base volume times its last price times its multiplier |
| Volume.RawVolume | lib/api_exchange.py:121-122 | without a currency every pair maps to its raw base volume |
| Volume.VolumeInOwnQuote | lib/api_exchange.py:123-126 | a pair quoted in the requested currency reports base volume times last price |
| Volume.VolumeConverts | lib/api_exchange.py:123-126 | under a consistent valuation every converted volume, valued in the requested currency, is the base volume valued in the pair's base currency |
| Volume.RankingIndependentOfCurrency | lib/api_exchange.py:133 | under a consistent valuation where both currencies are worth something, two pairs compare the same way in either currency |
| Volume.Insert | lib/api_exchange.py:142 | inserting into an ordered list keeps it ordered and adds exactly the one item |
| Volume.Sort | lib/api_exchange.py:142 | the result is ordered by volume (non-increasing when descending) and is a permutation of the input |
| Volume.InsertStable | lib/api_exchange.py:142 | inserting keeps the relative order of the items of every volume |
| Volume.SortStable | lib/api_exchange.py:142 | the sort is stable: the items of each volume appear in their input order |
| Volume.Items | lib/api_exchange.py:140 | the list of items pairs each key, in dictionary order, with its volume |
| Volume.PairsVolumeSorted | lib/api_exchange.py:130-142 | the sorted list exists iff the volume table does; it is ordered by volume (non-increasing when `reverse`), a permutation of the table's items, and stable |
| Volume.SortedListsEveryPair | lib/api_exchange.py:140-142 | every pair of the snapshot appears in the ranking exactly once, with its volume |
| Volume.PairsWithoutVolume | lib/api_exchange.py:155-160 | the list exists iff every record has `base_volume`, and it holds exactly the keys whose raw volume is 0 |
| Volume.Zeroes | lib/api_exchange.py:160 | the filter keeps exactly the keys of zero volume and is no longer than its input |
| Volume.ZeroesDistinct | lib/api_exchange.py:160 | the pairs without volume are listed once each |
| Volume.IsPairInExchange | lib/api_exchange.py:144-153 | false for any identifier that fails the format check, whatever the list says; otherwise true iff the identifier is in the tradeable list |
| Volume.InExchangeSides | lib/api_exchange.py:150-153 | a pair found in the exchange has a quote, and its base and quote are sides of 3 to 5 word characters (the quote possibly followed by a newline) |
| Exchange.RefreshFromSnapshot | lib/pair.py:52-60 | refreshing a pair from a snapshot that holds its complete record loads all seven figures from that record and raises nothing |
| Exchange.BridgesFollowSnapshot | lib/api_exchange.py:46-54 | after the refresh from a snapshot holding the three bridge records, the bridges' last prices are the snapshot's prices of BTC-USDT, ETH-USDT and ETH-BTC, with no exception |
| Exchange.BridgesWithoutData | lib/api_exchange.py:52 | an empty snapshot raises AttributeError at the first bridge and changes no figure |
| Exchange.BridgesWithoutBtcUsd | lib/api_exchange.py:52 | a non-empty snapshot without BTC-USDT raises KeyError at the first bridge and changes no figure |
| Exchange.ApiExchange.constructor | lib/api_exchange.py:39-43 | the client holds the snapshot and three fresh, distinct bridge pairs named BTC-USDT, ETH-USDT and ETH-BTC on its exchange, none refreshed yet |
| Exchange.ApiExchange.Open | lib/api_exchange.py:35-44 | construction fails exactly when the first refresh raises, with that exception; otherwise the client and its three bridge pairs are fresh objects (so the caller may refresh them again), and the bridges hold the refreshed figures |
| Exchange.ApiExchange.UpdateBasicPairs | lib/api_exchange.py:46-54 | the three bridges are refreshed in turn from the snapshot, the first exception stopping the rest, as `UpdateBridges` specifies |
| Exchange.ApiExchange.UpdateStats | lib/api_exchange.py:105-109 | the snapshot is replaced by the new one and nothing else changes |

## Left out

- HTTP requests (`get_all_pairs`, `get_pairs_stats`, lib/api_exchange.py:56-103) are left out: their results are parameters. This includes the mapping of `ConnectionError` to `ApiExchangeError`, and the fetch in the constructor (lib/api_exchange.py:40).
- Logging calls are not modelled.
- Float parsing and IEEE arithmetic are not modelled: prices and volumes are exact reals. A record is a map of numeric fields, so non-numeric fields such as `id`, and a `float()` that fails on a malformed string, are not modelled.
- The value given to `update_values` is `None`, a number, or a dictionary. Other Python types (lists, strings) are not modelled. Indexing a number raises TypeError.
- The `Pair` fields `last_price_usd`, `in_order_book`, `my_balance_p1` and `my_balance_p2` are always `None` in the source and are not modelled.
- `key.split('-')` is modelled only through `split('-')[1]`, the one piece the source reads (`Currency.Quote`). `Currency.Base`, the piece before the first dash, is never computed by the source. It serves only to state the valuation that prices are checked against (`Currency.PricedAt`).
- Currency.GetCurrencyMultiplier: on failure, states only that the exception is the one raised by some key of the snapshot. Which key the loop reaches first depends on the dictionary's iteration order.
- Volume.PairsByVolume: failure is `None`, without saying which exception is raised, for the same reason.
- Exchange.ApiExchange.UpdateStats: as in the source, it does not refresh the bridge pairs. Their figures stay those of the last `update_basic_pairs` until it is called again.
- The get_pairs_volume_sorted default arguments (`currency='USD'`, `reverse=True`) are not modelled. Both values are explicit parameters.
- rodbot.py (the polling driver), the bdd steps and the exchange simulator are not part of this model.
