/**
 * `get_currency_multiplier` (lib/api_exchange.py): for every pair `X-Q` of a
 * stats snapshot, the factor that turns a volume counted in the quote currency
 * `Q` into one counted in a target currency, read off at most one bridge pair.
 */
module Currency {
  import opened Results
  import opened Stats
  import PairNames

  /** The index of the first `c` in `s`, or `|s|` when there is none. */
  function IndexOf(s: string, c: char): (i: nat)
    ensures i <= |s| && c !in s[..i]
    ensures i < |s| ==> s[i] == c
  {
    if s == [] then 0
    else if s[0] == c then 0
    else
      var i := 1 + IndexOf(s[1..], c);
      assert s[..i] == [s[0]] + s[1..][..i - 1];
      i
  }

  /** The first `c` of `s` is at `i` when `s[i]` is a `c` and no earlier character is. */
  lemma IndexOfAt(s: string, c: char, i: nat)
    requires i < |s| && s[i] == c && c !in s[..i]
    ensures IndexOf(s, c) == i
  {
  }

  /** `key.split('-')[0]`: everything before the first dash, the whole key when it has none. */
  function Base(key: string): string
  {
    key[..IndexOf(key, '-')]
  }

  /** `key.split('-')[1]`: the piece between the first dash and the next one (or the
      end of the key). The source calls it `base_currency_pair`, but it is the quote
      currency; a key without a dash has no second piece and raises IndexError. */
  function Quote(key: string): (r: Result<string, Error>)
    ensures r.Failure? <==> '-' !in key
    ensures r.Failure? ==> r.error == IndexError
    ensures r.Success? ==> '-' !in r.value
  {
    var i := IndexOf(key, '-');
    if i == |key| then
      assert key[..i] == key;
      Failure(IndexError)
    else
      var rest := key[i + 1..];
      Success(rest[..IndexOf(rest, '-')])
  }

  /** The two pieces of a key with exactly one dash are the two sides it joins. */
  lemma SplitPair(b: string, q: string)
    requires '-' !in b && '-' !in q
    ensures Base(b + "-" + q) == b && Quote(b + "-" + q) == Success(q)
  {
    var s := b + "-" + q;
    assert s[..|b|] == b;
    IndexOfAt(s, '-', |b|);
    assert s[|b| + 1..] == q;
    assert q[..|q|] == q;
  }

  /** The quote of a valid pair identifier is its second side. */
  lemma QuoteOfValid(b: string, q: string)
    requires PairNames.IsSide(b) && PairNames.IsSide(q)
    ensures Quote(b + "-" + q) == Success(q) && Base(b + "-" + q) == b
  {
    assert !PairNames.IsWordChar('-');
    SplitPair(b, q);
  }

  /** `t` occurs in `s` starting at index `i`. */
  predicate OccursAt(s: string, t: string, i: int)
  {
    0 <= i <= |s| - |t| && s[i..i + |t|] == t
  }

  /** Python's substring test `t in s`. */
  function Contains(s: string, t: string): bool
    decreases |s|
  {
    if |s| < |t| then false
    else s[..|t|] == t || Contains(s[1..], t)
  }

  /** `Contains` holds exactly when `t` occurs at some position of `s`. */
  lemma {:induction false} ContainsOccurs(s: string, t: string)
    ensures Contains(s, t) <==> exists i :: OccursAt(s, t, i)
    decreases |s|
  {
    if |s| < |t| {
    } else if s[..|t|] == t {
      assert OccursAt(s, t, 0);
    } else {
      OccursShift(s, t);
      ContainsOccurs(s[1..], t);
    }
  }

  /** An occurrence in `s` is at its start or is an occurrence in `s[1..]`, shifted by one. */
  lemma OccursShift(s: string, t: string)
    requires |s| >= 1
    ensures (exists i :: OccursAt(s, t, i)) <==> OccursAt(s, t, 0) || exists j :: OccursAt(s[1..], t, j)
  {
    forall i | OccursAt(s, t, i) && i > 0 ensures OccursAt(s[1..], t, i - 1) {
      assert s[1..][i - 1..i - 1 + |t|] == s[i..i + |t|];
    }
    forall j | OccursAt(s[1..], t, j) ensures OccursAt(s, t, j + 1) {
      assert s[1..][j..j + |t|] == s[j + 1..j + 1 + |t|];
    }
  }

  /** A string as long as the pattern contains it only by being equal to it. */
  lemma SameLengthContains(s: string, t: string)
    requires |s| == |t| > 0
    ensures Contains(s, t) <==> s == t
  {
  }

  /** `to_currency = 'USDT' if to_currency == 'USD' else to_currency`. */
  function Normalise(to: string): (r: string)
    ensures r != "USD"
    ensures to != "USD" ==> r == to
  {
    if to == "USD" then "USDT" else to
  }

  /** `float(pairs_stats[key]['last_price'])`, raising KeyError on either lookup. */
  function Price(stats: Snapshot, key: string): (r: Result<real, Error>)
    ensures r.Success? <==> key in stats && "last_price" in stats[key]
    ensures r.Success? ==> r.value == stats[key]["last_price"]
    ensures r.Failure? ==> r.error == KeyError(if key !in stats then key else "last_price")
  {
    if key !in stats then Failure(KeyError(key))
    else if "last_price" !in stats[key] then Failure(KeyError("last_price"))
    else Success(stats[key]["last_price"])
  }

  /** `1 / price`, raising ZeroDivisionError on a zero price. */
  function Inverse(price: Result<real, Error>): (r: Result<real, Error>)
    ensures r.Success? <==> price.Success? && price.value != 0.0
    ensures r.Success? ==> r.value * price.value == 1.0
    ensures r.Failure? ==> r.error == if price.Failure? then price.error else ZeroDivisionError
  {
    match price
    case Failure(e) => Failure(e)
    case Success(p) => if p == 0.0 then Failure(ZeroDivisionError) else Success(1.0 / p)
  }

  /**
   * The body of the loop of `get_currency_multiplier` for one pair key, with the
   * target already normalised (lib/api_exchange.py:174-203). The identity case is
   * checked first; then a quote of ETH, of BTC, or containing USD is bridged
   * through ETH-BTC, ETH-USDT or BTC-USDT; any other quote Q is looked up as the
   * pair `Q-target`.
   */
  function Factor(stats: Snapshot, target: string, key: string): Result<real, Error>
  {
    match Quote(key)
    case Failure(e) => Failure(e)
    case Success(quote) =>
      if quote == target then Success(1.0)
      else if quote == "ETH" then
        if target == "BTC" then Price(stats, "ETH-BTC")
        else if target == "USDT" then Price(stats, "ETH-USDT")
        else Failure(UnsupportedCurrency(target))
      else if quote == "BTC" then
        if target == "ETH" then Inverse(Price(stats, "ETH-BTC"))
        else if target == "USDT" then Price(stats, "BTC-USDT")
        else Failure(UnsupportedCurrency(target))
      else if Contains(quote, "USD") then
        if target == "ETH" then Inverse(Price(stats, "ETH-USDT"))
        else if target == "BTC" then Inverse(Price(stats, "BTC-USDT"))
        else Failure(UnsupportedCurrency(target))
      else Price(stats, quote + "-" + target)
  }

  /**
   * What one step of the loop can end in: a key without a dash raises IndexError, a
   * key quoted in the target gets 1, an unsupported target is only ever reported for
   * targets other than ETH and BTC, and every other failure is a missing price
   * (KeyError) or a zero price (ZeroDivisionError).
   */
  lemma FactorOutcomes(stats: Snapshot, target: string, key: string)
    ensures Quote(key).Failure? ==> Factor(stats, target, key) == Failure(IndexError)
    ensures Quote(key) == Success(target) ==> Factor(stats, target, key) == Success(1.0)
    ensures Factor(stats, target, key).Failure? ==>
      var e := Factor(stats, target, key).error;
      e == IndexError || e.KeyError? || e == ZeroDivisionError
      || (e == UnsupportedCurrency(target) && target != "ETH" && target != "BTC")
  {
  }

  /** A key of the snapshot without a dash makes the whole table fail with IndexError
      (lib/api_exchange.py:174). */
  lemma MalformedKey(stats: Snapshot, to: string, key: string)
    requires key in stats && '-' !in key
    ensures Factor(stats, Normalise(to), key) == Failure(IndexError)
    ensures Multipliers(stats, to) == None
  {
    assert !Converts(stats, to, key);
  }

  /** Every key of the snapshot has a factor towards the normalised target. */
  predicate AllConvert(stats: Snapshot, to: string)
  {
    forall k {:trigger Converts(stats, to, k)} :: k in stats ==> Converts(stats, to, k)
  }

  /** The key `k` has a factor towards the normalised target. */
  predicate Converts(stats: Snapshot, to: string, k: string)
  {
    Factor(stats, Normalise(to), k).Success?
  }

  /** The multiplier table, or `None` when the computation raises (which exception
      is raised depends on the order in which the dictionary yields its keys). */
  function Multipliers(stats: Snapshot, to: string): (r: Option<map<string, real>>)
    ensures r.Some? <==> AllConvert(stats, to)
    ensures r.Some? ==> r.value.Keys == stats.Keys
  {
    if AllConvert(stats, to) then
      Some(map k | k in stats :: assert Converts(stats, to, k); Factor(stats, Normalise(to), k).value)
    else None
  }

  /**
   * `get_currency_multiplier(pairs_stats, to_currency)` (lib/api_exchange.py:163-205):
   * fills the table key by key and stops at the first key that raises. It succeeds
   * exactly when every key has a factor, and then returns the table of
   * `Multipliers`; otherwise it raises the exception of one of the keys.
   */
  method GetCurrencyMultiplier(stats: Snapshot, to: string) returns (r: Result<map<string, real>, Error>)
    ensures r.Success? <==> Multipliers(stats, to).Some?
    ensures r.Success? ==> Multipliers(stats, to) == Some(r.value)
    ensures r.Failure? ==> exists k :: k in stats && Factor(stats, Normalise(to), k) == Failure(r.error)
  {
    var target := Normalise(to);
    var table: map<string, real> := map[];
    var remaining := stats.Keys;
    while remaining != {}
      invariant remaining <= stats.Keys
      invariant table.Keys == stats.Keys - remaining
      invariant forall k :: k in table ==> Factor(stats, target, k) == Success(table[k])
      decreases remaining
    {
      var key :| key in remaining;
      var factor := Factor(stats, target, key);
      if factor.Failure? {
        assert !Converts(stats, to, key);
        return Failure(factor.error);
      }
      table := table[key := factor.value];
      remaining := remaining - {key};
    }
    assert AllConvert(stats, to);
    assert table == Multipliers(stats, to).value;
    return Success(table);
  }

  /** Each entry of the table is the factor its key gets in the decision table. */
  lemma MultiplierIsFactor(stats: Snapshot, to: string, k: string, factor: map<string, real>)
    requires Multipliers(stats, to) == Some(factor) && k in stats
    ensures Factor(stats, Normalise(to), k) == Success(factor[k])
  {
    assert Converts(stats, to, k) <==> Factor(stats, Normalise(to), k).Success?;
  }

  /** A key quoted in the (normalised) target has multiplier 1 in the table. */
  lemma MultiplierInOwnQuote(stats: Snapshot, to: string, k: string, factor: map<string, real>)
    requires Multipliers(stats, to) == Some(factor) && k in stats
    requires Quote(k) == Success(Normalise(to))
    ensures factor[k] == 1.0
  {
  }

  /** The target `USD` is read as `USDT`. */
  lemma UsdIsUsdt(stats: Snapshot)
    ensures Multipliers(stats, "USD") == Multipliers(stats, "USDT")
  {
    forall k | k in stats
      ensures Converts(stats, "USD", k) == Converts(stats, "USDT", k)
    {
    }
    assert AllConvert(stats, "USD") == AllConvert(stats, "USDT");
  }

  /** A pair quoted in the target itself has multiplier 1, whatever the bridge
      pairs are; this test comes before every other branch (lib/api_exchange.py:175-176). */
  lemma QuotedInTarget(stats: Snapshot, to: string, key: string)
    requires Quote(key) == Success(Normalise(to))
    ensures Factor(stats, Normalise(to), key) == Success(1.0)
    ensures key in stats && Multipliers(stats, to).Some? ==> Multipliers(stats, to).value[key] == 1.0
  {
  }

  /** A pair quoted in ETH: the ETH-BTC price towards BTC, the ETH-USDT price towards
      USDT, and any other target makes the whole table fail (lib/api_exchange.py:177-184). */
  lemma QuotedInEth(stats: Snapshot, to: string, key: string)
    requires key in stats && Quote(key) == Success("ETH") && Normalise(to) != "ETH"
    ensures Normalise(to) == "BTC" && Multipliers(stats, to).Some? ==>
      Price(stats, "ETH-BTC").Success? && Multipliers(stats, to).value[key] == stats["ETH-BTC"]["last_price"]
    ensures Normalise(to) == "USDT" && Multipliers(stats, to).Some? ==>
      Price(stats, "ETH-USDT").Success? && Multipliers(stats, to).value[key] == stats["ETH-USDT"]["last_price"]
    ensures Normalise(to) !in {"BTC", "USDT"} ==>
      Factor(stats, Normalise(to), key) == Failure(UnsupportedCurrency(Normalise(to))) && Multipliers(stats, to) == None
  {
    assert Converts(stats, to, key) <==> Factor(stats, Normalise(to), key).Success?;
  }

  /** A pair quoted in BTC: the inverse ETH-BTC price towards ETH, the BTC-USDT price
      towards USDT, and any other target makes the whole table fail (lib/api_exchange.py:185-192). */
  lemma QuotedInBtc(stats: Snapshot, to: string, key: string)
    requires key in stats && Quote(key) == Success("BTC") && Normalise(to) != "BTC"
    ensures Normalise(to) == "ETH" && Multipliers(stats, to).Some? ==>
      Price(stats, "ETH-BTC").Success? && stats["ETH-BTC"]["last_price"] != 0.0
      && Multipliers(stats, to).value[key] == 1.0 / stats["ETH-BTC"]["last_price"]
    ensures Normalise(to) == "USDT" && Multipliers(stats, to).Some? ==>
      Price(stats, "BTC-USDT").Success? && Multipliers(stats, to).value[key] == stats["BTC-USDT"]["last_price"]
    ensures Normalise(to) !in {"ETH", "USDT"} ==>
      Factor(stats, Normalise(to), key) == Failure(UnsupportedCurrency(Normalise(to))) && Multipliers(stats, to) == None
  {
    assert Converts(stats, to, key) <==> Factor(stats, Normalise(to), key).Success?;
  }

  /** A pair whose quote merely contains `USD` (and is not the target): the inverse
      ETH-USDT price towards ETH, the inverse BTC-USDT price towards BTC, and any other
      target makes the whole table fail, USDT included (lib/api_exchange.py:193-200). */
  lemma QuotedInUsd(stats: Snapshot, to: string, key: string, quote: string)
    requires key in stats && Quote(key) == Success(quote) && Contains(quote, "USD") && quote != Normalise(to)
    ensures quote != "ETH" && quote != "BTC"
    ensures Normalise(to) == "ETH" && Multipliers(stats, to).Some? ==>
      Price(stats, "ETH-USDT").Success? && stats["ETH-USDT"]["last_price"] != 0.0
      && Multipliers(stats, to).value[key] == 1.0 / stats["ETH-USDT"]["last_price"]
    ensures Normalise(to) == "BTC" && Multipliers(stats, to).Some? ==>
      Price(stats, "BTC-USDT").Success? && stats["BTC-USDT"]["last_price"] != 0.0
      && Multipliers(stats, to).value[key] == 1.0 / stats["BTC-USDT"]["last_price"]
    ensures Normalise(to) !in {"ETH", "BTC"} ==>
      Factor(stats, Normalise(to), key) == Failure(UnsupportedCurrency(Normalise(to))) && Multipliers(stats, to) == None
  {
    assert Converts(stats, to, key) <==> Factor(stats, Normalise(to), key).Success?;
    SameLengthContains("ETH", "USD");
    SameLengthContains("BTC", "USD");
  }

  /** Any other quote Q is converted by the price of the pair `Q-target`; the table
      fails when that pair is not in the snapshot (lib/api_exchange.py:201-203). */
  lemma QuotedInOther(stats: Snapshot, to: string, key: string, quote: string)
    requires key in stats && Quote(key) == Success(quote) && quote != Normalise(to)
    requires quote != "ETH" && quote != "BTC" && !Contains(quote, "USD")
    ensures Multipliers(stats, to).Some? ==>
      Price(stats, quote + "-" + Normalise(to)).Success?
      && Multipliers(stats, to).value[key] == stats[quote + "-" + Normalise(to)]["last_price"]
    ensures quote + "-" + Normalise(to) !in stats ==> Multipliers(stats, to) == None
  {
    assert Converts(stats, to, key) <==> Factor(stats, Normalise(to), key).Success?;
  }

  /**
   * Multiplying `amount` by `rate` gives `result`. The conversion lemmas state their
   * conclusions through this predicate rather than as a bare product so that one
   * lemma's conclusion is matched as a whole by the next lemma's premise, instead
   * of being re-derived by nonlinear real arithmetic.
   */
  predicate Scales(amount: real, rate: real, result: real)
  {
    amount * rate == result
  }

  /** Last prices that agree with one valuation of every currency in a common unit:
      the last price of `B-Q` is the worth of one B counted in Q. */
  ghost predicate PricedBy(stats: Snapshot, worth: string -> real)
  {
    forall k :: PricedAt(stats, worth, k)
  }

  /** The last price of the pair `k`, when it has one, relates the worths of its two sides. */
  ghost predicate PricedAt(stats: Snapshot, worth: string -> real, k: string)
  {
    k in stats && "last_price" in stats[k] && Quote(k).Success? ==>
      stats[k]["last_price"] * worth(Quote(k).value) == worth(Base(k))
  }

  /** Every currency whose ticker contains `USD` is worth one USDT: the assumption
      behind converting all such quotes through the USDT bridge pairs. */
  ghost predicate PeggedToUsdt(worth: string -> real)
  {
    forall c :: Contains(c, "USD") ==> worth(c) == worth("USDT")
  }

  /** The last price of a pair `B-Q` in a snapshot priced by `worth` relates the worths of B and Q. */
  lemma PriceRelates(stats: Snapshot, worth: string -> real, b: string, q: string)
    requires PricedBy(stats, worth) && '-' !in b && '-' !in q
    requires Price(stats, b + "-" + q).Success?
    ensures Price(stats, b + "-" + q).value * worth(q) == worth(b)
  {
    SplitPair(b, q);
    assert PricedAt(stats, worth, b + "-" + q);
  }

  /** Dividing by a price undoes multiplying by it. */
  lemma InverseRelates(f: real, p: real, a: real, b: real)
    requires f * p == 1.0 && p * a == b
    ensures f * b == a
  {
  }

  /** A pair quoted in ETH converts as its bridge price says. */
  lemma EthFactorConverts(stats: Snapshot, target: string, key: string, worth: string -> real)
    requires PricedBy(stats, worth)
    requires Quote(key) == Success("ETH") && target != "ETH" && Factor(stats, target, key).Success?
    ensures Scales(Factor(stats, target, key).value, worth(target), worth("ETH"))
  {
    if target == "BTC" {
      assert Factor(stats, target, key) == Price(stats, "ETH-BTC");
      assert "ETH-BTC" == "ETH" + "-" + "BTC";
      PriceRelates(stats, worth, "ETH", "BTC");
    } else {
      assert target == "USDT" && Factor(stats, target, key) == Price(stats, "ETH-USDT");
      assert "ETH-USDT" == "ETH" + "-" + "USDT";
      PriceRelates(stats, worth, "ETH", "USDT");
    }
  }

  /** A pair quoted in BTC converts as its bridge price, or its inverse, says. */
  lemma BtcFactorConverts(stats: Snapshot, target: string, key: string, worth: string -> real)
    requires PricedBy(stats, worth)
    requires Quote(key) == Success("BTC") && target != "BTC" && Factor(stats, target, key).Success?
    ensures Scales(Factor(stats, target, key).value, worth(target), worth("BTC"))
  {
    if target == "ETH" {
      assert Factor(stats, target, key) == Inverse(Price(stats, "ETH-BTC"));
      assert "ETH-BTC" == "ETH" + "-" + "BTC";
      PriceRelates(stats, worth, "ETH", "BTC");
      InverseRelates(Factor(stats, target, key).value, Price(stats, "ETH-BTC").value, worth("BTC"), worth("ETH"));
    } else {
      assert target == "USDT" && Factor(stats, target, key) == Price(stats, "BTC-USDT");
      assert "BTC-USDT" == "BTC" + "-" + "USDT";
      PriceRelates(stats, worth, "BTC", "USDT");
    }
  }

  /** A pair quoted in a USD-like currency converts as the inverse USDT bridge price says. */
  lemma UsdFactorConverts(stats: Snapshot, target: string, key: string, quote: string, worth: string -> real)
    requires PricedBy(stats, worth) && PeggedToUsdt(worth)
    requires Quote(key) == Success(quote) && quote != target && Contains(quote, "USD")
    requires Factor(stats, target, key).Success?
    ensures Scales(Factor(stats, target, key).value, worth(target), worth(quote))
  {
    SameLengthContains("ETH", "USD");
    SameLengthContains("BTC", "USD");
    if target == "ETH" {
      assert Factor(stats, target, key) == Inverse(Price(stats, "ETH-USDT"));
      assert "ETH-USDT" == "ETH" + "-" + "USDT";
      PriceRelates(stats, worth, "ETH", "USDT");
      InverseRelates(Factor(stats, target, key).value, Price(stats, "ETH-USDT").value, worth("USDT"), worth("ETH"));
    } else {
      assert target == "BTC" && Factor(stats, target, key) == Inverse(Price(stats, "BTC-USDT"));
      assert "BTC-USDT" == "BTC" + "-" + "USDT";
      PriceRelates(stats, worth, "BTC", "USDT");
      InverseRelates(Factor(stats, target, key).value, Price(stats, "BTC-USDT").value, worth("USDT"), worth("BTC"));
    }
  }

  /**
   * The multipliers convert correctly: when the snapshot's prices agree with a
   * valuation `worth` and USD-like quotes are pegged to USDT, every factor the
   * table holds turns an amount counted in the pair's quote currency into the
   * same worth counted in the target currency.
   */
  lemma FactorConverts(stats: Snapshot, to: string, key: string, f: real, worth: string -> real)
    requires PricedBy(stats, worth) && PeggedToUsdt(worth) && '-' !in to
    requires Factor(stats, Normalise(to), key) == Success(f)
    ensures Quote(key).Success?
    ensures Scales(f, worth(to), worth(Quote(key).value))
  {
    var target := Normalise(to);
    var quote := Quote(key).value;
    SameLengthContains("USD", "USD");
    assert worth(target) == worth(to);
    if quote == target {
      assert Scales(f, worth(target), worth(quote));
    } else if quote == "ETH" {
      EthFactorConverts(stats, target, key, worth);
    } else if quote == "BTC" {
      BtcFactorConverts(stats, target, key, worth);
    } else if Contains(quote, "USD") {
      UsdFactorConverts(stats, target, key, quote, worth);
    } else {
      assert Factor(stats, target, key) == Price(stats, quote + "-" + target);
      PriceRelates(stats, worth, quote, target);
      assert Scales(f, worth(target), worth(quote));
    }
  }
}
