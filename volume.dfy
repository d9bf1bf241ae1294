/**
 * The read-only queries of `ApiExchange` over its current snapshot
 * (lib/api_exchange.py:111-160): volumes per pair, raw or converted into a
 * currency, the pairs ranked by volume, the pairs without volume, and the
 * membership test for a pair identifier.
 */
module Volume {
  import opened Results
  import opened Stats
  import opened PairNames
  import opened Currency

  /** Every record of the snapshot carries the field `name`. */
  predicate AllHave(stats: Snapshot, name: string)
  {
    forall k :: k in stats ==> name in stats[k]
  }

  /**
   * `get_pairs_by_volume(currency)`. With an empty currency each pair maps to its
   * raw `base_volume`; otherwise to `base_volume * last_price * multiplier`, the
   * volume counted in the quote currency and then converted. `None` when a record
   * lacks a field (KeyError) or the multipliers cannot be computed.
   */
  function PairsByVolume(stats: Snapshot, currency: string): (r: Option<map<string, real>>)
    ensures r.Some? ==> r.value.Keys == stats.Keys
    ensures currency == "" ==> (r.Some? <==> AllHave(stats, "base_volume"))
    ensures currency != "" ==>
      (r.Some? <==> Multipliers(stats, currency).Some?
                    && AllHave(stats, "base_volume") && AllHave(stats, "last_price"))
  {
    if currency == "" then
      if AllHave(stats, "base_volume") then Some(RawVolumes(stats)) else None
    else
      match Multipliers(stats, currency)
      case None => None
      case Some(factor) =>
        if AllHave(stats, "base_volume") && AllHave(stats, "last_price") then
          Some(Converted(stats, factor))
        else None
  }

  /** `{k: v['base_volume'] for k, v in stats}`. */
  function RawVolumes(stats: Snapshot): (r: map<string, real>)
    requires AllHave(stats, "base_volume")
    ensures r.Keys == stats.Keys
    ensures forall k :: k in stats ==> r[k] == stats[k]["base_volume"]
  {
    map k | k in stats :: stats[k]["base_volume"]
  }

  /** `{k: v['base_volume'] * v['last_price'] * factor[k] for k, v in stats}`. */
  function Converted(stats: Snapshot, factor: map<string, real>): (r: map<string, real>)
    requires AllHave(stats, "base_volume") && AllHave(stats, "last_price")
    requires stats.Keys <= factor.Keys
    ensures r.Keys == stats.Keys
    ensures forall k :: k in stats ==> r[k] == stats[k]["base_volume"] * stats[k]["last_price"] * factor[k]
  {
    map k | k in stats :: stats[k]["base_volume"] * stats[k]["last_price"] * factor[k]
  }

  /** Without a currency, every pair maps to its raw base volume. */
  lemma RawVolume(stats: Snapshot, k: string)
    requires PairsByVolume(stats, "").Some? && k in stats
    ensures "base_volume" in stats[k]
    ensures PairsByVolume(stats, "").value[k] == stats[k]["base_volume"]
  {
  }

  /** The worth arithmetic behind `VolumeConverts`, for one entry of a converted table. */
  lemma ConvertedWorth(stats: Snapshot, factor: map<string, real>, volumes: map<string, real>,
                       k: string, to: string, worth: string -> real)
    requires AllHave(stats, "base_volume") && AllHave(stats, "last_price")
    requires stats.Keys <= factor.Keys && volumes == Converted(stats, factor)
    requires k in stats && PricedAt(stats, worth, k)
    requires Quote(k).Success? && Scales(factor[k], worth(to), worth(Quote(k).value))
    ensures Scales(volumes[k], worth(to), stats[k]["base_volume"] * worth(Base(k)))
  {
  }

  /** A pair quoted in the requested currency reports its base volume times its last price. */
  lemma VolumeInOwnQuote(stats: Snapshot, currency: string, k: string)
    requires currency != "" && PairsByVolume(stats, currency).Some? && k in stats
    requires Quote(k) == Success(Normalise(currency))
    ensures PairsByVolume(stats, currency).value[k]
            == stats[k]["base_volume"] * stats[k]["last_price"]
  {
    var factor :| Multipliers(stats, currency) == Some(factor);
    MultiplierInOwnQuote(stats, currency, k, factor);
    var volumes := Converted(stats, factor);
    assert PairsByVolume(stats, currency) == Some(volumes);
    assert volumes[k] == stats[k]["base_volume"] * stats[k]["last_price"] * 1.0;
  }

  /** With a currency, every pair maps to its base volume times its last price times
      the multiplier of its key. */
  lemma ConvertedVolume(stats: Snapshot, currency: string, k: string)
    requires currency != "" && PairsByVolume(stats, currency).Some? && k in stats
    ensures Multipliers(stats, currency).Some?
    ensures PairsByVolume(stats, currency).value[k]
            == stats[k]["base_volume"] * stats[k]["last_price"] * Multipliers(stats, currency).value[k]
  {
    var factor :| Multipliers(stats, currency) == Some(factor);
    assert PairsByVolume(stats, currency) == Some(Converted(stats, factor));
  }

  /**
   * The setting of `VolumeConverts`: the snapshot's last prices agree with the
   * valuation `worth`, USD-like quotes are pegged to USDT, and the volumes can be
   * converted into `currency`, a plain currency code.
   */
  ghost predicate Valued(stats: Snapshot, currency: string, worth: string -> real)
  {
    PricedBy(stats, worth) && PeggedToUsdt(worth) && currency != "" && '-' !in currency
    && PairsByVolume(stats, currency).Some?
  }

  /**
   * The converted volumes mean what they say: when the snapshot's last prices agree
   * with a valuation `worth` (and USD-like quotes are pegged to USDT), the volume of
   * every pair, valued in the requested currency, is its base volume valued in its
   * base currency.
   */
  lemma VolumeConverts(stats: Snapshot, currency: string, k: string, worth: string -> real)
    requires Valued(stats, currency, worth) && k in stats
    ensures Scales(PairsByVolume(stats, currency).value[k], worth(currency),
                   stats[k]["base_volume"] * worth(Base(k)))
  {
    var factor :| Multipliers(stats, currency) == Some(factor);
    MultiplierIsFactor(stats, currency, k, factor);
    FactorConverts(stats, currency, k, factor[k], worth);
    assert PricedAt(stats, worth, k);
    assert PairsByVolume(stats, currency) == Some(Converted(stats, factor));
    ConvertedWorth(stats, factor, PairsByVolume(stats, currency).value, k, currency, worth);
  }

  /**
   * The ranking does not depend on the currency (lib/api_exchange.py:133): under a
   * consistent valuation in which both currencies are worth something, two pairs
   * compare the same way whether their volumes are counted in one or the other.
   */
  lemma RankingIndependentOfCurrency(stats: Snapshot, c1: string, c2: string, a: string, b: string,
                                     worth: string -> real)
    requires Valued(stats, c1, worth) && Valued(stats, c2, worth)
    requires worth(c1) > 0.0 && worth(c2) > 0.0 && a in stats && b in stats
    ensures PairsByVolume(stats, c1).value[a] <= PairsByVolume(stats, c1).value[b]
            <==> PairsByVolume(stats, c2).value[a] <= PairsByVolume(stats, c2).value[b]
  {
    VolumeConverts(stats, c1, a, worth);
    VolumeConverts(stats, c1, b, worth);
    VolumeConverts(stats, c2, a, worth);
    VolumeConverts(stats, c2, b, worth);
    SameRanking(PairsByVolume(stats, c1).value, PairsByVolume(stats, c2).value, a, b, worth(c1), worth(c2),
                stats[a]["base_volume"] * worth(Base(a)), stats[b]["base_volume"] * worth(Base(b)));
  }

  /** Two volume tables that value every pair alike at positive rates rank `a` and `b` alike. */
  lemma SameRanking(v1: map<string, real>, v2: map<string, real>, a: string, b: string,
                    r1: real, r2: real, wa: real, wb: real)
    requires a in v1 && b in v1 && a in v2 && b in v2 && r1 > 0.0 && r2 > 0.0
    requires Scales(v1[a], r1, wa) && Scales(v2[a], r2, wa)
    requires Scales(v1[b], r1, wb) && Scales(v2[b], r2, wb)
    ensures v1[a] <= v1[b] <==> v2[a] <= v2[b]
  {
  }

  // ---------------------------------------------------------------------------
  // get_pairs_volume_sorted: Python's `sorted` by volume, which is stable both
  // ascending and with `reverse=True`.
  // ---------------------------------------------------------------------------

  type Item = (string, real)

  /** `a` must come strictly before `b` in the requested order. */
  predicate Ahead(a: Item, b: Item, descending: bool)
  {
    if descending then a.1 > b.1 else a.1 < b.1
  }

  /** No item is followed by one that should come strictly before it. */
  predicate Ordered(s: seq<Item>, descending: bool)
  {
    forall i, j :: 0 <= i < j < |s| ==> !Ahead(s[j], s[i], descending)
  }

  /** The items with volume `x`, in the order they appear. */
  function WithVolume(s: seq<Item>, x: real): (r: seq<Item>)
    ensures |r| <= |s|
    ensures forall e :: e in r ==> e in s && e.1 == x
  {
    if s == [] then []
    else if s[0].1 == x then [s[0]] + WithVolume(s[1..], x)
    else WithVolume(s[1..], x)
  }

  /** Puts `y` in front of the first item of the ordered `s` that is not ahead of it. */
  function Insert(y: Item, s: seq<Item>, descending: bool): (r: seq<Item>)
    requires Ordered(s, descending)
    ensures Ordered(r, descending)
    ensures multiset(r) == multiset(s) + multiset{y}
    ensures forall e :: e in r ==> e == y || e in s
  {
    if s == [] || !Ahead(s[0], y, descending) then
      HeadLeads(s, descending);
      ConsOrdered(y, s, descending);
      [y] + s
    else
      var t := Insert(y, s[1..], descending);
      assert multiset(s) == multiset{s[0]} + multiset(s[1..]) by {
        assert s == [s[0]] + s[1..];
      }
      HeadLeads(s, descending);
      ConsOrdered(s[0], t, descending);
      [s[0]] + t
  }

  /** No item of an ordered list is ahead of its first item. */
  lemma HeadLeads(s: seq<Item>, descending: bool)
    requires Ordered(s, descending)
    ensures forall e :: e in s ==> !Ahead(e, s[0], descending)
  {
    forall e | e in s ensures !Ahead(e, s[0], descending) {
      var j :| 0 <= j < |s| && s[j] == e;
      if j > 0 {
        assert !Ahead(s[j], s[0], descending);
      }
    }
  }

  /** An item that no item of an ordered list is ahead of can go in front of it. */
  lemma ConsOrdered(x: Item, t: seq<Item>, descending: bool)
    requires Ordered(t, descending)
    requires forall e :: e in t ==> !Ahead(e, x, descending)
    ensures Ordered([x] + t, descending)
  {
  }

  /** Insertion sort; the element inserted last is the first of the input, so it
      goes in front of the items of equal volume. */
  function Sort(s: seq<Item>, descending: bool): (r: seq<Item>)
    ensures Ordered(r, descending)
    ensures multiset(r) == multiset(s)
  {
    if s == [] then []
    else
      assert s == [s[0]] + s[1..];
      Insert(s[0], Sort(s[1..], descending), descending)
  }

  /** Inserting keeps the relative order of every volume class. */
  lemma {:induction false} InsertStable(y: Item, s: seq<Item>, descending: bool, x: real)
    requires Ordered(s, descending)
    ensures WithVolume(Insert(y, s, descending), x) == WithVolume([y] + s, x)
    decreases |s|
  {
    if s == [] || !Ahead(s[0], y, descending) {
    } else {
      var t := Insert(y, s[1..], descending);
      assert Insert(y, s, descending) == [s[0]] + t;
      InsertStable(y, s[1..], descending, x);
      assert ([s[0]] + t)[1..] == t;
      assert ([y] + s)[1..] == s;
      assert ([y] + s[1..])[1..] == s[1..];
      assert s[0].1 != y.1;
      if y.1 == x {
        calc {
          WithVolume([s[0]] + t, x);
          WithVolume(t, x);
          WithVolume([y] + s[1..], x);
          [y] + WithVolume(s[1..], x);
          [y] + WithVolume(s, x);
          WithVolume([y] + s, x);
        }
      } else if s[0].1 == x {
        calc {
          WithVolume([s[0]] + t, x);
          [s[0]] + WithVolume(t, x);
          [s[0]] + WithVolume([y] + s[1..], x);
          [s[0]] + WithVolume(s[1..], x);
          WithVolume(s, x);
          WithVolume([y] + s, x);
        }
      } else {
        calc {
          WithVolume([s[0]] + t, x);
          WithVolume(t, x);
          WithVolume([y] + s[1..], x);
          WithVolume(s[1..], x);
          WithVolume(s, x);
          WithVolume([y] + s, x);
        }
      }
    }
  }

  /** The sort is stable: the items of each volume keep their input order. */
  lemma {:induction false} SortStable(s: seq<Item>, descending: bool, x: real)
    ensures WithVolume(Sort(s, descending), x) == WithVolume(s, x)
  {
    if s != [] {
      var t := Sort(s[1..], descending);
      SortStable(s[1..], descending, x);
      InsertStable(s[0], t, descending, x);
      assert s == [s[0]] + s[1..];
      assert ([s[0]] + t)[1..] == t;
      if s[0].1 == x {
        assert WithVolume([s[0]] + t, x) == [s[0]] + WithVolume(t, x);
      } else {
        assert WithVolume([s[0]] + t, x) == WithVolume(t, x);
      }
    }
  }

  /** The (pair, volume) items in the order the dictionary yields its keys. */
  function Items(volumes: map<string, real>, order: seq<string>): (r: seq<Item>)
    requires forall i :: 0 <= i < |order| ==> order[i] in volumes
    ensures |r| == |order|
    ensures forall i :: 0 <= i < |order| ==> r[i] == (order[i], volumes[order[i]])
  {
    if order == [] then []
    else [(order[0], volumes[order[0]])] + Items(volumes, order[1..])
  }

  /** No key occurs twice in `s`. */
  predicate Distinct(s: seq<string>)
  {
    forall i, j :: 0 <= i < j < |s| ==> s[i] != s[j]
  }

  /** `order` lists every key of the snapshot exactly once: the dictionary's iteration order. */
  predicate Enumerates(stats: Snapshot, order: seq<string>)
  {
    Distinct(order)
    && (forall k :: k in stats ==> k in order)
    && (forall i :: 0 <= i < |order| ==> order[i] in stats)
  }

  /**
   * `get_pairs_volume_sorted(currency, reverse)`: the items of `PairsByVolume`,
   * listed in dictionary order, sorted by volume (descending when `reverse`).
   */
  function PairsVolumeSorted(stats: Snapshot, currency: string, reverse: bool, order: seq<string>)
    : (r: Option<seq<Item>>)
    requires Enumerates(stats, order)
    ensures r.Some? <==> PairsByVolume(stats, currency).Some?
    ensures r.Some? ==>
      var items := Items(PairsByVolume(stats, currency).value, order);
      Ordered(r.value, reverse)
      && multiset(r.value) == multiset(items)
      && forall x :: WithVolume(r.value, x) == WithVolume(items, x)
  {
    match PairsByVolume(stats, currency)
    case None => None
    case Some(volumes) =>
      var items := Items(volumes, order);
      var sorted := Sort(items, reverse);
      assert forall x :: WithVolume(sorted, x) == WithVolume(items, x) by {
        forall x ensures WithVolume(sorted, x) == WithVolume(items, x) {
          SortStable(items, reverse, x);
        }
      }
      Some(sorted)
  }

  /** Every pair of the snapshot appears in the ranking exactly once, with its volume. */
  lemma SortedListsEveryPair(stats: Snapshot, currency: string, reverse: bool, order: seq<string>,
                             k: string)
    requires Enumerates(stats, order) && k in stats
    requires PairsVolumeSorted(stats, currency, reverse, order).Some?
    ensures multiset(PairsVolumeSorted(stats, currency, reverse, order).value)
              [(k, PairsByVolume(stats, currency).value[k])] == 1
  {
    var volumes := PairsByVolume(stats, currency).value;
    var items := Items(volumes, order);
    var i :| 0 <= i < |order| && order[i] == k;
    CountOnce(items, i);
  }

  /** An item whose key occurs once in the list occurs once in its multiset. */
  lemma {:induction false} CountOnce(items: seq<Item>, i: int)
    requires 0 <= i < |items|
    requires forall j :: 0 <= j < |items| && j != i ==> items[j].0 != items[i].0
    ensures multiset(items)[items[i]] == 1
  {
    var e := items[i];
    assert items == items[..i] + [e] + items[i + 1..];
    forall j | 0 <= j < i ensures items[..i][j] != e {
      assert items[..i][j] == items[j];
    }
    var post := items[i + 1..];
    forall j | 0 <= j < |post| ensures post[j] != e {
      assert post[j] == items[i + 1 + j];
    }
    assert multiset(items) == multiset(items[..i]) + multiset{e} + multiset(items[i + 1..]);
  }

  /**
   * `get_pairs_without_volume()`: the keys, in dictionary order, whose raw volume is
   * zero; `None` when some record lacks `base_volume`.
   */
  function PairsWithoutVolume(stats: Snapshot, order: seq<string>): (r: Option<seq<string>>)
    requires Enumerates(stats, order)
    ensures r.Some? <==> AllHave(stats, "base_volume")
    ensures r.Some? ==>
      forall k :: k in r.value <==> k in stats && stats[k]["base_volume"] == 0.0
  {
    match PairsByVolume(stats, "")
    case None => None
    case Some(volumes) => Some(Zeroes(volumes, order))
  }

  /** The keys of `order` whose volume is zero, in order. */
  function Zeroes(volumes: map<string, real>, order: seq<string>): (r: seq<string>)
    requires forall k :: k in order ==> k in volumes
    ensures forall k :: k in r <==> k in order && volumes[k] == 0.0
    ensures |r| <= |order|
  {
    if order == [] then []
    else if volumes[order[0]] == 0.0 then [order[0]] + Zeroes(volumes, order[1..])
    else Zeroes(volumes, order[1..])
  }

  /** The pairs without volume are listed once each, like the keys they come from. */
  lemma {:induction false} ZeroesDistinct(volumes: map<string, real>, order: seq<string>)
    requires forall k :: k in order ==> k in volumes
    requires Distinct(order)
    ensures Distinct(Zeroes(volumes, order))
  {
    if order != [] {
      var rest := order[1..];
      forall i, j | 0 <= i < j < |rest| ensures rest[i] != rest[j] {
        assert rest[i] == order[i + 1] && rest[j] == order[j + 1];
      }
      ZeroesDistinct(volumes, rest);
      var t := Zeroes(volumes, rest);
      forall j | 0 <= j < |rest| ensures rest[j] != order[0] {
        assert rest[j] == order[1 + j];
      }
      assert order[0] !in t;
      if volumes[order[0]] == 0.0 {
        var r := [order[0]] + t;
        forall i, j | 0 <= i < j < |r| ensures r[i] != r[j] {
          assert r[j] == t[j - 1] && t[j - 1] in t;
          if i == 0 {
            assert r[i] == order[0];
          } else {
            assert r[i] == t[i - 1];
          }
        }
        assert Zeroes(volumes, order) == r;
      } else {
        assert Zeroes(volumes, order) == t;
      }
    }
  }

  /**
   * `is_pair_in_exchange(pair_id)`: a format check, then membership in the list of
   * tradeable pairs the exchange reports.
   */
  function IsPairInExchange(pairId: string, tradeable: seq<string>): (r: bool)
    ensures !CheckPairIsValid(pairId) ==> !r
    ensures CheckPairIsValid(pairId) ==> (r <==> pairId in tradeable)
  {
    if !CheckPairIsValid(pairId) then false else pairId in tradeable
  }

  /**
   * A pair the exchange is found to trade is a base and a quote of three to five
   * word characters joined by a dash (with Python's `$`, possibly followed by a
   * newline), so its base and quote currencies can be read off it.
   */
  lemma InExchangeSides(pairId: string, tradeable: seq<string>)
    requires IsPairInExchange(pairId, tradeable)
    ensures pairId in tradeable && Quote(pairId).Success?
    ensures IsSide(Base(pairId))
    ensures var q := Quote(pairId).value;
      IsSide(q) || (|q| > 0 && q[|q| - 1] == '\n' && IsSide(q[..|q| - 1]))
  {
    var b, q := SidesOfValid(pairId);
    assert !IsWordChar('-') && !IsWordChar('\n');
    if pairId == b + "-" + q {
      SplitPair(b, q);
      assert Quote(pairId).value == q;
    } else {
      assert pairId == b + "-" + (q + "\n");
      assert '-' !in q + "\n";
      SplitPair(b, q + "\n");
      assert Quote(pairId).value == q + "\n";
      assert (q + "\n")[..|q|] == q;
    }
  }
}
