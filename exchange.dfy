/**
 * The `ApiExchange` class of lib/api_exchange.py: the client's last stats
 * snapshot and the three bridge pairs BTC-USDT, ETH-USDT and ETH-BTC, whose
 * figures are refreshed from that snapshot. The snapshot is handed in rather
 * than fetched; the read-only queries over it are in module `Volume`.
 */
module Exchange {
  import opened Results
  import opened Stats
  import opened PairNames
  import opened Pairs

  /** The figures of the three bridge pairs, in the order they are refreshed. */
  datatype Bridges = Bridges(btcUsd: Figures, ethUsd: Figures, ethBtc: Figures)

  /** The bridges of a freshly constructed client, before their first refresh. */
  const Unrefreshed := Bridges(Unset, Unset, Unset)

  /**
   * `update_basic_pairs` on the figures `b` with the snapshot `v`: the three
   * `update_values` calls run in turn, and the first exception stops the rest.
   */
  function UpdateBridges(b: Bridges, v: Val): (Bridges, Option<Error>)
  {
    var u1 := Apply(b.btcUsd, "BTC-USDT", v);
    if u1.error.Some? then (b.(btcUsd := u1.figures), u1.error)
    else
      var u2 := Apply(b.ethUsd, "ETH-USDT", v);
      if u2.error.Some? then (b.(btcUsd := u1.figures, ethUsd := u2.figures), u2.error)
      else
        var u3 := Apply(b.ethBtc, "ETH-BTC", v);
        (Bridges(u1.figures, u2.figures, u3.figures), u3.error)
  }

  /** The snapshot holds a record for `name` with all seven stats. */
  predicate Complete(stats: Snapshot, name: string)
  {
    name in stats && forall key :: key in StatKeys ==> key in stats[name]
  }

  /**
   * Refreshing a pair from a snapshot that holds its complete record loads every
   * figure from that record and raises nothing (lib/pair.py:52-60): the snapshot
   * has no top-level `base_volume`, so the lookup falls back to `stats[name]`.
   */
  lemma RefreshFromSnapshot(f: Figures, name: string, stats: Snapshot)
    requires Complete(stats, name) && "base_volume" !in stats
    ensures Apply(f, name, SnapshotVal(stats)).error == None
    ensures forall j :: 0 <= j < 7 ==>
      Get(Apply(f, name, SnapshotVal(stats)).figures, j) == Some(stats[name][StatKeys[j]])
    ensures Apply(f, name, SnapshotVal(stats)).figures.lastPrice == Some(stats[name]["last_price"])
  {
    var m := SnapshotVal(stats).fields;
    ApplyTable(f, name, m);
    var rec := RecordVal(stats[name]).fields;
    assert HasNumbers(rec, 7) by {
      forall j | 0 <= j < 7 ensures StatKeys[j] in rec && rec[StatKeys[j]].Num? {
        assert StatKeys[j] in StatKeys;
      }
    }
    ApplyRecord(f, name, rec);
    assert Get(Apply(f, name, SnapshotVal(stats)).figures, 3) == Some(stats[name][StatKeys[3]]);
  }

  /**
   * After `update_basic_pairs` on a snapshot that holds the complete records of the
   * three bridges, the bridges' last prices are the snapshot's prices of BTC-USDT,
   * ETH-USDT and ETH-BTC, and no exception is raised (lib/api_exchange.py:46-54).
   */
  lemma BridgesFollowSnapshot(b: Bridges, stats: Snapshot)
    requires Complete(stats, "BTC-USDT") && Complete(stats, "ETH-USDT") && Complete(stats, "ETH-BTC")
    requires "base_volume" !in stats
    ensures UpdateBridges(b, SnapshotVal(stats)).1 == None
    ensures var nb := UpdateBridges(b, SnapshotVal(stats)).0;
      nb.btcUsd.lastPrice == Some(stats["BTC-USDT"]["last_price"])
      && nb.ethUsd.lastPrice == Some(stats["ETH-USDT"]["last_price"])
      && nb.ethBtc.lastPrice == Some(stats["ETH-BTC"]["last_price"])
  {
    RefreshFromSnapshot(b.btcUsd, "BTC-USDT", stats);
    RefreshFromSnapshot(b.ethUsd, "ETH-USDT", stats);
    RefreshFromSnapshot(b.ethBtc, "ETH-BTC", stats);
  }

  /** An empty snapshot raises AttributeError at the first bridge and changes no figure
      (lib/pair.py:61-62). */
  lemma BridgesWithoutData(b: Bridges)
    ensures UpdateBridges(b, SnapshotVal(map[])) == (b, Some(NoData))
  {
  }

  /** A non-empty snapshot without BTC-USDT raises KeyError at the first bridge and
      changes no figure (lib/pair.py:59-60). */
  lemma BridgesWithoutBtcUsd(b: Bridges, stats: Snapshot)
    requires stats != map[] && "BTC-USDT" !in stats && "base_volume" !in stats
    ensures UpdateBridges(b, SnapshotVal(stats)) == (b, Some(KeyError("BTC-USDT")))
  {
    var m := SnapshotVal(stats).fields;
    assert m != map[] by {
      var k :| k in stats;
      assert k in m;
    }
    assert StatKeys[0] !in m && "BTC-USDT" !in m;
    assert ApplyFrom(b.btcUsd, "BTC-USDT", m, 0) == Update(b.btcUsd, Some(KeyError("BTC-USDT")));
  }

  class ApiExchange {
    const exchange: string
    var lastPairStats: Snapshot
    const btcUsd: Pair
    const ethUsd: Pair
    const ethBtc: Pair

    /** The bridges are three distinct pairs of this exchange with their fixed names. */
    ghost predicate Valid()
      reads this
    {
      btcUsd != ethUsd && btcUsd != ethBtc && ethUsd != ethBtc
      && btcUsd.pairName == "BTC-USDT" && ethUsd.pairName == "ETH-USDT" && ethBtc.pairName == "ETH-BTC"
      && btcUsd.exchange == exchange && ethUsd.exchange == exchange && ethBtc.exchange == exchange
    }

    /** The current figures of the three bridges. */
    function CurrentBridges(): Bridges
      reads this, btcUsd, ethUsd, ethBtc
    {
      Bridges(btcUsd.Current(), ethUsd.Current(), ethBtc.Current())
    }

    /** The field assignments of `__init__` (lib/api_exchange.py:39-43), with the
        snapshot handed in; the first refresh is done by `Open`. */
    constructor (exchange: string, stats: Snapshot)
      ensures Valid() && this.exchange == exchange && lastPairStats == stats
      ensures fresh(btcUsd) && fresh(ethUsd) && fresh(ethBtc)
      ensures CurrentBridges() == Unrefreshed
    {
      ValidFromSides("BTC", "USDT");
      ValidFromSides("ETH", "USDT");
      ValidFromSides("ETH", "BTC");
      this.exchange := exchange;
      lastPairStats := stats;
      btcUsd := new Pair("BTC-USDT", exchange);
      ethUsd := new Pair("ETH-USDT", exchange);
      ethBtc := new Pair("ETH-BTC", exchange);
    }

    /** `ApiExchange(exchange)` on the snapshot `stats`: constructs the client and
        refreshes its bridges, failing with the exception the refresh raised. */
    static method Open(exchange: string, stats: Snapshot) returns (r: Result<ApiExchange, Error>)
      ensures var (b, err) := UpdateBridges(Unrefreshed, SnapshotVal(stats));
        (r.Failure? <==> err.Some?)
        && (r.Failure? ==> r.error == err.value)
        && (r.Success? ==>
              fresh(r.value) && fresh(r.value.btcUsd) && fresh(r.value.ethUsd) && fresh(r.value.ethBtc)
              && r.value.Valid() && r.value.exchange == exchange
              && r.value.lastPairStats == stats && r.value.CurrentBridges() == b)
    {
      var api := new ApiExchange(exchange, stats);
      var err := api.UpdateBasicPairs();
      if err.Some? {
        r := Failure(err.value);
      } else {
        r := Success(api);
      }
    }

    /** `update_basic_pairs()`: the bridges and the exception raised are those of
        `UpdateBridges` on the current snapshot. */
    method UpdateBasicPairs() returns (err: Option<Error>)
      requires Valid()
      modifies btcUsd, ethUsd, ethBtc
      ensures (CurrentBridges(), err) == UpdateBridges(old(CurrentBridges()), SnapshotVal(lastPairStats))
    {
      var v := SnapshotVal(lastPairStats);
      err := btcUsd.UpdateValues(v);
      if err.Some? {
        return;
      }
      err := ethUsd.UpdateValues(v);
      if err.Some? {
        return;
      }
      err := ethBtc.UpdateValues(v);
    }

    /** `update_stats()` with the freshly fetched snapshot `stats`: only the snapshot
        is replaced; the bridges keep the figures of their last refresh. */
    method UpdateStats(stats: Snapshot)
      modifies this
      ensures lastPairStats == stats
    {
      lastPairStats := stats;
    }
  }
}
