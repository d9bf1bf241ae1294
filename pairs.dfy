/**
 * The `Pair` class of lib/pair.py: one tradeable pair of an exchange and the
 * latest market figures read from a stats record.
 */
module Pairs {
  import opened Results
  import opened Stats
  import opened PairNames

  /** The seven market figures of a pair; `None` is a field still unset. */
  datatype Figures = Figures(
    volume: Option<real>,
    high24h: Option<real>,
    low24h: Option<real>,
    lastPrice: Option<real>,
    highestBid: Option<real>,
    lowestAsk: Option<real>,
    percentChanged24h: Option<real>)

  /** The figures of a freshly constructed pair. */
  const Unset := Figures(None, None, None, None, None, None, None)

  /** The figure that `update_values` reads from `StatKeys[i]`. */
  function Get(f: Figures, i: nat): Option<real>
    requires i < 7
  {
    match i
    case 0 => f.volume
    case 1 => f.high24h
    case 2 => f.low24h
    case 3 => f.lastPrice
    case 4 => f.highestBid
    case 5 => f.lowestAsk
    case 6 => f.percentChanged24h
  }

  /** Overwrite the figure read from `StatKeys[i]`. */
  function Set(f: Figures, i: nat, x: real): (g: Figures)
    requires i < 7
    ensures forall j :: 0 <= j < 7 ==> Get(g, j) == if j == i then Some(x) else Get(f, j)
  {
    match i
    case 0 => f.(volume := Some(x))
    case 1 => f.(high24h := Some(x))
    case 2 => f.(low24h := Some(x))
    case 3 => f.(lastPrice := Some(x))
    case 4 => f.(highestBid := Some(x))
    case 5 => f.(lowestAsk := Some(x))
    case 6 => f.(percentChanged24h := Some(x))
  }

  /** The figures after a call of `update_values`, and the exception it raised, if any. */
  datatype Update = Update(figures: Figures, error: Option<Error>)

  /**
   * What `update_values(v)` does to the figures of the pair named `name`
   * (lib/pair.py:44-62). Falsy data raises AttributeError. Otherwise the seven
   * keys are read in order and each figure is overwritten as soon as its key is
   * read; a missing key raises KeyError, which is caught, and the call recurses
   * on `v[name]` from the figures written so far; a key whose value is not a
   * number raises TypeError, which is not caught.
   */
  function Apply(f: Figures, name: string, v: Val): Update
    decreases v, 1, 0
  {
    match v
    case Null => Update(f, Some(NoData))
    case Num(x) => if x == 0.0 then Update(f, Some(NoData)) else Update(f, Some(TypeError))
    case Obj(m) => if m == map[] then Update(f, Some(NoData)) else ApplyFrom(f, name, m, 0)
  }

  /** The try block of `update_values` from its `i`-th assignment on. */
  function ApplyFrom(f: Figures, name: string, m: map<string, Val>, i: nat): Update
    requires i <= 7
    decreases Obj(m), 0, 7 - i
  {
    if i == 7 then Update(f, None)
    else if StatKeys[i] !in m then
      if name in m then Apply(f, name, m[name]) else Update(f, Some(KeyError(name)))
    else match m[StatKeys[i]]
      case Num(x) => ApplyFrom(Set(f, i, x), name, m, i + 1)
      case _ => Update(f, Some(TypeError))
  }

  /** The first `k` keys are present in `m` with numeric values. */
  predicate HasNumbers(m: map<string, Val>, k: nat)
    requires k <= 7
  {
    forall j :: 0 <= j < k ==> StatKeys[j] in m && m[StatKeys[j]].Num?
  }

  /** `f` with its first `k` figures overwritten from `m`, in key order. */
  function Fill(f: Figures, m: map<string, Val>, k: nat): (g: Figures)
    requires k <= 7 && HasNumbers(m, k)
    ensures forall j :: 0 <= j < 7 ==> Get(g, j) == if j < k then Some(m[StatKeys[j]].x) else Get(f, j)
  {
    Figures(
      if k > 0 then Some(m[StatKeys[0]].x) else f.volume,
      if k > 1 then Some(m[StatKeys[1]].x) else f.high24h,
      if k > 2 then Some(m[StatKeys[2]].x) else f.low24h,
      if k > 3 then Some(m[StatKeys[3]].x) else f.lastPrice,
      if k > 4 then Some(m[StatKeys[4]].x) else f.highestBid,
      if k > 5 then Some(m[StatKeys[5]].x) else f.lowestAsk,
      if k > 6 then Some(m[StatKeys[6]].x) else f.percentChanged24h)
  }

  /** Figures agreeing on all seven fields are equal. */
  lemma FiguresExt(f: Figures, g: Figures)
    requires forall j :: 0 <= j < 7 ==> Get(f, j) == Get(g, j)
    ensures f == g
  {
    assert Get(f, 0) == Get(g, 0) && Get(f, 1) == Get(g, 1) && Get(f, 2) == Get(g, 2);
    assert Get(f, 3) == Get(g, 3) && Get(f, 4) == Get(g, 4) && Get(f, 5) == Get(g, 5);
    assert Get(f, 6) == Get(g, 6);
  }

  /** Reading the keys `i..k-1`, all present and numeric, only overwrites their figures. */
  lemma {:induction false} ApplyFromFilled(f: Figures, name: string, m: map<string, Val>, i: nat, k: nat)
    requires i <= k <= 7 && HasNumbers(m, k)
    ensures ApplyFrom(Fill(f, m, i), name, m, i) == ApplyFrom(Fill(f, m, k), name, m, k)
    decreases k - i
  {
    if i < k {
      FiguresExt(Set(Fill(f, m, i), i, m[StatKeys[i]].x), Fill(f, m, i + 1));
      ApplyFromFilled(f, name, m, i + 1, k);
    }
  }

  /** A complete record overwrites all seven figures with its values and raises nothing
      (lib/pair.py:52-58). */
  lemma ApplyRecord(f: Figures, name: string, m: map<string, Val>)
    requires HasNumbers(m, 7)
    ensures Apply(f, name, Obj(m)) == Update(Fill(Unset, m, 7), None)
    ensures forall j :: 0 <= j < 7 ==> Get(Apply(f, name, Obj(m)).figures, j) == Some(m[StatKeys[j]].x)
  {
    assert StatKeys[0] in m;
    ApplyFromFilled(f, name, m, 0, 7);
    FiguresExt(Fill(f, m, 7), Fill(Unset, m, 7));
  }

  /** A table without a top-level `base_volume` key that holds the pair's own name is
      handled exactly as the entry under that name (lib/pair.py:59-60). */
  lemma ApplyTable(f: Figures, name: string, m: map<string, Val>)
    requires "base_volume" !in m && name in m
    ensures Apply(f, name, Obj(m)) == Apply(f, name, m[name])
  {
  }

  /** Absent or empty data raises AttributeError and leaves every figure as it was
      (lib/pair.py:50, 61-62). */
  lemma ApplyNoData(f: Figures, name: string, v: Val)
    requires !Truthy(v)
    ensures Apply(f, name, v) == Update(f, Some(NoData))
  {
  }

  /**
   * A record whose first missing key is `StatKeys[i]` and which does not hold the
   * pair's own name raises KeyError; the figures of the keys before it are already
   * overwritten, the others are untouched (lib/pair.py:52-60).
   */
  lemma ApplyMissingKey(f: Figures, name: string, m: map<string, Val>, i: nat)
    requires i < 7 && HasNumbers(m, i) && StatKeys[i] !in m && name !in m && m != map[]
    ensures Apply(f, name, Obj(m)) == Update(Fill(f, m, i), Some(KeyError(name)))
    ensures forall j :: 0 <= j < 7 ==>
      Get(Apply(f, name, Obj(m)).figures, j) == if j < i then Some(m[StatKeys[j]].x) else Get(f, j)
  {
    ApplyFromFilled(f, name, m, 0, i);
  }

  /** How the try block of `update_values` ended. */
  datatype Step = Done | MissingKey | NotANumber

  /** The number of leading keys present in `m` with numeric values. */
  function Gap(m: map<string, Val>): (k: nat)
    ensures k <= 7 && HasNumbers(m, k)
    ensures k < 7 ==> StatKeys[k] !in m || !m[StatKeys[k]].Num?
  {
    GapFrom(m, 0)
  }

  function GapFrom(m: map<string, Val>, i: nat): (k: nat)
    requires i <= 7 && HasNumbers(m, i)
    ensures i <= k <= 7 && HasNumbers(m, k)
    ensures k < 7 ==> StatKeys[k] !in m || !m[StatKeys[k]].Num?
    decreases 7 - i
  {
    if i == 7 || StatKeys[i] !in m || !m[StatKeys[i]].Num? then i else GapFrom(m, i + 1)
  }

  /** `StatKeys[i]` is present in `m` with a numeric value. */
  predicate Present(m: map<string, Val>, i: nat)
    requires i < 7
  {
    StatKeys[i] in m && m[StatKeys[i]].Num?
  }

  /** How the try block ends when it stops at `StatKeys[i]`. */
  function Stop(m: map<string, Val>, i: nat): Step
    requires i < 7
  {
    if StatKeys[i] in m then NotANumber else MissingKey
  }

  /** The try block stops at the first key that is missing or not a number. */
  lemma GapAt(m: map<string, Val>, i: nat)
    requires i < 7 && HasNumbers(m, i) && !Present(m, i)
    ensures Gap(m) == i
  {
  }

  /** How the try block ends on `m`. */
  function StepOf(m: map<string, Val>): Step
  {
    var k := Gap(m);
    if k == 7 then Done else if StatKeys[k] !in m then MissingKey else NotANumber
  }

  /** `update_values` on a non-empty dictionary, in terms of where its try block stops. */
  lemma ApplyByGap(f: Figures, name: string, m: map<string, Val>)
    requires m != map[]
    ensures var k := Gap(m);
      Apply(f, name, Obj(m)) ==
        match StepOf(m)
        case Done => Update(Fill(f, m, 7), None)
        case NotANumber => Update(Fill(f, m, k), Some(TypeError))
        case MissingKey =>
          if name in m then Apply(Fill(f, m, k), name, m[name])
          else Update(Fill(f, m, k), Some(KeyError(name)))
  {
    ApplyFromFilled(f, name, m, 0, Gap(m));
  }

  class Pair {
    const pairName: string
    const exchange: string
    var volume: Option<real>
    var high24h: Option<real>
    var low24h: Option<real>
    var lastPrice: Option<real>
    var highestBid: Option<real>
    var lowestAsk: Option<real>
    var percentChanged24h: Option<real>

    /** The current market figures. */
    function Current(): Figures
      reads this
    {
      Figures(volume, high24h, low24h, lastPrice, highestBid, lowestAsk, percentChanged24h)
    }

    /** The field assignments of `__init__` once the name has passed the check. */
    constructor (pairName: string, exchange: string)
      requires CheckPairIsValid(pairName)
      ensures this.pairName == pairName && this.exchange == exchange
      ensures Current() == Unset
    {
      this.pairName := pairName;
      this.exchange := exchange;
      volume, high24h, low24h, lastPrice := None, None, None, None;
      highestBid, lowestAsk, percentChanged24h := None, None, None;
    }

    /** `Pair(pair_name, exchange)`: raises AttributeError for a name that fails
        `check_pair_is_valid`, otherwise a pair with every figure unset. */
    static method Create(pairName: string, exchange: string) returns (r: Result<Pair, Error>)
      ensures r.Failure? <==> !CheckPairIsValid(pairName)
      ensures r.Failure? ==> r.error == InvalidPairName(pairName)
      ensures r.Success? ==>
        fresh(r.value) && r.value.pairName == pairName
        && r.value.exchange == exchange && r.value.Current() == Unset
    {
      if CheckPairIsValid(pairName) {
        var p := new Pair(pairName, exchange);
        r := Success(p);
      } else {
        r := Failure(InvalidPairName(pairName));
      }
    }

    /** The try block of `update_values`: assign the figures in key order, stopping
        at the first key that is missing or not a number. */
    method AssignFigures(m: map<string, Val>) returns (step: Step)
      modifies this
      ensures step == StepOf(m)
      ensures Current() == Fill(old(Current()), m, Gap(m))
    {
      if !Present(m, 0) { GapAt(m, 0); return Stop(m, 0); }
      volume := Some(m[StatKeys[0]].x);
      if !Present(m, 1) { GapAt(m, 1); return Stop(m, 1); }
      high24h := Some(m[StatKeys[1]].x);
      if !Present(m, 2) { GapAt(m, 2); return Stop(m, 2); }
      low24h := Some(m[StatKeys[2]].x);
      if !Present(m, 3) { GapAt(m, 3); return Stop(m, 3); }
      lastPrice := Some(m[StatKeys[3]].x);
      if !Present(m, 4) { GapAt(m, 4); return Stop(m, 4); }
      highestBid := Some(m[StatKeys[4]].x);
      if !Present(m, 5) { GapAt(m, 5); return Stop(m, 5); }
      lowestAsk := Some(m[StatKeys[5]].x);
      if !Present(m, 6) { GapAt(m, 6); return Stop(m, 6); }
      percentChanged24h := Some(m[StatKeys[6]].x);
      return Done;
    }

    /** `update_values(values_data)`: the new figures and the exception raised are
        those of `Apply`; the name and the exchange never change. */
    method UpdateValues(v: Val) returns (err: Option<Error>)
      modifies this
      ensures Update(Current(), err) == Apply(old(Current()), pairName, v)
      decreases v
    {
      if !Truthy(v) {
        return Some(NoData);
      }
      if !v.Obj? {
        return Some(TypeError);
      }
      var m := v.fields;
      ApplyByGap(Current(), pairName, m);
      var step := AssignFigures(m);
      match step
      case Done =>
        err := None;
      case NotANumber =>
        err := Some(TypeError);
      case MissingKey =>
        if pairName in m {
          err := UpdateValues(m[pairName]);
        } else {
          err := Some(KeyError(pairName));
        }
    }
  }
}
