/**
 * The data the exchange client works on: the stats snapshot returned by the
 * exchange's `market/stats` endpoint, the JSON-like values handed to
 * `Pair.update_values`, and the exceptions the core raises.
 */
module Stats {

  /** The exceptions raised by the core, named after the Python exception. */
  datatype Error =
    | InvalidPairName(name: string)        // AttributeError from Pair.__init__
    | NoData                               // AttributeError from Pair.update_values
    | UnsupportedCurrency(currency: string) // AttributeError from get_currency_multiplier
    | KeyError(key: string)                // a dictionary lookup of a missing key
    | TypeError                            // float() of a non-number, or indexing a number
    | IndexError                           // a pair key without '-'
    | ZeroDivisionError                    // 1 / 0.0

  /** One pair's stats record: field name to its value, already parsed as a number. */
  type Record = map<string, real>

  /** The whole snapshot: pair identifier to that pair's record. */
  type Snapshot = map<string, Record>

  /** A JSON-like value as `update_values` receives it; `Null` is Python's `None`. */
  datatype Val = Null | Num(x: real) | Obj(fields: map<string, Val>)

  /** Python truthiness of a value: `None`, `0.0` and `{}` are false. */
  predicate Truthy(v: Val)
  {
    match v
    case Null => false
    case Num(x) => x != 0.0
    case Obj(m) => m != map[]
  }

  /** The seven keys of a stats record, in the order `update_values` reads them. */
  const StatKeys: seq<string> :=
    ["base_volume", "high_24hr", "low_24hr", "last_price",
     "highest_bid", "lowest_ask", "percent_changed_24hr"]

  /** A record as the nested dictionary Python passes around. */
  function RecordVal(r: Record): (v: Val)
    ensures v.Obj? && v.fields.Keys == r.Keys
    ensures forall f :: f in r ==> v.fields[f] == Num(r[f])
  {
    Obj(map f | f in r :: Num(r[f]))
  }

  /** A snapshot as the nested dictionary Python passes around. */
  function SnapshotVal(s: Snapshot): (v: Val)
    ensures v.Obj? && v.fields.Keys == s.Keys
    ensures forall k :: k in s ==> v.fields[k] == RecordVal(s[k])
  {
    Obj(map k | k in s :: RecordVal(s[k]))
  }
}
