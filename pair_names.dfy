/**
 * `check_pair_is_valid` (lib/pair.py): a pair identifier is accepted by the
 * regular expression `^\w{3,5}-\w{3,5}$` under `re.search`, on a Python 2 byte
 * string, where `\w` is `[A-Za-z0-9_]` and `$` also matches just before a
 * final newline.
 */
module PairNames {

  /** `\w` on a byte string without the UNICODE or LOCALE flag. */
  predicate IsWordChar(c: char)
  {
    'a' <= c <= 'z' || 'A' <= c <= 'Z' || '0' <= c <= '9' || c == '_'
  }

  predicate IsWord(s: string)
  {
    forall i :: 0 <= i < |s| ==> IsWordChar(s[i])
  }

  /** One side of a pair identifier: `\w{3,5}`. */
  predicate IsSide(s: string)
  {
    3 <= |s| <= 5 && IsWord(s)
  }

  /** `s` is a side, a dash at index `i`, and a side. */
  predicate SplitsAt(s: string, i: int)
  {
    0 <= i < |s| && s[i] == '-' && IsSide(s[..i]) && IsSide(s[i + 1..])
  }

  /** `\w{3,5}-\w{3,5}` matches the whole of `s`: the dash sits at index 3, 4 or 5. */
  predicate MatchesWhole(s: string)
  {
    SplitsAt(s, 3) || SplitsAt(s, 4) || SplitsAt(s, 5)
  }

  /** `re.search(r'^\w{3,5}-\w{3,5}$', pair) is not None`; the anchor `^`
      pins the match to the start and `$` to the end or to a final newline. */
  predicate CheckPairIsValid(pair: string)
  {
    MatchesWhole(pair)
    || (|pair| > 0 && pair[|pair| - 1] == '\n' && MatchesWhole(pair[..|pair| - 1]))
  }

  /** Any two sides joined by a dash are accepted, with or without a final newline. */
  lemma ValidFromSides(b: string, q: string)
    requires IsSide(b) && IsSide(q)
    ensures CheckPairIsValid(b + "-" + q)
    ensures CheckPairIsValid(b + "-" + q + "\n")
  {
  }

  /** Every accepted identifier is two sides joined by a dash, with or without a final newline. */
  lemma SidesOfValid(s: string) returns (b: string, q: string)
    requires CheckPairIsValid(s)
    ensures IsSide(b) && IsSide(q)
    ensures s == b + "-" + q || s == b + "-" + q + "\n"
  {
    var t := if MatchesWhole(s) then s else s[..|s| - 1];
    var i := if SplitsAt(t, 3) then 3 else if SplitsAt(t, 4) then 4 else 5;
    b, q := t[..i], t[i + 1..];
    Rejoin(t, i);
    if !MatchesWhole(s) {
      assert s == t + "\n";
    }
  }

  /** Cutting `s` at the dash of a split gives back `s` when rejoined. */
  lemma Rejoin(s: string, i: int)
    requires SplitsAt(s, i)
    ensures s == s[..i] + "-" + s[i + 1..]
  {
  }

  /** The two sides of an identifier are determined by it, since `-` is not a word character. */
  lemma {:induction false} SidesUnique(b: string, q: string, b': string, q': string)
    requires IsWord(b) && IsWord(b')
    requires b + "-" + q == b' + "-" + q'
    ensures b == b' && q == q'
  {
    var s := b + "-" + q;
    assert s[|b|] == '-' && s[|b'|] == '-';
    assert |b| == |b'|;
    assert b == s[..|b|] == b';
    assert q == s[|b| + 1..] == q';
  }

  /** The identifiers lib/unittests/test_pair.py accepts. */
  lemma AcceptedExamples()
    ensures CheckPairIsValid("BTC-USDT") && CheckPairIsValid("BTC-LTC")
    ensures CheckPairIsValid("ETH-COB") && CheckPairIsValid("LALA-USDT")
    ensures CheckPairIsValid("BURGO-USDT")
  {
  }

  /** The identifiers lib/unittests/test_pair.py rejects. */
  lemma RejectedExamples()
    ensures !CheckPairIsValid("BTC-US") && !CheckPairIsValid("BT-USDT")
    ensures !CheckPairIsValid("BTC/USDT") && !CheckPairIsValid("BTCUSDT")
    ensures !CheckPairIsValid("BT-ETH") && !CheckPairIsValid("BURGOS-USDT")
    ensures !CheckPairIsValid("BTC-CARAME")
  {
  }
}
