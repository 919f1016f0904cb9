/** wpsync_webspark_get_price: drop every character that is not a digit,
    '.' or ',', then hand the rest to PHP's floatval (an oracle here). */
module Price {
  /** The characters the pattern /[^0-9.,]/ leaves in place. */
  predicate IsPriceChar(c: char) {
    '0' <= c <= '9' || c == '.' || c == ','
  }

  /** preg_replace('/[^0-9.,]/', '', s). */
  function StripPrice(s: string): (r: string)
    ensures |r| <= |s|
    ensures forall i :: 0 <= i < |r| ==> IsPriceChar(r[i])
    ensures (forall i :: 0 <= i < |s| ==> IsPriceChar(s[i])) ==> r == s
    decreases |s|
  {
    if s == [] then []
    else (if IsPriceChar(s[0]) then [s[0]] else []) + StripPrice(s[1..])
  }

  /** The number the job stores as a regular price. */
  function GetPrice(s: string, floatval: string -> real): real {
    floatval(StripPrice(s))
  }

  /** Stripping works character by character: the result for a concatenation
      is the concatenation of the results, so the kept characters keep their order. */
  lemma {:induction false} StripPriceConcat(a: string, b: string)
    ensures StripPrice(a + b) == StripPrice(a) + StripPrice(b)
    decreases |a|
  {
    if a == [] {
      assert a + b == b;
    } else {
      assert (a + b)[0] == a[0];
      assert (a + b)[1..] == a[1..] + b;
      StripPriceConcat(a[1..], b);
    }
  }

  /** Exactly the digits, dots and commas survive: each of them as often as
      in the input, every other character not at all. */
  lemma {:induction false} StripPriceCounts(s: string, c: char)
    ensures multiset(StripPrice(s))[c] == if IsPriceChar(c) then multiset(s)[c] else 0
    decreases |s|
  {
    if s != [] {
      StripPriceCounts(s[1..], c);
      assert s == [s[0]] + s[1..];
      assert multiset(s) == multiset([s[0]]) + multiset(s[1..]);
    }
  }

  /** Stripping twice is stripping once. */
  lemma StripPriceIdempotent(s: string)
    ensures StripPrice(StripPrice(s)) == StripPrice(s)
  {
  }

  /** The stored price depends only on the digits, dots and commas of the
      feed's string, in their order: noise around them is irrelevant. */
  lemma GetPriceIgnoresNoise(a: string, b: string, floatval: string -> real)
    ensures GetPrice(a + b, floatval) == floatval(StripPrice(a) + StripPrice(b))
    ensures GetPrice(StripPrice(a), floatval) == GetPrice(a, floatval)
  {
    StripPriceConcat(a, b);
    StripPriceIdempotent(a);
  }
}
