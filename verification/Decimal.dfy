/** Decimal numerals, shared by the JSON printer and the version parser. */
module Decimal {
  type Digit = d: int | 0 <= d < 10

  /** The digits of n, most significant first, without leading zeros. */
  function Digits(n: nat): (ds: seq<Digit>)
    ensures ds != []
    ensures |ds| > 1 ==> ds[0] != 0
  {
    if n < 10 then [n] else Digits(n / 10) + [n % 10]
  }

  /** The number that a digit sequence denotes; leading zeros are harmless. */
  function Value(ds: seq<Digit>): nat {
    if ds == [] then 0 else 10 * Value(ds[..|ds| - 1]) + ds[|ds| - 1]
  }

  lemma {:induction false} ValueOfDigits(n: nat)
    ensures Value(Digits(n)) == n
  {
    if n >= 10 {
      ValueOfDigits(n / 10);
      assert Digits(n)[..|Digits(n)| - 1] == Digits(n / 10);
    }
  }
}
