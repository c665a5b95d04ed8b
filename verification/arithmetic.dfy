/** Arithmetic that several modules share. */
module Arithmetic {

  function Pow2(k: nat): (r: nat)
    ensures r > 0
  {
    if k == 0 then 1 else 2 * Pow2(k - 1)
  }

  ghost function Sum(s: seq<int>): int { if s == [] then 0 else Sum(s[..|s| - 1]) + s[|s| - 1] }

  lemma SubsetCard<T>(a: set<T>, b: set<T>)
    requires a <= b
    ensures |a| <= |b| && (|a| == |b| <==> a == b)
  {
    assert b == a + (b - a);
  }

  lemma MulMono(n: nat, x: int, y: int)
    requires x <= y
    ensures n * x <= n * y && x * n <= y * n
  {
  }

  /** size * count is above top exactly when count is above the quotient. */
  lemma AboveQuotient(top: nat, size: nat, count: nat)
    requires size > 0
    ensures top / size < count <==> size * count > top
  {
    var q := top / size;
    assert top == size * q + top % size;
    if q < count {
      MulMono(size, q + 1, count);
    } else {
      MulMono(size, count, q);
    }
  }

  /** The digits of a number in base n are determined by it. */
  lemma SameDigits(n: nat, hi: int, lo: int, hi': int, lo': int)
    requires 0 <= lo < n && 0 <= lo' < n && hi * n + lo == hi' * n + lo'
    ensures hi == hi' && lo == lo'
  {
    if hi < hi' {
      MulMono(n, hi + 1, hi');
    } else if hi' < hi {
      MulMono(n, hi' + 1, hi);
    }
  }
}
