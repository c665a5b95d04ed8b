/**
  Multiplication that does not overflow.
 */
module CliOverflow {
  import opened Arithmetic

  /** Division as in C: the quotient is rounded towards zero. */
  function Quotient(a: int, b: int): (q: int)
    requires b > 0
  {
    if a >= 0 then a / b else -(-a / b)
  }

  function Abs(a: int): (r: int) { if a < 0 then -a else a }

  lemma AbsProduct(a: int, b: int)
    requires a != 0 && b != 0
    ensures Abs(a) * Abs(b) > 0
    ensures a * b == if (a > 0) == (b > 0) then Abs(a) * Abs(b) else -(Abs(a) * Abs(b))
  {
  }

  /** The limits of a signed type, or of an unsigned one. */
  datatype IntType = Signed(top: nat) | Unsigned(top: nat) {
    function Max(): int { if Signed? then top - 1 else top }
    function Min(): int { if Signed? then 0 - top else 0 }
    predicate Fits(a: int) { Min() <= a <= Max() }
  }

  /** Whether a * b overflows. */
  predicate OverflowCheck(t: IntType, a: int, b: int)
    requires a != 0 && t.top > 0
  {
    if t.Unsigned? then Quotient(t.Max(), Abs(a)) < b
    else if (a > 0) == (b > 0) then Quotient(t.Max(), Abs(a)) < Abs(b)
    else Quotient(t.Min(), Abs(a)) > -Abs(b)
  }

  lemma OverflowCheckExact(t: IntType, a: int, b: int)
    requires t.top > 0 && t.Fits(a) && t.Fits(b) && a != 0 && b != 0
    ensures OverflowCheck(t, a, b) <==> !t.Fits(a * b)
  {
    AbsProduct(a, b);
    AboveQuotient(t.top, Abs(a), Abs(b));
    if t.Max() >= 0 { AboveQuotient(t.Max(), Abs(a), Abs(b)); }
  }

  /** The product, exactly if it fits the type; otherwise a stays as it is. */
  method CheckedMultiply(t: IntType, a: int, b: int) returns (r: int, ok: bool)
    requires t.top > 1 && t.Fits(a) && t.Fits(b)
    ensures ok <==> t.Fits(a * b)
    ensures r == if ok then a * b else a
  {
    if a == 0 || b == 0 || a == 1 || b == 1 { return a * b, true; }
    if a == t.Min() || b == t.Min() {
      MinOverflows(t, a, b);
      return a, false;
    }
    OverflowCheckExact(t, a, b);
    if OverflowCheck(t, a, b) { return a, false; }
    return a * b, true;
  }

  lemma MinOverflows(t: IntType, a: int, b: int)
    requires t.top > 1 && t.Fits(a) && t.Fits(b) && (a == t.Min() || b == t.Min())
    requires a != 0 && b != 0 && a != 1 && b != 1
    ensures !t.Fits(a * b)
  {
    AbsProduct(a, b);
    var other := if a == t.Min() then b else a;
    assert Abs(a) * Abs(b) == t.top * Abs(other);
    if Abs(other) >= 2 {
      MulMono(t.top, 2, Abs(other));
    } else {
      assert other == -1;
    }
  }
}
