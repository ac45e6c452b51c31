/** imaxdiv(): quotient and remainder of intmax_t (64-bit) division, C semantics. */
module ImaxDiv {
  import opened CInt

  datatype DivResult = DivResult(quot: int, rem: int)

  function Abs(x: int): nat { if x < 0 then -x else x }

  /**
   * C99 `/` and `%` truncate toward zero (Dafny's are Euclidean). The caller
   * must avoid what C division leaves undefined: a zero divisor, and the one
   * overflowing quotient INTMAX_MIN / -1.
   */
  function Div(numer: int, denom: int): (r: DivResult)
    requires IsInt64(numer) && IsInt64(denom)
    requires denom != 0
    requires !(numer == -TWO63 && denom == -1)
    ensures r.quot * denom + r.rem == numer
    ensures Abs(r.rem) < Abs(denom)
    ensures r.rem == 0 || (r.rem < 0 <==> numer < 0)
    ensures Abs(r.quot) == Abs(numer) / Abs(denom)
    ensures r.quot == 0 || (r.quot < 0 <==> (numer < 0) != (denom < 0))
    ensures IsInt64(r.quot) && IsInt64(r.rem)
  {
    var quot := TruncQuot(numer, denom);
    DivFacts(numer, denom);
    DivResult(quot, numer - quot * denom)
  }

  /** The quotient rounded toward zero. */
  function TruncQuot(numer: int, denom: int): int
    requires denom != 0
  {
    var q := Abs(numer) / Abs(denom);
    if (numer < 0) != (denom < 0) then -(q as int) else q
  }

  lemma DivFacts(numer: int, denom: int)
    requires IsInt64(numer) && IsInt64(denom)
    requires denom != 0
    requires !(numer == -TWO63 && denom == -1)
    ensures var quot, rem := TruncQuot(numer, denom), numer - TruncQuot(numer, denom) * denom;
      && Abs(rem) < Abs(denom)
      && (rem == 0 || (rem < 0 <==> numer < 0))
      && Abs(quot) == Abs(numer) / Abs(denom)
      && (quot == 0 || (quot < 0 <==> (numer < 0) != (denom < 0)))
      && IsInt64(quot) && IsInt64(rem)
  {
    var quot := TruncQuot(numer, denom);
    var rem := numer - quot * denom;
    var m := Abs(numer) % Abs(denom);
    SignedRemainder(numer, denom);
    assert rem == (if numer < 0 then -m else m);
    assert Abs(rem) == m < Abs(denom);
    QuotientRange(numer, denom);
    QuotientSign(numer, denom);
  }

  lemma QuotientSign(numer: int, denom: int)
    requires denom != 0
    ensures Abs(TruncQuot(numer, denom)) == Abs(numer) / Abs(denom)
    ensures var quot := TruncQuot(numer, denom);
      quot == 0 || (quot < 0 <==> (numer < 0) != (denom < 0))
  {
    QuotientCases(numer, denom, Abs(numer) / Abs(denom));
  }

  lemma QuotientCases(numer: int, denom: int, q: int)
    requires denom != 0 && q == Abs(numer) / Abs(denom)
    ensures q >= 0
    ensures TruncQuot(numer, denom) == if (numer < 0) != (denom < 0) then -q else q
    ensures Abs(TruncQuot(numer, denom)) == q
  {
    AbsNeg(q);
  }

  lemma AbsNeg(q: int)
    requires q >= 0
    ensures Abs(-q) == q && Abs(q) == q
  {
  }

  lemma QuotientRange(numer: int, denom: int)
    requires IsInt64(numer) && denom != 0
    requires !(numer == -TWO63 && denom == -1)
    ensures IsInt64(TruncQuot(numer, denom))
  {
    Euclid(Abs(numer), Abs(denom));
    QuotientSign(numer, denom);
    var quot := TruncQuot(numer, denom);
    if quot == TWO63 {
      assert Abs(numer) == TWO63;
      LargeQuotient(Abs(numer), Abs(denom));
    }
  }

  lemma LargeQuotient(a: nat, b: nat)
    requires b > 0 && a / b == a && a > 0
    ensures b == 1
  {
    Euclid(a, b);
    if b >= 2 {
      var q := a / b;
      assert q * b == q * (b - 2) + 2 * q;
      MulNonneg(q, b - 2);
    }
  }

  lemma MulNonneg(x: nat, y: nat)
    ensures x * y >= 0
  {
  }

  /** a == (a / b) * b + a % b with 0 <= a % b < b, and a / b <= a. */
  lemma Euclid(a: nat, b: nat)
    requires b > 0
    ensures a == (a / b) * b + a % b
    ensures 0 <= a % b < b
    ensures a / b <= a
  {
    var q := a / b;
    MulMono(q, b);
  }

  lemma MulMono(q: nat, b: nat)
    requires b > 0
    ensures q <= q * b
  {
    var k := b - 1;
    assert q * b == q * k + q;
  }

  lemma MulSigns(x: int, y: int)
    ensures (-x) * y == -(x * y) && x * (-y) == -(x * y) && (-x) * (-y) == x * y
  {
  }

  /** The remainder numer - quot * denom takes the sign of numer. */
  lemma SignedRemainder(numer: int, denom: int)
    requires denom != 0
    ensures var rem := numer - TruncQuot(numer, denom) * denom;
      rem == (if numer < 0 then -(Abs(numer) % Abs(denom)) else Abs(numer) % Abs(denom))
  {
    var a: int, b: int := Abs(numer), Abs(denom);
    Euclid(a, b);
    var q, m := a / b, a % b;
    var quot := TruncQuot(numer, denom);
    assert quot == if (numer < 0) != (denom < 0) then -(q as int) else q;
    var qb: int := q * b;
    MulSigns(q, b);
    assert a == qb + m;
    if numer < 0 {
      assert numer == -a;
      if denom < 0 {
        assert denom == -b && quot == q;
        assert quot * denom == -qb;
      } else {
        assert denom == b && quot == -(q as int);
        assert quot * denom == -qb;
      }
    } else {
      assert numer == a;
      if denom < 0 {
        assert denom == -b && quot == -(q as int);
        assert quot * denom == qb;
      } else {
        assert denom == b && quot == q;
        assert quot * denom == qb;
      }
    }
  }
}
