/**
 * The part of JavaScript's number semantics the controllers rely on, restricted to
 * integral values: a number is either `NaN` or a finite integer. Comparisons involving
 * `NaN` are false and arithmetic involving `NaN` yields `NaN`.
 */
module JsNumber {

  datatype Num = NaN | Finite(value: int)

  /** `a + b` */
  function Add(a: Num, b: Num): (r: Num)
    ensures r.Finite? <==> a.Finite? && b.Finite?
    ensures r.Finite? ==> r.value == a.value + b.value
  {
    if a.Finite? && b.Finite? then Finite(a.value + b.value) else NaN
  }

  /** `a * b` */
  function Mul(a: Num, b: Num): (r: Num)
    ensures r.Finite? <==> a.Finite? && b.Finite?
    ensures r.Finite? ==> r.value == a.value * b.value
  {
    if a.Finite? && b.Finite? then Finite(a.value * b.value) else NaN
  }

  /** `a < b` */
  predicate Less(a: Num, b: Num) {
    a.Finite? && b.Finite? && a.value < b.value
  }

  /** `a <= b` */
  predicate LessEq(a: Num, b: Num) {
    a.Finite? && b.Finite? && a.value <= b.value
  }

  /** `a > b` */
  predicate Greater(a: Num, b: Num) {
    Less(b, a)
  }

  /** `a >= b` */
  predicate GreaterEq(a: Num, b: Num) {
    LessEq(b, a)
  }

  /**
   * Division truncated toward zero (`Math.trunc(x / d)`), the rounding `differenceInHours`
   * applies. Dafny's own `/` is Euclidean, so the negative case is written out.
   */
  function TruncDiv(x: int, d: int): (q: int)
    requires d > 0
    ensures x >= 0 ==> 0 <= x - q * d < d
    ensures x < 0 ==> -d < x - q * d <= 0
  {
    if x >= 0 then x / d else -((-x) / d)
  }

  /** Truncation is symmetric about zero, unlike Euclidean division. */
  lemma TruncDivOdd(x: int, d: int)
    requires d > 0
    ensures TruncDiv(-x, d) == -TruncDiv(x, d)
  {
    if x > 0 {
      assert -x < 0;
    } else if x == 0 {
    } else {
      assert -x > 0;
    }
  }

  /** The quotient is the unique integer the two bounds of `TruncDiv` allow. */
  lemma TruncDivUnique(x: int, d: int, q: int)
    requires d > 0
    requires x >= 0 ==> 0 <= x - q * d < d
    requires x < 0 ==> -d < x - q * d <= 0
    ensures q == TruncDiv(x, d)
  {
    var t := TruncDiv(x, d);
    var k := q - t;
    assert q * d - t * d == k * d;
    if k >= 1 {
      MulAtLeast(k, d);
    } else if k <= -1 {
      MulAtLeast(-k, d);
    }
  }

  lemma MulAtLeast(k: int, d: int)
    requires k >= 1 && d > 0
    ensures k * d >= d
  {
  }
}
