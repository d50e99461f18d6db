/** Divisibility of products by powers of two. */
module TwoAdic {
  import opened Bits

  /** The number of times 2 divides w. */
  function Val2(w: nat): nat
    requires w > 0
  {
    if w % 2 == 1 then 0 else 1 + Val2(w / 2)
  }

  lemma {:induction false} Val2Bound(w: nat)
    requires w > 0
    ensures Pow2(Val2(w)) <= w
  {
    if w % 2 == 0 { Val2Bound(w / 2); }
  }

  lemma HalfMultiple(x: int, n: nat)
    requires n > 0
    ensures x % Pow2(n) == 0 <==> x % 2 == 0 && x / 2 % Pow2(n - 1) == 0
  {
    LowDigit(x, n);
  }

  lemma OddProduct(m: nat, d: int)
    requires m % 2 == 1
    ensures m * d % 2 == d % 2
    ensures d % 2 == 0 ==> m * d / 2 == m * (d / 2)
  {
    var q, e := m / 2, d / 2;
    assert m * d == 2 * (q * d) + d;
    if d % 2 == 0 { assert m * d == 2 * (m * e); }
  }

  lemma {:induction false} OddFactor(m: nat, d: int, n: nat)
    requires m % 2 == 1
    ensures m * d % Pow2(n) == 0 <==> d % Pow2(n) == 0
    decreases n
  {
    hide Pow2;
    if n == 0 {
      assert Pow2(0) == 1 by { Pow2Values(); }
    } else {
      HalfMultiple(m * d, n);
      HalfMultiple(d, n);
      OddProduct(m, d);
      OddFactor(m, d / 2, n - 1);
    }
  }

  /** w * d is a multiple of 2^n exactly when d makes up for the twos w lacks. */
  lemma {:induction false} ScaledMultiple(w: nat, d: int, n: nat)
    requires w > 0 && Val2(w) <= n
    ensures w * d % Pow2(n) == 0 <==> d % Pow2(n - Val2(w)) == 0
  {
    hide Pow2;
    if w % 2 == 1 {
      OddFactor(w, d, n);
    } else {
      var v := w / 2;
      assert w * d == 2 * (v * d);
      HalfMultiple(w * d, n);
      ScaledMultiple(v, d, n - 1);
    }
  }

  /** Two numbers have the same remainder exactly when their difference has none. */
  lemma SameRemainder(a: int, b: int, m: nat)
    requires m > 0
    ensures a % m == b % m <==> (a - b) % m == 0
  {
    var qa, qb := a / m, b / m;
    var ra, rb := a % m, b % m;
    assert a - b == (qa - qb) * m + (ra - rb);
    if ra >= rb {
      DivUnique(a - b, m, qa - qb, ra - rb);
    } else {
      assert a - b == (qa - qb - 1) * m + (ra - rb + m);
      DivUnique(a - b, m, qa - qb - 1, ra - rb + m);
    }
  }
}
