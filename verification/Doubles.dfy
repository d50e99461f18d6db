/** IEEE 754 numbers as Python's floats use them: the value of a stored single, and the
    rounding of a sum to a double. What is rounded here is a multiple of 2^-149 below
    2^140 (ProductIsShort, plus a word), which can neither overflow nor be subnormal, so
    the exponent of a double is not bounded. */
module Doubles {
  import opened Bits
  import opened Words

  const P52 := 0x10_0000_0000_0000
  const P53 := 0x20_0000_0000_0000

  // ----- powers of two

  function TwoTo(e: int): (p: real)
    ensures p > 0.0
    decreases if e >= 0 then e else -e
  {
    if e == 0 then 1.0 else if e > 0 then 2.0 * TwoTo(e - 1) else TwoTo(e + 1) / 2.0
  }

  lemma TwoToStep(e: int)
    ensures TwoTo(e + 1) == 2.0 * TwoTo(e)
  {
  }

  lemma {:induction false} TwoToAdd(e: int, k: nat)
    ensures TwoTo(e + k) == Pow2(k) as real * TwoTo(e)
  {
    hide TwoTo;
    if k > 0 {
      TwoToAdd(e, k - 1);
      TwoToStep(e + k - 1);
      Doubled(Pow2(k - 1), TwoTo(e));
    } else {
      assert Pow2(0) as real == 1.0;
    }
  }

  lemma Doubled(p: nat, u: real)
    ensures (2 * p) as real * u == 2.0 * (p as real * u)
  {
  }

  lemma {:induction false} Higher(a: int, b: int)
    requires a < b
    ensures TwoTo(b) >= 2.0 * TwoTo(a)
    decreases b - a
  {
    hide TwoTo;
    TwoToStep(b - 1);
    if a < b - 1 { Higher(a, b - 1); }
  }

  lemma TwoToOrder(a: int, b: int)
    ensures TwoTo(a) <= TwoTo(b) <==> a <= b
  {
    hide TwoTo;
    if a < b { Higher(a, b); }
    if b < a { Higher(b, a); }
  }

  // ----- rounding

  function Height(y: real): nat
    requires y > 0.0
  {
    if y >= P53 as real then y.Floor else (P53 as real / y).Floor
  }

  lemma HeightFalls(y: real)
    requires y > 0.0
    ensures y >= P53 as real ==> Height(y / 2.0) < Height(y)
    ensures y < P52 as real ==> Height(2.0 * y) < Height(y)
  {
    if y < P52 as real {
      var q := P53 as real / y;
      assert q * y == P53 as real;
      assert P53 as real / (2.0 * y) == q / 2.0;
      assert q >= 2.0 by { if q < 2.0 { Smaller(q, 2.0, y); } }
    } else if y >= P53 as real && y / 2.0 < P53 as real {
      var h := y / 2.0;
      var q := P53 as real / h;
      assert q * h == P53 as real;
      assert q <= 2.0 by { if q > 2.0 { Smaller(2.0, q, h); } }
    }
  }

  lemma Smaller(a: real, b: real, y: real)
    requires a < b && y > 0.0
    ensures a * y < b * y
  {
  }

  /** The exponent of the last of 53 binary places of y. */
  function Exp(y: real): (e: int)
    requires y > 0.0
    ensures P52 as real * TwoTo(e) <= y < P53 as real * TwoTo(e)
    decreases Height(y)
  {
    HeightFalls(y);
    if y >= P53 as real then
      var e := Exp(y / 2.0);
      TwoToStep(e);
      e + 1
    else if y < P52 as real then
      var e := Exp(2.0 * y);
      TwoToStep(e - 1);
      e - 1
    else 0
  }

  function NearestEven(z: real): int {
    var f := z.Floor;
    var d := z - f as real;
    if d < 0.5 || (d == 0.5 && f % 2 == 0) then f else f + 1
  }

  function RoundPositive(y: real): real
    requires y > 0.0
  {
    var u := TwoTo(Exp(y));
    NearestEven(y / u) as real * u
  }

  /** Rounding to a double, ties to even. */
  function Round(y: real): real {
    if y == 0.0 then 0.0 else if y > 0.0 then RoundPositive(y) else -RoundPositive(-y)
  }

  // ----- doubles, and rounding as the choice of a nearest one

  predicate DoubleWith(y: real, n: int, e: int) {
    -P53 <= n <= P53 && y == n as real * TwoTo(e)
  }

  ghost predicate IsDouble(y: real) {
    exists n: int, e: int :: DoubleWith(y, n, e)
  }

  function Distance(x: real, y: real): real {
    if x >= y then x - y else y - x
  }

  lemma NearestEvenNear(z: real, n: int)
    ensures Distance(NearestEven(z) as real, z) <= Distance(n as real, z)
    ensures z == n as real ==> NearestEven(z) == n
    ensures n as real <= z ==> n <= NearestEven(z)
    ensures z <= n as real ==> NearestEven(z) <= n
  {
  }

  lemma ScaledDistance(a: real, b: real, u: real, x: real, y: real)
    requires u > 0.0 && x == a * u && y == b * u
    ensures Distance(x, y) == Distance(a, b) * u
  {
    if a >= b {
      Apart(a, b, u);
      Order(b, a, u);
    } else {
      Apart(b, a, u);
      Order(a, b, u);
    }
  }

  lemma Order(a: real, b: real, u: real)
    requires a <= b && u >= 0.0
    ensures a * u <= b * u
  {
  }

  /** A positive y is z units in its last place, and rounds to a whole number of them. */
  lemma InUnits(y: real) returns (z: real)
    requires y > 0.0
    ensures P52 as real <= z <= P53 as real && z * TwoTo(Exp(y)) == y
    ensures RoundPositive(y) == NearestEven(z) as real * TwoTo(Exp(y))
  {
    hide Exp, TwoTo, NearestEven;
    var u := TwoTo(Exp(y));
    z := y / u;
    if z < P52 as real { Smaller(z, P52 as real, u); }
    if z > P53 as real { Smaller(P53 as real, z, u); }
  }

  lemma Negated(n: int, u: real)
    ensures (-n) as real * u == -(n as real * u)
  {
  }

  lemma RoundIsDouble(y: real)
    ensures IsDouble(Round(y))
  {
    hide Exp, TwoTo, NearestEven, RoundPositive;
    if y == 0.0 {
      assert DoubleWith(0.0, 0, 0);
    } else {
      var p := if y > 0.0 then y else -y;
      var z := InUnits(p);
      NearestEvenNear(z, P52);
      NearestEvenNear(z, P53);
      var n := NearestEven(z);
      Negated(n, TwoTo(Exp(p)));
      assert DoubleWith(Round(y), if y > 0.0 then n else -n, Exp(p));
    }
  }

  /** No double is nearer to a number than what it rounds to. */
  lemma RoundNearest(y: real, v: real)
    requires IsDouble(v)
    ensures Distance(Round(y), y) <= Distance(v, y)
  {
    hide RoundPositive, TwoTo;
    var n, e :| DoubleWith(v, n, e);
    if y > 0.0 {
      RoundPositiveNearest(y, v, n, e);
    } else if y < 0.0 {
      Negated(n, TwoTo(e));
      RoundPositiveNearest(-y, -v, -n, e);
    }
  }

  lemma RoundPositiveNearest(y: real, v: real, n: int, e: int)
    requires y > 0.0 && DoubleWith(v, n, e)
    ensures Distance(RoundPositive(y), y) <= Distance(v, y)
  {
    hide Exp, TwoTo, NearestEven, RoundPositive, DoubleWith;
    var t := Exp(y);
    var u := TwoTo(t);
    var z := InUnits(y);
    if e >= t {
      var m := UnitMultiple(v, n, e, t);
      NearestUnit(z, m, u, y, RoundPositive(y), v);
    } else {
      var w := P52 as real * u;
      NearestUnit(z, P52, u, y, RoundPositive(y), w);
      assert v <= w <= y by { BelowUnits(v, n, e, t); }
    }
  }

  lemma UnitMultiple(v: real, n: int, e: int, t: int) returns (m: int)
    requires DoubleWith(v, n, e) && t <= e
    ensures v == m as real * TwoTo(t)
  {
    hide TwoTo;
    m := n * Pow2(e - t);
    TwoToAdd(t, e - t);
    Regroup(n, Pow2(e - t), TwoTo(t));
  }

  lemma NearestUnit(z: real, m: int, u: real, y: real, r: real, v: real)
    requires u > 0.0 && y == z * u && r == NearestEven(z) as real * u && v == m as real * u
    ensures Distance(r, y) <= Distance(v, y)
  {
    hide NearestEven, Distance;
    var near := NearestEven(z) as real;
    NearestEvenNear(z, m);
    ScaledDistance(near, z, u, r, y);
    ScaledDistance(m as real, z, u, v, y);
    Order(Distance(near, z), Distance(m as real, z), u);
  }

  lemma BelowUnits(v: real, n: int, e: int, t: int)
    requires DoubleWith(v, n, e) && e < t
    ensures v <= P52 as real * TwoTo(t)
  {
    hide TwoTo;
    var a, b := TwoTo(e), TwoTo(t);
    Higher(e, t);
    Order(n as real, P53 as real, a);
    assert v <= P53 as real * a;
    Order(2.0 * a, b, P52 as real);
    TwiceP52(a);
    assert v <= b * P52 as real;
  }

  lemma TwiceP52(a: real)
    ensures P53 as real * a == (2.0 * a) * P52 as real
  {
  }

  lemma Regroup(n: int, p: nat, u: real)
    ensures n as real * (p as real * u) == (n * p) as real * u
  {
    assert (n * p) as real == n as real * p as real;
  }

  /** A double rounds to itself. */
  lemma RoundExact(y: real)
    requires IsDouble(y)
    ensures Round(y) == y
  {
    hide Round, IsDouble;
    RoundNearest(y, y);
  }

  // ----- int() of a rounded sum

  /** int(x): toward zero. */
  function Trunc(x: real): int {
    if x >= 0.0 then x.Floor else -(-x).Floor
  }

  /** int() of the double nearest to y. */
  function IntOf(y: real): int {
    Trunc(Round(y))
  }

  lemma UnitsOfOne(e: int) returns (k: nat)
    requires e < 0
    ensures k as real * TwoTo(e) == 1.0 && k % 2 == 0 && k == Pow2(-e)
  {
    hide TwoTo, Pow2;
    k := Pow2(-e);
    TwoToAdd(e, -e);
    assert e + -e == 0;
    OneIsTwoTo();
    Pow2Step(-e);
  }

  lemma OneIsTwoTo()
    ensures TwoTo(0) == 1.0
  {
  }

  lemma EvenBelow(z: real, m: int, w: real, k: nat)
    requires z == m as real - w && m % 2 == 0 && 0.0 < w < k as real
    ensures NearestEven(z) == m <==> w <= 0.5
    ensures m - k <= NearestEven(z) <= m
  {
    NearestEvenNear(z, m);
    NearestEvenNear(z, m - k);
    if w <= 0.5 {
      assert z.Floor == m - 1;
    }
  }

  lemma RoundOfPositive(y: real)
    requires y > 0.0
    ensures Round(y) == RoundPositive(y)
  {
    hide RoundPositive;
  }

  /** A sum just below an integer is carried up to it exactly when it is within half
      a unit in its last place, and then int() gives that integer. */
  lemma JustBelow(n: int, d: real)
    requires 1 <= n <= P52 && 0.0 < d < 1.0
    ensures n as real - d > 0.0
    ensures IntOf(n as real - d) == if 2.0 * d <= TwoTo(Exp(n as real - d)) then n else n - 1
  {
    hide Exp, TwoTo, Pow2, NearestEven, RoundPositive, Trunc;
    var y := n as real - d;
    RoundOfPositive(y);
    hide Round;
    var u := TwoTo(Exp(y));
    BelowOneUnit(y, Exp(y));
    var k := UnitsOfOne(Exp(y));
    var z := InUnits(y);
    BelowInUnits(n, d, k, u, z, Round(y));
  }

  lemma BelowInUnits(n: int, d: real, k: nat, u: real, z: real, y: real)
    requires k as real * u == 1.0 && k % 2 == 0 && z * u == n as real - d && 0.0 < d < 1.0 && n >= 1 && u > 0.0
    requires y == NearestEven(z) as real * u
    ensures Trunc(y) == if 2.0 * d <= u then n else n - 1
  {
    hide NearestEven, Trunc;
    var w := d * k as real;
    UnitsBelow(n, d, k, u, z);
    EvenBelow(z, n * k, w, k);
    HalfUnit(d, k, u, w);
    CarriedUp(n, k, u, NearestEven(z), y);
  }

  lemma BelowOneUnit(y: real, e: int)
    requires P52 as real * TwoTo(e) <= y < P52 as real
    ensures e < 0
  {
    hide TwoTo;
    OneIsTwoTo();
    TwoToOrder(0, e);
    if TwoTo(e) >= 1.0 { Order(1.0, TwoTo(e), P52 as real); }
  }

  lemma UnitsBelow(n: int, d: real, k: nat, u: real, z: real)
    requires k as real * u == 1.0 && k % 2 == 0 && z * u == n as real - d && 0.0 < d < 1.0
    ensures z == (n * k) as real - d * k as real && n * k % 2 == 0
    ensures 0.0 < d * k as real < k as real
  {
    var c := k as real;
    var y := n as real - d;
    Cancelled(z, u, c, y);
    Times(n, k);
    Apart(n as real, d, c);
    Apart(1.0, d, c);
    assert k > 0;
    Positive(d, c);
    Positive(1.0 - d, c);
    EvenMultiple(n, k);
  }

  lemma Cancelled(z: real, u: real, c: real, y: real)
    requires c * u == 1.0 && y == z * u
    ensures z == y * c
  {
    var t := c * u;
    assert y * c == z * t;
  }

  lemma Times(n: int, k: int)
    ensures (n * k) as real == n as real * k as real
  {
  }

  lemma Apart(x: real, y: real, c: real)
    ensures (x - y) * c == x * c - y * c
  {
  }

  lemma EvenMultiple(n: int, k: int)
    requires k % 2 == 0
    ensures n * k % 2 == 0
  {
    assert n * k == 2 * (n * (k / 2));
  }

  lemma Positive(x: real, y: real)
    requires x > 0.0 && y > 0.0
    ensures x * y > 0.0
  {
  }

  lemma HalfUnit(d: real, k: nat, u: real, w: real)
    requires k as real * u == 1.0 && u > 0.0 && w == d * k as real
    ensures w <= 0.5 <==> 2.0 * d <= u
  {
    assert w * u == d * (k as real * u) == d;
    if w <= 0.5 { Order(w, 0.5, u); } else { Smaller(0.5, w, u); }
  }

  lemma CarriedUp(n: int, k: nat, u: real, m: int, y: real)
    requires n >= 1 && k as real * u == 1.0 && u > 0.0 && n * k - k <= m <= n * k && y == m as real * u
    ensures Trunc(y) == if m == n * k then n else n - 1
  {
    var top, low := n * k, n * k - k;
    assert low == (n - 1) * k;
    UnitsOf(n, k, u, top);
    UnitsOf(n - 1, k, u, low);
    UnitsOrder(low, m, u, (n - 1) as real, y);
    UnitsOrder(top, m, u, n as real, y);
  }

  lemma UnitsOrder(a: int, b: int, u: real, x: real, y: real)
    requires u > 0.0 && x == a as real * u && y == b as real * u
    ensures x <= y <==> a <= b
    ensures y <= x <==> b <= a
  {
    if a < b { Smaller(a as real, b as real, u); }
    if b < a { Smaller(b as real, a as real, u); }
  }

  lemma UnitsOf(n: int, k: nat, u: real, m: int)
    requires k as real * u == 1.0 && m == n * k
    ensures m as real * u == n as real
  {
    Times(n, k);
    Cancelled(n as real, k as real, u, m as real);
  }

  /** Larger numbers have larger units. */
  lemma UnitsGrow(y: real, z: real)
    requires 0.0 < y <= z
    ensures TwoTo(Exp(y)) <= TwoTo(Exp(z))
  {
    hide Exp, TwoTo;
    TwoToOrder(Exp(y), Exp(z));
    if Exp(z) < Exp(y) { Higher(Exp(z), Exp(y)); }
  }

  // ----- integers of more than 53 bits

  /** Next to a large double, integers round to it. */
  lemma BesideBig(v: int, d: int, n: int, e: int)
    requires v >= P53 && v % 4 == 0 && DoubleWith(v as real, n, e)
    requires d == 1 || (d == -1 && v > P53)
    ensures Round((v + d) as real) == v as real
  {
    hide Exp, TwoTo, NearestEven, RoundPositive, DoubleWith;
    var y := (v + d) as real;
    var t := Exp(y);
    var p := AboveOneUnit(y, t);
    var m := BigMultiple(v, d, n, e, t, p);
    var z := InUnits(y);
    BesideMultiple(v, d, m, p, z);
  }

  lemma AboveOneUnit(y: real, t: int) returns (p: nat)
    requires P53 as real <= y < P53 as real * TwoTo(t)
    ensures t > 0 && p as real == TwoTo(t) && p % 2 == 0 && p >= 2
  {
    hide TwoTo, Pow2;
    OneIsTwoTo();
    TwoToOrder(t, 0);
    if TwoTo(t) <= 1.0 { Order(TwoTo(t), 1.0, P53 as real); }
    p := Pow2(t);
    TwoToAdd(0, t);
    Pow2Step(t);
  }

  lemma BigMultiple(v: int, d: int, n: int, e: int, t: int, p: nat) returns (m: int)
    requires v % 4 == 0 && DoubleWith(v as real, n, e) && (d == 1 || d == -1)
    requires p as real == TwoTo(t) && p % 2 == 0 && P52 as real * TwoTo(t) <= (v + d) as real
    ensures v == m * p
  {
    hide TwoTo;
    if e >= t {
      m := UnitMultiple(v as real, n, e, t);
      Times(m, p);
    } else {
      m := P52;
      BelowUnits(v as real, n, e, t);
      Times(m, p);
      EvenMultiple(m, p);
    }
  }

  lemma BesideMultiple(v: int, d: int, m: int, p: nat, z: real)
    requires v == m * p && v % 4 == 0 && (d == 1 || d == -1) && p >= 2 && z * p as real == (v + d) as real
    ensures NearestEven(z) as real * p as real == v as real
  {
    var q := z - m as real;
    Apart(z, m as real, p as real);
    Times(m, p);
    assert q * p as real == d as real;
    if q > 0.5 || q < -0.5 { Half(q, p as real); }
    if q == 0.5 || q == -0.5 { assert p == 2; }
    NearestTo(z, m, q);
  }

  lemma Half(q: real, p: real)
    requires p >= 2.0 && -1.0 <= q * p <= 1.0
    ensures -0.5 <= q <= 0.5
  {
    if q > 0.5 { Smaller(0.5, q, p); }
    if q < -0.5 { Smaller(q, -0.5, p); }
  }

  lemma NearestTo(z: real, m: int, q: real)
    requires z == m as real + q && -0.5 <= q <= 0.5
    requires q == 0.5 || q == -0.5 ==> m % 2 == 0
    ensures NearestEven(z) == m
  {
    assert z.Floor == if q < 0.0 then m - 1 else m;
  }

  // ----- singles

  /** Neither an infinity nor a NaN. */
  predicate Finite(w: word) {
    w / 0x80_0000 % 0x100 != 0xFF
  }

  /** The value of a single, given by its bits. */
  function SingleValue(w: word): real {
    var m, x := w % 0x80_0000, w / 0x80_0000 % 0x100;
    var v := if x == 0 then m as real * TwoTo(-149) else (m + 0x80_0000) as real * TwoTo(x - 150);
    if w < TWO31 then v else -v
  }

  /** A number of less than 30 significant bits. */
  predicate Short(x: real, a: int, k: int) {
    -0x2000_0000 < a < 0x2000_0000 && x == a as real * TwoTo(k)
  }

  lemma ShortBound(x: real, a: int, u: real)
    requires -0x2000_0000 < a < 0x2000_0000 && u > 0.0 && x == a as real * u
    ensures -0x2000_0000 as real * u <= x <= 0x2000_0000 as real * u
  {
    Order(a as real, 0x2000_0000 as real, u);
    Order(-0x2000_0000 as real, a as real, u);
  }

  /** A single times a small integer needs no rounding as a double. */
  lemma ProductIsShort(w: word, c: nat) returns (a: int, k: int)
    requires c < 32
    ensures Short(SingleValue(w) * c as real, a, k) && -149 <= k <= 105
  {
    hide TwoTo;
    var m, x := w % 0x80_0000, w / 0x80_0000 % 0x100;
    var b := if x == 0 then m else m + 0x80_0000;
    var n := if w < TWO31 then b else -b;
    k := if x == 0 then -149 else x - 150;
    a := n * c;
    var u := TwoTo(k);
    Negated(b, u);
    assert SingleValue(w) == n as real * u;
    TimesLast(n, c, u);
    SmallProduct(n, c);
  }

  lemma TimesLast(n: int, c: nat, u: real)
    ensures n as real * u * c as real == (n * c) as real * u
  {
    Times(n, c);
  }

  lemma SmallProduct(n: int, c: nat)
    requires -0x100_0000 < n < 0x100_0000 && c < 32
    ensures -0x2000_0000 < n * c < 0x2000_0000
  {
    var p := if n >= 0 then n else -n;
    AtLeastZero(p, c);
    AtLeastZero(p, 31 - c);
    assert p * (31 - c) == 31 * p - p * c;
    assert n * c == if n >= 0 then p * c else -(p * c);
  }

  lemma AtLeastZero(p: nat, c: nat)
    ensures p * c >= 0
  {
  }
}
