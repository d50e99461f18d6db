/** One step of the float loops of checksum in scripts/itr_real_files_check.py,
    s = int(s + x) & M, as a map on words, and exactly when it keeps all words apart. */
module FloatSteps {
  import opened Bits
  import opened Words
  import opened Doubles

  const TOP := 0xFFFF_FFFF

  function FloatStep(s: word, x: real): word {
    IntOf(s as real + x) % TWO32
  }

  predicate Whole(x: real) {
    x.Floor as real == x
  }

  /** Whole numbers must leave room for 53 bits. Positive fractions must not carry the
      largest word up to the next integer. Negative ones pull sums of both signs to
      zero, unless all sums are negative or rounding swallows the fraction. */
  predicate Keeps(x: real) {
    if Whole(x) then -P53 <= x.Floor <= P53 - TOP
    else if x > 0.0 then IntOf(TOP as real + x) == TOP + x.Floor
    else x < -(TOP as real) || Round(1.0 + x) == 1.0
  }

  // ----- sums that need no rounding

  lemma WholeExact(n: int)
    requires -P53 <= n <= P53
    ensures Round(n as real) == n as real
  {
    hide Round, TwoTo;
    OneIsTwoTo();
    assert DoubleWith(n as real, n, 0);
    RoundExact(n as real);
  }

  lemma ShortExact(x: real, a: int, k: int)
    requires Short(x, a, k)
    ensures Round(x) == x
  {
    hide Round, TwoTo;
    assert DoubleWith(x, a, k);
    RoundExact(x);
  }

  lemma ShortWhole(x: real, a: int, k: nat)
    requires Short(x, a, k)
    ensures x == (a * Pow2(k)) as real && Whole(x)
  {
    hide TwoTo;
    OneIsTwoTo();
    TwoToAdd(0, k);
    Times(a, Pow2(k));
  }

  /** A fraction has places behind the point. */
  lemma FractionShort(x: real, a: int, k: int)
    requires Short(x, a, k) && !Whole(x)
    ensures k < 0 && -0x1000_0000 as real < x < 0x1000_0000 as real
  {
    hide TwoTo;
    var u := TwoTo(k);
    OneIsTwoTo();
    if k >= 0 { ShortWhole(x, a, k); }
    Higher(k, 0);
    ShortBound(x, a, u);
  }

  /** Adding an integer that brings a fraction nearer to zero. */
  lemma NearerExact(s: int, x: real, a: int, k: int)
    requires Short(x, a, k) && k < 0
    requires if x >= 0.0 then -x <= s as real + x <= x else x <= s as real + x <= -x
    ensures Round(s as real + x) == s as real + x
  {
    hide TwoTo, Pow2, Round;
    var c := UnitsOfOne(k);
    var y := s as real + x;
    var b := SumInUnits(s, x, a, c, TwoTo(k));
    Bounded(b, a, TwoTo(k), y, x);
    assert DoubleWith(y, b, k);
    RoundExact(y);
  }

  lemma SumInUnits(s: int, x: real, a: int, c: int, u: real) returns (b: int)
    requires c >= 0 && c as real * u == 1.0 && x == a as real * u
    ensures s as real + x == b as real * u
  {
    var m := s * c;
    b := m + a;
    UnitsOf(s, c, u, m);
    Together(m as real, a as real, u);
  }

  lemma Together(x: real, y: real, u: real)
    ensures (x + y) * u == x * u + y * u
  {
  }

  lemma Bounded(b: int, a: int, u: real, y: real, x: real)
    requires u > 0.0 && y == b as real * u && x == a as real * u
    requires if x >= 0.0 then -x <= y <= x else x <= y <= -x
    ensures if a >= 0 then -a <= b <= a else a <= b <= -a
  {
    Negated(a, u);
    UnitsOrder(a, b, u, x, y);
    UnitsOrder(-a, b, u, -x, y);
    UnitsOrder(0, a, u, 0.0, x);
  }

  // ----- steps that add a constant

  lemma StepShifts(s: word, x: real, a: int, k: int)
    requires Short(x, a, k) && Keeps(x)
    ensures FloatStep(s, x) == (s + Trunc(x)) % TWO32
  {
    hide Round, Exp, TwoTo, Short;
    if Whole(x) {
      WholeExact(s + x.Floor);
    } else if x > 0.0 {
      FractionShort(x, a, k);
      PositiveStep(s, x);
      PositiveStep(TOP, x);
      UnitsGrow(s as real + x, TOP as real + x);
    } else if x < -(TOP as real) {
      FractionShort(x, a, k);
      NearerExact(s, x, a, k);
      TruncNegative(s, x);
    } else {
      if x <= -1.0 { RoundNotPositive(1.0 + x); }
      TinyStep(s, x, a, k);
    }
  }

  /** A positive fraction carries s + x to the next integer or is cut off. */
  lemma PositiveStep(s: word, x: real)
    requires !Whole(x) && 0.0 < x < 0x1000_0000 as real
    ensures var d := (x.Floor + 1) as real - x;
            IntOf(s as real + x) == s + x.Floor + if 2.0 * d <= TwoTo(Exp(s as real + x)) then 1 else 0
  {
    hide Round, Exp, TwoTo, Trunc;
    var n := s + x.Floor + 1;
    var d := (x.Floor + 1) as real - x;
    assert n as real - d == s as real + x;
    JustBelow(n, d);
  }

  lemma RoundNotPositive(y: real)
    requires y <= 0.0
    ensures Round(y) <= 0.0
  {
    hide Round, TwoTo;
    assert DoubleWith(0.0, 0, 0);
    RoundNearest(y, 0.0);
  }

  lemma TruncNegative(s: int, x: real)
    requires x < 0.0 && s as real + x < 0.0
    ensures Trunc(s as real + x) == s + Trunc(x)
  {
    assert (-(s as real + x)).Floor == (-x).Floor - s;
  }

  /** When rounding swallows -d in 1 - d, it does so in every larger sum. */
  lemma TinyStep(s: word, x: real, a: int, k: int)
    requires Short(x, a, k) && -1.0 < x < 0.0 && Round(1.0 + x) == 1.0
    ensures IntOf(s as real + x) == s && Trunc(x) == 0
  {
    hide Round, Exp, TwoTo, Short;
    if s == 0 {
      ShortExact(x, a, k);
    } else {
      JustBelow(1, -x);
      JustBelow(s, -x);
      UnitsGrow(1.0 + x, s as real + x);
    }
  }

  // ----- steps that do not

  /** A number that fails the test makes two words collide. */
  lemma StepCollides(x: real, a: int, k: int) returns (s: word, t: word)
    requires Short(x, a, k) && !Keeps(x)
    ensures s != t && FloatStep(s, x) == FloatStep(t, x)
  {
    hide Round, Exp, TwoTo, Short, Trunc;
    if Whole(x) {
      s, t := BigCollides(x.Floor, a, k);
    } else if x > 0.0 {
      FractionShort(x, a, k);
      s, t := 0, TOP;
      PositiveCollides(x, a, k);
    } else {
      s, t := -x.Floor - 1, -x.Floor;
      NegativeCollides(x, a, k);
    }
  }

  lemma PositiveCollides(x: real, a: int, k: int)
    requires Short(x, a, k) && !Whole(x) && 0.0 < x < 0x1000_0000 as real
    requires IntOf(TOP as real + x) != TOP + x.Floor
    ensures IntOf(TOP as real + x) == IntOf(0 as real + x) + TWO32
  {
    hide Round, Exp, TwoTo, Short;
    ShortExact(x, a, k);
    PositiveStep(TOP, x);
    assert 0 as real + x == x;
  }

  /** The two sums nearest to zero, of different signs. */
  lemma NegativeCollides(x: real, a: int, k: int)
    requires Short(x, a, k) && !Whole(x) && -(TOP as real) <= x < 0.0 && Round(1.0 + x) != 1.0
    ensures IntOf((-x.Floor - 1) as real + x) == IntOf((-x.Floor) as real + x) == 0
  {
    hide Round, Exp, TwoTo, Short;
    var f := -x.Floor;
    FractionShort(x, a, k);
    if f == 1 {
      ShortExact(x, a, k);
      JustBelow(1, -x);
      NotCarried(1.0 + x);
    } else {
      NearerExact(f - 1, x, a, k);
      NearerExact(f, x, a, k);
    }
  }

  /** Rounding does not carry a sum below 1 beyond 1. */
  lemma NotCarried(y: real)
    requires 0.0 < y < 1.0 && Round(y) != 1.0
    ensures IntOf(y) == 0
  {
    hide Round, TwoTo;
    OneIsTwoTo();
    assert DoubleWith(1.0, 1, 0) && DoubleWith(0.0, 0, 0);
    RoundNearest(y, 1.0);
    RoundNearest(y, 0.0);
  }

  /** Integers beyond 53 bits. */
  lemma BigCollides(n: int, a: int, k: int) returns (s: word, t: word)
    requires Short(n as real, a, k) && (n > P53 - TOP || n < -P53)
    ensures s != t && FloatStep(s, n as real) == FloatStep(t, n as real)
  {
    hide Round, Exp, TwoTo, Trunc;
    BigShort(n, a, k);
    if n < -P53 {
      s, t := 0, 1;
      BelowMinusBig(n, a, k);
    } else if n >= P53 {
      s, t := 0, 1;
      assert DoubleWith(n as real, a, k);
      RoundExact(n as real);
      BesideBig(n, 1, a, k);
    } else {
      s, t := P53 - n, P53 - n + 1;
      WholeExact(P53);
      OneIsTwoTo();
      assert DoubleWith(P53 as real, P53, 0);
      BesideBig(P53, 1, P53, 0);
    }
  }

  lemma BigShort(n: int, a: int, k: int)
    requires Short(n as real, a, k) && (n > P53 - TOP || n < -P53)
    ensures n % 4 == 0
  {
    hide TwoTo, Pow2;
    if k < 2 {
      OneIsTwoTo();
      TwoToStep(0);
      TwoToStep(1);
      TwoToOrder(k, 2);
      ShortBound(n as real, a, TwoTo(k));
    } else {
      ShortWhole(n as real, a, k);
      Pow2Step(k);
      Pow2Step(k - 1);
      FourTimes(a, Pow2(k - 2));
    }
  }

  lemma FourTimes(a: int, p: int)
    ensures a * (2 * (2 * p)) % 4 == 0
  {
    assert a * (2 * (2 * p)) == 4 * (a * p);
  }

  lemma BelowMinusBig(n: int, a: int, k: int)
    requires Short(n as real, a, k) && n < -P53 && n % 4 == 0
    ensures Round(0 as real + n as real) == Round(1 as real + n as real) == n as real
  {
    hide Exp, TwoTo, RoundPositive;
    Negated(a, TwoTo(k));
    assert DoubleWith(n as real, a, k) && DoubleWith((-n) as real, -a, k);
    RoundExact(n as real);
    BesideBig(-n, -1, -a, k);
    assert (-n + -1) as real == -(1 as real + n as real);
  }

  // ----- the exact condition

  /** Adding x keeps different words different. */
  ghost predicate Distinguishes(x: real) {
    forall s: word, t: word :: FloatStep(s, x) == FloatStep(t, x) ==> s == t
  }

  lemma ConstantKeepsApart(s: word, t: word, c: int)
    requires (s + c) % TWO32 == (t + c) % TWO32
    ensures s == t
  {
  }

  /** For the products the checksum forms, the test decides. */
  lemma KeepsExact(x: real, a: int, k: int)
    requires Short(x, a, k)
    ensures Keeps(x) <==> Distinguishes(x)
    ensures Keeps(x) <==> forall s: word :: FloatStep(s, x) == (s + Trunc(x)) % TWO32
  {
    hide FloatStep, Keeps, Short, Trunc;
    if Keeps(x) {
      forall s: word ensures FloatStep(s, x) == (s + Trunc(x)) % TWO32 { StepShifts(s, x, a, k); }
      forall s: word, t: word | FloatStep(s, x) == FloatStep(t, x)
        ensures s == t
      {
        ConstantKeepsApart(s, t, Trunc(x));
      }
    } else {
      var s, t := StepCollides(x, a, k);
      if forall s: word :: FloatStep(s, x) == (s + Trunc(x)) % TWO32 { ConstantKeepsApart(s, t, Trunc(x)); }
    }
  }

  /** Non-negative numbers with at most 20 places behind the point pass. */
  lemma CoarseKeeps(x: real)
    requires Whole(x * 0x10_0000 as real) && 0.0 <= x <= TOP as real
    ensures Keeps(x)
  {
    hide Round, TwoTo;
    var n := (x * 0x10_0000 as real).Floor + TOP * 0x10_0000;
    var y := TOP as real + x;
    assert TwoTo(-20) * 0x10_0000 as real == 1.0 by {
      var c := UnitsOfOne(-20);
      assert c == 0x10_0000 by { Pow2Values(); assert Pow2(20) == 0x10_0000; }
    }
    var u := TwoTo(-20);
    assert y == n as real * u;
    assert DoubleWith(y, n, -20);
    RoundExact(y);
  }
}
