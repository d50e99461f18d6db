/** The checksum in numbers: every constant of its sums, its hash and its floats. */
module ChecksumForm {
  import opened Bits
  import opened Words
  import opened Hash
  import opened Doubles
  import opened FloatSteps
  import opened ReplayFile
  import opened ReplayChecksum
  import opened HeaderTamper

  function Sum(n: nat, f: nat -> int): int {
    if n == 0 then 0 else Sum(n - 1, f) + f(n - 1)
  }

  // ----- bytes

  /** A byte in two's complement. */
  function ByteValue(b: byte): int {
    (b + 128) % 256 - 128
  }

  lemma SByteInNumbers(b: byte)
    ensures SByte(b) == ByteValue(b) && -128 <= SByte(b) < 128 && (SByte(b) - b) % 256 == 0
  {
  }

  // ----- the sums

  function ArrayEntry(r: Replay, i: nat): int {
    if i < |r.ccc| && i < |r.jc| then (39 + 3 * i) * r.ccc[i] + (27 + 3 * i) * r.jc[i] else 0
  }

  function ArrayEntries(r: Replay): nat -> int {
    (i: nat) => ArrayEntry(r, i)
  }

  function Triple(x: int, y: int, z: int): int {
    x * (y * z)
  }

  function TextEntry(r: Replay, i: nat): int {
    if i < |r.name| && i < |r.date|
    then Triple(17 * (i + 1), ByteValue(r.name[i]) + i, ByteValue(r.date[i]) + i) else 0
  }

  function TextEntries(r: Replay): nat -> int {
    (i: nat) => TextEntry(r, i)
  }

  function CommentEntry(r: Replay, i: nat): int {
    if i < |r.comment|
    then Triple(3 * (i - 1), ByteValue(r.comment[i]) + i, ByteValue(r.comment[i]) + i) else 0
  }

  function CommentEntries(r: Replay): nat -> int {
    (i: nat) => CommentEntry(r, i)
  }

  function RecordEntry(r: Replay, i: nat): int {
    if i < |r.records| then 3 * (i % 193 + 1) * r.records[i].kf + 7 * (i % 167 + 1) * r.records[i].cc else 0
  }

  function RecordEntries(r: Replay): nat -> int {
    (i: nat) => RecordEntry(r, i)
  }

  /** What enters the float loops. */
  lemma EnteringInNumbers(r: Replay)
    requires Shaped(r)
    ensures Entering(r)
            == (3939 + 34 * r.blc + 254 * r.nctf + 17 * r.floorSize + 102 * r.floorShrink + 163 * r.startSpeed
                + 23 * r.speedIncrease + 88 * r.gravity + 329 * r.seed + 127 * r.tcPosts + 13 * r.rejump
                + 17 * r.score + 73 * r.combo + 113 * r.floor
                + Sum(5, ArrayEntries(r))) % 4294967296
  {
    hide IntTotal, ArrayTotal, Sum, ArrayEntry;
    IntTotalForm(r);
    ArrayInNumbers(r, 5);
  }

  lemma {:induction false} ArrayInNumbers(r: Replay, n: nat)
    requires n <= |r.ccc| && n <= |r.jc|
    ensures ArrayTotal(r.ccc, r.jc, n) == Sum(n, ArrayEntries(r))
  {
    if n > 0 { ArrayInNumbers(r, n - 1); }
  }

  lemma {:induction false} TextInNumbers(r: Replay, n: nat)
    requires n <= |r.name| && n <= |r.date|
    ensures TextTotal(r.name, r.date, n) == Sum(n, TextEntries(r))
  {
    hide SByte, ByteValue, TextTotal;
    SumStarts(0, [], [], r.name, r.date, []);
    if n > 0 {
      TextInNumbers(r, n - 1);
      TextStep(r.name, r.date, n - 1);
      SByteInNumbers(r.name[n - 1]);
      SByteInNumbers(r.date[n - 1]);
      Turned((SByte(r.name[n - 1]) + n - 1) * (SByte(r.date[n - 1]) + n - 1), 17 * n);
    }
  }

  lemma Turned(x: int, y: int)
    ensures x * y == y * x
  {
  }

  lemma {:induction false} CommentInNumbers(r: Replay, n: nat)
    requires n <= |r.comment|
    ensures CommentTotal(r.comment, n) == Sum(n, CommentEntries(r))
  {
    hide SByte, ByteValue, CommentTotal;
    SumStarts(0, [], [], r.comment, [], []);
    if n > 0 {
      CommentInNumbers(r, n - 1);
      CommentStep(r.comment, n - 1);
      SByteInNumbers(r.comment[n - 1]);
      Turned((SByte(r.comment[n - 1]) + n - 1) * (SByte(r.comment[n - 1]) + n - 1), 3 * (n - 2));
    }
  }

  lemma {:induction false} RecordsInNumbers(r: Replay, n: nat)
    requires n <= |r.records|
    ensures RecordTotal(r.records, n) == Sum(n, RecordEntries(r))
  {
    hide RecordTotal, RecordTerm;
    SumStarts(0, [], [], [], [], r.records);
    if n > 0 {
      RecordsInNumbers(r, n - 1);
      RecordStep(r.records, n - 1);
      Turned(r.records[n - 1].kf as int * 3, (n - 1) % 193 + 1);
      Turned(r.records[n - 1].cc as int * 7, (n - 1) % 167 + 1);
      Weighted((n - 1) % 193 + 1, 3, r.records[n - 1].kf);
      Weighted((n - 1) % 167 + 1, 7, r.records[n - 1].cc);
    }
  }

  lemma Weighted(w: int, c: int, x: int)
    ensures w * (x * c) == c * w * x
  {
  }

  /** What is hashed. */
  lemma AccumulatorInNumbers(r: Replay)
    requires Shaped(r)
    ensures Accumulator(r)
            == (FloatFold(Entering(r), r, 300) + Sum(32, TextEntries(r)) + Sum(42, CommentEntries(r))
                + Sum(|r.records|, RecordEntries(r))) % 4294967296
  {
    hide IntTotal, ArrayTotal, FloatFold, TextTotal, CommentTotal, RecordTotal, Sum;
    TextInNumbers(r, 32);
    CommentInNumbers(r, 42);
    RecordsInNumbers(r, |r.records|);
  }

  // ----- the replay of zeros

  function AllZero(): (r: Replay)
    ensures Shaped(r)
  {
    var col := Zeros(100);
    Replay(Zeros(6), 0, Zeros(32), Zeros(32), 0, 0, 0, 0, 0, Zeros(5), Zeros(5), 0, 0, 0, 0, 0, 0, 0,
           Zeros(42), 0, 0, [col, col, col, col, col], [], 0)
  }

  /** The replay of zeros without records is hashed from 6515783. */
  lemma ZeroAccumulator()
    ensures Accumulator(AllZero()) == 6515783
  {
    hide Sum, FloatFold, Entering, Accumulator, TextEntries, CommentEntries, RecordEntries;
    var r := AllZero();
    AccumulatorInNumbers(r);
    EnteringOfZeros();
    FloatsOfZeros(Entering(r), 300);
    TextOfZeros(32);
    CommentOfZeros(42);
    NoRecords(r);
  }

  lemma NoRecords(r: Replay)
    ensures Sum(0, RecordEntries(r)) == 0
  {
  }

  lemma EnteringOfZeros()
    ensures Entering(AllZero()) == 3939
  {
    hide Sum;
    EnteringInNumbers(AllZero());
    ArrayOfZeros(5);
  }

  lemma {:induction false} ArrayOfZeros(n: nat)
    requires n <= 5
    ensures Sum(n, ArrayEntries(AllZero())) == 0
  {
    if n > 0 {
      ArrayOfZeros(n - 1);
      assert AllZero().ccc[n - 1] == 0 && AllZero().jc[n - 1] == 0;
    }
  }

  lemma {:induction false} FloatsOfZeros(s: word, n: nat)
    requires n <= 300
    ensures FloatFold(s, AllZero(), n) == s
  {
    hide FloatStep, Telemetry;
    if n > 0 {
      FloatsOfZeros(s, n - 1);
      NothingAdded(s, n - 1);
    }
  }

  lemma NothingAdded(s: word, k: nat)
    requires k < 300
    ensures FloatStep(s, Telemetry(AllZero(), k)) == s
  {
    hide FloatStep, Product, FloatWeight;
    assert StoredFloat(AllZero(), k) == 0;
    ZeroProduct(FloatWeight(k));
    ZeroStep(s);
  }

  lemma ZeroProduct(weight: nat)
    requires weight < 32
    ensures Product(0, weight) == 0.0
  {
    hide Product, TwoTo;
    ProductInNumbers(0, weight);
  }

  lemma ZeroStep(s: word)
    ensures FloatStep(s, 0.0) == s
  {
    hide Round;
    WholeExact(s);
  }

  function Square(n: int): int {
    n * n
  }

  function Cube(n: int): int {
    n * Square(n)
  }

  function Fourth(n: int): int {
    n * Cube(n)
  }

  lemma NextPowers(i: int)
    ensures Square(i + 1) == Square(i) + 2 * i + 1
    ensures Cube(i + 1) == Cube(i) + 3 * Square(i) + 3 * i + 1
    ensures Fourth(i + 1) == Fourth(i) + 4 * Cube(i) + 6 * Square(i) + 4 * i + 1
  {
    var n, q, c := i + 1, Square(i), Cube(i);
    assert Square(n) == q + 2 * i + 1;
    assert n * (q + 2 * i + 1) == i * q + 2 * (i * i) + i + q + 2 * i + 1;
    assert n * (c + 3 * q + 3 * i + 1) == i * c + 3 * (i * q) + 3 * (i * i) + i + c + 3 * q + 3 * i + 1;
  }

  /** The sum over i < n of 17 (i + 1) i^2. */
  lemma {:induction false} TextOfZeros(n: nat)
    requires n <= 32
    ensures 12 * Sum(n, TextEntries(AllZero())) == 17 * (3 * Fourth(n) - 2 * Cube(n) - 3 * Square(n) + 2 * n)
  {
    hide Sum, TextEntries, AllZero, Fourth, Cube, Square;
    if n > 0 {
      TextOfZeros(n - 1);
      SumStep(n, TextEntries(AllZero()));
      TextEntryOfZeros(n - 1);
      NextPowers(n - 1);
    } else {
      NothingSummed(TextEntries(AllZero()));
    }
  }

  lemma NothingSummed(f: nat -> int)
    ensures Sum(0, f) == 0 && Square(0) == Cube(0) == Fourth(0) == 0
  {
  }

  lemma SumStep(n: nat, f: nat -> int)
    requires n > 0
    ensures Sum(n, f) == Sum(n - 1, f) + f(n - 1)
  {
  }

  lemma ZeroTexts()
    ensures var r := AllZero();
            r.name == r.date == Zeros(32) && r.comment == Zeros(42)
  {
    hide Zeros;
  }

  lemma TextEntryOfZeros(i: nat)
    requires i < 32
    ensures TextEntries(AllZero())(i) == 17 * (Cube(i) + Square(i))
  {
    hide Triple, AllZero, Zeros, Shaped;
    ZeroTexts();
    assert ByteValue(0) == 0;
    assert TextEntries(AllZero())(i) == Triple(17 * (i + 1), i, i);
    Tripled(17, i, 1);
  }

  lemma CommentEntryOfZeros(i: nat)
    requires i < 42
    ensures CommentEntries(AllZero())(i) == 3 * (Cube(i) - Square(i))
  {
    hide Triple, AllZero, Zeros, Shaped;
    ZeroTexts();
    assert ByteValue(0) == 0;
    assert CommentEntries(AllZero())(i) == Triple(3 * (i - 1), i, i);
    Tripled(3, i, -1);
  }

  lemma Tripled(c: int, i: int, d: int)
    ensures Triple(c * (i + d), i, i) == c * (Cube(i) + d * Square(i))
  {
    var q := i * i;
    assert (i + d) * q == i * q + d * q;
    assert c * (i + d) * q == c * ((i + d) * q);
  }

  /** The sum over i < n of 3 (i - 1) i^2. */
  lemma {:induction false} CommentOfZeros(n: nat)
    requires n <= 42
    ensures 4 * Sum(n, CommentEntries(AllZero())) == 3 * Fourth(n) - 10 * Cube(n) + 9 * Square(n) - 2 * n
  {
    hide Sum, CommentEntries, AllZero, Fourth, Cube, Square;
    if n > 0 {
      CommentOfZeros(n - 1);
      SumStep(n, CommentEntries(AllZero()));
      CommentEntryOfZeros(n - 1);
      NextPowers(n - 1);
    } else {
      NothingSummed(CommentEntries(AllZero()));
    }
  }

  // ----- the float steps

  /** Row i adds one number of each of the three columns, times its weight. */
  lemma RowInNumbers(s: word, r: Replay, i: nat, x: real, y: real, z: real)
    requires Shaped(r) && i < 100
    requires x == SingleValue(r.cols[0][i]) * ((i + 1) % 13) as real
    requires y == SingleValue(r.cols[1][i]) * ((i + 7) % 17) as real
    requires z == SingleValue(r.cols[2][i]) * ((i + 9) % 23) as real
    ensures FloatFold(s, r, 0) == s
    ensures FloatFold(s, r, 3 * i + 3) == FloatStep(FloatStep(FloatStep(FloatFold(s, r, 3 * i), x), y), z)
  {
    hide FloatStep, FloatFold, Product, SingleValue;
    ProductIs(r.cols[0][i], (i + 1) % 13, x);
    ProductIs(r.cols[1][i], (i + 7) % 17, y);
    ProductIs(r.cols[2][i], (i + 9) % 23, z);
    RowOfProducts(s, r, i, x, y, z);
  }

  lemma RowOfProducts(s: word, r: Replay, i: nat, x: real, y: real, z: real)
    requires Shaped(r) && i < 100
    requires Product(r.cols[0][i], (i + 1) % 13) == x && Product(r.cols[1][i], (i + 7) % 17) == y
    requires Product(r.cols[2][i], (i + 9) % 23) == z
    ensures FloatFold(s, r, 0) == s
    ensures FloatFold(s, r, 3 * i + 3) == FloatStep(FloatStep(FloatStep(FloatFold(s, r, 3 * i), x), y), z)
  {
    hide FloatStep, FloatFold, Product;
    FloatFoldStart(s, r);
    ThreeSteps(s, r, i);
  }

  /** The products of the loops are not rounded. */
  lemma ProductInNumbers(w: word, weight: nat)
    requires weight < 32
    ensures Product(w, weight) == SingleValue(w) * weight as real
  {
    hide Short, SingleValue, Round;
    var a, e := ProductIsShort(w, weight);
    ShortExact(SingleValue(w) * weight as real, a, e);
  }

  lemma ProductIs(w: word, weight: nat, x: real)
    requires weight < 32 && x == SingleValue(w) * weight as real
    ensures Product(w, weight) == x
  {
    hide Product;
    ProductInNumbers(w, weight);
  }

  /** int() goes toward zero: it never leaves the sign, and less than one is lost. */
  lemma TruncInNumbers(x: real)
    ensures x >= 0.0 ==> 0.0 <= Trunc(x) as real <= x < Trunc(x) as real + 1.0
    ensures x <= 0.0 ==> Trunc(x) as real - 1.0 < x <= Trunc(x) as real <= 0.0
  {
  }

  /** A step adds, rounds, truncates and reduces. */
  lemma StepInNumbers(s: word, x: real)
    ensures FloatStep(s, x) == Trunc(Round(s as real + x)) % 4294967296
  {
    hide Round, Trunc;
  }

  /** Rounding at 53 bits, ties to even. */
  lemma RoundingInNumbers()
    ensures Round(9007199254740991.0) == 9007199254740991.0 && Round(9007199254740993.0) == 9007199254740992.0
    ensures Round(9007199254740994.0) == 9007199254740994.0 && Round(9007199254740995.0) == 9007199254740996.0
  {
    hide Round, TwoTo;
    OneIsTwoTo();
    TwoToStep(0);
    TwoToStep(1);
    WholeExact(9007199254740991);
    assert DoubleWith(9007199254740992.0, 9007199254740992, 0);
    assert DoubleWith(9007199254740994.0, 4503599627370497, 1);
    assert DoubleWith(9007199254740996.0, 2251799813685249, 2);
    BesideBig(9007199254740992, 1, 9007199254740992, 0);
    RoundExact(9007199254740994.0);
    BesideBig(9007199254740996, -1, 2251799813685249, 2);
  }

  /** A single has a sign bit, eight bits of exponent and 23 of fraction. */
  lemma SingleInNumbers(negative: bool, e: nat, m: nat)
    requires e < 256 && m < 8388608
    ensures var w := (if negative then 2147483648 else 0) + 8388608 * e + m;
            var v := if negative then -SingleValue(w) else SingleValue(w);
            (Finite(w) <==> e < 255)
            && (e == 0 ==> v * Pow2(149) as real == m as real)
            && (e > 0 ==> v * Pow2(150) as real == ((8388608 + m) * Pow2(e)) as real)
  {
    hide SingleValue, Finite, Pow2;
    var w := (if negative then 2147483648 else 0) + 8388608 * e + m;
    Fields(negative, e, m);
    ScaledSingle(w, e, m);
  }

  lemma ScaledSingle(w: word, e: nat, m: nat)
    requires e < 256 && w % 8388608 == m && w / 8388608 % 256 == e
    ensures Finite(w) <==> e != 255
    ensures e == 0 ==> SingleMagnitude(w) * Pow2(149) as real == m as real
    ensures e > 0 ==> SingleMagnitude(w) * Pow2(150) as real == ((8388608 + m) * Pow2(e)) as real
  {
    hide SingleMagnitude, Finite, TwoTo, Pow2;
    SingleForm(w, e, m);
    if e == 0 {
      Pow2Values();
      InUnitsOf(SingleMagnitude(w), m, -149, 0);
    } else {
      InUnitsOf(SingleMagnitude(w), 8388608 + m, e - 150, e);
    }
  }

  lemma SingleForm(w: word, e: nat, m: nat)
    requires w % 8388608 == m && w / 8388608 % 256 == e
    ensures Finite(w) <==> e != 255
    ensures SingleMagnitude(w) == if e == 0 then m as real * TwoTo(-149) else (8388608 + m) as real * TwoTo(e - 150)
  {
    hide TwoTo;
  }

  lemma Fields(negative: bool, e: nat, m: nat)
    requires e < 256 && m < 8388608
    ensures var w := (if negative then 2147483648 else 0) + 8388608 * e + m;
            0 <= w < TWO32 && w % 8388608 == m && w / 8388608 % 256 == e && (w < TWO31 <==> !negative)
  {
    var s := if negative then 256 else 0;
    DivUnique(s * 8388608 + 8388608 * e + m, 8388608, s + e, m);
  }

  function SingleMagnitude(w: word): real {
    if w < TWO31 then SingleValue(w) else -SingleValue(w)
  }

  lemma InUnitsOf(v: real, n: nat, k: int, e: nat)
    requires v == n as real * TwoTo(k) && e >= k
    ensures v * Pow2(e - k) as real == (n * Pow2(e)) as real
  {
    hide TwoTo, Pow2;
    var d, u := Pow2(e - k), TwoTo(k);
    TwoToAdd(k, e - k);
    TwoToAdd(0, e);
    OneIsTwoTo();
    Moved(n as real, u, d as real, v);
    Times(n, Pow2(e));
  }

  lemma Moved(n: real, u: real, d: real, v: real)
    requires v == n * u
    ensures v * d == n * (d * u)
  {
  }

  // ----- the hash

  /** hash32 written with division and multiplication. */
  lemma HashInNumbers(a: word)
    ensures var a1: nat := Xor(Xor(a, 61), a / 65536);
            var a2: nat := 9 * a1 % 4294967296;
            var a3: nat := Xor(a2, a2 / 16);
            var a4: nat := 668265261 * a3 % 4294967296;
            HashOf(a) == Xor(a4, a4 / 32768)
  {
    hide Xor, Shr;
    Pow2Values();
    assert Pow2(15) == 32768;
    ShrDivides(a, 16);
    XorAssoc(a, 61, a / 65536);
    XorComm(61, a / 65536);
    XorAssoc(a, a / 65536, 61);
    XorShiftIsWord(a, 16);
    var a2: word := Scale(Tweak(XorShift(a, 16)), 9);
    ShrDivides(a2, 4);
    XorShiftIsWord(a2, 4);
    var a4: word := Scale(XorShift(a2, 4), MUL);
    ShrDivides(a4, 15);
  }
}
