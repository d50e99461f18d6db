/** Which changes to the integer fields of a replay its checksum notices. The sum of
    these fields passes through the float loops, so this depends on the telemetry. */
module HeaderTamper {
  import opened Bits
  import opened Words
  import opened TwoAdic
  import opened Doubles
  import opened FloatSteps
  import opened ReplayFile
  import opened ReplayChecksum
  import opened ReplayTamper

  // ----- changes to the other integer fields

  /** The integer fields that enter the sum; Ccc and Jc are the two five-entry arrays. */
  datatype Field =
    | Blc | Nctf | FloorSize | FloorShrink | StartSpeed | SpeedIncrease | Gravity | Seed
    | TcPosts | Rejump | Score | Combo | Floor | Ccc(i: nat) | Jc(i: nat)

  predicate Exists(f: Field) {
    (f.Ccc? || f.Jc?) ==> f.i < 5
  }

  function Weight(f: Field): (w: nat)
    requires Exists(f)
    ensures 1 <= w <= 329
  {
    match f
    case Blc => 34
    case Nctf => 254
    case FloorSize => 17
    case FloorShrink => 102
    case StartSpeed => 163
    case SpeedIncrease => 23
    case Gravity => 88
    case Seed => 329
    case TcPosts => 127
    case Rejump => 13
    case Score => 17
    case Combo => 73
    case Floor => 113
    case Ccc(i) => 39 + 3 * i
    case Jc(i) => 27 + 3 * i
  }

  function Get(r: Replay, f: Field): int32
    requires Shaped(r) && Exists(f)
  {
    match f
    case Blc => r.blc
    case Nctf => r.nctf
    case FloorSize => r.floorSize
    case FloorShrink => r.floorShrink
    case StartSpeed => r.startSpeed
    case SpeedIncrease => r.speedIncrease
    case Gravity => r.gravity
    case Seed => r.seed
    case TcPosts => r.tcPosts
    case Rejump => r.rejump
    case Score => r.score
    case Combo => r.combo
    case Floor => r.floor
    case Ccc(i) => r.ccc[i]
    case Jc(i) => r.jc[i]
  }

  function With(r: Replay, f: Field, v: int32): (q: Replay)
    requires Shaped(r) && Exists(f)
    ensures Shaped(q) && q.cols == r.cols && q.records == r.records
    ensures q.name == r.name && q.date == r.date && q.comment == r.comment
  {
    match f
    case Blc => r.(blc := v)
    case Nctf => r.(nctf := v)
    case FloorSize => r.(floorSize := v)
    case FloorShrink => r.(floorShrink := v)
    case StartSpeed => r.(startSpeed := v)
    case SpeedIncrease => r.(speedIncrease := v)
    case Gravity => r.(gravity := v)
    case Seed => r.(seed := v)
    case TcPosts => r.(tcPosts := v)
    case Rejump => r.(rejump := v)
    case Score => r.(score := v)
    case Combo => r.(combo := v)
    case Floor => r.(floor := v)
    case Ccc(i) => r.(ccc := r.ccc[i := v])
    case Jc(i) => r.(jc := r.jc[i := v])
  }

  function IntegerTotal(r: Replay): int
    requires Shaped(r)
  {
    IntTotal(r) + ArrayTotal(r.ccc, r.jc, 5)
  }

  lemma ArrayTotalOfFive(c: seq<int32>, j: seq<int32>)
    requires |c| == |j| == 5
    ensures ArrayTotal(c, j, 5)
            == c[0] as int * 39 + j[0] as int * 27 + c[1] as int * 42 + j[1] as int * 30
               + c[2] as int * 45 + j[2] as int * 33 + c[3] as int * 48 + j[3] as int * 36
               + c[4] as int * 51 + j[4] as int * 39
  {
    hide ArrayTotal;
    SumStarts(0, c, j, [], [], []);
    ArrayStep(c, j, 0);
    ArrayStep(c, j, 1);
    ArrayStep(c, j, 2);
    ArrayStep(c, j, 3);
    ArrayStep(c, j, 4);
  }

  lemma ScalarTerm(r: Replay, f: Field, v: int32)
    requires Shaped(r) && f in {Blc, Nctf, FloorSize, FloorShrink, StartSpeed, SpeedIncrease, Gravity}
    ensures var q := With(r, f, v);
            IntTotal(q) - IntTotal(r) == Weight(f) * (v - Get(r, f)) && q.ccc == r.ccc && q.jc == r.jc
  {
    hide IntTotal, Shaped;
    var q := With(r, f, v);
    IntTotalForm(r);
    IntTotalForm(q);
    match f
    case Blc => assert Weight(f) == 34;
    case Nctf => assert Weight(f) == 254;
    case FloorSize => assert Weight(f) == 17;
    case FloorShrink => assert Weight(f) == 102;
    case StartSpeed => assert Weight(f) == 163;
    case SpeedIncrease => assert Weight(f) == 23;
    case Gravity => assert Weight(f) == 88;
  }

  lemma MoreScalarTerm(r: Replay, f: Field, v: int32)
    requires Shaped(r) && f in {Seed, TcPosts, Rejump, Score, Combo, Floor}
    ensures var q := With(r, f, v);
            IntTotal(q) - IntTotal(r) == Weight(f) * (v - Get(r, f)) && q.ccc == r.ccc && q.jc == r.jc
  {
    hide IntTotal, Shaped;
    var q := With(r, f, v);
    IntTotalForm(r);
    IntTotalForm(q);
    match f
    case Seed => assert Weight(f) == 329;
    case TcPosts => assert Weight(f) == 127;
    case Rejump => assert Weight(f) == 13;
    case Score => assert Weight(f) == 17;
    case Combo => assert Weight(f) == 73;
    case Floor => assert Weight(f) == 113;
  }

  lemma ArrayTerm(r: Replay, f: Field, v: int32)
    requires Shaped(r) && Exists(f) && (f.Ccc? || f.Jc?)
    ensures var q := With(r, f, v);
            ArrayTotal(q.ccc, q.jc, 5) - ArrayTotal(r.ccc, r.jc, 5) == Weight(f) * (v - Get(r, f))
            && IntTotal(q) == IntTotal(r)
  {
    hide ArrayTotal, IntTotal;
    var q := With(r, f, v);
    IntTotalForm(r);
    IntTotalForm(q);
    ArrayTotalOfFive(r.ccc, r.jc);
    ArrayTotalOfFive(q.ccc, q.jc);
    if f.i == 0 {
      assert Weight(f) == if f.Ccc? then 39 else 27;
    } else if f.i == 1 {
      assert Weight(f) == if f.Ccc? then 42 else 30;
    } else if f.i == 2 {
      assert Weight(f) == if f.Ccc? then 45 else 33;
    } else if f.i == 3 {
      assert Weight(f) == if f.Ccc? then 48 else 36;
    } else {
      assert Weight(f) == if f.Ccc? then 51 else 39;
    }
  }

  lemma FieldTerm(r: Replay, f: Field, v: int32)
    requires Shaped(r) && Exists(f)
    ensures IntegerTotal(With(r, f, v)) - IntegerTotal(r) == Weight(f) * (v - Get(r, f))
  {
    hide ArrayTotal, IntTotal, With, Get, Weight;
    if f.Ccc? || f.Jc? {
      ArrayTerm(r, f, v);
    } else if f in {Seed, TcPosts, Rejump, Score, Combo, Floor} {
      MoreScalarTerm(r, f, v);
    } else {
      ScalarTerm(r, f, v);
    }
  }

  // ----- the float loops as one map on words

  lemma TelemetryIsShort(r: Replay, k: nat) returns (a: int, e: int)
    requires Shaped(r) && k < 300
    ensures Short(Telemetry(r, k), a, e)
  {
    hide Short, Product, FloatWeight;
    a, e := ProductRounds(StoredFloat(r, k), FloatWeight(k));
  }

  lemma ProductRounds(w: word, weight: nat) returns (a: int, e: int)
    requires weight < 32
    ensures Short(Product(w, weight), a, e)
  {
    hide Short, SingleValue, Round;
    a, e := ProductIsShort(w, weight);
    ShortExact(SingleValue(w) * weight as real, a, e);
  }

  /** No step of the float loops makes two words collide. */
  predicate TelemetryKeeps(r: Replay)
    requires Shaped(r)
  {
    KeepsTo(r, 300)
  }

  predicate KeepsTo(r: Replay, n: nat)
    requires Shaped(r) && n <= 300
  {
    forall k :: 0 <= k < n ==> Keeps(Telemetry(r, k))
  }

  /** What the first n steps add if they keep words apart. */
  function FloatTotal(r: Replay, n: nat): int
    requires Shaped(r) && n <= 300
  {
    if n == 0 then 0 else FloatTotal(r, n - 1) + Trunc(Telemetry(r, n - 1))
  }

  lemma {:induction false} FloatFoldShifts(s: word, r: Replay, n: nat)
    requires Shaped(r) && n <= 300 && KeepsTo(r, n)
    ensures FloatFold(s, r, n) == (s + FloatTotal(r, n)) % TWO32
  {
    hide FloatStep, Telemetry, Keeps, Short, Trunc;
    if n > 0 {
      FloatFoldShifts(s, r, n - 1);
      var x := Telemetry(r, n - 1);
      var a, e := TelemetryIsShort(r, n - 1);
      StepShifts(FloatFold(s, r, n - 1), x, a, e);
      RemainderChain(s + FloatTotal(r, n - 1), Trunc(x));
    }
  }

  lemma RemainderChain(a: int, b: int)
    ensures (a % TWO32 + b) % TWO32 == (a + b) % TWO32
  {
  }

  /** Behind a step that makes two words collide, the loops make two words collide. */
  lemma {:induction false} FoldCollides(r: Replay, n: nat) returns (s: word, t: word)
    requires Shaped(r) && n <= 300 && !KeepsTo(r, n)
    ensures s != t && FloatFold(s, r, n) == FloatFold(t, r, n)
  {
    hide FloatStep, Telemetry, Keeps, Short;
    if !KeepsTo(r, n - 1) {
      s, t := FoldCollides(r, n - 1);
    } else {
      var a, e := TelemetryIsShort(r, n - 1);
      var u, v := StepCollides(Telemetry(r, n - 1), a, e);
      s := Unshifted(u, FloatTotal(r, n - 1));
      t := Unshifted(v, FloatTotal(r, n - 1));
      FloatFoldShifts(s, r, n - 1);
      FloatFoldShifts(t, r, n - 1);
    }
  }

  lemma Unshifted(u: word, c: int) returns (s: word)
    ensures (s + c) % TWO32 == u
  {
    s := (u - c) % TWO32;
    RemainderChain(u - c, c);
  }

  // ----- what the checksum notices

  /** The sum of the integer fields, as it enters the float loops. */
  function Entering(r: Replay): word
    requires Shaped(r)
  {
    IntegerTotal(r) % TWO32
  }

  /** Replays that differ in integer fields only share a checksum exactly when the
      float loops take their sums to the same word. */
  lemma FieldsDecide(r: Replay, q: Replay)
    requires Shaped(r) && Shaped(q) && q.cols == r.cols && q.records == r.records
    requires q.name == r.name && q.date == r.date && q.comment == r.comment
    ensures Checksum(q) == Checksum(r) <==> FloatFold(Entering(q), r, 300) == FloatFold(Entering(r), r, 300)
  {
    hide IntTotal, ArrayTotal, FloatFold, TextTotal, CommentTotal, RecordTotal, Checksum;
    SameChecksum(r, q);
    SameFold(Entering(q), q, r, 300);
    var rest := TextTotal(r.name, r.date, 32) + CommentTotal(r.comment, 42) + RecordTotal(r.records, |r.records|);
    SameShift(FloatFold(Entering(q), r, 300), FloatFold(Entering(r), r, 300), rest);
  }

  lemma SameShift(s: word, t: word, c: int)
    ensures (s + c) % TWO32 == (t + c) % TWO32 <==> s == t
  {
    if (s + c) % TWO32 == (t + c) % TWO32 { ConstantKeepsApart(s, t, c); }
  }

  /** The whole checksum before hashing as one unreduced sum. */
  function GrandTotal(r: Replay): int
    requires Shaped(r)
  {
    IntegerTotal(r) + FloatTotal(r, 300) + TextTotal(r.name, r.date, 32)
    + CommentTotal(r.comment, 42) + RecordTotal(r.records, |r.records|)
  }

  /** Masking after every addition is masking the grand total once. */
  lemma AccumulatorClosed(r: Replay)
    requires Shaped(r) && TelemetryKeeps(r)
    ensures Accumulator(r) == GrandTotal(r) % TWO32
  {
    hide IntTotal, ArrayTotal, FloatFold, FloatTotal, TextTotal, CommentTotal, RecordTotal, KeepsTo;
    FloatFoldShifts(Entering(r), r, 300);
  }

  /** A changed integer field goes unnoticed exactly when the change is a multiple
      of 2^32 divided by the twos in the field's weight. */
  lemma FieldChange(r: Replay, f: Field, v: int32)
    requires Shaped(r) && TelemetryKeeps(r) && Exists(f)
    ensures Checksum(With(r, f, v)) == Checksum(r)
            <==> (v - Get(r, f)) % Pow2(32 - WeightTwos(f)) == 0
  {
    hide IntegerTotal, FloatTotal, FloatFold, Checksum, KeepsTo;
    hide With, Get, Weight, Val2, Pow2;
    var q := With(r, f, v);
    FieldsDecide(r, q);
    FloatFoldShifts(Entering(q), r, 300);
    FloatFoldShifts(Entering(r), r, 300);
    SameShift(Entering(q), Entering(r), FloatTotal(r, 300));
    FieldTerm(r, f, v);
    SameRemainder(IntegerTotal(q), IntegerTotal(r), TWO32);
    assert Pow2(32) == TWO32 by { Pow2Values(); }
    var twos := WeightTwos(f);
    ScaledMultiple(Weight(f), v - Get(r, f), 32);
  }

  function WeightTwos(f: Field): (v: nat)
    requires Exists(f)
    ensures v == Val2(Weight(f)) && v <= 8
  {
    Val2Bound(Weight(f));
    Pow2Values();
    var v := Val2(Weight(f));
    assert v <= 8 by { if v > 8 { Pow2AtLeast(9, v); } }
    v
  }

  /** The nine fields of odd weight. */
  predicate Odd(f: Field) {
    f in {Score, Combo, Floor, Seed, FloorSize, StartSpeed, SpeedIncrease, TcPosts, Rejump}
  }

  lemma OddFieldChange(r: Replay, f: Field, v: int32)
    requires Shaped(r) && TelemetryKeeps(r) && Odd(f)
    ensures Checksum(With(r, f, v)) == Checksum(r) <==> v == Get(r, f)
  {
    hide Checksum, With, Get, KeepsTo;
    assert Val2(Weight(f)) == 0;
    FieldChange(r, f, v);
    Pow2Values();
    SmallNotMultiple(v - Get(r, f), TWO32);
  }

  /** Every two values of a field of odd weight give different checksums. */
  ghost predicate AllNoticed(r: Replay, f: Field)
    requires Shaped(r) && Odd(f)
  {
    forall v: int32, w: int32 :: Checksum(With(r, f, v)) == Checksum(With(r, f, w)) ==> v == w
  }

  /** The test on the stored telemetry decides whether a field of odd weight can be
      changed unnoticed. */
  lemma OddFieldExact(r: Replay, f: Field)
    requires Shaped(r) && Odd(f)
    ensures AllNoticed(r, f) <==> TelemetryKeeps(r)
  {
    hide Checksum, With, KeepsTo;
    if TelemetryKeeps(r) {
      forall v: int32, w: int32 | Checksum(With(r, f, v)) == Checksum(With(r, f, w))
        ensures v == w
      {
        TwoValues(r, f, v, w);
      }
    } else {
      var v, w := HiddenChange(r, f);
    }
  }

  lemma WithTwice(r: Replay, f: Field, v: int32, w: int32)
    requires Shaped(r) && Exists(f)
    ensures With(With(r, f, v), f, w) == With(r, f, w) && Get(With(r, f, v), f) == v
  {
    if f.Ccc? { assert r.ccc[f.i := v][f.i := w] == r.ccc[f.i := w]; }
    if f.Jc? { assert r.jc[f.i := v][f.i := w] == r.jc[f.i := w]; }
  }

  lemma SameKeeps(r: Replay, q: Replay, n: nat)
    requires Shaped(r) && Shaped(q) && r.cols == q.cols && n <= 300 && KeepsTo(r, n)
    ensures KeepsTo(q, n)
  {
    hide Keeps, Telemetry;
    forall k | 0 <= k < n
      ensures Keeps(Telemetry(q, k))
    {
      SameTelemetry(r, q, k);
    }
  }

  lemma TwoValues(r: Replay, f: Field, v: int32, w: int32)
    requires Shaped(r) && Odd(f) && TelemetryKeeps(r)
    requires Checksum(With(r, f, v)) == Checksum(With(r, f, w))
    ensures v == w
  {
    hide Checksum, With, Get, KeepsTo;
    var q := With(r, f, w);
    WithTwice(r, f, w, v);
    SameKeeps(r, q, 300);
    OddFieldChange(q, f, v);
  }

  /** Where the test fails, two values of the field share a checksum. */
  lemma HiddenChange(r: Replay, f: Field) returns (v: int32, w: int32)
    requires Shaped(r) && Odd(f) && !TelemetryKeeps(r)
    ensures v != w && Checksum(With(r, f, v)) == Checksum(With(r, f, w))
  {
    hide Checksum, With, Get, KeepsTo, FloatFold, Weight, IntegerTotal;
    var s, t := FoldCollides(r, 300);
    v := Reaching(r, f, s);
    w := Reaching(r, f, t);
    var p, q := With(r, f, v), With(r, f, w);
    FieldsDecide(p, q);
    SameFold(s, p, r, 300);
    SameFold(t, p, r, 300);
  }

  /** A field of odd weight can be set so that any given sum enters the float loops. */
  lemma Reaching(r: Replay, f: Field, s: word) returns (v: int32)
    requires Shaped(r) && Odd(f)
    ensures Entering(With(r, f, v)) == s
  {
    hide With, Get, Weight, IntegerTotal;
    var c, k := Inverse(f);
    var total := IntegerTotal(r);
    var d := c * (s - total);
    v := Signed((Get(r, f) + d) % TWO32);
    FieldTerm(r, f, v);
    Solved(Weight(f), c, k, s, total, Get(r, f), v);
  }

  /** The inverses of the odd weights modulo 2^32. */
  lemma Inverse(f: Field) returns (c: nat, k: nat)
    requires Odd(f)
    ensures Weight(f) * c == k * TWO32 + 1
  {
    match f
    case Score => c, k := 4042322161, 16;
    case FloorSize => c, k := 4042322161, 16;
    case Combo => c, k := 3353604601, 57;
    case Floor => c, k := 266059921, 7;
    case Seed => c, k := 248037625, 19;
    case StartSpeed => c, k := 1159377675, 44;
    case SpeedIncrease => c, k := 3921491879, 21;
    case TcPosts => c, k := 4024418175, 119;
    case Rejump => c, k := 3303820997, 10;
  }

  lemma Solved(w: nat, c: nat, k: nat, s: word, total: int, was: int, v: int32)
    requires w * c == k * TWO32 + 1 && v == Signed((was + c * (s - total)) % TWO32)
    ensures (total + w * (v - was)) % TWO32 == s
  {
    var e := s - total;
    var x := was + c * e;
    var m := SignedOff(x, v);
    assert v - was == c * e + m * TWO32;
    assert w * (v - was) == w * (c * e) + w * (m * TWO32);
    assert w * (c * e) == (w * c) * e;
    assert (w * c) * e == k * TWO32 * e + e;
    assert total + w * (v - was) == (k * e + w * m) * TWO32 + s;
    DivUnique(total + w * (v - was), TWO32, k * e + w * m, s);
  }

  lemma SignedOff(x: int, v: int32) returns (m: int)
    requires v == Signed(x % TWO32)
    ensures v == x + m * TWO32
  {
    m := -(x / TWO32) - (if x % TWO32 < TWO31 then 0 else 1);
  }

  // ----- two replays that fail the test

  function Zeros(n: nat): (s: seq<int>)
    ensures |s| == n && forall i :: 0 <= i < n ==> s[i] == 0
  {
    seq(n, _ => 0)
  }

  /** A replay without records, all zero but for one float and a field that brings the
      sum of the integer fields to zero. */
  function Specimen(first: word): (r: Replay)
    ensures Shaped(r) && r.records == [] && r.score == 0
  {
    var col := Zeros(100);
    Replay(Zeros(6), 0, Zeros(32), Zeros(32), 0, 0, 0, 0, 0, Zeros(5), Zeros(5), 0, 0, 0, 0, 0, -303, 0,
           Zeros(42), 0, 0, [col[0 := first], col, col, col, col], [], 0)
  }

  lemma SpecimenSum(first: word)
    ensures IntegerTotal(Specimen(first)) == 0
    ensures Telemetry(Specimen(first), 0) == Product(first, 1)
  {
    hide Product, ArrayTotal, IntTotal;
    var r := Specimen(first);
    IntTotalForm(r);
    ArrayTotalOfFive(r.ccc, r.jc);
  }

  /** Once the float loops have made two words equal they stay equal. */
  lemma {:induction false} FoldStaysEqual(s: word, t: word, r: Replay, n: nat)
    requires Shaped(r) && 1 <= n <= 300 && FloatStep(s, Telemetry(r, 0)) == FloatStep(t, Telemetry(r, 0))
    ensures FloatFold(s, r, n) == FloatFold(t, r, n)
  {
    hide FloatStep, Telemetry;
    if n > 1 { FoldStaysEqual(s, t, r, n - 1); }
  }

  lemma SpecimenHides(first: word, v: int32)
    requires FloatStep(0, Product(first, 1)) == FloatStep(17 * v % TWO32, Product(first, 1))
    ensures var r := Specimen(first);
            Checksum(With(r, Score, v)) == Checksum(r)
  {
    hide Checksum, FloatStep, Product, FloatFold, Telemetry, With, IntegerTotal;
    var r := Specimen(first);
    var q := With(r, Score, v);
    assert Get(r, Score) == 0;
    SpecimenSum(first);
    FieldTerm(r, Score, v);
    FieldsDecide(r, q);
    FoldStaysEqual(Entering(r), Entering(q), r, 300);
  }

  /** A negative fraction: with -0.5 as its first float, a replay keeps its checksum
      when the score changes from 0 to -252645135. */
  lemma NegativeTelemetryHides()
    ensures var r := Specimen(0xBF00_0000);
            Checksum(With(r, Score, -252645135)) == Checksum(r) && SingleValue(0xBF00_0000) == -0.5
  {
    hide Checksum, Round, TwoTo, IntOf;
    FirstProduct(0xBF00_0000, 0x80_0000);
    var x := Product(0xBF00_0000, 1);
    TwoToStep(-1);
    OneIsTwoTo();
    assert DoubleWith(0.5, 1, -1);
    RoundExact(0.5);
    NegativeCollides(x, -0x80_0000, -24);
    SpecimenHides(0xBF00_0000, -252645135);
  }

  /** A positive fraction that rounding carries: with the largest single below 1 as
      its first float, a replay keeps its checksum when the score changes from 0 to
      252645135. */
  lemma RoundingHides()
    ensures var r := Specimen(0x3F7F_FFFF);
            Checksum(With(r, Score, 252645135)) == Checksum(r) && SingleValue(0x3F7F_FFFF) < 1.0
  {
    hide Checksum, Round, TwoTo, IntOf, Exp;
    FirstProduct(0x3F7F_FFFF, 0xFF_FFFF);
    Carried(Product(0x3F7F_FFFF, 1));
    SpecimenHides(0x3F7F_FFFF, 252645135);
  }

  lemma Carried(x: real)
    requires Short(x, 0xFF_FFFF, -24) && x * 0x100_0000 as real == 0xFF_FFFF as real
    ensures FloatStep(0, x) == FloatStep(TOP, x)
  {
    hide Round, TwoTo, IntOf, Exp;
    PositiveStep(TOP, x);
    PositiveCollides(x, 0xFF_FFFF, -24);
  }

  /** A single with exponent -24 in its last place. */
  lemma FirstProduct(w: word, m: int)
    requires w / 0x80_0000 % 0x100 == 126 && m == w % 0x80_0000 + 0x80_0000
    ensures var n := if w < TWO31 then m else -m;
            SingleValue(w) * 0x100_0000 as real == n as real && Short(SingleValue(w), n, -24)
    ensures Product(w, 1) == SingleValue(w)
  {
    hide Round, TwoTo, SingleValue;
    var n := if w < TWO31 then m else -m;
    SingleInUnits(w, m, n);
    InUnitsOf24(SingleValue(w), n, TwoTo(-24));
    ShortExact(SingleValue(w), n, -24);
  }

  lemma SingleInUnits(w: word, m: int, n: int)
    requires w / 0x80_0000 % 0x100 == 126 && m == w % 0x80_0000 + 0x80_0000 && n == if w < TWO31 then m else -m
    ensures SingleValue(w) == n as real * TwoTo(-24)
  {
    hide TwoTo;
    Negated(m, TwoTo(-24));
  }

  lemma InUnitsOf24(x: real, n: int, u: real)
    requires x == n as real * u && u == TwoTo(-24)
    ensures x * 0x100_0000 as real == n as real
  {
    hide TwoTo, Pow2;
    Pow2Values();
    var c := UnitsOfOne(-24);
    Cancelled(n as real, u, 0x100_0000 as real, x);
  }
}
