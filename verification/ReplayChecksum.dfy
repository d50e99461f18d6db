/** checksum of scripts/itr_real_files_check.py: integer sums reduced modulo 2^32, and
    float loops that round like Python's doubles. */
module ReplayChecksum {
  import opened Bits
  import opened Words
  import opened Hash
  import opened ReplayFile
  import opened Doubles
  import opened FloatSteps
  import opened Wrappers

  /** int() of an infinity or a NaN raises. */
  datatype ChecksumError = NotFinite

  /** What `x & M` computes (Words.WordForm), on integers of either sign. */
  function Masked(x: int): word {
    x % TWO32
  }

  function SByte(b: byte): int {
    if b > 127 then b - 256 else b
  }

  // ----- the sums, without reduction

  function IntTotal(r: Replay): int {
    3702 + (r.blc + 1) * 34 + r.nctf * 254 + r.floorSize * 17 + r.floorShrink * 102
    + r.startSpeed * 163 + r.speedIncrease * 23 + r.gravity * 88 + r.seed * 329 + r.tcPosts * 127
    + r.rejump * 13 + (r.score + 1) * 17 + (r.combo + 1) * 73 + (r.floor + 1) * 113
  }

  function ArrayTotal(ccc: seq<int32>, jc: seq<int32>, n: nat): int
    requires n <= |ccc| && n <= |jc|
  {
    if n == 0 then 0
    else ArrayTotal(ccc, jc, n - 1) + ccc[n - 1] as int * (39 + 3 * (n - 1)) + jc[n - 1] as int * (27 + 3 * (n - 1))
  }

  function TextTotal(name: seq<byte>, date: seq<byte>, n: nat): int
    requires n <= |name| && n <= |date|
  {
    if n == 0 then 0
    else
      var i := n - 1;
      TextTotal(name, date, i) + (SByte(name[i]) + i) * (SByte(date[i]) + i) * (17 * n)
  }

  function CommentTotal(comment: seq<byte>, n: nat): int
    requires n <= |comment|
  {
    if n == 0 then 0
    else
      var i := n - 1;
      CommentTotal(comment, i) + (SByte(comment[i]) + i) * (SByte(comment[i]) + i) * (3 * i - 3)
  }

  function KeyWeight(i: nat): (w: nat)
    ensures 1 <= w <= 193
  {
    i % 193 + 1
  }

  function CycleWeight(i: nat): (w: nat)
    ensures 1 <= w <= 167
  {
    i % 167 + 1
  }

  function RecordTerm(x: Record, i: nat): int {
    x.kf as int * 3 * KeyWeight(i) + x.cc as int * 7 * CycleWeight(i)
  }

  function RecordTotal(rs: seq<Record>, n: nat): int
    requires n <= |rs|
  {
    if n == 0 then 0 else RecordTotal(rs, n - 1) + RecordTerm(rs[n - 1], n - 1)
  }

  // ----- the float loops: 300 steps, over three columns in turn

  function FloatWeight(k: nat): (w: nat)
    ensures w < 23
  {
    if k % 3 == 0 then (k / 3 + 1) % 13 else if k % 3 == 1 then (k / 3 + 7) % 17 else (k / 3 + 9) % 23
  }

  function StoredFloat(r: Replay, k: nat): word
    requires Shaped(r) && k < 300
  {
    r.cols[k % 3][k / 3]
  }

  /** A stored single times its weight, as a double. */
  function Product(w: word, weight: nat): real {
    Round(SingleValue(w) * weight as real)
  }

  /** What step k adds. */
  function Telemetry(r: Replay, k: nat): real
    requires Shaped(r) && k < 300
  {
    Product(StoredFloat(r, k), FloatWeight(k))
  }

  predicate AllFinite(r: Replay)
    requires Shaped(r)
  {
    forall k :: 0 <= k < 300 ==> Finite(StoredFloat(r, k))
  }

  /** The sum s after the first n steps. */
  function FloatFold(s: word, r: Replay, n: nat): word
    requires Shaped(r) && n <= 300
  {
    if n == 0 then s else FloatStep(FloatFold(s, r, n - 1), Telemetry(r, n - 1))
  }

  /** The accumulator before hashing. */
  function Accumulator(r: Replay): word
    requires Shaped(r)
  {
    var s := Masked(IntTotal(r) + ArrayTotal(r.ccc, r.jc, 5));
    Masked(FloatFold(s, r, 300) + TextTotal(r.name, r.date, 32) + CommentTotal(r.comment, 42)
           + RecordTotal(r.records, |r.records|))
  }

  function Checksum(r: Replay): int32
    requires Shaped(r)
  {
    Signed(HashOf(Accumulator(r)))
  }

  // ----- the method

  method AddArrays(s0: word, ccc: seq<int32>, jc: seq<int32>) returns (s: word)
    requires |ccc| == |jc| == 5
    ensures s == Masked(s0 + ArrayTotal(ccc, jc, 5))
  {
    hide ArrayTotal, Masked, And;
    s := s0;
    SumStarts(s0, ccc, jc, [], [], []);
    for i := 0 to 5
      invariant s == Masked(s0 + ArrayTotal(ccc, jc, i))
    {
      ArrayStep(ccc, jc, i);
      MaskedAnd(s0 + ArrayTotal(ccc, jc, i), ccc[i] as int * (39 + 3 * i) + jc[i] as int * (27 + 3 * i));
      s := And(s + ccc[i] as int * (39 + 3 * i) + jc[i] as int * (27 + 3 * i), 0xFFFF_FFFF);
    }
  }

  /** int(s + c[i] * weight) & M */
  method AddProduct(s: word, w: word, weight: nat) returns (sum: Result<word, ChecksumError>)
    ensures sum == if Finite(w) then Ok(FloatStep(s, Product(w, weight))) else Err(NotFinite)
  {
    hide Round, Trunc, SingleValue, And;
    if !Finite(w) {
      return Err(NotFinite);
    }
    var product := Round(SingleValue(w) * weight as real);
    WordForm(Trunc(Round(s as real + product)));
    return Ok(And(Trunc(Round(s as real + product)), 0xFFFF_FFFF));
  }

  method AddFloats(s0: word, r: Replay) returns (sum: Result<word, ChecksumError>)
    requires Shaped(r)
    ensures sum == if AllFinite(r) then Ok(FloatFold(s0, r, 300)) else Err(NotFinite)
  {
    hide FloatFold, FloatStep, FloatWeight, Telemetry, Finite, Product;
    var s := s0;
    var c, q, t := r.cols[0], r.cols[1], r.cols[2];
    FloatFoldStart(s0, r);
    for i := 0 to 100
      invariant s == FloatFold(s0, r, 3 * i)
      invariant FiniteTo(r, 3 * i)
    {
      ThreeSteps(s0, r, i);
      ThreeFinite(r, i);
      s :- AddProduct(s, c[i], (i + 1) % 13);
      s :- AddProduct(s, q[i], (i + 7) % 17);
      s :- AddProduct(s, t[i], (i + 9) % 23);
    }
    assert AllFinite(r);
    return Ok(s);
  }

  method AddText(s0: word, name: seq<byte>, date: seq<byte>) returns (s: word)
    requires |name| == |date| == 32
    ensures s == Masked(s0 + TextTotal(name, date, 32))
  {
    hide TextTotal, Masked, SByte, And;
    s := s0;
    SumStarts(s0, [], [], name, date, []);
    var mult := 0x11;
    for i := 0 to 32
      invariant mult == 17 * (i + 1) && s == Masked(s0 + TextTotal(name, date, i))
    {
      TextStep(name, date, i);
      MaskedAnd(s0 + TextTotal(name, date, i), (SByte(name[i]) + i) * (SByte(date[i]) + i) * mult);
      s := And(s + (SByte(name[i]) + i) * (SByte(date[i]) + i) * mult, 0xFFFF_FFFF);
      mult := mult + 0x11;
    }
  }

  method AddComment(s0: word, comment: seq<byte>) returns (s: word)
    requires |comment| == 42
    ensures s == Masked(s0 + CommentTotal(comment, 42))
  {
    hide CommentTotal, Masked, SByte, And;
    s := s0;
    SumStarts(s0, [], [], comment, [], []);
    var mult := -3;
    for i := 0 to 42
      invariant mult == 3 * i - 3 && s == Masked(s0 + CommentTotal(comment, i))
    {
      var v := SByte(comment[i]) + i;
      CommentStep(comment, i);
      MaskedAnd(s0 + CommentTotal(comment, i), v * v * mult);
      s := And(s + v * v * mult, 0xFFFF_FFFF);
      mult := mult + 3;
    }
  }

  method AddRecords(s0: word, records: seq<Record>) returns (s: word)
    ensures s == Masked(s0 + RecordTotal(records, |records|))
  {
    hide RecordTotal, RecordTerm, Masked, And;
    s := s0;
    SumStarts(s0, [], [], [], [], records);
    for i := 0 to |records|
      invariant s == Masked(s0 + RecordTotal(records, i))
    {
      var (kf, cc) := (records[i].kf, records[i].cc);
      RecordStep(records, i);
      MaskedAnd(s0 + RecordTotal(records, i), RecordTerm(records[i], i));
      s := And(s + kf as int * 3 * (i % 193 + 1) + cc as int * 7 * (i % 167 + 1), 0xFFFF_FFFF);
    }
  }

  method ChecksumOf(r: Replay) returns (sum: Result<int, ChecksumError>)
    requires Shaped(r)
    ensures sum == if AllFinite(r) then Ok(Checksum(r)) else Err(NotFinite)
  {
    hide Accumulator, Checksum, IntTotal, ArrayTotal, FloatFold, TextTotal, CommentTotal, RecordTotal;
    hide HashOf, Signed, And, AllFinite;
    IntTotalForm(r);
    WordForm(IntTotal(r));
    var s0 := And(3702
                  + (r.blc + 1) * 34
                  + r.nctf * 254
                  + r.floorSize * 17
                  + r.floorShrink * 102
                  + r.startSpeed * 163
                  + r.speedIncrease * 23
                  + r.gravity * 88
                  + r.seed * 329
                  + r.tcPosts * 127
                  + r.rejump * 13
                  + (r.score + 1) * 17
                  + (r.combo + 1) * 73
                  + (r.floor + 1) * 113, 0xFFFF_FFFF);
    var s1 := AddArrays(s0, r.ccc, r.jc);
    var s2 :- AddFloats(s1, r);
    var s3 := AddText(s2, r.name, r.date);
    var s4 := AddComment(s3, r.comment);
    var s := AddRecords(s4, r.records);
    AccumulatorForm(r, s0, s1, s2, s3, s4);
    var h := Hash32(s);
    var v := S32(h);
    return Ok(v);
  }

  // What one round of each loop adds.

  lemma SumStarts(s: word, ccc: seq<int32>, jc: seq<int32>, name: seq<byte>, date: seq<byte>, rs: seq<Record>)
    ensures ArrayTotal(ccc, jc, 0) == TextTotal(name, date, 0) == CommentTotal(name, 0) == 0
    ensures RecordTotal(rs, 0) == 0
    ensures Masked(s) == s
  {
  }

  lemma FloatFoldStart(s: word, r: Replay)
    requires Shaped(r)
    ensures FloatFold(s, r, 0) == s
  {
  }

  lemma IntTotalForm(r: Replay)
    ensures IntTotal(r)
            == 3702 + (r.blc + 1) * 34 + r.nctf * 254 + r.floorSize * 17 + r.floorShrink * 102
               + r.startSpeed * 163 + r.speedIncrease * 23 + r.gravity * 88 + r.seed * 329 + r.tcPosts * 127
               + r.rejump * 13 + (r.score + 1) * 17 + (r.combo + 1) * 73 + (r.floor + 1) * 113
  {
  }

  lemma MaskedAnd(total: int, term: int)
    ensures And(Masked(total) + term, 0xFFFF_FFFF) == Masked(total + term)
  {
    hide And;
    WordForm(Masked(total) + term);
  }

  lemma MaskedAdd(total: int, term: int)
    ensures Masked(Masked(total) + term) == Masked(total + term)
  {
  }

  lemma ArrayStep(ccc: seq<int32>, jc: seq<int32>, i: nat)
    requires i < |ccc| && i < |jc|
    ensures ArrayTotal(ccc, jc, i + 1)
            == ArrayTotal(ccc, jc, i) + (ccc[i] as int * (39 + 3 * i) + jc[i] as int * (27 + 3 * i))
  {
  }

  /** The three steps of row i. */
  lemma ThreeSteps(s: word, r: Replay, i: nat)
    requires Shaped(r) && i < 100
    ensures FloatFold(s, r, 3 * i + 3)
            == (var s1 := FloatStep(FloatFold(s, r, 3 * i), Product(r.cols[0][i], (i + 1) % 13));
                var s2 := FloatStep(s1, Product(r.cols[1][i], (i + 7) % 17));
                FloatStep(s2, Product(r.cols[2][i], (i + 9) % 23)))
  {
    hide FloatStep, Product;
    ThreeFloats(r, i);
    assert FloatFold(s, r, 3 * i + 1) == FloatStep(FloatFold(s, r, 3 * i), Telemetry(r, 3 * i));
    assert FloatFold(s, r, 3 * i + 2) == FloatStep(FloatFold(s, r, 3 * i + 1), Telemetry(r, 3 * i + 1));
  }

  lemma ThreeFloats(r: Replay, i: nat)
    requires Shaped(r) && i < 100
    ensures StoredFloat(r, 3 * i) == r.cols[0][i] && FloatWeight(3 * i) == (i + 1) % 13
    ensures StoredFloat(r, 3 * i + 1) == r.cols[1][i] && FloatWeight(3 * i + 1) == (i + 7) % 17
    ensures StoredFloat(r, 3 * i + 2) == r.cols[2][i] && FloatWeight(3 * i + 2) == (i + 9) % 23
  {
  }

  lemma ThreeFinite(r: Replay, i: nat)
    requires Shaped(r) && i < 100
    ensures AllFinite(r) ==> Finite(r.cols[0][i]) && Finite(r.cols[1][i]) && Finite(r.cols[2][i])
    ensures FiniteTo(r, 3 * i) && Finite(r.cols[0][i]) && Finite(r.cols[1][i]) && Finite(r.cols[2][i])
            ==> FiniteTo(r, 3 * i + 3)
  {
    hide Finite, StoredFloat;
    ThreeFloats(r, i);
  }

  predicate FiniteTo(r: Replay, n: nat)
    requires Shaped(r) && n <= 300
  {
    forall k :: 0 <= k < n ==> Finite(StoredFloat(r, k))
  }

  lemma TextStep(name: seq<byte>, date: seq<byte>, i: nat)
    requires i < |name| && i < |date|
    ensures TextTotal(name, date, i + 1)
            == TextTotal(name, date, i) + (SByte(name[i]) + i) * (SByte(date[i]) + i) * (17 * (i + 1))
  {
    hide SByte;
  }

  lemma CommentStep(comment: seq<byte>, i: nat)
    requires i < |comment|
    ensures CommentTotal(comment, i + 1)
            == CommentTotal(comment, i) + (SByte(comment[i]) + i) * (SByte(comment[i]) + i) * (3 * i - 3)
  {
    hide SByte;
  }

  lemma RecordStep(rs: seq<Record>, i: nat)
    requires i < |rs|
    ensures RecordTotal(rs, i + 1) == RecordTotal(rs, i) + RecordTerm(rs[i], i)
    ensures RecordTerm(rs[i], i) == rs[i].kf as int * 3 * (i % 193 + 1) + rs[i].cc as int * 7 * (i % 167 + 1)
  {
  }

  /** Reducing after every addition is reducing once at the end. */
  lemma AccumulatorForm(r: Replay, s0: word, s1: word, s2: word, s3: word, s4: word)
    requires Shaped(r)
    requires s0 == Masked(IntTotal(r)) && s1 == Masked(s0 + ArrayTotal(r.ccc, r.jc, 5))
    requires s2 == FloatFold(s1, r, 300)
    requires s3 == Masked(s2 + TextTotal(r.name, r.date, 32))
    requires s4 == Masked(s3 + CommentTotal(r.comment, 42))
    ensures Masked(s4 + RecordTotal(r.records, |r.records|)) == Accumulator(r)
    ensures Checksum(r) == Signed(HashOf(Accumulator(r)))
  {
    hide Masked, HashOf, IntTotal, ArrayTotal, FloatFold, TextTotal, CommentTotal, RecordTotal;
    var text := s2 + TextTotal(r.name, r.date, 32);
    var comment := text + CommentTotal(r.comment, 42);
    MaskedAdd(IntTotal(r), ArrayTotal(r.ccc, r.jc, 5));
    MaskedAdd(text, CommentTotal(r.comment, 42));
    MaskedAdd(comment, RecordTotal(r.records, |r.records|));
  }
}
