/** Which changes to the records of a replay its checksum notices. */
module ReplayTamper {
  import opened Bits
  import opened Words
  import opened Hash
  import opened TwoAdic
  import opened FloatSteps
  import opened ReplayFile
  import opened ReplayChecksum

  /** Two replays share a checksum exactly when their accumulators agree. */
  lemma SameChecksum(r: Replay, q: Replay)
    requires Shaped(r) && Shaped(q)
    ensures Checksum(r) == Checksum(q) <==> Accumulator(r) == Accumulator(q)
  {
    hide HashOf, Accumulator;
    HashBijective(Accumulator(r), Accumulator(q));
    SignedInjective(HashOf(Accumulator(r)), HashOf(Accumulator(q)));
  }

  // ----- changes to the records

  lemma RecordsDecide(r: Replay, rs: seq<Record>)
    requires Shaped(r)
    ensures Checksum(r.(records := rs)) == Checksum(r)
            <==> (RecordTotal(rs, |rs|) - RecordTotal(r.records, |r.records|)) % TWO32 == 0
  {
    hide IntTotal, ArrayTotal, FloatFold, TextTotal, CommentTotal, RecordTotal, Checksum;
    var q := r.(records := rs);
    SameChecksum(r, q);
    var s := (IntTotal(r) + ArrayTotal(r.ccc, r.jc, 5)) % TWO32;
    SameFold(s, r, q, 300);
    assert IntTotal(q) == IntTotal(r) by { IntTotalForm(r); IntTotalForm(q); }
    var base := FloatFold(s, r, 300) + TextTotal(r.name, r.date, 32) + CommentTotal(r.comment, 42);
    SameRemainder(base + RecordTotal(rs, |rs|), base + RecordTotal(r.records, |r.records|), TWO32);
  }

  /** The float loops depend on the float columns alone. */
  lemma {:induction false} SameFold(s: word, r: Replay, q: Replay, n: nat)
    requires Shaped(r) && Shaped(q) && r.cols == q.cols && n <= 300
    ensures FloatFold(s, r, n) == FloatFold(s, q, n)
  {
    hide FloatStep;
    if n > 0 {
      SameFold(s, r, q, n - 1);
      SameTelemetry(r, q, n - 1);
    }
  }

  lemma SameTelemetry(r: Replay, q: Replay, k: nat)
    requires Shaped(r) && Shaped(q) && r.cols == q.cols && k < 300
    ensures Telemetry(r, k) == Telemetry(q, k)
  {
    hide Product;
  }

  lemma {:induction false} RecordTotalUpdate(rs: seq<Record>, i: nat, x: Record, n: nat)
    requires i < |rs| && n <= |rs|
    ensures RecordTotal(rs[i := x], n)
            == RecordTotal(rs, n) + (if i < n then RecordTerm(x, i) - RecordTerm(rs[i], i) else 0)
  {
    hide RecordTerm;
    if n > 0 { RecordTotalUpdate(rs, i, x, n - 1); }
  }

  /** Replacing one record. */
  lemma ChangeDecides(r: Replay, i: nat, x: Record)
    requires Shaped(r) && i < |r.records|
    ensures Checksum(r.(records := r.records[i := x])) == Checksum(r)
            <==> (RecordTerm(x, i) - RecordTerm(r.records[i], i)) % TWO32 == 0
  {
    hide RecordTerm, RecordTotal, Checksum;
    RecordsDecide(r, r.records[i := x]);
    RecordTotalUpdate(r.records, i, x, |r.records|);
  }

  function WithCycles(r: Replay, i: nat, cc: int32): Replay
    requires i < |r.records|
  {
    r.(records := r.records[i := r.records[i].(cc := cc)])
  }

  /** The smallest change of a cycle count that record i can hide. */
  function Granule(i: nat): (g: nat)
    ensures g >= Pow2(25)
  {
    CycleTwos(i);
    Pow2AtLeast(25, 32 - Val2(CycleWeight(i)));
    Pow2(32 - Val2(CycleWeight(i)))
  }

  lemma {:induction false} Pow2AtLeast(a: nat, b: nat)
    requires a <= b
    ensures Pow2(a) <= Pow2(b)
  {
    if a < b { Pow2AtLeast(a, b - 1); }
  }

  /** A weight of at most 167 has at most seven twos. */
  lemma CycleTwos(i: nat)
    ensures Val2(CycleWeight(i)) <= 7
  {
    var v := Val2(CycleWeight(i));
    Val2Bound(CycleWeight(i));
    Pow2Values();
    if v > 7 { Pow2AtLeast(8, v); }
  }

  /** A changed cycle count goes unnoticed exactly when the change is a multiple of
      the record's granule. */
  lemma CycleChange(r: Replay, i: nat, cc: int32)
    requires Shaped(r) && i < |r.records|
    ensures Checksum(WithCycles(r, i, cc)) == Checksum(r)
            <==> (cc - r.records[i].cc) % Granule(i) == 0
  {
    hide Checksum, Pow2, Val2, CycleWeight;
    var x := r.records[i];
    var d: int, w := cc - x.cc, CycleWeight(i);
    ChangeDecides(r, i, x.(cc := cc));
    CycleTermChange(x, cc, i);
    assert Pow2(32) == TWO32 by { Pow2Values(); }
    CycleTwos(i);
    OddFactor(7, w * d, 32);
    ScaledMultiple(w, d, 32);
  }

  lemma CycleTermChange(x: Record, cc: int32, i: nat)
    ensures RecordTerm(x.(cc := cc), i) - RecordTerm(x, i) == 7 * (CycleWeight(i) * (cc - x.cc))
  {
    hide CycleWeight, KeyWeight;
    var w := CycleWeight(i);
    assert cc as int * 7 * w == 7 * (w * cc);
    assert x.cc as int * 7 * w == 7 * (w * x.cc);
  }

  lemma SmallNotMultiple(d: int, m: int)
    requires m > 0 && -m < d < m
    ensures d % m == 0 <==> d == 0
  {
    if d < 0 { DivUnique(d, m, -1, d + m); } else { DivUnique(d, m, 0, d); }
  }

  /** No change of one cycle count by less than 2^25 goes unnoticed. */
  lemma SmallCycleChange(r: Replay, i: nat, cc: int32)
    requires Shaped(r) && i < |r.records|
    requires cc != r.records[i].cc && -0x200_0000 < cc - r.records[i].cc < 0x200_0000
    ensures Checksum(WithCycles(r, i, cc)) != Checksum(r)
  {
    hide Checksum, WithCycles;
    Pow2Values();
    CycleChange(r, i, cc);
    SmallNotMultiple(cc - r.records[i].cc, Granule(i));
  }

  /** ... and 2^25 is where that stops: record 127 of every 167 hides it. */
  lemma HiddenCycleChange(r: Replay, i: nat)
    requires Shaped(r) && i < |r.records| && i % 167 == 127
    requires r.records[i].cc + 0x200_0000 < TWO31
    ensures Checksum(WithCycles(r, i, r.records[i].cc + 0x200_0000)) == Checksum(r)
  {
    hide Checksum, WithCycles;
    Pow2Values();
    assert Val2(128) == 7;
    CycleChange(r, i, r.records[i].cc + 0x200_0000);
  }

  function WithKeys(r: Replay, i: nat, kf: byte): Replay
    requires i < |r.records|
  {
    r.(records := r.records[i := r.records[i].(kf := kf)])
  }

  lemma KeyTermChange(x: Record, kf: byte, i: nat)
    ensures RecordTerm(x.(kf := kf), i) - RecordTerm(x, i) == 3 * (KeyWeight(i) * (kf - x.kf))
  {
    hide CycleWeight, KeyWeight;
    var w := KeyWeight(i);
    assert kf as int * 3 * w == 3 * (w * kf);
    assert x.kf as int * 3 * w == 3 * (w * x.kf);
  }

  lemma ProductZero(a: int, b: int, m: nat)
    requires -256 < a < 256 && -193 <= b <= 193 && m == TWO32
    ensures 3 * (a * b) % m == 0 <==> a == 0 || b == 0
  {
    ProductBound(a, b);
    SmallNotMultiple(3 * (a * b), m);
  }

  lemma ProductBound(a: int, b: int)
    requires -256 < a < 256 && -193 <= b <= 193
    ensures -0x1_0000 < a * b < 0x1_0000
    ensures a * b == 0 <==> a == 0 || b == 0
  {
    var n := if a >= 0 then a else -a;
    NonNegativeProduct(n, 193 - b);
    NonNegativeProduct(n, 193 + b);
    assert n * (193 - b) == 193 * n - n * b;
    assert n * (193 + b) == 193 * n + n * b;
    assert a * b == if a >= 0 then n * b else -(n * b);
  }

  lemma NonNegativeProduct(x: int, y: int)
    requires x >= 0 && y >= 0
    ensures x * y >= 0
  {
  }

  /** Every change of one key byte is noticed. */
  lemma KeyChange(r: Replay, i: nat, kf: byte)
    requires Shaped(r) && i < |r.records|
    ensures Checksum(WithKeys(r, i, kf)) == Checksum(r) <==> kf == r.records[i].kf
  {
    hide Checksum, RecordTerm, KeyWeight;
    var x := r.records[i];
    var d, w := kf - x.kf, KeyWeight(i);
    ChangeDecides(r, i, x.(kf := kf));
    KeyTermChange(x, kf, i);
    assert w * d == d * w;
    ProductZero(d, w, TWO32);
  }

  /** Replacing two records. */
  lemma ExchangeDecides(r: Replay, i: nat, x: Record, j: nat, y: Record)
    requires Shaped(r) && i < |r.records| && j < |r.records| && i != j
    ensures Checksum(r.(records := r.records[i := x][j := y])) == Checksum(r)
            <==> (RecordTerm(x, i) - RecordTerm(r.records[i], i)
                  + RecordTerm(y, j) - RecordTerm(r.records[j], j)) % TWO32 == 0
  {
    hide RecordTerm, RecordTotal, Checksum;
    var rs := r.records[i := x];
    RecordsDecide(r, rs[j := y]);
    RecordTotalUpdate(r.records, i, x, |rs|);
    RecordTotalUpdate(rs, j, y, |rs|);
  }

  /** Swapping the key bytes of two records goes unnoticed exactly when the bytes
      are equal or the records stand the same way in the period of 193. */
  lemma SwapKeys(r: Replay, i: nat, j: nat)
    requires Shaped(r) && i < |r.records| && j < |r.records|
    ensures var x, y := r.records[i], r.records[j];
            var q := r.(records := r.records[i := x.(kf := y.kf)][j := y.(kf := x.kf)]);
            Checksum(q) == Checksum(r) <==> x.kf == y.kf || i % 193 == j % 193
  {
    hide Checksum, RecordTerm;
    var x, y := r.records[i], r.records[j];
    if i == j {
      assert r.records[i := x.(kf := y.kf)][j := y.(kf := x.kf)] == r.records;
    } else {
      ExchangeDecides(r, i, x.(kf := y.kf), j, y.(kf := x.kf));
      KeySwapTerms(x, i, y, j);
      ProductZero(y.kf - x.kf, KeyWeight(i) - KeyWeight(j), TWO32);
    }
  }

  lemma KeySwapTerms(x: Record, i: nat, y: Record, j: nat)
    ensures RecordTerm(x.(kf := y.kf), i) - RecordTerm(x, i) + RecordTerm(y.(kf := x.kf), j) - RecordTerm(y, j)
            == 3 * ((y.kf - x.kf) * (KeyWeight(i) - KeyWeight(j)))
  {
    hide RecordTerm, KeyWeight;
    KeyTermChange(x, y.kf, i);
    KeyTermChange(y, x.kf, j);
    Crossed(x.kf, y.kf, KeyWeight(i), KeyWeight(j));
    Spread(KeyWeight(i), y.kf, x.kf);
    Spread(KeyWeight(j), x.kf, y.kf);
  }

  /** What swapping records i and j does to the sum. */
  function SwapShift(x: Record, i: nat, y: Record, j: nat): int {
    3 * ((y.kf - x.kf) * (KeyWeight(i) - KeyWeight(j))) + 7 * ((y.cc - x.cc) * (CycleWeight(i) - CycleWeight(j)))
  }

  /** Swapping whole records goes unnoticed exactly when the differences of their
      fields, times the differences of the weights, cancel modulo 2^32. */
  lemma SwapRecords(r: Replay, i: nat, j: nat)
    requires Shaped(r) && i < |r.records| && j < |r.records|
    ensures var x, y := r.records[i], r.records[j];
            var q := r.(records := r.records[i := y][j := x]);
            Checksum(q) == Checksum(r) <==> SwapShift(x, i, y, j) % TWO32 == 0
  {
    hide Checksum, RecordTerm, SwapShift;
    var x, y := r.records[i], r.records[j];
    SwapTerms(x, i, y, j);
    if i == j {
      assert r.records[i := y][j := x] == r.records;
    } else {
      ExchangeDecides(r, i, y, j, x);
    }
  }

  lemma SwapTerms(x: Record, i: nat, y: Record, j: nat)
    ensures RecordTerm(y, i) - RecordTerm(x, i) + RecordTerm(x, j) - RecordTerm(y, j) == SwapShift(x, i, y, j)
  {
    hide RecordTerm, KeyWeight, CycleWeight;
    TermForm(x, i);
    TermForm(y, i);
    TermForm(x, j);
    TermForm(y, j);
    Crossed(x.kf, y.kf, KeyWeight(i), KeyWeight(j));
    Crossed(x.cc, y.cc, CycleWeight(i), CycleWeight(j));
  }

  lemma TermForm(x: Record, i: nat)
    ensures RecordTerm(x, i) == 3 * (x.kf * KeyWeight(i)) + 7 * (x.cc * CycleWeight(i))
  {
    hide KeyWeight, CycleWeight;
    var k, c := KeyWeight(i), CycleWeight(i);
    assert x.kf as int * 3 * k == 3 * (x.kf * k);
    assert x.cc as int * 7 * c == 7 * (x.cc * c);
  }

  lemma Spread(u: int, a: int, b: int)
    ensures u * (a - b) == a * u - b * u
  {
  }

  lemma Crossed(a: int, b: int, u: int, v: int)
    ensures b * u - a * u + a * v - b * v == (b - a) * (u - v)
  {
  }

  /** Records that stand the same way in both periods can be swapped unnoticed. */
  lemma SwapAligned(r: Replay, i: nat, j: nat)
    requires Shaped(r) && i < |r.records| && j < |r.records|
    requires i % 193 == j % 193 && i % 167 == j % 167
    ensures var q := r.(records := r.records[i := r.records[j]][j := r.records[i]]);
            Checksum(q) == Checksum(r)
  {
    hide Checksum;
    SwapRecords(r, i, j);
  }
}
