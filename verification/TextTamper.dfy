/** Which changes to the name, date and comment of a replay its checksum notices. */
module TextTamper {
  import opened Bits
  import opened Words
  import opened TwoAdic
  import opened ReplayFile
  import opened ReplayChecksum
  import opened ReplayTamper

  /** Replays that differ in their texts only share a checksum exactly when the sums
      of their texts agree modulo 2^32. */
  lemma TextsDecide(r: Replay, name: seq<byte>, date: seq<byte>, comment: seq<byte>)
    requires Shaped(r) && |name| == |date| == 32 && |comment| == 42
    ensures var q := r.(name := name, date := date, comment := comment);
            Checksum(q) == Checksum(r)
            <==> (TextTotal(name, date, 32) - TextTotal(r.name, r.date, 32)
                  + CommentTotal(comment, 42) - CommentTotal(r.comment, 42)) % TWO32 == 0
  {
    hide Checksum, IntTotal, TextTotal, CommentTotal;
    var q := r.(name := name, date := date, comment := comment);
    IntTotalForm(r);
    IntTotalForm(q);
    TextsOnly(r, q);
  }

  lemma TextsOnly(r: Replay, q: Replay)
    requires Shaped(r) && Shaped(q) && q.cols == r.cols && q.records == r.records
    requires q.ccc == r.ccc && q.jc == r.jc && IntTotal(q) == IntTotal(r)
    ensures Checksum(q) == Checksum(r)
            <==> (TextTotal(q.name, q.date, 32) - TextTotal(r.name, r.date, 32)
                  + CommentTotal(q.comment, 42) - CommentTotal(r.comment, 42)) % TWO32 == 0
  {
    hide Checksum, Accumulator, IntTotal, ArrayTotal, FloatFold, TextTotal, CommentTotal, RecordTotal, Masked;
    SameChecksum(r, q);
    var s := Masked(IntTotal(r) + ArrayTotal(r.ccc, r.jc, 5));
    SameFold(s, r, q, 300);
    TextsInSum(r, s);
    TextsInSum(q, s);
    var base := FloatFold(s, r, 300) + RecordTotal(r.records, |r.records|);
    var was := TextTotal(r.name, r.date, 32) + CommentTotal(r.comment, 42);
    var now := TextTotal(q.name, q.date, 32) + CommentTotal(q.comment, 42);
    SameRemainder(base + now, base + was, TWO32);
  }

  lemma TextsInSum(r: Replay, s: word)
    requires Shaped(r) && s == Masked(IntTotal(r) + ArrayTotal(r.ccc, r.jc, 5))
    ensures Accumulator(r)
            == (FloatFold(s, r, 300) + RecordTotal(r.records, |r.records|)
                + (TextTotal(r.name, r.date, 32) + CommentTotal(r.comment, 42))) % TWO32
  {
    hide IntTotal, ArrayTotal, FloatFold, TextTotal, CommentTotal, RecordTotal;
  }

  // ----- the comment

  function CommentValue(b: byte, i: nat): int {
    SByte(b) + i
  }

  lemma {:induction false} CommentUpdate(comment: seq<byte>, i: nat, b: byte, n: nat)
    requires i < |comment| && n <= |comment|
    ensures CommentTotal(comment[i := b], n) - CommentTotal(comment, n)
            == if i < n then CommentTerm(b, i) - CommentTerm(comment[i], i) else 0
  {
    hide SByte;
    if n > 0 { CommentUpdate(comment, i, b, n - 1); }
  }

  function CommentTerm(b: byte, i: nat): int {
    (SByte(b) + i) * (SByte(b) + i) * (3 * i - 3)
  }

  lemma CommentTermSquares(b: byte, c: byte, i: nat)
    ensures CommentTerm(b, i) - CommentTerm(c, i)
            == 3 * ((CommentValue(b, i) - CommentValue(c, i)) * (CommentValue(b, i) + CommentValue(c, i)) * (i - 1))
  {
    hide SByte;
    var v, w := CommentValue(b, i), CommentValue(c, i);
    assert v * v * (3 * i - 3) == 3 * (v * v * (i - 1));
    assert w * w * (3 * i - 3) == 3 * (w * w * (i - 1));
    assert (v - w) * (v + w) == v * v - w * w;
    assert (v * v - w * w) * (i - 1) == v * v * (i - 1) - w * w * (i - 1);
  }

  /** A changed comment byte goes unnoticed exactly at position 1, whose weight is
      zero, or when its value in two's complement plus i, which is squared, is the same
      or the opposite. */
  lemma CommentChange(r: Replay, i: nat, b: byte)
    requires Shaped(r) && i < 42
    ensures Checksum(r.(comment := r.comment[i := b])) == Checksum(r)
            <==> i == 1 || b == r.comment[i]
                 || (b + 128) % 256 - 128 + i == -((r.comment[i] + 128) % 256 - 128 + i)
  {
    hide Checksum, CommentTotal, CommentTerm, CommentValue;
    TextsDecide(r, r.name, r.date, r.comment[i := b]);
    assert r.(name := r.name, date := r.date, comment := r.comment[i := b]) == r.(comment := r.comment[i := b]);
    CommentUpdate(r.comment, i, b, 42);
    CommentTermSquares(b, r.comment[i], i);
    ValueBound(b, i);
    ValueBound(r.comment[i], i);
    assert CommentValue(b, i) == CommentValue(r.comment[i], i) <==> b == r.comment[i] by {
      SameValue(b, r.comment[i], i);
    }
    var v, w := CommentValue(b, i), CommentValue(r.comment[i], i);
    ThreeFactors(v - w, v + w, i - 1);
  }

  lemma ValueBound(b: byte, i: nat)
    requires i < 42
    ensures -128 <= CommentValue(b, i) <= 168 && CommentValue(b, i) == (b + 128) % 256 - 128 + i
  {
  }

  lemma SameValue(b: byte, c: byte, i: nat)
    ensures CommentValue(b, i) == CommentValue(c, i) <==> b == c
  {
  }

  /** A product this small vanishes modulo 2^32 only if a factor does. */
  lemma ThreeFactors(a: int, b: int, c: int)
    requires -512 < a < 512 && -512 < b < 512 && -600 < c < 600
    ensures 3 * (a * b * c) % TWO32 == 0 <==> a == 0 || b == 0 || c == 0
  {
    BoundedProduct(a, b, 512, 512);
    BoundedProduct(a * b, c, 262144, 600);
    SmallNotMultiple(3 * (a * b * c), TWO32);
  }

  lemma BoundedProduct(a: int, b: int, m: int, n: int)
    requires -m < a < m && -n < b < n
    ensures -(m * n) < a * b < m * n
    ensures a * b == 0 <==> a == 0 || b == 0
  {
    var p, q := if a < 0 then -a else a, if b < 0 then -b else b;
    Signs(a, b, p, q);
    SmallerProduct(p, q, m, n);
  }

  lemma Signs(a: int, b: int, p: int, q: int)
    requires (p == a || p == -a) && (q == b || q == -b)
    ensures a * b == p * q || a * b == -(p * q)
  {
    assert (-a) * b == -(a * b) && a * (-b) == -(a * b) && (-a) * (-b) == a * b;
  }

  lemma SmallerProduct(p: int, q: int, m: int, n: int)
    requires 0 <= p < m && 0 <= q < n
    ensures 0 <= p * q < m * n
    ensures p * q == 0 <==> p == 0 || q == 0
  {
    NonNegativeProduct(p, q);
    NonNegativeProduct(p, n - q);
    NonNegativeProduct(m - p - 1, n);
    Spread(p, n, q);
    assert (m - p - 1) * n == m * n - p * n - n;
    if p > 0 && q > 0 {
      NonNegativeProduct(p - 1, q - 1);
      assert (p - 1) * (q - 1) == p * q - p - q + 1;
    }
  }

  // ----- name and date

  /** What byte i of one text is multiplied with: the value of byte i of the other. */
  function Partner(text: seq<byte>, i: nat): int
    requires i < |text|
  {
    SByte(text[i]) + i
  }

  lemma {:induction false} NameUpdate(name: seq<byte>, date: seq<byte>, i: nat, b: byte, n: nat)
    requires i < |name| == |date| && n <= |name|
    ensures TextTotal(name[i := b], date, n) - TextTotal(name, date, n)
            == if i < n then (SByte(b) - SByte(name[i])) * Partner(date, i) * (17 * (i + 1)) else 0
  {
    hide SByte, TextTotal;
    if n > 0 {
      NameUpdate(name, date, i, b, n - 1);
      TextStep(name, date, n - 1);
      TextStep(name[i := b], date, n - 1);
      if i == n - 1 {
        TermDifference(SByte(b) + i, SByte(name[i]) + i, SByte(date[i]) + i, 17 * n);
      } else {
        assert name[i := b][n - 1] == name[n - 1];
      }
    } else {
      SumStarts(0, [], [], name, date, []);
      SumStarts(0, [], [], name[i := b], date, []);
    }
  }

  lemma TermDifference(a: int, b: int, c: int, m: int)
    ensures a * c * m - b * c * m == (a - b) * c * m
  {
  }

  /** Name and date enter the sum the same way. */
  lemma {:induction false} TextSymmetric(name: seq<byte>, date: seq<byte>, n: nat)
    requires n <= |name| && n <= |date|
    ensures TextTotal(name, date, n) == TextTotal(date, name, n)
  {
    hide SByte;
    if n > 0 {
      TextSymmetric(name, date, n - 1);
      var a, b := SByte(name[n - 1]) + n - 1, SByte(date[n - 1]) + n - 1;
      assert a * b == b * a;
    }
  }

  /** Exchanging name and date is never noticed. */
  lemma SwapTexts(r: Replay)
    requires Shaped(r)
    ensures Checksum(r.(name := r.date, date := r.name)) == Checksum(r)
  {
    hide Checksum, TextTotal;
    TextsDecide(r, r.date, r.name, r.comment);
    assert r.(name := r.date, date := r.name, comment := r.comment) == r.(name := r.date, date := r.name);
    TextSymmetric(r.name, r.date, 32);
  }

  lemma PartnerZero(text: seq<byte>, i: nat)
    requires i < |text| && i < 256
    ensures Partner(text, i) == 0 <==> i <= 128 && text[i] == (256 - i) % 256
  {
  }

  /** A changed name byte goes unnoticed exactly when the date byte it is multiplied
      with is -i in two's complement. */
  lemma NameChange(r: Replay, i: nat, b: byte)
    requires Shaped(r) && i < 32
    ensures Checksum(r.(name := r.name[i := b])) == Checksum(r)
            <==> b == r.name[i] || r.date[i] == (256 - i) % 256
  {
    hide Checksum, TextTotal;
    TextsDecide(r, r.name[i := b], r.date, r.comment);
    assert r.(name := r.name[i := b], date := r.date, comment := r.comment) == r.(name := r.name[i := b]);
    NameUpdate(r.name, r.date, i, b, 32);
    PartnerZero(r.date, i);
    NameFactors(SByte(b) - SByte(r.name[i]), Partner(r.date, i), i + 1);
  }

  lemma NameFactors(d: int, p: int, n: nat)
    requires -256 < d < 256 && -160 < p < 160 && 1 <= n <= 32
    ensures d * p * (17 * n) % TWO32 == 0 <==> d == 0 || p == 0
  {
    BoundedProduct(d, p, 256, 160);
    BoundedProduct(d * p, 17 * n, 40960, 545);
    SmallNotMultiple(d * p * (17 * n), TWO32);
  }

  /** The same for a date byte. */
  lemma DateChange(r: Replay, i: nat, b: byte)
    requires Shaped(r) && i < 32
    ensures Checksum(r.(date := r.date[i := b])) == Checksum(r)
            <==> b == r.date[i] || r.name[i] == (256 - i) % 256
  {
    hide Checksum;
    var q := r.(name := r.date, date := r.name);
    SwapTexts(r);
    SwapTexts(r.(date := r.date[i := b]));
    NameChange(q, i, b);
  }
}
