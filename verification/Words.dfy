/** Four-byte integers of the file formats, in both byte orders. */
module Words {
  import opened Bits

  const TWO31 := 0x8000_0000
  const TWO32 := 0x1_0000_0000

  type word = x: int | 0 <= x < TWO32
  type int32 = x: int | -TWO31 <= x < TWO31

  /** What `& 0xFFFFFFFF` computes, on integers of either sign. */
  lemma WordForm(x: int)
    ensures And(x, 0xFFFF_FFFF) == x % TWO32
  {
    hide And, Pow2;
    Pow2Values();
    AndLow(x, 32);
  }

  function BeWord(b: seq<byte>): word
    requires |b| == 4
  {
    b[0] as int * 0x100_0000 + b[1] as int * 0x1_0000 + b[2] as int * 0x100 + b[3] as int
  }

  function BeBytes(w: word): (b: seq<byte>)
    ensures |b| == 4 && BeWord(b) == w
  {
    [Digit(w, 3), Digit(w, 2), Digit(w, 1), Digit(w, 0)]
  }

  /** Byte k of a word, lowest first. */
  function Digit(w: word, k: nat): byte
    requires k < 4
  {
    if k == 0 then w % 256
    else if k == 1 then w / 256 % 256
    else if k == 2 then w / 256 / 256 % 256
    else w / 256 / 256 / 256
  }

  function LeWord(b: seq<byte>): word
    requires |b| == 4
  {
    b[0] as int + b[1] as int * 0x100 + b[2] as int * 0x1_0000 + b[3] as int * 0x100_0000
  }

  function LeBytes(w: word): (b: seq<byte>)
    ensures |b| == 4 && LeWord(b) == w
  {
    [Digit(w, 0), Digit(w, 1), Digit(w, 2), Digit(w, 3)]
  }

  lemma DigitsOf(b0: byte, b1: byte, b2: byte, b3: byte)
    ensures var w := BeWord([b0, b1, b2, b3]);
            Digit(w, 3) == b0 && Digit(w, 2) == b1 && Digit(w, 1) == b2 && Digit(w, 0) == b3
  {
    var w: int := BeWord([b0, b1, b2, b3]);
    assert w / 256 == b0 as int * 0x1_0000 + b1 as int * 0x100 + b2;
    assert w / 256 / 256 == b0 as int * 0x100 + b1;
  }

  lemma BytesAreCanonical(b: seq<byte>)
    requires |b| == 4
    ensures BeBytes(BeWord(b)) == b && LeBytes(LeWord(b)) == b
  {
    hide Digit;
    DigitsOf(b[0], b[1], b[2], b[3]);
    DigitsOf(b[3], b[2], b[1], b[0]);
    assert BeWord(b) == BeWord([b[0], b[1], b[2], b[3]]);
    assert LeWord(b) == BeWord([b[3], b[2], b[1], b[0]]);
  }

  /** The two's complement reading of a word. */
  function Signed(w: word): int32 {
    if w < TWO31 then w else w - TWO32
  }

  function Unsigned(v: int32): (w: word)
    ensures Signed(w) == v
  {
    if v < 0 then v + TWO32 else v
  }

  lemma UnsignedSigned(w: word)
    ensures Unsigned(Signed(w)) == w
  {
  }
}
