/** The packfile format in numbers: the bytes of a packed file under its password, and
    the mask of a password four bytes at a time. */
module PackfileBytes {
  import opened Wrappers
  import opened Bits
  import opened Words
  import opened Text
  import opened LzssFormat
  import opened Packfile
  import opened PackfileFormat

  // ----- the key

  /** Over zeros the stream shows the password itself, from its first byte. */
  lemma KeyRepeats(pw: seq<byte>, k: nat)
    requires pw != []
    ensures Deciphered(seq(|pw|, _ => 0), Some(pw), k * |pw|) == pw
  {
    hide Xor;
    var zeros: seq<byte> := seq(|pw|, _ => 0);
    var shown := Deciphered(zeros, Some(pw), k * |pw|);
    forall i | 0 <= i < |pw|
      ensures shown[i] == pw[i]
    {
      WholeTurns(i, k, |pw|);
      XorZero(pw[i]);
    }
  }

  lemma WholeTurns(i: nat, k: nat, n: nat)
    requires i < n
    ensures (i + k * n) % n == i
  {
    DivUnique(i + k * n, n, k, i);
  }

  /** From its fifth byte on, a packed file is its content under the password, whose
      bytes are taken by the position in the file. */
  lemma PackedBytes(pw: seq<byte>, newFormat: bool, c: Content, i: nat)
    requires pw != [] && Writable(c)
    ensures |Pack(Some(pw), newFormat, c)| == 4 + |Inner(c)|
    ensures 4 <= i < 4 + |Inner(c)|
            ==> Pack(Some(pw), newFormat, c)[i] == Xor(Inner(c)[i - 4], pw[i % |pw|])
  {
    hide Xor, Header, Encode, BeBytes;
    HeaderBound(Trial(Some(pw), newFormat, c.Compressed?));
  }

  /** Without a password it is the magic characters and the content. */
  lemma UnlockedBytes(pw: Option<seq<byte>>, newFormat: bool, c: Content)
    requires Writable(c) && (pw == None || pw == Some([]))
    ensures Latin1(Pack(pw, newFormat, c)[..4]) == if c.Compressed? then "slh!" else "slh."
    ensures Pack(pw, newFormat, c)[4..] == Inner(c)
  {
    hide Xor, Encode;
    var t := Trial(pw, newFormat, c.Compressed?);
    HeaderBound(t);
    XorZero(Magic(t.packed));
    MagicBytes();
  }

  lemma MagicBytes()
    ensures BeBytes(0x736C_6821) == [0x73, 0x6C, 0x68, 0x21]
    ensures BeBytes(0x736C_682E) == [0x73, 0x6C, 0x68, 0x2E]
  {
  }

  /** The header word is the magic under the mask of the password. */
  lemma LockedHeader(pw: seq<byte>, newFormat: bool, c: Content)
    requires pw != [] && Writable(c)
    ensures |Pack(Some(pw), newFormat, c)| >= 4
    ensures BeWord(Pack(Some(pw), newFormat, c)[..4])
            == Xor(if c.Compressed? then 0x736C_6821 else 0x736C_682E,
                   if newFormat then Xor(Lanes(pw), 42) else Lanes(pw))
  {
    hide Xor, Encode, Pack;
    HeaderOfPack(Some(pw), newFormat, c);
  }

  /** The passwords of the game. */
  lemma GamePasswords()
    ensures Latin1(PW_GAME) == "CHEESE"
    ensures Latin1(PW_LOADING) == "(c) Free Lunch Design"
  {
  }

  // ----- the mask

  lemma NoBytesNoMask()
    ensures Lanes([]) == 0
  {
  }

  /** Four more bytes of a password enter its mask as a little-endian word, and fewer
      bytes as one with zeros behind them. */
  lemma MaskOfBlock(pw: seq<byte>, b: seq<byte>)
    requires |pw| % 4 == 0 && |b| == 4
    ensures Lanes(pw + b) == Xor(Lanes(pw), Little(b))
    ensures Lanes(pw + b[..3]) == Xor(Lanes(pw), Little(b[..3]))
    ensures Lanes(pw + b[..2]) == Xor(Lanes(pw), Little(b[..2]))
    ensures Lanes(pw + b[..1]) == Xor(Lanes(pw), Little(b[..1]))
  {
    hide Lanes, Little, Xor;
    MaskOfTail(pw, b);
    MaskOfTail(pw, b[..3]);
    MaskOfTail(pw, b[..2]);
    MaskOfTail(pw, b[..1]);
  }

  function Little(b: seq<byte>): nat {
    if b == [] then 0 else b[0] + 256 * Little(b[1..])
  }

  function Padded(b: seq<byte>, k: nat): byte {
    if k < |b| then b[k] else 0
  }

  lemma LittleForm(b: seq<byte>)
    requires |b| <= 4
    ensures Little(b) == Padded(b, 0) as int + 256 * Padded(b, 1) + 65536 * Padded(b, 2) + 16777216 * Padded(b, 3)
  {
    if b != [] {
      var c := b[1..];
      if c != [] {
        var d := c[1..];
        if d != [] { assert d[1..] == b[3..]; }
        assert d == b[2..];
      }
    }
  }

  lemma MaskOfTail(pw: seq<byte>, b: seq<byte>)
    requires |pw| % 4 == 0 && |b| <= 4
    ensures Lanes(pw + b) == Xor(Lanes(pw), Little(b))
  {
    hide Lanes, LaneByte, Xor, Little, Padded;
    LanesMeaning(pw);
    LanesMeaning(pw + b);
    LittleForm(b);
    LaneOfTail(pw, b, 0);
    LaneOfTail(pw, b, 1);
    LaneOfTail(pw, b, 2);
    LaneOfTail(pw, b, 3);
    XorOfWords(LaneByte(pw, 3), LaneByte(pw, 2), LaneByte(pw, 1), LaneByte(pw, 0),
               Padded(b, 3), Padded(b, 2), Padded(b, 1), Padded(b, 0));
  }

  lemma {:induction false} LaneOfTail(pw: seq<byte>, b: seq<byte>, k: nat)
    requires |pw| % 4 == 0 && |b| <= 4 && k < 4
    ensures LaneByte(pw + b, k) == XorByte(LaneByte(pw, k), Padded(b, k))
    decreases |b|
  {
    hide Xor;
    XorZero(LaneByte(pw, k));
    if b == [] {
      assert pw + b == pw;
    } else {
      var n := |b| - 1;
      assert (pw + b)[..|pw| + n] == pw + b[..n] && (pw + b)[|pw| + n] == b[n];
      assert (|pw| + n) % 4 == n;
      LaneOfTail(pw, b[..n], k);
    }
  }

  lemma XorOfWords(a3: byte, a2: byte, a1: byte, a0: byte, b3: byte, b2: byte, b1: byte, b0: byte)
    ensures Xor(BeWord([a3, a2, a1, a0]), b0 as int + 256 * b1 + 65536 * b2 + 16777216 * b3)
            == BeWord([XorByte(a3, b3), XorByte(a2, b2), XorByte(a1, b1), XorByte(a0, b0)])
  {
    hide Xor;
    XorBytes(a3 * 0x1_0000 + a2 * 0x100 + a1, a0, b3 * 0x1_0000 + b2 * 0x100 + b1, b0);
    XorBytes(a3 * 0x100 + a2, a1, b3 * 0x100 + b2, b1);
    XorBytes(a3, a2, b3, b2);
  }
}
