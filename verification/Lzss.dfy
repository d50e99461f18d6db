/** The LZSS decompressor of tools_recon/assets_datafile.py, an unbounded-history
    decoder it refines, and the encoder it undoes. */
module Lzss {
  import opened Bits

  const N := 4096
  const F := 18
  const THRESHOLD := 2

  // ----- the reference: LZ77 over the whole history, flag bits as a number

  /** What a decoder that never forgets has before the first output byte. */
  function Blank(): (h: seq<byte>)
    ensures |h| == N
  {
    seq(N, _ => 0)
  }

  /** Appends `len` bytes, each the one `dist` places before it: the copy may
      overlap the bytes it is producing. */
  function CopyBack(h: seq<byte>, dist: nat, len: nat): (r: seq<byte>)
    requires 1 <= dist <= |h|
    ensures |r| == |h| + len && h <= r
    decreases len
  {
    if len == 0 then h else CopyBack(h + [h[|h| - dist]], dist, len - 1)
  }

  /** How far back ring position `pos` lies when `m` history bytes exist. */
  function Distance(pos: nat, m: nat): (d: nat)
    ensures 1 <= d <= N
  {
    (m - F - 1 - pos) % N + 1
  }

  function RefPos(i: byte, j: byte): (p: nat)
    ensures p < N
  {
    i + j / 16 * 256
  }

  function RefLen(j: byte): (n: nat)
    ensures 3 <= n <= 18
  {
    j % 16 + THRESHOLD + 1
  }

  function Decode(src: seq<byte>, h: seq<byte>): (r: seq<byte>)
    requires |h| >= N
    ensures h <= r
    decreases |src|, 0
  {
    if src == [] then h else DecodeGroup(src[0], 8, src[1..], h)
  }

  /** The rest of a group: `left` items, the kind of each in the low bits of `bits`. */
  function DecodeGroup(bits: nat, left: nat, src: seq<byte>, h: seq<byte>): (r: seq<byte>)
    requires |h| >= N
    ensures h <= r
    decreases |src|, left + 1
  {
    if left == 0 then Decode(src, h)
    else if bits % 2 == 1 then
      if src == [] then h else DecodeGroup(bits / 2, left - 1, src[1..], h + [src[0]])
    else
      if |src| < 2 then h
      else DecodeGroup(bits / 2, left - 1, src[2..],
                       CopyBack(h, Distance(RefPos(src[0], src[1]), |h|), RefLen(src[1])))
  }

  /** The decompressed bytes of a stream. */
  function Decompressed(src: seq<byte>): seq<byte> {
    Decode(src, Blank())[N..]
  }

  // ----- the ring buffer holds the last N bytes of the history

  /** Every one of the last N history bytes is in its own slot. */
  ghost predicate Mirrors(text: seq<byte>, h: seq<byte>) {
    |text| == N && |h| >= N &&
    forall q :: |h| - N <= q < |h| ==> text[(q - F) % N] == h[q]
  }

  lemma BlankMirrors(text: seq<byte>)
    requires |text| == N && forall x :: 0 <= x < N ==> text[x] == 0
    ensures Mirrors(text, Blank())
  {
  }

  lemma WriteMirrors(text: seq<byte>, h: seq<byte>, c: byte)
    requires Mirrors(text, h)
    ensures Mirrors(text[(|h| - F) % N := c], h + [c])
  {
    var t, g := text[(|h| - F) % N := c], h + [c];
    forall q | |g| - N <= q < |g|
      ensures t[(q - F) % N] == g[q]
    {
      if q < |h| {
        assert 0 < |h| - q < N;
        assert (q - F) % N != (|h| - F) % N;
        assert text[(q - F) % N] == h[q];
      }
    }
  }

  /** Reading slot (pos + k) mod N after k bytes of a copy is reading from the
      distance the copy started with. */
  lemma ReadMirrors(text: seq<byte>, h: seq<byte>, pos: nat, k: nat)
    requires Mirrors(text, h) && |h| >= N + k
    ensures var d := Distance(pos, |h| - k);
            text[(pos + k) % N] == h[|h| - d]
  {
    var d := Distance(pos, |h| - k);
    var q := |h| - d;
    assert (q - F) % N == (pos + k) % N;
    assert text[(q - F) % N] == h[q];
  }

  lemma {:induction false} CopyBackStep(h: seq<byte>, d: nat, k: nat)
    requires 1 <= d <= |h|
    ensures var g := CopyBack(h, d, k);
            CopyBack(h, d, k + 1) == g + [g[|g| - d]]
    decreases k
  {
    if k > 0 { CopyBackStep(h + [h[|h| - d]], d, k - 1); }
  }

  // ----- the bit operations of the loop, as arithmetic

  lemma FlagForms(b: byte, flags: nat)
    ensures Or(b, 0xFF00) == b + 0xFF00
    ensures And(flags, 0x100) == 0 <==> flags / 256 % 2 == 0
    ensures And(flags, 1) == flags % 2
    ensures Shr(flags, 1) == flags / 2
  {
    assert Pow2(1) == 2 && Pow2(8) == 256;
    assert Shl(0xFF, 8) == 0xFF00 && Shl(1, 8) == 0x100 && Shl(0, 8) == 0;
    OrDisjoint(b, 0xFF, 8);
    AndShifted(flags, 1, 8);
    ShrDivides(flags, 8);
    AndLow(flags / 256, 1);
    AndLow(flags, 1);
    ShrDivides(flags, 1);
  }

  lemma RefForms(i: byte, j: byte)
    ensures Or(i, Shl(And(j, 0xF0), 4)) == RefPos(i, j)
    ensures And(j, 0x0F) + THRESHOLD + 1 == RefLen(j)
  {
    hide And, Or, Shl, Pow2;
    Pow2Values();
    HighHalf(j);
    AndLow(j, 4);
    ShlTimes(j / 16 * 16, 4);
    ShlTimes(j / 16, 8);
    OrDisjoint(i, j / 16, 8);
  }

  lemma HighHalf(j: byte)
    ensures And(j, 0xF0) == j / 16 * 16
  {
    hide And, Shl, Shr, Pow2;
    Pow2Values();
    ShlTimes(15, 4);
    AndShifted(j, 15, 4);
    ShrDivides(j, 4);
    AndLow(j / 16, 4);
    ShlTimes(j / 16, 4);
  }

  lemma SlotForm(x: nat)
    ensures And(x, N - 1) == x % N
  {
    assert Pow2(12) == N;
    AndLow(x, 12);
  }

  // ----- the decompressor

  /** The flag register: `left` kinds still to be used in its low bits, under a
      run of ones that reaches bit 8 exactly while `left` is positive. */
  ghost predicate Register(flags: nat, bits: nat, left: nat) {
    left <= 8 && bits < Pow2(left) &&
    (flags == 0xFF * Pow2(left) + bits || (flags == 0 && left == 0))
  }

  lemma RegisterTest(flags: nat, bits: nat, left: nat)
    requires Register(flags, bits, left)
    ensures flags / 256 % 2 == 0 <==> left == 0
    ensures left > 0 ==> flags % 2 == bits % 2 && Register(flags / 2, bits / 2, left - 1)
  {
    if left > 0 {
      var p := Pow2(left - 1);
      assert Pow2(left) == 2 * p;
      assert flags == 2 * (0xFF * p) + bits;
    }
    assert Pow2(0) == 1 && Pow2(1) == 2 && Pow2(2) == 4 && Pow2(3) == 8 && Pow2(4) == 16;
    assert Pow2(5) == 32 && Pow2(6) == 64 && Pow2(7) == 128 && Pow2(8) == 256;
  }

  lemma EmptyRegister(src: seq<byte>)
    ensures Register(0, 0, 0) && Remaining(src, 0, 0, 0, Blank())
  {
    assert src[0..] == src;
  }

  lemma RegisterLoad(b: byte)
    ensures Register(b + 0xFF00, b, 8)
  {
    assert Pow2(8) == 256;
  }

  // One step of the loop, read off the tail of the input.

  ghost predicate Remaining(src: seq<byte>, pos: nat, bits: nat, left: nat, h: seq<byte>) {
    pos <= |src| && |h| >= N && Decode(src, Blank()) == DecodeGroup(bits, left, src[pos..], h)
  }

  lemma FlagStep(src: seq<byte>, pos: nat, bits: nat, h: seq<byte>)
    requires Remaining(src, pos, bits, 0, h)
    ensures pos == |src| ==> h == Decode(src, Blank())
    ensures pos < |src| ==> Remaining(src, pos + 1, src[pos], 8, h)
  {
    assert DecodeGroup(bits, 0, src[pos..], h) == Decode(src[pos..], h);
    if pos < |src| {
      assert src[pos..][0] == src[pos];
      assert src[pos..][1..] == src[pos + 1..];
    } else {
      assert src[pos..] == [];
    }
  }

  lemma LiteralStep(src: seq<byte>, pos: nat, bits: nat, left: nat, h: seq<byte>)
    requires left > 0 && bits % 2 == 1 && Remaining(src, pos, bits, left, h)
    ensures pos == |src| ==> h == Decode(src, Blank())
    ensures pos < |src| ==> Remaining(src, pos + 1, bits / 2, left - 1, h + [src[pos]])
  {
    if pos < |src| { assert src[pos..][1..] == src[pos + 1..]; }
  }

  lemma RefStep(src: seq<byte>, pos: nat, bits: nat, left: nat, h: seq<byte>)
    requires left > 0 && bits % 2 == 0 && Remaining(src, pos, bits, left, h)
    ensures pos + 1 >= |src| ==> h == Decode(src, Blank())
    ensures pos + 1 < |src| ==>
              Remaining(src, pos + 2, bits / 2, left - 1,
                        CopyBack(h, Distance(RefPos(src[pos], src[pos + 1]), |h|), RefLen(src[pos + 1])))
  {
    if pos + 1 < |src| { assert src[pos..][2..] == src[pos + 2..]; }
  }

  /** The three statements that output one byte, `h` being the history so far. */
  method Emit(text: array<byte>, r: nat, out: seq<byte>, c: byte, ghost h: seq<byte>)
      returns (r': nat, out': seq<byte>)
    requires text.Length == N && Mirrors(text[..], h) && r == (|h| - F) % N
    modifies text
    ensures out' == out + [c]
    ensures Mirrors(text[..], h + [c]) && r' == (|h + [c]| - F) % N
  {
    hide Mirrors, And;
    out' := out + [c];
    WriteMirrors(text[..], h, c);
    text[r] := c;
    SlotForm(r + 1);
    r' := And(r + 1, N - 1);
  }

  /** The copy loop of a position/length pair. */
  method CopyMatch(text: array<byte>, r: nat, out: seq<byte>, i: nat, j: nat, ghost h: seq<byte>)
      returns (r': nat, out': seq<byte>)
    requires text.Length == N <= |h| && Mirrors(text[..], h) && r == (|h| - F) % N
    modifies text
    ensures var g := CopyBack(h, Distance(i, |h|), j + 1);
            out' == out + g[|h|..] && Mirrors(text[..], g) && r' == (|g| - F) % N
  {
    hide Mirrors, And, CopyBack, Distance;
    r', out' := r, out;
    ghost var d := Distance(i, |h|);
    ghost var g := h;
    for k := 0 to j + 1
      invariant g == CopyBack(h, d, k)
      invariant out' == out + g[|h|..]
      invariant Mirrors(text[..], g) && r' == (|g| - F) % N
    {
      SlotForm(i + k);
      ReadMirrors(text[..], g, i, k);
      CopyBackStep(h, d, k);
      var c := text[And(i + k, N - 1)];
      r', out' := Emit(text, r', out', c, g);
      g := g + [c];
    }
  }

  /** The ring decoder computes the unbounded-history decoding of every input. */
  method LzssDecompress(src: seq<byte>) returns (out: seq<byte>)
    ensures out == Decompressed(src)
  {
    hide Mirrors, Remaining, Register, CopyBack, Distance, RefPos, RefLen;
    hide Decode, DecodeGroup, Blank, And, Or, Shl, Shr;
    var text := new byte[N](_ => 0);
    var r := N - F;
    out := [];
    var pos := 0;
    var flags: nat := 0;
    var n := |src|;
    ghost var h := Blank();
    ghost var bits: nat, left: nat := 0, 0;
    EmptyRegister(src);
    BlankMirrors(text[..]);
    while true
      invariant pos <= n
      invariant |h| >= N && out == h[N..]
      invariant r == (|h| - F) % N
      invariant Mirrors(text[..], h)
      invariant Register(flags, bits, left)
      invariant Remaining(src, pos, bits, left, h)
      decreases n - pos, left
    {
      FlagForms(0, flags);
      RegisterTest(flags, bits, left);
      if And(flags, 0x100) == 0 {
        FlagStep(src, pos, bits, h);
        if pos >= n {
          break;
        }
        FlagForms(src[pos], flags);
        flags := Or(src[pos], 0xFF00);
        RegisterLoad(src[pos]);
        bits, left := src[pos], 8;
        pos := pos + 1;
      }
      FlagForms(0, flags);
      RegisterTest(flags, bits, left);
      if And(flags, 1) != 0 {
        LiteralStep(src, pos, bits, left, h);
        if pos >= n {
          break;
        }
        var c := src[pos];
        pos := pos + 1;
        r, out := Emit(text, r, out, c, h);
        h := h + [c];
      } else {
        RefStep(src, pos, bits, left, h);
        if pos + 1 >= n {
          break;
        }
        RefForms(src[pos], src[pos + 1]);
        var i, j: nat := src[pos], src[pos + 1];
        pos := pos + 2;
        i := Or(i, Shl(And(j, 0xF0), 4));
        j := And(j, 0x0F) + THRESHOLD;
        r, out := CopyMatch(text, r, out, i, j, h);
        h := CopyBack(h, Distance(i, |h|), j + 1);
      }
      flags := Shr(flags, 1);
      bits, left := bits / 2, left - 1;
    }
  }
}
