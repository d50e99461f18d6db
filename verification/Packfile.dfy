/** open_packfile of tools_recon/assets_datafile.py on the bytes of a file: the
    masked magic, the password stream and the optional compression. */
module Packfile {
  import opened Wrappers
  import opened Bits
  import opened Words
  import Lzss

  const F_PACK_MAGIC: word := 0x736C6821
  const F_NOPACK_MAGIC: word := 0x736C682E

  /** "CHEESE" and "(c) Free Lunch Design" in Latin-1. */
  const PW_GAME: seq<byte> := [67, 72, 69, 69, 83, 69]
  const PW_LOADING: seq<byte> :=
    [40, 99, 41, 32, 70, 114, 101, 101, 32, 76, 117, 110, 99, 104, 32, 68, 101, 115, 105, 103, 110]

  /** A password, a header format and a magic to try them with. */
  datatype Trial = Trial(pw: Option<seq<byte>>, newFormat: bool, packed: bool)

  datatype Opened = Opened(body: seq<byte>, how: Trial)

  /** struct.error on a header of fewer than four bytes; ValueError on no match. */
  datatype Error = ShortHeader | NoMagic

  // ----- the header mask

  /** The exclusive or of the password bytes, each moved to byte lane i mod 4. */
  function Lanes(pw: seq<byte>): nat {
    if pw == [] then 0
    else
      var i := |pw| - 1;
      Xor(Lanes(pw[..i]), Shl(pw[i], i % 4 * 8))
  }

  function Mask(pw: Option<seq<byte>>, newFormat: bool): nat {
    if pw.None? || pw.value == [] then 0
    else if newFormat then Xor(Lanes(pw.value), 42) else Lanes(pw.value)
  }

  lemma MaskBound(pw: Option<seq<byte>>, newFormat: bool)
    ensures Mask(pw, newFormat) < TWO32 == Pow2(32)
  {
    hide Xor;
    Pow2Values();
    if pw.Some? {
      LanesMeaning(pw.value);
      XorBound(Lanes(pw.value), 42, 32);
    }
  }

  lemma LanesStep(pw: seq<byte>, i: nat)
    ensures Lanes([]) == 0
    ensures i < |pw| ==> Lanes(pw[..i + 1]) == Xor(Lanes(pw[..i]), Shl(pw[i], i % 4 * 8))
  {
    if i < |pw| { assert pw[..i + 1][..i] == pw[..i]; }
  }

  lemma MaskForms(pw: Option<seq<byte>>)
    ensures pw.None? || pw.value == [] ==> forall nf :: Mask(pw, nf) == 0
    ensures pw.Some? && pw.value != [] ==>
              Mask(pw, true) == Xor(Lanes(pw.value), 42) && Mask(pw, false) == Lanes(pw.value)
  {
  }

  lemma LaneForm(i: nat)
    ensures And(i, 3) == i % 4
  {
    Pow2Values();
    AndLow(i, 2);
  }

  method EncryptMask(password: Option<seq<byte>>, newFormat: bool) returns (mask: nat)
    ensures mask == Mask(password, newFormat)
  {
    hide *;
    MaskForms(password);
    if password.None? || password.value == [] {
      return 0;
    }
    LanesStep([], 0);
    var pw := password.value;
    mask := 0;
    for i := 0 to |pw|
      invariant mask == Lanes(pw[..i])
    {
      LaneForm(i);
      LanesStep(pw, i);
      mask := Xor(mask, Shl(pw[i], And(i, 3) * 8));
    }
    assert pw[..|pw|] == pw;
    if newFormat {
      mask := Xor(mask, 42);
    }
    MaskBound(password, newFormat);
    WordForm(mask);
    mask := And(mask, 0xFFFF_FFFF);
  }

  /** Lane k on its own: the exclusive or of the bytes at positions k, k + 4, ... */
  function LaneByte(pw: seq<byte>, k: nat): byte {
    if pw == [] then 0
    else
      var i := |pw| - 1;
      if i % 4 == k then XorByte(LaneByte(pw[..i], k), pw[i]) else LaneByte(pw[..i], k)
  }

  function XorByte(a: byte, b: byte): (c: byte)
    ensures c == Xor(a, b)
  {
    assert Pow2(8) == 256;
    XorBound(a, b, 8);
    Xor(a, b)
  }

  function LaneWord(pw: seq<byte>): word {
    BeWord([LaneByte(pw, 3), LaneByte(pw, 2), LaneByte(pw, 1), LaneByte(pw, 0)])
  }

  lemma XorIntoLane(b: seq<byte>, c: byte, k: nat)
    requires |b| == 4 && k < 4
    ensures Xor(BeWord(b), Shl(c, k * 8)) == BeWord(b[3 - k := XorByte(b[3 - k], c)])
  {
    hide Xor;
    var b0: int, b1: int, b2: int, b3: int := b[0], b[1], b[2], b[3];
    var w := [0, 0, 0, 0][3 - k := c];
    ShlTimes(c, k * 8);
    Pow2Values();
    assert Shl(c, k * 8) == BeWord(w);
    XorBytes(b0 * 0x1_0000 + b1 * 0x100 + b2, b3, w[0] as int * 0x1_0000 + w[1] as int * 0x100 + w[2], w[3]);
    XorBytes(b0 * 0x100 + b1, b2, w[0] as int * 0x100 + w[1], w[2]);
    XorBytes(b0, b1, w[0], w[1]);
    XorZero(b0);
    XorZero(b1);
    XorZero(b2);
    XorZero(b3);
  }

  /** The mask is its four lanes side by side. */
  lemma {:induction false} LanesMeaning(pw: seq<byte>)
    ensures Lanes(pw) == LaneWord(pw)
  {
    if pw == [] {
    } else {
      var i := |pw| - 1;
      var q := pw[..i];
      LanesMeaning(q);
      XorIntoLane([LaneByte(q, 3), LaneByte(q, 2), LaneByte(q, 1), LaneByte(q, 0)], pw[i], i % 4);
    }
  }

  // ----- the password stream

  function KeyAt(pw: seq<byte>, i: nat): byte
    requires pw != []
  {
    pw[i % |pw|]
  }

  /** `data` under the repeating key, starting `phase` bytes into it. */
  function XorStream(data: seq<byte>, pw: seq<byte>, phase: nat): (r: seq<byte>)
    requires pw != []
    ensures |r| == |data|
  {
    seq(|data|, i requires 0 <= i < |data| => XorByte(data[i], KeyAt(pw, i + phase)))
  }

  method DecryptStream(data: seq<byte>, password: Option<seq<byte>>, phase: nat) returns (r: seq<byte>)
    ensures r == Deciphered(data, password, phase)
  {
    if password.None? || password.value == [] {
      return data;
    }
    var pw := password.value;
    var out := new byte[|data|](i requires 0 <= i < |data| => data[i]);
    var n := |pw|;
    for i := 0 to out.Length
      invariant forall k :: 0 <= k < i ==> out[k] == XorStream(data, pw, phase)[k]
      invariant forall k :: i <= k < |data| ==> out[k] == data[k]
    {
      out[i] := XorByte(out[i], pw[(i + phase) % n]);
    }
    r := out[..];
  }

  function Deciphered(data: seq<byte>, password: Option<seq<byte>>, phase: nat): seq<byte> {
    if password.None? || password.value == [] then data
    else XorStream(data, password.value, phase)
  }

  /** The cipher is its own inverse. */
  lemma DecipherTwice(data: seq<byte>, password: Option<seq<byte>>, phase: nat)
    ensures Deciphered(Deciphered(data, password, phase), password, phase) == data
  {
    if password.Some? && password.value != [] {
      var pw := password.value;
      var once := XorStream(data, pw, phase);
      forall i | 0 <= i < |data|
        ensures XorStream(once, pw, phase)[i] == data[i]
      {
        XorCancel(data[i], KeyAt(pw, i + phase));
      }
    }
  }

  /** Why the body starts at phase 4: the key runs on across a split of the file. */
  lemma DecipherSplit(a: seq<byte>, b: seq<byte>, password: Option<seq<byte>>, phase: nat)
    ensures Deciphered(a + b, password, phase)
            == Deciphered(a, password, phase) + Deciphered(b, password, phase + |a|)
    ensures |Deciphered(a, password, phase)| == |a|
  {
    if password.Some? && password.value != [] {
      var pw := password.value;
      var whole, tail := XorStream(a + b, pw, phase), XorStream(b, pw, phase + |a|);
      forall i | |a| <= i < |a + b|
        ensures whole[i] == tail[i - |a|]
      {
        assert (a + b)[i] == b[i - |a|] && i + phase == i - |a| + (phase + |a|);
      }
    }
  }

  // ----- finding the magic

  function Magic(packed: bool): word {
    if packed then F_PACK_MAGIC else F_NOPACK_MAGIC
  }

  function Header(t: Trial): nat {
    Xor(Magic(t.packed), Mask(t.pw, t.newFormat))
  }

  /** The header variants of one password, in the order they are tried. */
  function Variants(pw: Option<seq<byte>>): seq<Trial> {
    [Trial(pw, true, true), Trial(pw, true, false), Trial(pw, false, true), Trial(pw, false, false)]
  }

  function Trials(pws: seq<Option<seq<byte>>>): seq<Trial> {
    if pws == [] then []
    else
      var i := |pws| - 1;
      Trials(pws[..i]) + Variants(pws[i])
  }

  function Matching(hdr: nat, ts: seq<Trial>): seq<Trial> {
    if ts == [] then []
    else
      var i := |ts| - 1;
      Matching(hdr, ts[..i]) + (if hdr == Header(ts[i]) then [ts[i]] else [])
  }

  function Passwords(password: Option<seq<byte>>): seq<Option<seq<byte>>> {
    if password.Some? then [password] else [None, Some(PW_GAME), Some(PW_LOADING)]
  }

  function Body(rest: seq<byte>, t: Trial): seq<byte> {
    var plain := Deciphered(rest, t.pw, 4);
    if t.packed then Lzss.Decompressed(plain) else plain
  }

  /** What opening a file gives: the first trial whose header is the file's. */
  function Open(raw: seq<byte>, password: Option<seq<byte>>): Result<Opened, Error> {
    if |raw| < 4 then Err(ShortHeader)
    else
      var cands := Matching(BeWord(raw[..4]), Trials(Passwords(password)));
      if cands == [] then Err(NoMagic)
      else Ok(Opened(Body(raw[4..], cands[0]), cands[0]))
  }

  lemma TrialsStep(pws: seq<Option<seq<byte>>>, p: nat)
    requires p < |pws|
    ensures Trials(pws[..p + 1]) == Trials(pws[..p]) + Variants(pws[p])
  {
    assert pws[..p + 1][..p] == pws[..p];
  }

  lemma MatchingStep(hdr: nat, ts: seq<Trial>, t: Trial)
    ensures Matching(hdr, ts + [t]) == Matching(hdr, ts) + (if hdr == Header(t) then [t] else [])
  {
    assert (ts + [t])[..|ts|] == ts;
  }

  /** The two inner loops: the four header variants of one password. */
  method TryPassword(hdr: nat, pw: Option<seq<byte>>, before: seq<Trial>, ghost tried: seq<Trial>)
      returns (cands: seq<Trial>)
    requires before == Matching(hdr, tried)
    ensures cands == Matching(hdr, tried + Variants(pw))
  {
    hide Matching, Trials, Mask, And, Xor, Shl;
    cands := before;
    ghost var seen: seq<Trial> := [];
    assert tried + seen == tried;
    for f := 0 to 2
      invariant cands == Matching(hdr, tried + seen)
      invariant seen == Variants(pw)[..2 * f]
    {
      var nf := [true, false][f];
      for m := 0 to 2
        invariant cands == Matching(hdr, tried + seen)
        invariant seen == Variants(pw)[..2 * f + m]
      {
        var (magic, packed) := [(F_PACK_MAGIC, true), (F_NOPACK_MAGIC, false)][m];
        var mask := EncryptMask(pw, nf);
        var t := Trial(pw, nf, packed);
        MatchingStep(hdr, tried + seen, t);
        assert tried + seen + [t] == tried + (seen + [t]);
        if hdr == Xor(magic, mask) {
          cands := cands + [t];
        }
        seen := seen + [t];
      }
    }
    assert seen == Variants(pw);
  }

  method OpenPackfile(raw: seq<byte>, password: Option<seq<byte>>) returns (r: Result<Opened, Error>)
    ensures r == Open(raw, password)
  {
    if |raw| < 4 {
      return Err(ShortHeader);
    }
    hide Matching, Trials, BeWord;
    var hdr := BeWord(raw[..4]);
    var pws := Passwords(password);
    var cands: seq<Trial> := [];
    NothingTried(hdr);
    for p := 0 to |pws|
      invariant cands == Matching(hdr, Trials(pws[..p]))
    {
      TrialsStep(pws, p);
      cands := TryPassword(hdr, pws[p], cands, Trials(pws[..p]));
    }
    assert pws[..|pws|] == pws;
    if cands == [] {
      return Err(NoMagic);
    }
    var t := cands[0];
    var body := raw[4..];
    if t.pw.Some? && t.pw.value != [] {
      body := DecryptStream(body, t.pw, 4);
    }
    if t.packed {
      body := Lzss.LzssDecompress(body);
    }
    return Ok(Opened(body, t));
  }

  lemma NothingTried(hdr: nat)
    ensures Trials([]) == [] && Matching(hdr, []) == []
  {
  }
}
