/** A packfile writer, and what opening its files gives. */
module PackfileFormat {
  import opened Wrappers
  import opened Bits
  import opened Words
  import opened LzssFormat
  import opened Packfile

  /** The body of a packfile: stored as it is, or as LZSS tokens. */
  datatype Content = Stored(data: seq<byte>) | Compressed(tokens: seq<Token>)

  predicate Writable(c: Content) {
    c.Compressed? ==> AllEncodable(c.tokens)
  }

  function Plain(c: Content): seq<byte> {
    if c.Stored? then c.data else Expansion(c.tokens)
  }

  /** The body as it is before the password is applied. */
  function Inner(c: Content): seq<byte>
    requires Writable(c)
  {
    if c.Stored? then c.data else Encode(c.tokens)
  }

  /** Masked magic, then the body under the password. The key starts at the first
      byte of the file, so it has advanced past the header when the body begins. */
  function Pack(pw: Option<seq<byte>>, newFormat: bool, c: Content): seq<byte>
    requires Writable(c)
  {
    var t := Trial(pw, newFormat, c.Compressed?);
    HeaderBound(t);
    var header := BeBytes(Header(t));
    DecipherSplit(header, Inner(c), pw, 0);
    header + Deciphered(header + Inner(c), pw, 0)[4..]
  }

  lemma HeaderBound(t: Trial)
    ensures Header(t) < TWO32
  {
    Pow2Values();
    MaskBound(t.pw, t.newFormat);
    XorBound(Magic(t.packed), Mask(t.pw, t.newFormat), 32);
  }

  // ----- which header variants coincide

  lemma MagicVariants()
    ensures Xor(F_PACK_MAGIC, 42) == 0x736C_680B
    ensures Xor(F_NOPACK_MAGIC, 42) == 0x736C_6804
  {
    hide Xor;
    XorZero(0x73_6C68);
    XorBytes(0x73_6C68, 0x21, 0, 42);
    XorBytes(0x73_6C68, 0x2E, 0, 42);
    LowMagicBits();
  }

  lemma LowMagicBits()
    ensures Xor(0x21, 42) == 0x0B && Xor(0x2E, 42) == 0x04
  {
    XorNibble(2, 1, 2, 10);
    XorNibble(2, 14, 2, 10);
    assert Xor(2, 2) == 0;
    assert Xor(1, 10) == 11;
    assert Xor(14, 10) == 4;
  }

  function FormatBits(newFormat: bool): nat {
    if newFormat then 42 else 0
  }

  lemma HeaderShape(t: Trial)
    requires t.pw.Some? && t.pw.value != []
    ensures Header(t) == Xor(Xor(Magic(t.packed), FormatBits(t.newFormat)), Lanes(t.pw.value))
  {
    var m, f, base := Magic(t.packed), FormatBits(t.newFormat), Lanes(t.pw.value);
    XorZero(m);
    XorComm(base, f);
    XorAssoc(m, f, base);
  }

  /** With a password, the header tells all four variants apart. */
  lemma HeaderDetermines(pw: seq<byte>, t: Trial, u: Trial)
    requires pw != [] && t.pw == u.pw == Some(pw)
    ensures Header(t) == Header(u) <==> t == u
  {
    hide Xor, Header;
    if Header(t) == Header(u) {
      HeaderShape(t);
      HeaderShape(u);
      var a, b := Xor(Magic(t.packed), FormatBits(t.newFormat)), Xor(Magic(u.packed), FormatBits(u.newFormat));
      XorInjective(a, b, Lanes(pw));
      MagicVariants();
      XorZero(F_PACK_MAGIC);
      XorZero(F_NOPACK_MAGIC);
    }
  }

  /** Without one, the format flag leaves no trace but the packed flag does. */
  lemma HeaderWithoutPassword(t: Trial, u: Trial)
    requires t.pw == u.pw && (t.pw.None? || t.pw.value == [])
    ensures Header(t) == Header(u) <==> t.packed == u.packed
  {
    XorZero(F_PACK_MAGIC);
    XorZero(F_NOPACK_MAGIC);
  }

  // ----- opening what was packed

  /** The trial that opens a file: the writer's own, save that an absent or empty
      password reports the new format. */
  function Found(t: Trial): Trial {
    if t.pw.None? || t.pw.value == [] then t.(newFormat := true) else t
  }

  lemma MatchingOne(hdr: nat, t: Trial)
    requires hdr == Header(t)
    ensures var ms := Matching(hdr, Trials([t.pw]));
            ms != [] && ms[0] == Found(t)
            && (t.pw.Some? && t.pw.value != [] ==> ms == [t])
  {
    hide Matching, Header;
    var pw := t.pw;
    var vs := Variants(pw);
    assert Trials([pw]) == vs by { TrialsOfOne(pw); }
    forall k | 0 <= k < 4
      ensures hdr == Header(vs[k]) <==>
              vs[k] == t || ((pw.None? || pw.value == []) && vs[k].packed == t.packed)
    {
      if pw.None? || pw.value == [] {
        HeaderWithoutPassword(vs[k], t);
      } else {
        HeaderDetermines(pw.value, vs[k], t);
      }
    }
    MatchingFour(hdr, vs[0], vs[1], vs[2], vs[3]);
  }

  lemma MatchingFour(hdr: nat, a: Trial, b: Trial, c: Trial, d: Trial)
    ensures Matching(hdr, [a, b, c, d])
            == (if hdr == Header(a) then [a] else []) + (if hdr == Header(b) then [b] else [])
               + (if hdr == Header(c) then [c] else []) + (if hdr == Header(d) then [d] else [])
  {
    hide Matching, Header;
    NothingTried(hdr);
    MatchingStep(hdr, [], a);
    MatchingStep(hdr, [a], b);
    MatchingStep(hdr, [a, b], c);
    MatchingStep(hdr, [a, b, c], d);
    assert [] + [a] == [a] && [a] + [b] == [a, b] && [a, b] + [c] == [a, b, c];
    assert [a, b, c] + [d] == [a, b, c, d];
  }

  lemma BodyOfPack(pw: Option<seq<byte>>, newFormat: bool, c: Content, t: Trial)
    requires Writable(c) && t.pw == pw && t.packed == c.Compressed?
    ensures Body(Pack(pw, newFormat, c)[4..], t) == Plain(c)
  {
    hide Encode, Header, BeBytes, Deciphered;
    HeaderBound(Trial(pw, newFormat, c.Compressed?));
    var header := BeBytes(Header(Trial(pw, newFormat, c.Compressed?)));
    DecipherSplit(header, Inner(c), pw, 0);
    assert Pack(pw, newFormat, c)[4..] == Deciphered(Inner(c), pw, 4);
    DecipherTwice(Inner(c), pw, 4);
    if c.Compressed? { RoundTrip(c.tokens); }
  }

  lemma HeaderOfPack(pw: Option<seq<byte>>, newFormat: bool, c: Content)
    requires Writable(c)
    ensures var raw := Pack(pw, newFormat, c);
            |raw| >= 4 && BeWord(raw[..4]) == Header(Trial(pw, newFormat, c.Compressed?))
  {
    var t := Trial(pw, newFormat, c.Compressed?);
    HeaderBound(t);
    DecipherSplit(BeBytes(Header(t)), Inner(c), pw, 0);
    assert Pack(pw, newFormat, c)[..4] == BeBytes(Header(t));
  }

  /** A file opened with the password it was packed with gives back its body. */
  lemma OpenPack(pw: seq<byte>, newFormat: bool, c: Content)
    requires Writable(c)
    ensures Open(Pack(Some(pw), newFormat, c), Some(pw))
            == Ok(Opened(Plain(c), Found(Trial(Some(pw), newFormat, c.Compressed?))))
  {
    var t := Trial(Some(pw), newFormat, c.Compressed?);
    HeaderOfPack(Some(pw), newFormat, c);
    MatchingOne(Header(t), t);
    BodyOfPack(Some(pw), newFormat, c, Found(t));
  }

  // ----- opening without naming a password

  /** The top lane of a password, which the format flag leaves alone. */
  function TopLane(pw: Option<seq<byte>>): byte {
    if pw.Some? then LaneByte(pw.value, 3) else 0
  }

  lemma TopByteOfXor(a: nat, b: nat)
    ensures Xor(a, b) / 0x100_0000 == Xor(a / 0x100_0000, b / 0x100_0000)
  {
    Pow2Values();
    XorShr(a, b, 24);
    ShrDivides(a, 24);
    ShrDivides(b, 24);
    ShrDivides(Xor(a, b), 24);
  }

  /** The first byte of a header shows the top lane of the password. */
  lemma HeaderTop(t: Trial)
    ensures Header(t) / 0x100_0000 == Xor(0x73, TopLane(t.pw))
  {
    hide Xor;
    TopByteOfXor(Magic(t.packed), Mask(t.pw, t.newFormat));
    if t.pw.Some? && t.pw.value != [] {
      LanesMeaning(t.pw.value);
      TopByteOfXor(Lanes(t.pw.value), 42);
      XorZero(TopLane(t.pw));
    }
  }

  lemma LaneStep(pw: seq<byte>, i: nat)
    requires i < |pw|
    ensures LaneByte(pw[..i + 1], 3)
            == if i % 4 == 3 then XorByte(LaneByte(pw[..i], 3), pw[i]) else LaneByte(pw[..i], 3)
  {
    assert pw[..i + 1][..i] == pw[..i];
  }

  lemma FourthBytes(pw: seq<byte>, i: nat)
    requires i % 4 == 0 && i + 4 <= |pw|
    ensures LaneByte(pw[..i + 4], 3) == Xor(LaneByte(pw[..i], 3), pw[i + 3])
  {
    hide LaneByte, Xor;
    LaneStep(pw, i);
    LaneStep(pw, i + 1);
    LaneStep(pw, i + 2);
    LaneStep(pw, i + 3);
  }

  lemma GameLane()
    ensures TopLane(Some(PW_GAME)) == 69
  {
    hide Xor;
    FourthBytes(PW_GAME, 0);
    XorZero(69);
    assert PW_GAME[..6] == PW_GAME;
    assert PW_GAME[..5][..4] == PW_GAME[..4];
    assert LaneByte(PW_GAME[..5], 3) == LaneByte(PW_GAME[..4], 3);
  }

  /** 32 ^ 101 ^ 110 ^ 68 ^ 103 */
  lemma LoadingLane()
    ensures TopLane(Some(PW_LOADING)) == 8
  {
    hide Xor;
    FourthBytes(PW_LOADING, 0);
    FourthBytes(PW_LOADING, 4);
    FourthBytes(PW_LOADING, 8);
    FourthBytes(PW_LOADING, 12);
    FourthBytes(PW_LOADING, 16);
    assert PW_LOADING[..20] + [110] == PW_LOADING;
    hide LaneByte;
    LoadingBytes();
  }

  lemma LoadingBytes()
    ensures Xor(Xor(Xor(Xor(Xor(0, 32), 101), 110), 68), 103) == 8
  {
    hide Xor;
    XorZero(32);
    XorNibble(2, 0, 6, 5);
    XorNibble(4, 5, 6, 14);
    XorNibble(2, 11, 4, 4);
    XorNibble(6, 15, 6, 7);
    LoadingDigits();
  }

  lemma LoadingDigits()
    ensures Xor(2, 6) == 4 && Xor(0, 5) == 5
    ensures Xor(4, 6) == 2 && Xor(5, 14) == 11
    ensures Xor(2, 4) == 6 && Xor(11, 4) == 15
    ensures Xor(6, 6) == 0 && Xor(15, 7) == 8
  {
    assert Xor(5, 14) == 11;
    assert Xor(11, 4) == 15;
    assert Xor(15, 7) == 8;
  }

  lemma OtherPasswordFails(t: Trial, pw: Option<seq<byte>>)
    requires TopLane(t.pw) != TopLane(pw)
    ensures Matching(Header(t), Variants(pw)) == []
  {
    hide Xor, Matching, Header;
    var vs := Variants(pw);
    forall k | 0 <= k < 4
      ensures Header(vs[k]) != Header(t)
    {
      if Header(vs[k]) == Header(t) {
        HeaderTop(t);
        HeaderTop(vs[k]);
        XorComm(0x73, TopLane(t.pw));
        XorComm(0x73, TopLane(pw));
        XorInjective(TopLane(t.pw), TopLane(pw), 0x73);
      }
    }
    MatchingFour(Header(t), vs[0], vs[1], vs[2], vs[3]);
  }

  lemma {:induction false} MatchingAppend(hdr: nat, a: seq<Trial>, b: seq<Trial>)
    ensures Matching(hdr, a + b) == Matching(hdr, a) + Matching(hdr, b)
  {
    hide Header;
    if b == [] {
      assert a + b == a;
    } else {
      var i := |b| - 1;
      assert (a + b)[..|a + b| - 1] == a + b[..i];
      MatchingAppend(hdr, a, b[..i]);
    }
  }

  lemma TrialsOfOne(pw: Option<seq<byte>>)
    ensures Trials([pw]) == Variants(pw)
  {
    TrialsStep([pw], 0);
    assert [pw][..1] == [pw];
  }

  lemma TrialsOfThree(p: Option<seq<byte>>, q: Option<seq<byte>>, r: Option<seq<byte>>)
    ensures Trials([p, q, r]) == Variants(p) + Variants(q) + Variants(r)
  {
    TrialsStep([p, q, r], 0);
    TrialsStep([p, q, r], 1);
    TrialsStep([p, q, r], 2);
    assert [p, q, r][..3] == [p, q, r];
  }

  /** With no password named, the three the game uses are told apart: a file packed
      with any of them opens to its body and reports the password. */
  lemma OpenPackUnnamed(pw: Option<seq<byte>>, newFormat: bool, c: Content)
    requires Writable(c) && pw in Passwords(None)
    ensures Open(Pack(pw, newFormat, c), None)
            == Ok(Opened(Plain(c), Found(Trial(pw, newFormat, c.Compressed?))))
  {
    hide Matching, Trials, Variants, Header, Body, Pack, LaneByte, BeWord;
    var t := Trial(pw, newFormat, c.Compressed?);
    var hdr := Header(t);
    var vn, vg, vl := Variants(None), Variants(Some(PW_GAME)), Variants(Some(PW_LOADING));
    GameLane();
    LoadingLane();
    TrialsOfThree(None, Some(PW_GAME), Some(PW_LOADING));
    MatchingAppend(hdr, vn + vg, vl);
    MatchingAppend(hdr, vn, vg);
    if pw != None { OtherPasswordFails(t, None); }
    if pw != Some(PW_GAME) { OtherPasswordFails(t, Some(PW_GAME)); }
    if pw != Some(PW_LOADING) { OtherPasswordFails(t, Some(PW_LOADING)); }
    MatchingOne(hdr, t);
    TrialsOfOne(pw);
    HeaderOfPack(pw, newFormat, c);
    BodyOfPack(pw, newFormat, c, Found(t));
  }
}
