/** The stream format the decompressor reads, given by an encoder of tokens, and
    what decompression guarantees about it. */
module LzssFormat {
  import opened Bits
  import opened Lzss

  /** One item of a stream: a byte, or `len` bytes starting at ring position `pos`. */
  datatype Token = Literal(b: byte) | Ref(pos: nat, len: nat)

  predicate Encodable(t: Token) {
    t.Ref? ==> t.pos < N && 3 <= t.len <= 18
  }

  predicate AllEncodable(ts: seq<Token>) {
    forall t :: t in ts ==> Encodable(t)
  }

  /** What one token adds to the history. */
  function Apply(t: Token, h: seq<byte>): (r: seq<byte>)
    requires |h| >= N
    ensures h <= r
  {
    match t
    case Literal(b) => h + [b]
    case Ref(pos, len) => CopyBack(h, Distance(pos, |h|), len)
  }

  /** The meaning of a token list: the history it extends. */
  function Expand(ts: seq<Token>, h: seq<byte>): (r: seq<byte>)
    requires |h| >= N
    ensures h <= r
  {
    if ts == [] then h else Expand(ts[1..], Apply(ts[0], h))
  }

  function Expansion(ts: seq<Token>): seq<byte> {
    Expand(ts, Blank())[N..]
  }

  // ----- the encoder: one flag byte for every eight tokens

  function Payload(t: Token): seq<byte>
    requires Encodable(t)
  {
    match t
    case Literal(b) => [b]
    case Ref(pos, len) => [pos % 256, pos / 256 * 16 + (len - 3)]
  }

  function Payloads(ts: seq<Token>): seq<byte>
    requires AllEncodable(ts)
  {
    if ts == [] then [] else Payload(ts[0]) + Payloads(ts[1..])
  }

  /** The kinds of up to eight tokens, first one in the lowest bit. */
  function Kinds(ts: seq<Token>): (k: nat)
    ensures k < Pow2(|ts|)
  {
    if ts == [] then 0 else (if ts[0].Literal? then 1 else 0) + 2 * Kinds(ts[1..])
  }

  function FlagByte(ts: seq<Token>): byte
    requires |ts| <= 8
  {
    PowersUpTo8(|ts|);
    Kinds(ts)
  }

  lemma FlagByteIsKinds(ts: seq<Token>)
    requires |ts| <= 8
    ensures FlagByte(ts) == Kinds(ts)
  {
  }

  lemma PowersUpTo8(n: nat)
    requires n <= 8
    ensures Pow2(n) <= 256
  {
    assert Pow2(0) == 1 && Pow2(1) == 2 && Pow2(2) == 4 && Pow2(3) == 8 && Pow2(4) == 16;
    assert Pow2(5) == 32 && Pow2(6) == 64 && Pow2(7) == 128 && Pow2(8) == 256;
  }

  function Encode(ts: seq<Token>): seq<byte>
    requires AllEncodable(ts)
  {
    if ts == [] then []
    else
      var n := if |ts| < 8 then |ts| else 8;
      [FlagByte(ts[..n])] + Payloads(ts[..n]) + Encode(ts[n..])
  }

  lemma EncodeSteps(ts: seq<Token>)
    requires AllEncodable(ts)
    ensures ts == [] ==> Encode(ts) == []
    ensures |ts| >= 8 ==> Encode(ts) == [FlagByte(ts[..8])] + Payloads(ts[..8]) + Encode(ts[8..])
  {
    hide FlagByte, Payloads, Encodable;
    if |ts| >= 8 { assert (if |ts| < 8 then |ts| else 8) == 8; }
  }

  // ----- decoding undoes encoding

  lemma {:induction false} ExpandAppend(a: seq<Token>, b: seq<Token>, h: seq<byte>)
    requires |h| >= N
    ensures Expand(a + b, h) == Expand(b, Expand(a, h))
  {
    if a == [] {
      assert a + b == b;
    } else {
      assert (a + b)[1..] == a[1..] + b;
      ExpandAppend(a[1..], b, Apply(a[0], h));
    }
  }

  lemma PayloadDecodes(t: Token, rest: seq<byte>, bits: nat, left: nat, h: seq<byte>)
    requires Encodable(t) && |h| >= N && left > 0
    requires bits % 2 == (if t.Literal? then 1 else 0)
    ensures DecodeGroup(bits, left, Payload(t) + rest, h)
            == DecodeGroup(bits / 2, left - 1, rest, Apply(t, h))
  {
    var src := Payload(t) + rest;
    if t.Literal? {
      assert src[1..] == rest;
    } else {
      assert src[2..] == rest;
      var i, j := src[0], src[1];
      assert j / 16 == t.pos / 256 && j % 16 == t.len - 3;
      assert RefPos(i, j) == t.pos && RefLen(j) == t.len;
    }
  }

  lemma EmptyGroup(left: nat, h: seq<byte>)
    requires |h| >= N && left > 0
    ensures DecodeGroup(0, left, [], h) == Decode([], h)
  {
  }

  lemma LastOfGroup(rest: seq<byte>, h: seq<byte>)
    requires |h| >= N
    ensures DecodeGroup(0, 0, rest, h) == Decode(rest, h)
  {
  }

  /** A group of tokens decodes to its expansion; a group of fewer than `left`
      tokens must end the stream. */
  lemma {:induction false} GroupDecodes(g: seq<Token>, left: nat, rest: seq<byte>, h: seq<byte>)
    requires AllEncodable(g) && |h| >= N
    requires |g| == left || (|g| < left && rest == [])
    ensures DecodeGroup(Kinds(g), left, Payloads(g) + rest, h) == Decode(rest, Expand(g, h))
  {
    hide Decode, Apply, Payload, DecodeGroup;
    if g == [] {
      assert Payloads(g) + rest == rest;
      if left > 0 { EmptyGroup(left, h); }
      LastOfGroup(rest, h);
    } else {
      var t := g[0];
      assert Payloads(g) + rest == Payload(t) + (Payloads(g[1..]) + rest);
      PayloadDecodes(t, Payloads(g[1..]) + rest, Kinds(g), left, h);
      GroupDecodes(g[1..], left - 1, rest, Apply(t, h));
    }
  }

  lemma {:induction false} DecodeEncode(ts: seq<Token>, h: seq<byte>)
    requires AllEncodable(ts) && |h| >= N
    ensures Decode(Encode(ts), h) == Expand(ts, h)
    decreases |ts|
  {
    hide Payloads, FlagByte, DecodeGroup, Apply;
    if ts != [] {
      var n := if |ts| < 8 then |ts| else 8;
      var g, rest := ts[..n], Encode(ts[n..]);
      var code := Encode(ts);
      assert code == [FlagByte(g)] + Payloads(g) + rest;
      assert code[1..] == Payloads(g) + rest;
      assert code[0] == Kinds(g) by { FlagByteIsKinds(g); }
      GroupDecodes(g, 8, rest, h);
      DecodeEncode(ts[n..], Expand(g, h));
      ExpandAppend(g, ts[n..], h);
      assert g + ts[n..] == ts;
    }
  }

  /** Decompressing an encoded token list gives its expansion. */
  lemma RoundTrip(ts: seq<Token>)
    requires AllEncodable(ts)
    ensures Decompressed(Encode(ts)) == Expansion(ts)
  {
    DecodeEncode(ts, Blank());
  }

  function Literals(data: seq<byte>): (ts: seq<Token>)
    ensures AllEncodable(ts) && |ts| == |data|
  {
    seq(|data|, i requires 0 <= i < |data| => Literal(data[i]))
  }

  lemma {:induction false} ExpandLiterals(data: seq<byte>, h: seq<byte>)
    requires |h| >= N
    ensures Expand(Literals(data), h) == h + data
    decreases |data|
  {
    hide Literals, CopyBack;
    LiteralsStep(data);
    if data == [] {
      assert h + [] == h;
    } else {
      var longer := h + [data[0]];
      ExpandLiterals(data[1..], longer);
      assert Apply(Literal(data[0]), h) == longer;
      assert longer + data[1..] == h + data;
    }
  }

  lemma LiteralsStep(data: seq<byte>)
    ensures Literals(data) == if data == [] then [] else [Literal(data[0])] + Literals(data[1..])
  {
  }

  /** Every byte string has an encoding. */
  lemma LiteralEncodingDecodes(data: seq<byte>)
    ensures Decompressed(Encode(Literals(data))) == data
  {
    RoundTrip(Literals(data));
    ExpandLiterals(data, Blank());
    assert (Blank() + data)[N..] == data;
  }

  // ----- every stream decodes to the expansion of some tokens

  function TokensOf(src: seq<byte>): (ts: seq<Token>)
    ensures AllEncodable(ts)
    decreases |src|, 0
  {
    if src == [] then [] else GroupTokens(src[0], 8, src[1..])
  }

  function GroupTokens(bits: nat, left: nat, src: seq<byte>): (ts: seq<Token>)
    ensures AllEncodable(ts)
    decreases |src|, left + 1
  {
    if left == 0 then TokensOf(src)
    else if bits % 2 == 1 then
      if src == [] then [] else [Literal(src[0])] + GroupTokens(bits / 2, left - 1, src[1..])
    else if |src| < 2 then []
    else [Ref(RefPos(src[0], src[1]), RefLen(src[1]))] + GroupTokens(bits / 2, left - 1, src[2..])
  }

  lemma {:induction false} TokensOfMeaning(src: seq<byte>, h: seq<byte>)
    requires |h| >= N
    ensures Decode(src, h) == Expand(TokensOf(src), h)
    decreases |src|, 0
  {
    if src != [] { GroupTokensMeaning(src[0], 8, src[1..], h); }
  }

  lemma {:induction false} GroupTokensMeaning(bits: nat, left: nat, src: seq<byte>, h: seq<byte>)
    requires |h| >= N
    ensures DecodeGroup(bits, left, src, h) == Expand(GroupTokens(bits, left, src), h)
    decreases |src|, left + 1
  {
    hide CopyBack, Distance, RefPos, RefLen, Decode, TokensOf, AllEncodable;
    if left == 0 {
      TokensOfMeaning(src, h);
    } else if bits % 2 == 1 {
      if src != [] {
        var rest := GroupTokens(bits / 2, left - 1, src[1..]);
        GroupTokensMeaning(bits / 2, left - 1, src[1..], h + [src[0]]);
        assert ([Literal(src[0])] + rest)[1..] == rest;
      }
    } else if |src| >= 2 {
      var pos, len := RefPos(src[0], src[1]), RefLen(src[1]);
      var rest := GroupTokens(bits / 2, left - 1, src[2..]);
      GroupTokensMeaning(bits / 2, left - 1, src[2..], CopyBack(h, Distance(pos, |h|), len));
      assert ([Ref(pos, len)] + rest)[1..] == rest;
    }
  }

  /** Decompression loses nothing the format can express: re-encoding the tokens
      of any stream, damaged or truncated, gives a stream of the same content. */
  lemma Canonical(src: seq<byte>)
    ensures Decompressed(Encode(TokensOf(src))) == Decompressed(src)
  {
    TokensOfMeaning(src, Blank());
    RoundTrip(TokensOf(src));
  }

  // ----- output size

  lemma {:induction false} DecodeBound(src: seq<byte>, h: seq<byte>)
    requires |h| >= N
    ensures 17 * (|Decode(src, h)| - |h|) <= 144 * |src|
    decreases |src|, 0
  {
    if src != [] { GroupBound(src[0], 8, src[1..], h); }
  }

  /** Each item of a group may take 18 from the 144 its flag byte earned. */
  lemma {:induction false} GroupBound(bits: nat, left: nat, src: seq<byte>, h: seq<byte>)
    requires |h| >= N
    ensures 17 * (|DecodeGroup(bits, left, src, h)| - |h|) <= 144 * |src| + 18 * left
    decreases |src|, left + 1
  {
    if left == 0 {
      DecodeBound(src, h);
    } else if bits % 2 == 1 {
      if src != [] { GroupBound(bits / 2, left - 1, src[1..], h + [src[0]]); }
    } else if |src| >= 2 {
      GroupBound(bits / 2, left - 1, src[2..],
                 CopyBack(h, Distance(RefPos(src[0], src[1]), |h|), RefLen(src[1])));
    }
  }

  lemma OutputBound(src: seq<byte>)
    ensures 17 * |Decompressed(src)| <= 144 * |src|
  {
    DecodeBound(src, Blank());
  }

  function LongRefs(n: nat): (ts: seq<Token>)
    ensures AllEncodable(ts) && |ts| == n
  {
    seq(n, _ => Ref(0, 18))
  }

  lemma {:induction false} LongRefsSize(n: nat, h: seq<byte>)
    requires |h| >= N
    ensures |Payloads(LongRefs(n))| == 2 * n
    ensures |Expand(LongRefs(n), h)| == |h| + 18 * n
  {
    hide CopyBack, Distance, Encodable;
    if n > 0 {
      var ts := LongRefs(n);
      assert ts[0] == Ref(0, 18) && ts[1..] == LongRefs(n - 1);
      LongRefsSize(n - 1, CopyBack(h, Distance(0, |h|), 18));
    }
  }

  lemma LongRefsSplit(n: nat)
    ensures LongRefs(8 + n)[..8] == LongRefs(8) && LongRefs(8 + n)[8..] == LongRefs(n)
  {
  }

  lemma {:induction false} LongRefsEncoded(m: nat)
    ensures |Encode(LongRefs(8 * m))| == 17 * m
  {
    hide Encode, Payloads, FlagByte, Encodable, LongRefs, Expand;
    EncodeSteps(LongRefs(8 * m));
    if m > 0 {
      LongRefsSplit(8 * (m - 1));
      LongRefsSize(8, Blank());
      LongRefsEncoded(m - 1);
    }
  }

  /** The bound is reached for every whole number of groups. */
  lemma OutputBoundTight(m: nat)
    ensures var src := Encode(LongRefs(8 * m));
            |src| == 17 * m && |Decompressed(src)| == 144 * m
  {
    LongRefsEncoded(m);
    RoundTrip(LongRefs(8 * m));
    LongRefsSize(8 * m, Blank());
  }

  // ----- the decoder is online

  lemma {:induction false} DecodeExtends(a: seq<byte>, b: seq<byte>, h: seq<byte>)
    requires |h| >= N
    ensures Decode(a, h) <= Decode(a + b, h)
    decreases |a|, 0
  {
    if a != [] {
      assert (a + b)[1..] == a[1..] + b;
      GroupExtends(a[0], 8, a[1..], b, h);
    }
  }

  lemma {:induction false} GroupExtends(bits: nat, left: nat, a: seq<byte>, b: seq<byte>, h: seq<byte>)
    requires |h| >= N
    ensures DecodeGroup(bits, left, a, h) <= DecodeGroup(bits, left, a + b, h)
    decreases |a|, left + 1
  {
    hide CopyBack, Distance, RefPos, RefLen, Decode;
    if left == 0 {
      DecodeExtends(a, b, h);
    } else if bits % 2 == 1 {
      if a != [] {
        assert (a + b)[1..] == a[1..] + b;
        GroupExtends(bits / 2, left - 1, a[1..], b, h + [a[0]]);
      }
    } else if |a| >= 2 {
      assert (a + b)[2..] == a[2..] + b;
      GroupExtends(bits / 2, left - 1, a[2..], b,
                   CopyBack(h, Distance(RefPos(a[0], a[1]), |h|), RefLen(a[1])));
    }
  }

  /** More input only ever appends output. */
  lemma PrefixMonotone(a: seq<byte>, b: seq<byte>)
    ensures Decompressed(a) <= Decompressed(a + b)
  {
    DecodeExtends(a, b, Blank());
  }
}
