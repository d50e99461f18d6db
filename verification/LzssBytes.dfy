/** The LZSS format in numbers: where a reference points, which bytes encode a token,
    and what a stream that is cut short gives. */
module LzssBytes {
  import opened Bits
  import opened Lzss
  import opened LzssFormat

  // ----- what a token adds to the output

  lemma {:induction false} CopyBackReads(h: seq<byte>, dist: nat, len: nat, k: nat)
    requires 1 <= dist <= |h| && |h| <= k < |h| + len
    ensures CopyBack(h, dist, len)[k] == CopyBack(h, dist, len)[k - dist]
    decreases len
  {
    var longer := h + [h[|h| - dist]];
    if k > |h| {
      CopyBackReads(longer, dist, len - 1, k);
    } else {
      var r := CopyBack(longer, dist, len - 1);
      assert r[k] == longer[k] && r[k - dist] == longer[k - dist];
    }
  }

  lemma AppendToken(ts: seq<Token>, t: Token)
    requires AllEncodable(ts) && Encodable(t)
    ensures var h := Expand(ts, Blank());
            |h| >= 4096 && h[4096..] == Expansion(ts) && Blank() == h[..4096]
            && Decompressed(Encode(ts + [t])) == Apply(t, h)[4096..]
  {
    hide Apply, Blank, Encode;
    RoundTrip(ts + [t]);
    ExpandAppend(ts, [t], Blank());
  }

  /** A literal adds its byte. */
  lemma LiteralReads(ts: seq<Token>, b: byte)
    requires AllEncodable(ts)
    ensures Decompressed(Encode(ts + [Literal(b)])) == Decompressed(Encode(ts)) + [b]
  {
    hide Expand, Encode, Blank;
    AppendToken(ts, Literal(b));
    RoundTrip(ts);
    var h := Expand(ts, Blank());
    assert (h + [b])[4096..] == h[4096..] + [b];
  }

  /** A reference d back in an output of n bytes is written as ring position
      (4078 + n - d) mod 4096; each of its bytes is the one d before it in the output,
      or a zero before the output began. */
  lemma ReferenceReads(ts: seq<Token>, d: nat, len: nat, k: nat)
    requires AllEncodable(ts) && 1 <= d <= 4096 && 3 <= len <= 18
    ensures var n := |Expansion(ts)|;
            var out := Decompressed(Encode(ts + [Ref((4078 + n - d) % 4096, len)]));
            |out| == n + len && out[..n] == Expansion(ts)
            && (n <= k < n + len ==> out[k] == if k >= d then out[k - d] else 0)
  {
    hide Encode, Expand, Apply, Decompressed;
    var n := |Expansion(ts)|;
    var t := Ref((4078 + n - d) % 4096, len);
    AppendToken(ts, t);
    CopyReads(Expand(ts, Blank()), n, d, len, k, Decompressed(Encode(ts + [t])));
  }

  lemma CopyReads(h: seq<byte>, n: nat, d: nat, len: nat, k: nat, out: seq<byte>)
    requires |h| == 4096 + n && Blank() == h[..4096] && 1 <= d <= 4096 && 3 <= len <= 18
    requires out == Apply(Ref((4078 + n - d) % 4096, len), h)[4096..]
    ensures |out| == n + len && out[..n] == h[4096..]
    ensures n <= k < n + len ==> out[k] == if k >= d then out[k - d] else 0
  {
    hide CopyBack;
    RingPosition(n, d);
    var r := CopyBack(h, d, len);
    if n <= k < n + len {
      CopyBackReads(h, d, len, 4096 + k);
      if k < d { assert r[4096 + k - d] == h[..4096][4096 + k - d] == 0; }
    }
  }

  lemma RingPosition(n: nat, d: nat)
    requires 1 <= d <= 4096
    ensures Distance((4078 + n - d) % 4096, 4096 + n) == d
  {
    var x := 4078 + n - d;
    var q := x / 4096;
    assert x % 4096 == x - 4096 * q;
    DivUnique(4096 + n - 19 - x % 4096, 4096, q, d - 1);
  }

  // ----- the bytes of a token list

  /** One token behind a flag byte of its own. */
  lemma TokenBytes(t: Token)
    requires Encodable(t)
    ensures Encode([t]) == if t.Literal? then [1, t.b] else [0, t.pos % 256, 16 * (t.pos / 256) + t.len - 3]
  {
    var ts := [t];
    assert ts[..1] == ts && ts[1..] == [];
    assert Payloads(ts) == Payload(t);
    assert Kinds(ts) == if t.Literal? then 1 else 0;
  }

  /** Bit i of the flag byte says whether token i is a literal. */
  lemma FlagBits(ts: seq<Token>, i: nat)
    requires AllEncodable(ts) && ts != [] && i < 8
    ensures Encode(ts) != []
    ensures Encode(ts)[0] / Pow2(i) % 2 == if i < |ts| && ts[i].Literal? then 1 else 0
  {
    hide Kinds, Payloads, Pow2;
    var n := if |ts| < 8 then |ts| else 8;
    FlagByteIsKinds(ts[..n]);
    KindsBit(ts[..n], i);
  }

  lemma {:induction false} KindsBit(ts: seq<Token>, i: nat)
    ensures Kinds(ts) / Pow2(i) % 2 == if i < |ts| && ts[i].Literal? then 1 else 0
  {
    hide Pow2, Kinds;
    Pow2Step(i);
    KindsStep(ts);
    if ts == [] {
      ZeroShare(Pow2(i));
    } else if i > 0 {
      KindsBit(ts[1..], i - 1);
      HalfFirst(Kinds(ts), Pow2(i - 1));
    }
  }

  lemma KindsStep(ts: seq<Token>)
    ensures ts == [] ==> Kinds(ts) == 0
    ensures ts != [] ==> Kinds(ts) / 2 == Kinds(ts[1..]) && Kinds(ts) % 2 == if ts[0].Literal? then 1 else 0
  {
    hide Pow2;
  }

  lemma ZeroShare(p: nat)
    requires p > 0
    ensures 0 / p == 0
  {
  }

  /** Within a group the tokens' bytes follow one another behind the flag byte. */
  lemma GroupGrows(ts: seq<Token>, t: Token)
    requires AllEncodable(ts) && Encodable(t) && 1 <= |ts| < 8
    ensures Encode(ts) != [] && Encode([t]) != [] && Encode(ts + [t]) != []
    ensures Encode(ts + [t])[1..] == Encode(ts)[1..] + Encode([t])[1..]
  {
    hide Kinds, Payload, FlagByte;
    OneGroup(ts);
    OneGroup([t]);
    OneGroup(ts + [t]);
    PayloadsAppend(ts, [t]);
  }

  lemma OneGroup(ts: seq<Token>)
    requires AllEncodable(ts) && 1 <= |ts| <= 8
    ensures Encode(ts) == [FlagByte(ts)] + Payloads(ts)
  {
    hide FlagByte, Payloads;
    assert ts[..|ts|] == ts && ts[|ts|..] == [];
  }

  lemma {:induction false} PayloadsAppend(a: seq<Token>, b: seq<Token>)
    requires AllEncodable(a) && AllEncodable(b)
    ensures Payloads(a + b) == Payloads(a) + Payloads(b)
  {
    hide Payload;
    if a == [] {
      assert a + b == b;
    } else {
      assert (a + b)[1..] == a[1..] + b;
      PayloadsAppend(a[1..], b);
    }
  }

  /** Eight tokens fill a group; the next token begins another. */
  lemma {:induction false} GroupsFollow(a: seq<Token>, b: seq<Token>)
    requires AllEncodable(a) && AllEncodable(b) && |a| % 8 == 0
    ensures Encode(a + b) == Encode(a) + Encode(b)
    decreases |a|
  {
    hide Encode, FlagByte, Payloads, Encodable;
    EncodeSteps(a);
    EncodeSteps(a + b);
    if a == [] {
      assert a + b == b;
    } else {
      assert (a + b)[..8] == a[..8] && (a + b)[8..] == a[8..] + b;
      GroupsFollow(a[8..], b);
    }
  }

  /** A flag byte with nothing behind it, and half a reference, add nothing. */
  lemma CutShort(ts: seq<Token>, flags: byte, i: byte)
    requires AllEncodable(ts) && |ts| % 8 == 0
    ensures Decompressed(Encode(ts) + [flags]) == Expansion(ts)
    ensures flags % 2 == 0 ==> Decompressed(Encode(ts) + [flags, i]) == Expansion(ts)
  {
    hide Expand, Encode;
    DecodeThen(ts, [flags], Blank());
    DecodeThen(ts, [flags, i], Blank());
    CutGroup(flags, i, Expand(ts, Blank()));
  }

  lemma CutGroup(flags: byte, i: byte, h: seq<byte>)
    requires |h| >= 4096
    ensures Decode([flags], h) == h
    ensures flags % 2 == 0 ==> Decode([flags, i], h) == h
  {
    hide CopyBack;
    assert [flags][1..] == [] && [flags, i][1..] == [i];
  }

  /** Whole groups decode before what follows them. */
  lemma {:induction false} DecodeThen(ts: seq<Token>, rest: seq<byte>, h: seq<byte>)
    requires AllEncodable(ts) && |h| >= 4096 && |ts| % 8 == 0
    ensures Decode(Encode(ts) + rest, h) == Decode(rest, Expand(ts, h))
    decreases |ts|
  {
    hide Encode, Payloads, FlagByte, DecodeGroup, Apply, Kinds;
    EncodeSteps(ts);
    if ts == [] {
      assert Encode(ts) + rest == rest;
    } else {
      var g, more := ts[..8], Encode(ts[8..]) + rest;
      var code := Encode(ts) + rest;
      assert code == [FlagByte(g)] + (Payloads(g) + more);
      assert code[1..] == Payloads(g) + more;
      FlagByteIsKinds(g);
      GroupDecodes(g, 8, more, h);
      DecodeThen(ts[8..], rest, Expand(g, h));
      ExpandAppend(g, ts[8..], h);
      assert g + ts[8..] == ts;
    }
  }
}
