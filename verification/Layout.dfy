/** Where a run of bytes stands in a file. */
module Layout {
  import opened Bits
  import opened Words

  /** Python's s[lo:hi] for bounds that are not negative: it stops at the end of s. */
  function Slice<T>(s: seq<T>, lo: nat, hi: nat): seq<T> {
    var end := if hi < |s| then hi else |s|;
    if lo >= end then [] else s[lo..end]
  }

  /** The elements from lo up to hi, as far as there are any. */
  lemma SliceMeaning<T>(s: seq<T>, lo: nat, hi: nat, i: nat)
    ensures i < |Slice(s, lo, hi)| <==> lo + i < hi && lo + i < |s|
    ensures i < |Slice(s, lo, hi)| ==> Slice(s, lo, hi)[i] == s[lo + i]
  {
  }

  /** `s` stands at position p of b. */
  predicate At(b: seq<byte>, p: nat, s: seq<byte>) {
    p + |s| <= |b| && b[p..p + |s|] == s
  }

  lemma AtSplit(b: seq<byte>, p: nat, s: seq<byte>, t: seq<byte>)
    requires At(b, p, s + t)
    ensures At(b, p, s) && At(b, p + |s|, t)
  {
    var whole := b[p..p + |s + t|];
    assert b[p..p + |s|] == whole[..|s|];
    assert b[p + |s|..p + |s| + |t|] == whole[|s|..];
  }

  lemma AtJoin(b: seq<byte>, p: nat, s: seq<byte>, t: seq<byte>)
    requires At(b, p, s) && At(b, p + |s|, t)
    ensures At(b, p, s + t)
  {
    assert b[p..p + |s + t|] == b[p..p + |s|] + b[p + |s|..p + |s| + |t|];
  }

  lemma AtBoth(b: seq<byte>, p: nat, s: seq<byte>, t: seq<byte>)
    ensures At(b, p, s + t) <==> At(b, p, s) && At(b, p + |s|, t)
  {
    if At(b, p, s + t) { AtSplit(b, p, s, t); }
    if At(b, p, s) && At(b, p + |s|, t) { AtJoin(b, p, s, t); }
  }

  /** The little-endian word at position p. */
  function WordAt(b: seq<byte>, p: nat): word
    requires p + 4 <= |b|
  {
    LeWord(b[p..p + 4])
  }

  function WordsAt(b: seq<byte>, p: nat, n: nat): (ws: seq<word>)
    requires p + 4 * n <= |b|
    ensures |ws| == n
  {
    seq(n, i requires 0 <= i < n => WordAt(b, p + 4 * i))
  }

  function LeAll(ws: seq<word>): (b: seq<byte>)
    ensures |b| == 4 * |ws|
  {
    if ws == [] then [] else LeBytes(ws[0]) + LeAll(ws[1..])
  }

  /** Words written at p are the words read there, and only they. */
  lemma {:induction false} WordsRoundTrip(b: seq<byte>, p: nat, ws: seq<word>)
    requires p + 4 * |ws| <= |b|
    ensures At(b, p, LeAll(ws)) <==> WordsAt(b, p, |ws|) == ws
    decreases |ws|
  {
    hide LeWord, LeBytes;
    if ws != [] {
      var rest := ws[1..];
      WordsRoundTrip(b, p + 4, rest);
      var read := WordsAt(b, p, |ws|);
      assert read[1..] == WordsAt(b, p + 4, |rest|);
      BytesAreCanonical(b[p..p + 4]);
      if At(b, p, LeAll(ws)) {
        AtSplit(b, p, LeBytes(ws[0]), LeAll(rest));
        assert read == [read[0]] + read[1..];
      }
      if read == ws {
        AtJoin(b, p, LeBytes(ws[0]), LeAll(rest));
      }
    }
  }
}
