/** seq_ratio of tools_recon/fingerprint_compare.py: the longest common subsequence
    of two mnemonic lists, by a table filled in place. */
module SeqRatio {
  /** `s` is `a` with some elements left out. */
  ghost predicate Subsequence<T(!new)>(s: seq<T>, a: seq<T>) {
    exists at: seq<int> :: Embedding(s, a, at)
  }

  /** `at` says where in `a` each element of `s` is, in order. */
  ghost predicate Embedding<T>(s: seq<T>, a: seq<T>, at: seq<int>) {
    |at| == |s| &&
    (forall k :: 0 <= k < |s| ==> 0 <= at[k] < |a| && a[at[k]] == s[k]) &&
    (forall j, k :: 0 <= j < k < |s| ==> at[j] < at[k])
  }

  ghost predicate Common<T(!new)>(s: seq<T>, a: seq<T>, b: seq<T>) {
    Subsequence(s, a) && Subsequence(s, b)
  }

  // ----- the recurrence the table is filled by

  function Max(x: nat, y: nat): nat {
    if x >= y then x else y
  }

  /** Entry (i, j) of the table: for the first i of a and the first j of b. */
  function Lcs<T(==)>(a: seq<T>, b: seq<T>, i: nat, j: nat): nat
    requires i <= |a| && j <= |b|
  {
    if i == 0 || j == 0 then 0
    else if a[i - 1] == b[j - 1] then Lcs(a, b, i - 1, j - 1) + 1
    else Max(Lcs(a, b, i - 1, j), Lcs(a, b, i, j - 1))
  }

  function Ratio<T(==)>(a: seq<T>, b: seq<T>): real {
    if a == [] && b == [] then 1.0
    else 2.0 * Lcs(a, b, |a|, |b|) as real / (|a| + |b|) as real
  }

  method SeqRatioOf<T(==)>(a: seq<T>, b: seq<T>) returns (r: real)
    ensures r == Ratio(a, b)
  {
    if a == [] && b == [] {
      return 1.0;
    }
    hide Lcs;
    var n, m := |a|, |b|;
    LcsBorder(a, b);
    if n == 0 || m == 0 {
      return 0.0;
    }
    var dp := new nat[n + 1, m + 1]((_, _) => 0);
    for i := 1 to n + 1
      invariant Filled(dp, a, b, i, 1)
    {
      FillRow(dp, a, b, i);
    }
    var lcs := dp[n, m];
    r := 2.0 * lcs as real / (n + m) as real;
  }

  /** The table is right in column 0 and in all entries before (i, j), row by row. */
  ghost predicate Filled<T>(dp: array2<nat>, a: seq<T>, b: seq<T>, i: nat, j: nat)
    reads dp
  {
    dp.Length0 == |a| + 1 && dp.Length1 == |b| + 1 &&
    forall x, y :: 0 <= x <= |a| && 0 <= y <= |b| && (x < i || (x == i && y < j) || y == 0)
                   ==> dp[x, y] == Lcs(a, b, x, y)
  }

  /** The inner loop. */
  method FillRow<T(==)>(dp: array2<nat>, a: seq<T>, b: seq<T>, i: nat)
    requires 0 < i <= |a| && Filled(dp, a, b, i, 1)
    modifies dp
    ensures Filled(dp, a, b, i + 1, 1)
  {
    hide Lcs;
    for j := 1 to |b| + 1
      invariant Filled(dp, a, b, i, j)
    {
      LcsStep(a, b, i, j);
      if a[i - 1] == b[j - 1] {
        dp[i, j] := dp[i - 1, j - 1] + 1;
      } else {
        dp[i, j] := if dp[i - 1, j] >= dp[i, j - 1] then dp[i - 1, j] else dp[i, j - 1];
      }
    }
  }

  lemma LcsBorder<T>(a: seq<T>, b: seq<T>)
    ensures forall x, y :: 0 <= x <= |a| && 0 <= y <= |b| && (x == 0 || y == 0) ==> Lcs(a, b, x, y) == 0
    ensures |a| == 0 || |b| == 0 ==> (a == [] && b == []) || Ratio(a, b) == 0.0
  {
  }

  lemma LcsStep<T>(a: seq<T>, b: seq<T>, i: nat, j: nat)
    requires 0 < i <= |a| && 0 < j <= |b|
    ensures Lcs(a, b, i, j)
            == if a[i - 1] == b[j - 1] then Lcs(a, b, i - 1, j - 1) + 1
               else if Lcs(a, b, i - 1, j) >= Lcs(a, b, i, j - 1) then Lcs(a, b, i - 1, j)
               else Lcs(a, b, i, j - 1)
  {
  }

  // ----- subsequences and one more element

  lemma EmptyIsSubsequence<T(!new)>(a: seq<T>)
    ensures Subsequence([], a)
  {
    assert Embedding([], a, []);
  }

  lemma NothingInEmpty<T(!new)>(s: seq<T>, a: seq<T>)
    requires a == [] && Subsequence(s, a)
    ensures s == []
  {
    var at :| Embedding(s, a, at);
    NotEmbedded(s, a, at);
  }

  lemma NotEmbedded<T>(s: seq<T>, a: seq<T>, at: seq<int>)
    requires a == []
    ensures s != [] ==> !Embedding(s, a, at)
  {
    if |at| == |s| > 0 {
      var first := at[0];
      assert !(0 <= first < |a|);
    }
  }

  lemma ShortIsSubsequence<T(!new)>(s: seq<T>, a: seq<T>, i: nat)
    requires i <= |a| && Subsequence(s, a[..i])
    ensures Subsequence(s, a)
  {
    var at :| Embedding(s, a[..i], at);
    assert Embedding(s, a, at);
  }

  lemma ExtendBoth<T(!new)>(s: seq<T>, a: seq<T>, x: T)
    requires Subsequence(s, a)
    ensures Subsequence(s + [x], a + [x])
  {
    var at :| Embedding(s, a, at);
    assert Embedding(s + [x], a + [x], at + [|a|]);
  }

  /** A subsequence either uses the last element, as its own last, or not at all. */
  lemma DropLast<T(!new)>(s: seq<T>, a: seq<T>)
    requires Subsequence(s, a) && a != []
    ensures Subsequence(s, a[..|a| - 1])
            || (s != [] && s[|s| - 1] == a[|a| - 1] && Subsequence(s[..|s| - 1], a[..|a| - 1]))
  {
    var at :| Embedding(s, a, at);
    var n := |a| - 1;
    if s == [] {
      EmptyIsSubsequence(a[..n]);
    } else if at[|s| - 1] == n {
      assert Embedding(s[..|s| - 1], a[..n], at[..|s| - 1]);
    } else {
      assert Embedding(s, a[..n], at);
    }
  }

  // ----- the table holds the length of a longest common subsequence

  /** No common subsequence is longer than the entry. */
  lemma {:induction false} LcsIsUpper<T(!new)>(a: seq<T>, b: seq<T>, i: nat, j: nat, s: seq<T>)
    requires i <= |a| && j <= |b| && Common(s, a[..i], b[..j])
    ensures |s| <= Lcs(a, b, i, j)
    decreases i + j
  {
    if i == 0 || j == 0 {
      if i == 0 { NothingInEmpty(s, a[..i]); } else { NothingInEmpty(s, b[..j]); }
    } else {
      var a', b' := a[..i - 1], b[..j - 1];
      assert a[..i][..i - 1] == a' && b[..j][..j - 1] == b';
      DropLast(s, a[..i]);
      DropLast(s, b[..j]);
      if Subsequence(s, a') {
        LcsIsUpper(a, b, i - 1, j, s);
        LcsGrows(a, b, i, j);
      } else if Subsequence(s, b') {
        LcsIsUpper(a, b, i, j - 1, s);
        LcsGrows(a, b, i, j);
      } else {
        LcsIsUpper(a, b, i - 1, j - 1, s[..|s| - 1]);
      }
    }
  }

  /** Entries grow along rows and columns, by at most one. */
  lemma {:induction false} LcsGrows<T(!new)>(a: seq<T>, b: seq<T>, i: nat, j: nat)
    requires 0 < i <= |a| && 0 < j <= |b|
    ensures Lcs(a, b, i - 1, j) <= Lcs(a, b, i, j) <= Lcs(a, b, i - 1, j) + 1
    ensures Lcs(a, b, i, j - 1) <= Lcs(a, b, i, j) <= Lcs(a, b, i, j - 1) + 1
    decreases i + j
  {
    if i > 1 { LcsGrows(a, b, i - 1, j); }
    if j > 1 { LcsGrows(a, b, i, j - 1); }
    if i > 1 && j > 1 { LcsGrows(a, b, i - 1, j - 1); }
  }

  /** Some common subsequence is as long as the entry. */
  lemma {:induction false} LcsIsReached<T(!new)>(a: seq<T>, b: seq<T>, i: nat, j: nat) returns (s: seq<T>)
    requires i <= |a| && j <= |b|
    ensures Common(s, a[..i], b[..j]) && |s| == Lcs(a, b, i, j)
    decreases i + j
  {
    if i == 0 || j == 0 {
      s := [];
      EmptyIsSubsequence(a[..i]);
      EmptyIsSubsequence(b[..j]);
    } else {
      var a', b' := a[..i - 1], b[..j - 1];
      assert a[..i] == a' + [a[i - 1]] && b[..j] == b' + [b[j - 1]];
      if a[i - 1] == b[j - 1] {
        var t := LcsIsReached(a, b, i - 1, j - 1);
        s := t + [a[i - 1]];
        ExtendBoth(t, a', a[i - 1]);
        ExtendBoth(t, b', b[j - 1]);
      } else if Lcs(a, b, i - 1, j) >= Lcs(a, b, i, j - 1) {
        s := LcsIsReached(a, b, i - 1, j);
        assert a[..i][..i - 1] == a';
        ShortIsSubsequence(s, a[..i], i - 1);
      } else {
        s := LcsIsReached(a, b, i, j - 1);
        assert b[..j][..j - 1] == b';
        ShortIsSubsequence(s, b[..j], j - 1);
      }
    }
  }

  ghost predicate Longest<T(!new)>(n: nat, a: seq<T>, b: seq<T>) {
    (exists s :: Common(s, a, b) && |s| == n) && forall s :: Common(s, a, b) ==> |s| <= n
  }

  /** The last entry is the length of a longest common subsequence. */
  lemma LcsIsLongest<T(!new)>(a: seq<T>, b: seq<T>)
    ensures Longest(Lcs(a, b, |a|, |b|), a, b)
  {
    hide Lcs, Common;
    assert a[..|a|] == a && b[..|b|] == b;
    var s := LcsIsReached(a, b, |a|, |b|);
    assert Common(s, a, b) && |s| == Lcs(a, b, |a|, |b|);
    forall t | Common(t, a, b)
      ensures |t| <= Lcs(a, b, |a|, |b|)
    {
      LcsIsUpper(a, b, |a|, |b|, t);
    }
  }

  // ----- the ratio

  /** The ratio is twice the length of a longest common subsequence over both lengths. */
  lemma RatioMeaning<T(!new)>(a: seq<T>, b: seq<T>, n: nat)
    requires (a != [] || b != []) && Longest(n, a, b)
    ensures Ratio(a, b) * (|a| + |b|) as real == (2 * n) as real
  {
    hide Lcs, Common;
    LcsIsLongest(a, b);
    var s :| Common(s, a, b) && |s| == n;
    var t :| Common(t, a, b) && |t| == Lcs(a, b, |a|, |b|);
    QuotientTimes(2.0 * n as real, (|a| + |b|) as real);
  }

  lemma QuotientTimes(x: real, y: real)
    requires y != 0.0
    ensures x / y * y == x
  {
  }

  lemma RatioSymmetric<T(!new)>(a: seq<T>, b: seq<T>)
    ensures Ratio(a, b) == Ratio(b, a)
  {
    LcsIsLongest(a, b);
    LcsIsLongest(b, a);
    var s :| Common(s, a, b) && |s| == Lcs(a, b, |a|, |b|);
    var t :| Common(t, b, a) && |t| == Lcs(b, a, |b|, |a|);
    assert Common(s, b, a) && Common(t, a, b);
  }

  /** A subsequence is no longer than the whole, and as long only if it is all of it. */
  lemma {:induction false} SubsequenceSize<T(!new)>(s: seq<T>, a: seq<T>)
    requires Subsequence(s, a)
    ensures |s| <= |a| && (|s| == |a| ==> s == a)
    decreases |a|
  {
    if a == [] {
      NothingInEmpty(s, a);
    } else {
      var n := |a| - 1;
      DropLast(s, a);
      if Subsequence(s, a[..n]) {
        SubsequenceSize(s, a[..n]);
      } else {
        var k := |s| - 1;
        SubsequenceSize(s[..k], a[..n]);
        assert s == s[..k] + [s[k]] && a == a[..n] + [a[n]];
      }
    }
  }

  lemma WholeIsSubsequence<T(!new)>(a: seq<T>)
    ensures Subsequence(a, a)
  {
    assert Embedding(a, a, seq(|a|, i => i));
  }

  lemma LcsAtMost<T(!new)>(a: seq<T>, b: seq<T>)
    ensures Lcs(a, b, |a|, |b|) <= |a| && Lcs(a, b, |a|, |b|) <= |b|
    ensures a != b ==> 2 * Lcs(a, b, |a|, |b|) < |a| + |b|
    ensures a == b ==> Lcs(a, b, |a|, |b|) == |a|
  {
    LcsIsLongest(a, b);
    var s :| Common(s, a, b) && |s| == Lcs(a, b, |a|, |b|);
    SubsequenceSize(s, a);
    SubsequenceSize(s, b);
    if a == b {
      WholeIsSubsequence(a);
      assert Common(a, a, b);
    }
  }

  /** The ratio lies between 0 and 1, and is 1 exactly for equal lists. */
  lemma RatioRange<T(!new)>(a: seq<T>, b: seq<T>)
    ensures 0.0 <= Ratio(a, b) <= 1.0
    ensures Ratio(a, b) == 1.0 <==> a == b
  {
    LcsAtMost(a, b);
    if a != [] || b != [] {
      QuotientRange(2.0 * Lcs(a, b, |a|, |b|) as real, (|a| + |b|) as real);
    }
  }

  lemma QuotientRange(x: real, y: real)
    requires 0.0 <= x <= y && y > 0.0
    ensures 0.0 <= x / y <= 1.0 && (x / y == 1.0 <==> x == y)
  {
    var q := x / y;
    assert q * y == x;
  }
}
