/** sanitize_token of carrier/gen/gen_assets.py. */
module AssetNames {
  predicate IsDigit(c: char) {
    '0' <= c <= '9'
  }

  predicate IsLetter(c: char) {
    'A' <= c <= 'Z' || 'a' <= c <= 'z'
  }

  /** [A-Za-z0-9_] */
  predicate IsWord(c: char) {
    IsLetter(c) || IsDigit(c) || c == '_'
  }

  function UpperChar(c: char): char {
    if 'a' <= c <= 'z' then (c as int - 32) as char else c
  }

  /** upper, on the characters that can occur where it is used. */
  function Upper(s: string): (t: string)
    ensures |t| == |s|
  {
    seq(|s|, i requires 0 <= i < |s| => UpperChar(s[i]))
  }

  function SkipRun(s: string, p: char -> bool): (t: string)
    ensures |t| <= |s| && (t != [] ==> !p(t[0]))
  {
    if s != [] && p(s[0]) then SkipRun(s[1..], p) else s
  }

  /** re.sub of a `+` class by "_": every longest run becomes one underscore. */
  function ReplaceRuns(s: string, p: char -> bool): string
    decreases |s|
  {
    if s == [] then []
    else if p(s[0]) then ['_'] + ReplaceRuns(SkipRun(s[1..], p), p)
    else [s[0]] + ReplaceRuns(s[1..], p)
  }

  function StripLeft(s: string): (t: string)
    ensures |t| <= |s|
  {
    if s != [] && s[0] == '_' then StripLeft(s[1..]) else s
  }

  function StripRight(s: string): (t: string)
    ensures |t| <= |s|
  {
    if s != [] && s[|s| - 1] == '_' then StripRight(s[..|s| - 1]) else s
  }

  /** Where the digits at the end begin. */
  function DigitsFrom(s: string): (k: nat)
    ensures k <= |s| && (forall i :: k <= i < |s| ==> IsDigit(s[i])) && (k > 0 ==> !IsDigit(s[k - 1]))
  {
    if s != [] && IsDigit(s[|s| - 1]) then DigitsFrom(s[..|s| - 1]) else |s|
  }

  /** A number at the end, right behind a letter. */
  predicate NumberedLetter(s: string) {
    var k := DigitsFrom(s);
    0 < k < |s| && s[k - 1] != '_'
  }

  function SplitNumber(s: string): string {
    if NumberedLetter(s) then s[..DigitsFrom(s)] + "_" + s[DigitsFrom(s)..] else s
  }

  function SanitizeToken(name: string): string {
    var s := Upper(ReplaceRuns(name, c => !IsWord(c)));
    SplitNumber(StripRight(StripLeft(ReplaceRuns(s, c => c == '_'))))
  }

  // ----- what a sanitized token looks like

  predicate IsTokenChar(c: char) {
    'A' <= c <= 'Z' || '0' <= c <= '9' || c == '_'
  }

  predicate TokenChars(s: string) {
    forall i :: 0 <= i < |s| ==> IsTokenChar(s[i])
  }

  /** No two underscores in a row. */
  predicate Single(s: string) {
    forall i :: 0 < i < |s| ==> s[i - 1] != '_' || s[i] != '_'
  }

  predicate Bare(s: string) {
    s != [] ==> s[0] != '_' && s[|s| - 1] != '_'
  }

  /** Upper-case letters, digits and single inner underscores. */
  predicate Token(s: string) {
    TokenChars(s) && Single(s) && Bare(s)
  }

  lemma {:induction false} RunsToWords(s: string)
    ensures forall c :: c in ReplaceRuns(s, c => !IsWord(c)) ==> IsWord(c)
    decreases |s|
  {
    var p := c => !IsWord(c);
    if s != [] {
      if p(s[0]) { RunsToWords(SkipRun(s[1..], p)); } else { RunsToWords(s[1..]); }
    }
  }

  lemma {:induction false} CollapseIsSingle(s: string)
    requires TokenChars(s)
    ensures var t := ReplaceRuns(s, c => c == '_');
            TokenChars(t) && Single(t) && (t != [] ==> s != [] && t[0] == s[0])
    decreases |s|
  {
    var p := c => c == '_';
    var t := ReplaceRuns(s, p);
    if s != [] {
      if p(s[0]) {
        var rest := SkipRun(s[1..], p);
        SkipKeeps(s[1..], p);
        CollapseIsSingle(rest);
        assert t == ['_'] + ReplaceRuns(rest, p);
      } else {
        CollapseIsSingle(s[1..]);
        assert t == [s[0]] + ReplaceRuns(s[1..], p);
      }
    }
  }

  lemma {:induction false} SkipKeeps(s: string, p: char -> bool)
    requires TokenChars(s)
    ensures TokenChars(SkipRun(s, p))
  {
    if s != [] && p(s[0]) { SkipKeeps(s[1..], p); }
  }

  lemma {:induction false} StripLeftKeeps(s: string)
    requires TokenChars(s) && Single(s)
    ensures var t := StripLeft(s);
            TokenChars(t) && Single(t) && (t != [] ==> t[0] != '_')
  {
    if s != [] && s[0] == '_' { StripLeftKeeps(s[1..]); }
  }

  lemma {:induction false} StripRightKeeps(s: string)
    requires TokenChars(s) && Single(s) && (s != [] ==> s[0] != '_')
    ensures Token(StripRight(s))
  {
    if s != [] && s[|s| - 1] == '_' { StripRightKeeps(s[..|s| - 1]); }
  }

  lemma {:induction false} DigitsFromUnique(s: string, k: nat)
    requires k <= |s| && (forall i :: k <= i < |s| ==> IsDigit(s[i])) && (k > 0 ==> !IsDigit(s[k - 1]))
    ensures DigitsFrom(s) == k
  {
    if k < |s| { DigitsFromUnique(s[..|s| - 1], k); }
  }

  lemma InsertUnderscore(s: string, k: nat)
    requires Token(s) && 0 < k < |s| && s[k - 1] != '_' && s[k] != '_'
    ensures Token(s[..k] + "_" + s[k..])
  {
    var t := s[..k] + ['_'] + s[k..];
    assert forall i :: 0 <= i < k ==> t[i] == s[i];
    assert forall i :: k < i < |t| ==> t[i] == s[i - 1];
    assert TokenChars(t);
    forall i | 0 < i < |t|
      ensures t[i - 1] != '_' || t[i] != '_'
    {
      if i < k {
        assert s[i - 1] != '_' || s[i] != '_';
      } else if i > k + 1 {
        assert s[i - 2] != '_' || s[i - 1] != '_';
      }
    }
  }

  lemma SplitNumberKeeps(s: string)
    requires Token(s)
    ensures Token(SplitNumber(s)) && !NumberedLetter(SplitNumber(s))
  {
    hide Token;
    if NumberedLetter(s) {
      var k := DigitsFrom(s);
      var t := s[..k] + ['_'] + s[k..];
      assert IsDigit(s[k]);
      InsertUnderscore(s, k);
      forall i | k + 1 <= i < |t|
        ensures IsDigit(t[i])
      {
        assert t[i] == s[i - 1];
      }
      DigitsFromUnique(t, k + 1);
    }
  }

  lemma UpperOfWord(c: char)
    requires IsWord(c)
    ensures IsTokenChar(UpperChar(c))
  {
    if 'a' <= c <= 'z' { assert 'A' <= UpperChar(c) <= 'Z'; }
  }

  lemma SanitizeGivesToken(name: string)
    ensures Token(SanitizeToken(name)) && !NumberedLetter(SanitizeToken(name))
  {
    var words := ReplaceRuns(name, c => !IsWord(c));
    RunsToWords(name);
    var s := Upper(words);
    forall i | 0 <= i < |s|
      ensures IsTokenChar(s[i])
    {
      assert words[i] in words;
      UpperOfWord(words[i]);
    }
    CollapseIsSingle(s);
    StripLeftKeeps(ReplaceRuns(s, c => c == '_'));
    StripRightKeeps(StripLeft(ReplaceRuns(s, c => c == '_')));
    SplitNumberKeeps(StripRight(StripLeft(ReplaceRuns(s, c => c == '_'))));
  }

  // ----- and that sanitizing again changes nothing

  lemma {:induction false} NoRuns(s: string)
    requires TokenChars(s)
    ensures ReplaceRuns(s, c => !IsWord(c)) == s
  {
    if s != [] { NoRuns(s[1..]); }
  }

  lemma {:induction false} NoDoubles(s: string)
    requires Single(s)
    ensures ReplaceRuns(s, c => c == '_') == s
  {
    var p := c => c == '_';
    if s != [] {
      NoDoubles(s[1..]);
      if p(s[0]) { assert SkipRun(s[1..], p) == s[1..]; }
    }
  }

  lemma SanitizeIdempotent(name: string)
    ensures SanitizeToken(SanitizeToken(name)) == SanitizeToken(name)
  {
    var t := SanitizeToken(name);
    SanitizeGivesToken(name);
    NoRuns(t);
    assert Upper(t) == t;
    NoDoubles(t);
  }

  // ----- no letter or digit is lost, added or moved

  function Ink(s: string): string {
    if s == [] then []
    else (if IsLetter(s[0]) || IsDigit(s[0]) then [s[0]] else []) + Ink(s[1..])
  }

  lemma {:induction false} InkAppend(s: string, t: string)
    ensures Ink(s + t) == Ink(s) + Ink(t)
  {
    hide IsLetter, IsDigit;
    if s == [] {
      assert s + t == t;
    } else {
      assert (s + t)[1..] == s[1..] + t;
      InkAppend(s[1..], t);
      InkStep(s);
      InkStep(s + t);
    }
  }

  lemma InkStep(s: string)
    requires s != []
    ensures Ink(s) == (if IsLetter(s[0]) || IsDigit(s[0]) then [s[0]] else []) + Ink(s[1..])
  {
    hide IsLetter, IsDigit;
  }

  lemma {:induction false} InkOfSkip(s: string, p: char -> bool)
    requires forall c :: p(c) ==> !IsLetter(c) && !IsDigit(c)
    ensures Ink(SkipRun(s, p)) == Ink(s)
  {
    if s != [] && p(s[0]) { InkOfSkip(s[1..], p); }
  }

  lemma {:induction false} InkOfRuns(s: string, p: char -> bool)
    requires forall c :: p(c) ==> !IsLetter(c) && !IsDigit(c)
    ensures Ink(ReplaceRuns(s, p)) == Ink(s)
    decreases |s|
  {
    if s != [] {
      if p(s[0]) {
        InkOfSkip(s[1..], p);
        InkOfRuns(SkipRun(s[1..], p), p);
        InkAppend(['_'], ReplaceRuns(SkipRun(s[1..], p), p));
      } else {
        InkOfRuns(s[1..], p);
        InkAppend([s[0]], ReplaceRuns(s[1..], p));
      }
    }
  }

  lemma {:induction false} InkOfUpper(s: string)
    ensures Ink(Upper(s)) == Upper(Ink(s))
  {
    if s != [] {
      InkOfUpper(s[1..]);
      assert Upper(s) == [UpperChar(s[0])] + Upper(s[1..]);
      UpperKind(s[0]);
    }
  }

  lemma UpperKind(c: char)
    ensures IsLetter(UpperChar(c)) == IsLetter(c) && IsDigit(UpperChar(c)) == IsDigit(c)
  {
    if 'a' <= c <= 'z' { assert 'A' <= UpperChar(c) <= 'Z'; }
  }

  lemma {:induction false} InkOfStripLeft(s: string)
    ensures Ink(StripLeft(s)) == Ink(s)
  {
    if s != [] && s[0] == '_' { InkOfStripLeft(s[1..]); }
  }

  lemma {:induction false} InkOfStripRight(s: string)
    ensures Ink(StripRight(s)) == Ink(s)
  {
    if s != [] && s[|s| - 1] == '_' {
      var t := s[..|s| - 1];
      InkOfStripRight(t);
      InkAppend(t, "_");
      assert s == t + "_";
    }
  }

  /** A token spells the same letters and digits as the name, in upper case. */
  lemma SanitizeKeepsInk(name: string)
    ensures Ink(SanitizeToken(name)) == Upper(Ink(name))
  {
    hide ReplaceRuns, StripLeft, StripRight, Upper, Ink, DigitsFrom;
    var words := ReplaceRuns(name, c => !IsWord(c));
    var s := Upper(words);
    var t := ReplaceRuns(s, c => c == '_');
    var u := StripRight(StripLeft(t));
    InkOfRuns(name, c => !IsWord(c));
    InkOfUpper(words);
    InkOfRuns(s, c => c == '_');
    InkOfStripLeft(t);
    InkOfStripRight(StripLeft(t));
    if NumberedLetter(u) {
      var k := DigitsFrom(u);
      InkAppend(u[..k] + "_", u[k..]);
      InkAppend(u[..k], "_");
      InkAppend(u[..k], u[k..]);
      InkOfUnderscore();
      assert u == u[..k] + u[k..];
    }
  }

  lemma InkOfUnderscore()
    ensures Ink("_") == ""
  {
  }
}
