/** ROW_RE of carrier/gen/check_assets.py as a pattern: the ways a text can be cut
    into the parts the pattern asks for. There is never more than one way, so the
    matcher of AssetTable, which never backtracks, finds what the pattern finds. */
module RowPattern {
  import opened Wrappers
  import opened AssetNames
  import opened AssetIds
  import opened AssetTable

  /** One cut of a text along the pattern: ten runs of space, five fields, the rest. */
  datatype Parts = Parts(
    w1: string, id: string, w2: string, w3: string, file: string, w4: string, w5: string,
    index: string, w6: string, w7: string, name: string, w8: string, w9: string,
    fourcc: string, w10: string, rest: string)

  predicate AllSpace(s: string) {
    forall i :: 0 <= i < |s| ==> IsSpace(s[i])
  }

  predicate Lacks(s: string, c: char) {
    forall i :: 0 <= i < |s| ==> s[i] != c
  }

  predicate AllDigits(s: string) {
    s != [] && forall i :: 0 <= i < |s| ==> IsDigit(s[i])
  }

  /** -?\d+ */
  predicate IsInt(s: string) {
    AllDigits(s) || (s != [] && s[0] == '-' && AllDigits(s[1..]))
  }

  function IntValue(s: string): int
    requires IsInt(s)
  {
    if s[0] == '-' then -DigitsValue(s[1..]) else DigitsValue(s)
  }

  /** (?:[^"\\]|\\.)* */
  predicate IsBody(s: string) {
    s == []
    || (s[0] != '\"' && s[0] != '\\' && IsBody(s[1..]))
    || (s[0] == '\\' && |s| > 1 && s[1] != '\n' && IsBody(s[2..]))
  }

  predicate IsName(s: string) {
    s == NULL || (|s| >= 2 && s[0] == '\"' && s[|s| - 1] == '\"' && IsBody(s[1..|s| - 1]))
  }

  predicate Proper(p: Parts) {
    AllSpace(p.w1) && AllSpace(p.w2) && AllSpace(p.w3) && AllSpace(p.w4) && AllSpace(p.w5) &&
    AllSpace(p.w6) && AllSpace(p.w7) && AllSpace(p.w8) && AllSpace(p.w9) && AllSpace(p.w10) &&
    IsAssetId(p.id) && Lacks(p.file, '\"') && IsInt(p.index) && IsName(p.name) && Lacks(p.fourcc, '\"')
  }

  function CommaText(w: string, v: string, rest: string): string {
    w + ("," + (v + rest))
  }

  function PlainText(s: string, rest: string): string {
    QUOTE + (s + (QUOTE + rest))
  }

  function TailText(p: Parts): string {
    PlainText(p.fourcc, p.w10 + ("}" + p.rest))
  }

  function NameText(p: Parts): string {
    p.name + CommaText(p.w8, p.w9, TailText(p))
  }

  function IndexText(p: Parts): string {
    p.index + CommaText(p.w6, p.w7, NameText(p))
  }

  function FileText(p: Parts): string {
    PlainText(p.file, CommaText(p.w4, p.w5, IndexText(p)))
  }

  /** The text a cut comes from. */
  function Whole(p: Parts): string {
    "{" + (p.w1 + (p.id + CommaText(p.w2, p.w3, FileText(p))))
  }

  function RowOfParts(p: Parts): Row
    requires Proper(p)
  {
    Row(p.id, p.file, IntValue(p.index), CUnescape(p.name), p.fourcc)
  }

  // ----- whatever can be cut is matched, and cut that way

  lemma {:induction false} SpanStops(s: string, p: char -> bool, rest: string)
    requires (forall i :: 0 <= i < |s| ==> p(s[i])) && (rest != [] ==> !p(rest[0]))
    ensures Span(s + rest, p) == |s|
  {
    if s == [] {
      assert s + rest == rest;
    } else {
      assert (s + rest)[1..] == s[1..] + rest;
      SpanStops(s[1..], p, rest);
    }
  }

  lemma EatPrinted(lit: string, rest: string)
    ensures Eat(lit + rest, lit) == Some(rest)
  {
    assert (lit + rest)[..|lit|] == lit && (lit + rest)[|lit|..] == rest;
  }

  lemma SkipsSpace(w: string, rest: string)
    requires AllSpace(w) && (rest != [] ==> !IsSpace(rest[0]))
    ensures SkipSpace(w + rest) == rest
  {
    hide IsSpace;
    SpanStops(w, IsSpace, rest);
    assert (w + rest)[|w|..] == rest;
  }

  predicate Starts(s: string) {
    s != [] && !IsSpace(s[0])
  }

  lemma CommaComplete(w: string, v: string, rest: string)
    requires AllSpace(w) && AllSpace(v) && Starts(rest)
    ensures Comma(CommaText(w, v, rest)) == Some(rest)
  {
    hide Eat, SkipSpace;
    var s := "," + (v + rest);
    assert s[0] == ',';
    SkipsSpace(w, s);
    EatPrinted(",", v + rest);
    SkipsSpace(v, rest);
  }

  /** What follows a word or a number in the pattern ends it. */
  lemma CommaEnds(w: string, v: string, rest: string)
    requires AllSpace(w)
    ensures var s := CommaText(w, v, rest);
            s != [] && !IsWord(s[0]) && !IsDigit(s[0])
  {
    var s := CommaText(w, v, rest);
    assert s[0] == if w == [] then ',' else w[0];
    if w != [] { SpaceIsNoWord(w[0]); }
  }

  lemma SpaceIsNoWord(c: char)
    ensures IsSpace(c) ==> !IsWord(c) && !IsDigit(c) && c != 'A'
  {
  }

  lemma IdComplete(id: string, rest: string)
    requires IsAssetId(id) && rest != [] && !IsWord(rest[0])
    ensures IdLiteral(id + rest) == Some((id, rest))
  {
    var u := id + rest;
    assert u[..6] == id[..6] && u[6..] == id[6..] + rest;
    SpanStops(id[6..], IsWord, rest);
    assert u[..|id|] == id && u[|id|..] == rest;
  }

  lemma IdStarts(id: string, rest: string)
    requires IsAssetId(id)
    ensures Starts(id + rest)
  {
    assert id[..6][0] == 'A' && (id + rest)[0] == id[0];
    SpaceIsNoWord('A');
  }

  lemma HeadComplete(w1: string, id: string, w2: string, w3: string, rest: string)
    requires AllSpace(w1) && IsAssetId(id) && AllSpace(w2) && AllSpace(w3) && Starts(rest)
    ensures Head("{" + (w1 + (id + CommaText(w2, w3, rest)))) == Some((id, rest))
  {
    hide Eat, IsSpace, IsAssetId, Comma, IdLiteral, SkipSpace, CommaText, IsWord;
    var after := CommaText(w2, w3, rest);
    EatPrinted("{", w1 + (id + after));
    IdStarts(id, after);
    SkipsSpace(w1, id + after);
    CommaEnds(w2, w3, rest);
    IdComplete(id, after);
    CommaComplete(w2, w3, rest);
  }

  lemma PlainComplete(s: string, rest: string)
    requires Lacks(s, '\"')
    ensures PlainString(PlainText(s, rest)) == Some((s, rest))
  {
    hide Eat, Span;
    var v := s + (QUOTE + rest);
    EatPrinted(QUOTE, v);
    SpanStops(s, NotQuote, QUOTE + rest);
    assert v[..|s|] == s && v[|s| + 1..] == rest;
  }

  /** Where the digits of a number begin. */
  lemma MinusOrDigits(s: string)
    ensures Eat(s, "-").Some? <==> s != [] && s[0] == '-'
    ensures !IsDigit('-')
  {
    if s != [] { assert s[..1][0] == s[0]; }
    if s != [] && s[0] == '-' { assert s[..1] == "-"; }
  }

  lemma DigitsComplete(d: string, rest: string)
    requires AllDigits(d) && rest != [] && !IsDigit(rest[0])
    ensures Span(d + rest, IsDigit) == |d| && (d + rest)[..|d|] == d && (d + rest)[|d|..] == rest
  {
    hide IsDigit;
    SpanStops(d, IsDigit, rest);
  }

  lemma IntComplete(s: string, rest: string)
    requires IsInt(s) && rest != [] && !IsDigit(rest[0])
    ensures IntLiteral(s + rest) == Some((IntValue(s), rest))
  {
    hide Span, DigitsValue, Eat, IsDigit;
    var u := s + rest;
    MinusOrDigits(u);
    if s[0] == '-' {
      assert u[1..] == s[1..] + rest;
      DigitsComplete(s[1..], rest);
    } else {
      DigitsComplete(s, rest);
    }
  }

  lemma {:induction false} BodyComplete(s: string, rest: string)
    requires IsBody(s)
    ensures EscapedSpan(s + (QUOTE + rest)) == |s|
    decreases |s|
  {
    var u := s + (QUOTE + rest);
    if s == [] {
      assert u[0] == '\"';
    } else if s[0] == '\\' {
      assert u[2..] == s[2..] + (QUOTE + rest);
      BodyComplete(s[2..], rest);
    } else {
      assert u[1..] == s[1..] + (QUOTE + rest);
      BodyComplete(s[1..], rest);
    }
  }

  lemma NameComplete(s: string, rest: string)
    requires IsName(s)
    ensures NameLiteral(s + rest) == Some((s, rest))
  {
    hide EscapedSpan, IsBody;
    var u := s + rest;
    if s == NULL {
      EatPrinted(NULL, rest);
      assert u[..1][0] == '(';
      assert u[..|NULL|] == NULL && u[|NULL|..] == rest;
    } else {
      var b := s[1..|s| - 1];
      BodyComplete(b, rest);
      assert s == QUOTE + (b + QUOTE);
      assert u == QUOTE + (b + (QUOTE + rest));
      EatPrinted(QUOTE, b + (QUOTE + rest));
      assert u[1..] == b + (QUOTE + rest);
      assert u[1 + |b|] == '\"' && u[..|b| + 2] == s && u[|b| + 2..] == rest;
    }
  }

  lemma TailComplete(s: string, w: string, rest: string)
    requires Lacks(s, '\"') && AllSpace(w)
    ensures Tail(PlainText(s, w + ("}" + rest))) == Some((s, rest))
  {
    hide Eat, PlainString, PlainText, SkipSpace;
    PlainComplete(s, w + ("}" + rest));
    assert ("}" + rest)[0] == '}';
    SkipsSpace(w, "}" + rest);
    EatPrinted("}", rest);
  }

  lemma FieldStarts(s: string, rest: string)
    ensures Starts(PlainText(s, rest))
    ensures IsInt(s) ==> Starts(s + rest)
    ensures IsName(s) ==> Starts(s + rest)
  {
    hide IsBody;
    assert PlainText(s, rest)[0] == '\"';
    if s != [] { assert (s + rest)[0] == s[0]; }
  }

  /** Every text that can be cut is matched, with the fields and the rest of the cut. */
  lemma MatchComplete(p: Parts)
    requires Proper(p)
    ensures MatchRow(Whole(p)) == Some((RowOfParts(p), p.rest))
  {
    hide CommaText, PlainText, Head, Comma, Tail, PlainString, IntLiteral, NameLiteral, CUnescape, IntValue;
    hide IsAssetId, IsSpace, AllSpace, Lacks, IsInt, IsName, Starts;
    FieldStarts(p.file, CommaText(p.w4, p.w5, IndexText(p)));
    HeadComplete(p.w1, p.id, p.w2, p.w3, FileText(p));
    PlainComplete(p.file, CommaText(p.w4, p.w5, IndexText(p)));
    FieldStarts(p.index, CommaText(p.w6, p.w7, NameText(p)));
    CommaComplete(p.w4, p.w5, IndexText(p));
    CommaEnds(p.w6, p.w7, NameText(p));
    IntComplete(p.index, CommaText(p.w6, p.w7, NameText(p)));
    FieldStarts(p.name, CommaText(p.w8, p.w9, TailText(p)));
    CommaComplete(p.w6, p.w7, NameText(p));
    NameComplete(p.name, CommaText(p.w8, p.w9, TailText(p)));
    FieldStarts(p.fourcc, p.w10 + ("}" + p.rest));
    CommaComplete(p.w8, p.w9, TailText(p));
    TailComplete(p.fourcc, p.w10, p.rest);
  }

  // ----- whatever is matched can be cut that way

  lemma SpaceSound(s: string) returns (w: string)
    ensures AllSpace(w) && s == w + SkipSpace(s)
  {
    hide IsSpace;
    w := s[..Span(s, IsSpace)];
  }

  lemma CommaSound(s: string) returns (w: string, v: string)
    requires Comma(s).Some?
    ensures AllSpace(w) && AllSpace(v) && s == CommaText(w, v, Comma(s).value)
  {
    hide SkipSpace, AllSpace, IsSpace;
    w := SpaceSound(s);
    var t := Eat(SkipSpace(s), ",").value;
    v := SpaceSound(t);
  }

  lemma HeadSound(s: string) returns (w1: string, w2: string, w3: string)
    requires Head(s).Some?
    ensures var (id, rest) := Head(s).value;
            AllSpace(w1) && AllSpace(w2) && AllSpace(w3) && IsAssetId(id)
            && s == "{" + (w1 + (id + CommaText(w2, w3, rest)))
  {
    hide SkipSpace, AllSpace, IsSpace, Comma, CommaText;
    var t := Eat(s, "{").value;
    w1 := SpaceSound(t);
    var u := SkipSpace(t);
    IdSound(u);
    w2, w3 := CommaSound(IdLiteral(u).value.1);
  }

  lemma IdSound(s: string)
    requires IdLiteral(s).Some?
    ensures IsAssetId(IdLiteral(s).value.0) && s == IdLiteral(s).value.0 + IdLiteral(s).value.1
  {
    var t := Eat(s, "ASSET_").value;
    var n := Span(t, IsWord);
    var id := s[..6 + n];
    assert id[..6] == "ASSET_" && id[6..] == t[..n];
  }

  lemma PlainSound(s: string)
    requires PlainString(s).Some?
    ensures var (f, rest) := PlainString(s).value;
            Lacks(f, '\"') && s == PlainText(f, rest)
  {
    var t := Eat(s, QUOTE).value;
    var n := Span(t, NotQuote);
    assert forall i :: 0 <= i < n ==> NotQuote(t[i]);
    assert !NotQuote(t[n]);
    assert t == t[..n] + ([t[n]] + t[n + 1..]);
  }

  lemma IntSound(s: string) returns (t: string)
    requires IntLiteral(s).Some?
    ensures IsInt(t) && IntLiteral(s).value.0 == IntValue(t) && s == t + IntLiteral(s).value.1
  {
    hide DigitsValue, IsDigit, Span, Eat;
    MinusOrDigits(s);
    if s != [] && s[0] == '-' {
      var d := DigitsSound(s[1..]);
      t := "-" + d;
      assert t[1..] == d && s == "-" + s[1..];
    } else {
      t := DigitsSound(s);
    }
  }

  lemma DigitsSound(s: string) returns (d: string)
    requires Span(s, IsDigit) > 0
    ensures AllDigits(d) && d == s[..Span(s, IsDigit)] && IsDigit(d[0])
  {
    hide IsDigit;
    d := s[..Span(s, IsDigit)];
  }

  lemma {:induction false} BodySound(s: string)
    ensures IsBody(s[..EscapedSpan(s)])
    decreases |s|
  {
    var n := EscapedSpan(s);
    var b := s[..n];
    if n > 0 {
      if s[0] == '\\' {
        BodySound(s[2..]);
        assert b[2..] == s[2..][..n - 2];
      } else {
        BodySound(s[1..]);
        assert b[1..] == s[1..][..n - 1];
      }
    }
  }

  lemma NameSound(s: string)
    requires NameLiteral(s).Some?
    ensures IsName(NameLiteral(s).value.0) && s == NameLiteral(s).value.0 + NameLiteral(s).value.1
  {
    hide EscapedSpan, IsBody;
    if Eat(s, QUOTE).Some? {
      var n := 1 + EscapedSpan(s[1..]);
      var lit := s[..n + 1];
      BodySound(s[1..]);
      assert lit[1..n] == s[1..][..n - 1];
      assert s == QUOTE + s[1..];
    }
  }

  lemma TailSound(s: string) returns (w: string)
    requires Tail(s).Some?
    ensures var (f, rest) := Tail(s).value;
            Lacks(f, '\"') && AllSpace(w) && s == PlainText(f, w + ("}" + rest))
  {
    hide PlainString, SkipSpace, AllSpace;
    PlainSound(s);
    w := SpaceSound(PlainString(s).value.1);
  }

  /** Every matched text can be cut into the matched fields and the rest. */
  lemma MatchSound(s: string) returns (p: Parts)
    requires MatchRow(s).Some?
    ensures Proper(p) && Whole(p) == s && MatchRow(s) == Some((RowOfParts(p), p.rest))
  {
    hide CommaText, PlainText, Head, Comma, Tail, PlainString, IntLiteral, NameLiteral, CUnescape, IntValue;
    hide IsAssetId, AllSpace, Lacks, IsInt, IsName;
    var head := Head(s).value;
    var w1, w2, w3 := HeadSound(s);
    PlainSound(head.1);
    var file := PlainString(head.1).value;
    var w4, w5 := CommaSound(file.1);
    var s2 := Comma(file.1).value;
    var index := IntSound(s2);
    var s2' := IntLiteral(s2).value.1;
    var w6, w7 := CommaSound(s2');
    var s3 := Comma(s2').value;
    NameSound(s3);
    var name := NameLiteral(s3).value;
    var w8, w9 := CommaSound(name.1);
    var s4 := Comma(name.1).value;
    var w10 := TailSound(s4);
    var last := Tail(s4).value;
    p := Parts(w1, head.0, w2, w3, file.0, w4, w5, index, w6, w7, name.0, w8, w9, last.0, w10, last.1);
  }

  /** The matcher matches exactly the texts that can be cut along the pattern. */
  lemma MatchIffCut(s: string)
    ensures MatchRow(s).Some? <==> exists p: Parts :: Proper(p) && Whole(p) == s
  {
    hide MatchRow, Proper, Whole;
    if MatchRow(s).Some? {
      var p := MatchSound(s);
    }
    if exists p: Parts :: Proper(p) && Whole(p) == s {
      var p: Parts :| Proper(p) && Whole(p) == s;
      MatchComplete(p);
    }
  }

  /** A text can be cut in at most one way, up to where space is counted. */
  lemma CutUnique(p: Parts, q: Parts)
    requires Proper(p) && Proper(q) && Whole(p) == Whole(q)
    ensures RowOfParts(p) == RowOfParts(q) && p.rest == q.rest
  {
    hide Whole, MatchRow, RowOfParts;
    MatchComplete(p);
    MatchComplete(q);
  }
}
