/** The asset table in plain terms: characters, replacements, line ends and a printed
    row spelt out. */
module TableForms {
  import opened Wrappers
  import opened Text
  import opened AssetNames
  import opened AssetTable
  import opened RowPattern
  import opened TableRoundTrip

  // ----- characters of the pattern

  /** The codes \s stands for. */
  lemma SpaceCodes(c: char)
    ensures IsSpace(c) <==>
            c as int in {9, 10, 11, 12, 13, 28, 29, 30, 31, 32, 133, 160, 5760, 8192, 8193, 8194, 8195, 8196, 8197,
                         8198, 8199, 8200, 8201, 8202, 8232, 8233, 8239, 8287, 12288}
  {
  }

  /** The codes of [A-Za-z0-9_] and of the digits. */
  lemma WordCodes(c: char)
    ensures IsWord(c) <==> 48 <= c as int <= 57 || 65 <= c as int <= 90 || c as int == 95 || 97 <= c as int <= 122
    ensures IsDigit(c) <==> 48 <= c as int <= 57
  {
  }

  /** A backslash takes the next character with it, unless that ends the line. */
  lemma EscapedPair(c: char, rest: string)
    ensures IsBody("\\" + [c] + rest) <==> c as int != 10 && IsBody(rest)
    ensures c != '\\' && c != '\"' ==> (IsBody([c] + rest) <==> IsBody(rest))
    ensures !IsBody("\"" + rest) && !IsBody("\\")
  {
    var s, t, u := "\\" + [c] + rest, [c] + rest, "\"" + rest;
    assert s[2..] == rest && t[1..] == rest && u[0] == '\"';
  }

  // ----- numbers

  /** Digits have their values by place, leading zeros or not. */
  lemma {:induction false} DigitsByPlace(a: string, b: string)
    ensures DigitsValue("") == 0
    ensures DigitsValue(a + b) == DigitsValue(a) * Pow10(|b|) + DigitsValue(b)
    ensures |a| == 1 ==> DigitsValue(a) == a[0] as int - 48
    decreases |b|
  {
    hide Pow10;
    Pow10Step(|b|);
    if b == "" {
      assert a + b == a;
    } else {
      var n := |b| - 1;
      assert (a + b)[..|a| + n] == a + b[..n];
      DigitsByPlace(a, b[..n]);
      TenTimes(DigitsValue(a), Pow10(n));
    }
  }

  lemma TenTimes(x: int, p: nat)
    ensures x * p * 10 == x * (10 * p)
  {
  }

  // ----- replacing

  predicate Occurs(s: string, pat: string, i: nat) {
    i + |pat| <= |s| && s[i..i + |pat|] == pat
  }

  /** The leftmost occurrence is replaced, then the search goes on behind it; without
      one nothing changes. */
  lemma {:induction false} ReplaceLeftmost(s: string, pat: string, sub: string, i: nat)
    requires pat != "" && (forall k :: 0 <= k < i ==> !Occurs(s, pat, k))
    ensures Occurs(s, pat, i) ==> Replace(s, pat, sub) == s[..i] + sub + Replace(s[i + |pat|..], pat, sub)
    ensures i >= |s| ==> Replace(s, pat, sub) == s
    decreases |s|
  {
    hide Replace, Occurs;
    ReplaceStep(s, pat, sub);
    OccursEnds(s, pat, i);
    if i == 0 {
      assert s[..0] + sub == sub;
    } else if |s| >= |pat| {
      TailFree(s, pat, i);
      ReplaceLeftmost(s[1..], pat, sub, i - 1);
      OccursInTail(s, pat, i - 1);
      if Occurs(s, pat, i) {
        TailParts(s, i, i + |pat|);
        Assoc(s[0], s[1..][..i - 1], sub, Replace(s[i + |pat|..], pat, sub));
      } else {
        assert s == [s[0]] + s[1..];
      }
    }
  }

  lemma TailFree(s: string, pat: string, i: nat)
    requires s != "" && i > 0 && forall k :: 0 <= k < i ==> !Occurs(s, pat, k)
    ensures forall k :: 0 <= k < i - 1 ==> !Occurs(s[1..], pat, k)
  {
    hide Occurs;
    forall k | 0 <= k < i - 1
      ensures !Occurs(s[1..], pat, k)
    {
      OccursInTail(s, pat, k);
    }
  }

  lemma Assoc(c: char, a: string, b: string, d: string)
    ensures [c] + (a + b + d) == [c] + a + b + d
  {
  }

  lemma TailParts(s: string, i: nat, j: nat)
    requires 1 <= i <= j <= |s|
    ensures s[1..][j - 1..] == s[j..] && s[..i] == [s[0]] + s[1..][..i - 1]
  {
  }

  lemma ReplaceStep(s: string, pat: string, sub: string)
    requires pat != ""
    ensures Replace(s, pat, sub)
            == if |s| < |pat| then s
               else if Occurs(s, pat, 0) then sub + Replace(s[|pat|..], pat, sub)
               else [s[0]] + Replace(s[1..], pat, sub)
  {
    if |s| >= |pat| { assert s[0..|pat|] == s[..|pat|]; }
  }

  lemma OccursEnds(s: string, pat: string, i: nat)
    ensures Occurs(s, pat, i) ==> i + |pat| <= |s|
  {
  }

  lemma OccursInTail(s: string, pat: string, k: nat)
    requires s != ""
    ensures Occurs(s[1..], pat, k) <==> Occurs(s, pat, k + 1)
  {
    if k + |pat| < |s| { assert s[1..][k..k + |pat|] == s[k + 1..k + 1 + |pat|]; }
  }

  // ----- line ends

  /** Text mode turns a return, alone or before a newline, into one newline. */
  lemma {:induction false} LineEnds(a: string, b: string)
    requires Lacks(a, '\r')
    ensures Universal(a + b) == a + Universal(b)
    ensures b == "" || b[0] != '\n' ==> Universal(a + "\r" + b) == a + "\n" + Universal(b)
    ensures Universal(a + "\r\n" + b) == a + "\n" + Universal(b)
  {
    var r, rn := "\r" + b, "\r\n" + b;
    assert r[1..] == b && rn[2..] == b;
    KeptText(a, b);
    KeptText(a, r);
    KeptText(a, rn);
    assert a + "\r" + b == a + r && a + "\r\n" + b == a + rn;
  }

  lemma {:induction false} KeptText(a: string, b: string)
    requires Lacks(a, '\r')
    ensures Universal(a + b) == a + Universal(b)
  {
    if a == "" {
      assert a + b == b;
    } else {
      assert (a + b)[1..] == a[1..] + b;
      KeptText(a[1..], b);
    }
  }

  // ----- a row

  /** A row as it is printed, with a quote and a backslash in the object's name. */
  lemma SampleRow()
    ensures RowLine(Row("ASSET_SFX_A", "sfx", 7, Some("a\"b\\"), "OGG "))
            == "    { ASSET_SFX_A, \"sfx\", 7, \"a\\\"b\\\\\", \"OGG \" },"
    ensures RowLine(Row("ASSET_SFX_A", "sfx", -7, None, "OGG "))
            == "    { ASSET_SFX_A, \"sfx\", -7, (const char *)0, \"OGG \" },"
  {
    hide CStr, IntText, RowLine;
    SampleParts();
    SampleEnds();
    RowLineForm(Row("ASSET_SFX_A", "sfx", 7, Some("a\"b\\"), "OGG "));
    RowLineForm(Row("ASSET_SFX_A", "sfx", -7, None, "OGG "));
    NamedMiddle();
    NamelessMiddle();
  }

  const FRONT := "    { ASSET_SFX_A, \"sfx\", "
  const BACK := ", \"OGG \" },"

  lemma SampleEnds()
    ensures "    { " + "ASSET_SFX_A" + ", " + "\"sfx\"" + ", " == FRONT
    ensures ", " + "\"OGG \"" + " }," == BACK
  {
  }

  lemma NamedMiddle()
    ensures FRONT + "7" + ", " + "\"a\\\"b\\\\\"" + BACK
            == "    { ASSET_SFX_A, \"sfx\", 7, \"a\\\"b\\\\\", \"OGG \" },"
  {
  }

  lemma NamelessMiddle()
    ensures FRONT + "-7" + ", " + "(const char *)0" + BACK
            == "    { ASSET_SFX_A, \"sfx\", -7, (const char *)0, \"OGG \" },"
  {
  }

  lemma SampleParts()
    ensures CStr(Some("sfx")) == "\"sfx\"" && CStr(Some("OGG ")) == "\"OGG \"" && CStr(None) == "(const char *)0"
    ensures CStr(Some("a\"b\\")) == "\"a\\\"b\\\\\"" && IntText(7) == "7" && IntText(-7) == "-7"
  {
    hide CStr;
    PlainLiteral("sfx");
    PlainLiteral("OGG ");
    QuotedLiteral();
    NullLiteral();
  }

  lemma RowLineForm(r: Row)
    ensures RowLine(r) == ("    { " + r.id + ", " + CStr(Some(r.datafile)) + ", ") + IntText(r.index) + ", "
                          + CStr(r.objectName) + (", " + CStr(Some(r.fourcc)) + " },")
  {
    hide CStr, IntText;
  }

  lemma NullLiteral()
    ensures CStr(None) == "(const char *)0"
  {
  }

  lemma PlainLiteral(s: string)
    requires forall i :: 0 <= i < |s| ==> s[i] != '\\' && s[i] != '\"'
    ensures CStr(Some(s)) == "\"" + s + "\""
  {
    CStrForm(s);
    PlainEscape(s);
  }

  lemma {:induction false} PlainEscape(s: string)
    requires forall i :: 0 <= i < |s| ==> s[i] != '\\' && s[i] != '\"'
    ensures Escape(s) == s
  {
    if s != "" { PlainEscape(s[1..]); }
  }

  lemma QuotedLiteral()
    ensures CStr(Some("a\"b\\")) == "\"a\\\"b\\\\\""
  {
    hide CStr;
    var s := "a\"b\\";
    CStrForm(s);
    assert s[1..] == "\"b\\" && s[2..] == "b\\" && s[3..] == "\\" && s[4..] == "";
    assert Escape(s[3..]) == "\\\\";
    assert Escape(s[2..]) == "b\\\\";
    assert Escape(s[1..]) == "\\\"b\\\\";
    assert Escape(s) == "a\\\"b\\\\";
  }

  /** Fixed text may surround the rows if it has no brace and no return of its own but
      the closing brace behind the last row. */
  lemma PlainFrame(pre: string, post: string)
    requires Lacks(pre, '{') && Lacks(pre, '\r') && Lacks(post, '{') && Lacks(post, '\r')
    requires post != "" && post[0] == '}'
    ensures Frame(pre, post)
  {
    hide Inert, NoAsset, Lacks;
    NoBraceIsInert(pre);
    NoBraceIsInert(post);
    BraceIsNoAsset('}', post[1..]);
    assert post == ['}'] + post[1..];
  }

  lemma BraceIsNoAsset(c: char, rest: string)
    requires c == '}'
    ensures NoAsset([c] + rest)
  {
    SpaceCodes(c);
    hide IsSpace, SkipSpace;
    SpaceKeeps(c, rest);
  }

  lemma NoBraceIsInert(s: string)
    requires Lacks(s, '{')
    ensures Inert(s)
  {
    hide NoAsset;
  }
}
