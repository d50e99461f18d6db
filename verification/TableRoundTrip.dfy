/** Reading the generated table back: which rows the checker sees, and exactly when
    they are the rows that were printed. */
module TableRoundTrip {
  import opened Wrappers
  import opened Text
  import opened AssetNames
  import opened AssetIds
  import opened AssetTable
  import opened RowPattern

  // ----- escaping one character at a time

  function EscapeChar(c: char): string {
    if c == '\\' || c == '\"' then ['\\', c] else [c]
  }

  function Escape(s: string): string {
    if s == [] then [] else EscapeChar(s[0]) + Escape(s[1..])
  }

  /** Only the backslashes doubled. */
  function Doubled(s: string): string {
    if s == [] then [] else (if s[0] == '\\' then ['\\', '\\'] else [s[0]]) + Doubled(s[1..])
  }

  lemma ReplaceHit(t: string, pat: string, sub: string)
    requires pat != []
    ensures Replace(pat + t, pat, sub) == sub + Replace(t, pat, sub)
  {
    assert (pat + t)[..|pat|] == pat && (pat + t)[|pat|..] == t;
  }

  lemma ReplaceMiss(c: char, t: string, pat: string, sub: string)
    requires pat != [] && (c != pat[0] || (|pat| > 1 && t != [] && t[0] != pat[1]) || (|pat| > 1 && t == []))
    ensures Replace([c] + t, pat, sub) == [c] + Replace(t, pat, sub)
  {
    var u := [c] + t;
    assert u[1..] == t;
    if |u| >= |pat| {
      assert u[..|pat|][0] == c;
      if |pat| > 1 { assert u[..|pat|][1] == t[0]; }
    } else {
      assert Replace(t, pat, sub) == t;
    }
  }

  lemma {:induction false} DoublingIsReplace(s: string)
    ensures Replace(s, BACKSLASH, BACKSLASH + BACKSLASH) == Doubled(s)
  {
    hide Replace;
    if s != [] {
      var t := s[1..];
      DoublingIsReplace(t);
      assert s == [s[0]] + t;
      if s[0] == '\\' {
        ReplaceHit(t, BACKSLASH, BACKSLASH + BACKSLASH);
      } else {
        ReplaceMiss(s[0], t, BACKSLASH, BACKSLASH + BACKSLASH);
      }
    } else {
      ReplaceNothing(BACKSLASH, BACKSLASH + BACKSLASH);
    }
  }

  lemma ReplaceNothing(pat: string, sub: string)
    requires pat != []
    ensures Replace([], pat, sub) == []
  {
  }

  lemma PassBackslashes(t: string)
    ensures Replace(BACKSLASH + BACKSLASH + t, QUOTE, BACKSLASH + QUOTE)
            == BACKSLASH + BACKSLASH + Replace(t, QUOTE, BACKSLASH + QUOTE)
  {
    hide Replace;
    assert BACKSLASH + BACKSLASH + t == ['\\'] + (['\\'] + t);
    ReplaceMiss('\\', ['\\'] + t, QUOTE, BACKSLASH + QUOTE);
    ReplaceMiss('\\', t, QUOTE, BACKSLASH + QUOTE);
  }

  lemma {:induction false} QuotingIsReplace(s: string)
    ensures Replace(Doubled(s), QUOTE, BACKSLASH + QUOTE) == Escape(s)
  {
    hide Replace;
    if s != [] {
      var t := Doubled(s[1..]);
      QuotingIsReplace(s[1..]);
      if s[0] == '\\' {
        PassBackslashes(t);
        assert Doubled(s) == BACKSLASH + BACKSLASH + t;
        assert Escape(s) == BACKSLASH + BACKSLASH + Escape(s[1..]);
      } else if s[0] == '\"' {
        ReplaceHit(t, QUOTE, BACKSLASH + QUOTE);
      } else {
        ReplaceMiss(s[0], t, QUOTE, BACKSLASH + QUOTE);
      }
    } else {
      ReplaceNothing(QUOTE, BACKSLASH + QUOTE);
    }
  }

  /** c_str puts quotes around the escaped characters. */
  lemma CStrForm(s: string)
    ensures CStr(Some(s)) == QUOTE + Escape(s) + QUOTE
  {
    DoublingIsReplace(s);
    QuotingIsReplace(s);
  }

  lemma EscapeStarts(s: string)
    ensures Escape(s) != [] ==> Escape(s)[0] != '\"'
  {
  }

  /** A backslash that is not part of an escaped quote stays. */
  lemma KeepBackslashes(t: string)
    requires t != [] ==> t[0] != '\"'
    ensures Replace(BACKSLASH + BACKSLASH + t, BACKSLASH + QUOTE, QUOTE)
            == BACKSLASH + BACKSLASH + Replace(t, BACKSLASH + QUOTE, QUOTE)
  {
    hide Replace;
    assert BACKSLASH + BACKSLASH + t == ['\\'] + (['\\'] + t);
    ReplaceMiss('\\', ['\\'] + t, BACKSLASH + QUOTE, QUOTE);
    ReplaceMiss('\\', t, BACKSLASH + QUOTE, QUOTE);
  }

  lemma Pairs()
    ensures BACKSLASH + QUOTE == ['\\', '\"'] && BACKSLASH + BACKSLASH == ['\\', '\\']
  {
  }

  lemma EscapeStep(s: string)
    requires s != []
    ensures Escape(s) == EscapeChar(s[0]) + Escape(s[1..])
    ensures EscapeChar(s[0]) == if s[0] == '\"' then BACKSLASH + QUOTE
                                else if s[0] == '\\' then BACKSLASH + BACKSLASH
                                else [s[0]]
  {
    Pairs();
  }

  lemma DoubledStep(s: string)
    requires s != []
    ensures Doubled(s) == (if s[0] == '\\' then BACKSLASH + BACKSLASH else [s[0]]) + Doubled(s[1..])
  {
    Pairs();
  }

  lemma {:induction false} UnquotingIsReplace(s: string)
    ensures Replace(Escape(s), BACKSLASH + QUOTE, QUOTE) == Doubled(s)
  {
    if s == [] {
      ReplaceNothing(BACKSLASH + QUOTE, QUOTE);
    } else {
      hide Replace, Escape, EscapeChar, Doubled;
      var t := Escape(s[1..]);
      EscapeStep(s);
      DoubledStep(s);
      UnquotingIsReplace(s[1..]);
      if s[0] == '\"' {
        ReplaceHit(t, BACKSLASH + QUOTE, QUOTE);
      } else if s[0] == '\\' {
        EscapeStarts(s[1..]);
        KeepBackslashes(t);
      } else {
        ReplaceMiss(s[0], t, BACKSLASH + QUOTE, QUOTE);
      }
    }
  }

  lemma {:induction false} UndoublingIsReplace(s: string)
    ensures Replace(Doubled(s), BACKSLASH + BACKSLASH, BACKSLASH) == s
  {
    hide Replace;
    if s != [] {
      var t := Doubled(s[1..]);
      UndoublingIsReplace(s[1..]);
      if s[0] == '\\' {
        assert Doubled(s) == BACKSLASH + BACKSLASH + t;
        ReplaceHit(t, BACKSLASH + BACKSLASH, BACKSLASH);
      } else {
        ReplaceMiss(s[0], t, BACKSLASH + BACKSLASH, BACKSLASH);
      }
    } else {
      ReplaceNothing(BACKSLASH + BACKSLASH, BACKSLASH);
    }
  }

  /** The two replacements of c_unescape undo the two of c_str, in any text. */
  lemma UnescapeCStr(name: Option<string>)
    ensures var lit := CStr(name);
            (lit == NULL || |lit| >= 2) && CUnescape(lit) == name
  {
    if name.Some? {
      var s := name.value;
      CStrForm(s);
      UnquotingIsReplace(s);
      UndoublingIsReplace(s);
      var lit := CStr(name);
      assert lit[1..|lit| - 1] == Escape(s);
      assert lit[0] == '\"' && NULL[0] == '(';
    }
  }

  // ----- matching what was printed

  lemma {:induction false} EscapeIsBody(s: string)
    ensures IsBody(Escape(s))
  {
    if s != [] {
      var e := Escape(s);
      EscapeIsBody(s[1..]);
      if s[0] == '\\' || s[0] == '\"' {
        assert e[2..] == Escape(s[1..]);
      } else {
        assert e[1..] == Escape(s[1..]);
      }
    }
  }

  lemma CStrIsName(name: Option<string>)
    ensures IsName(CStr(name))
  {
    if name.Some? {
      var e := Escape(name.value);
      CStrForm(name.value);
      EscapeIsBody(name.value);
      assert CStr(name)[1..|CStr(name)| - 1] == e;
    }
  }

  lemma {:induction false} EscapeLacksQuote(s: string)
    requires Lacks(s, '\"')
    ensures Lacks(Escape(s), '\"') && Escape(s) == Doubled(s)
  {
    if s != [] { EscapeLacksQuote(s[1..]); }
  }

  lemma {:induction false} DecimalValue(n: nat)
    ensures DigitsValue(Decimal(n)) == n
  {
    if n >= 10 {
      var d := Decimal(n);
      assert d[..|d| - 1] == Decimal(n / 10) && d[|d| - 1] == DigitChar(n % 10);
      DecimalValue(n / 10);
    } else {
      assert Decimal(n)[..0] == "";
    }
    DigitCharValue(n % 10);
  }

  lemma DigitCharValue(d: nat)
    requires d < 10
    ensures DigitChar(d) as int - '0' as int == d
  {
  }

  /** int() undoes "%d". */
  lemma IntTextValue(i: int)
    ensures IsInt(IntText(i)) && IntValue(IntText(i)) == i
  {
    hide Decimal, DigitsValue;
    var n := if i < 0 then -i else i;
    var d := Decimal(n);
    forall k | 0 <= k < |d|
      ensures IsDigit(d[k])
    {
      assert d[k] in d;
    }
    DecimalValue(n);
    if i < 0 { assert IntText(i)[1..] == d; }
  }

  /** What the checker sees of a row whose plain fields have no quotes. */
  function Seen(r: Row): Row {
    r.(datafile := Escape(r.datafile), fourcc := Escape(r.fourcc))
  }

  predicate Matchable(r: Row) {
    IsAssetId(r.id) && Lacks(r.datafile, '\"') && Lacks(r.fourcc, '\"')
  }

  /** A printed row without its margins. */
  function RowCore(r: Row): string {
    "{ " + r.id + ", " + CStr(Some(r.datafile)) + ", " + IntText(r.index) + ", " + CStr(r.objectName)
    + ", " + CStr(Some(r.fourcc)) + " }"
  }

  /** The cut of a printed row. */
  function PrintedParts(r: Row, rest: string): Parts {
    Parts(" ", r.id, "", " ", Escape(r.datafile), "", " ", IntText(r.index), "", " ", CStr(r.objectName),
          "", " ", Escape(r.fourcc), " ", rest)
  }

  lemma PrintedWhole(r: Row, rest: string)
    ensures Whole(PrintedParts(r, rest)) == RowCore(r) + rest
  {
    hide IntText, Escape, CStr, CommaText, PlainText;
    var p := PrintedParts(r, rest);
    CStrForm(r.datafile);
    CStrForm(r.fourcc);
    PlainForm(p.fourcc, " " + ("}" + rest));
    CommaForm(TailText(p));
    CommaForm(NameText(p));
    CommaForm(IndexText(p));
    PlainForm(p.file, CommaText("", " ", IndexText(p)));
    CommaForm(FileText(p));
    OneLine(r.id, CStr(Some(r.datafile)), p.index, p.name, CStr(Some(r.fourcc)), rest);
  }

  lemma CommaForm(rest: string)
    ensures CommaText("", " ", rest) == ", " + rest
  {
  }

  lemma PlainForm(s: string, rest: string)
    ensures PlainText(s, rest) == QUOTE + s + QUOTE + rest
  {
  }

  lemma OneLine(id: string, file: string, index: string, name: string, fourcc: string, rest: string)
    ensures "{" + (" " + (id + (", " + (file + (", " + (index + (", " + (name + (", " + (fourcc + (" " + ("}" + rest))))))))))))
            == "{ " + id + ", " + file + ", " + index + ", " + name + ", " + fourcc + " }" + rest
  {
    var tail := fourcc + (" " + ("}" + rest));
    var t := name + (", " + tail);
    var u := index + (", " + t);
    assert "{" + (" " + (id + (", " + (file + (", " + u))))) == "{ " + id + ", " + file + ", " + u;
    assert u == index + ", " + name + ", " + tail;
    assert tail == fourcc + " }" + rest;
  }

  lemma BlankIsSpace()
    ensures AllSpace(" ") && AllSpace("")
  {
  }

  /** ROW_RE matches a printed row and sees it, doubled backslashes and all. */
  lemma RowPrinted(r: Row, rest: string)
    requires Matchable(r)
    ensures MatchRow(RowCore(r) + rest) == Some((Seen(r), rest))
  {
    hide CStr, IntText, MatchRow, Whole, RowCore, Escape, CUnescape, IntValue, Lacks, IsInt, IsName, IsAssetId, AllSpace;
    var p := PrintedParts(r, rest);
    BlankIsSpace();
    EscapeLacksQuote(r.datafile);
    EscapeLacksQuote(r.fourcc);
    IntTextValue(r.index);
    CStrIsName(r.objectName);
    UnescapeCStr(r.objectName);
    PrintedWhole(r, rest);
    MatchComplete(p);
  }

  // ----- the file around the rows

  /** No identifier comes next, space aside. */
  predicate NoAsset(s: string) {
    var t := SkipSpace(s);
    t == [] || t[0] != 'A'
  }

  /** Text in which no row can begin: no brace is followed by an identifier. */
  predicate Inert(s: string) {
    forall i :: 0 <= i < |s| && s[i] == '{' ==> NoAsset(s[i + 1..])
  }

  lemma SpaceKeeps(c: char, rest: string)
    ensures IsSpace(c) ==> SkipSpace([c] + rest) == SkipSpace(rest)
    ensures !IsSpace(c) ==> SkipSpace([c] + rest) == [c] + rest
  {
    hide IsSpace;
    assert ([c] + rest)[1..] == rest;
  }

  lemma {:induction false} NoAssetAppend(s: string, rest: string)
    requires NoAsset(s) && NoAsset(rest)
    ensures NoAsset(s + rest)
  {
    hide IsSpace, SkipSpace;
    if s == [] {
      assert s + rest == rest;
    } else {
      SpaceKeeps(s[0], s[1..]);
      SpaceKeeps(s[0], s[1..] + rest);
      assert s == [s[0]] + s[1..] && s + rest == [s[0]] + (s[1..] + rest);
      if IsSpace(s[0]) { NoAssetAppend(s[1..], rest); }
    }
  }

  lemma NoHead(s: string)
    requires s != [] && (s[0] != '{' || NoAsset(s[1..]))
    ensures Head(s).None?
  {
    hide Comma, IsSpace, SkipSpace, Span;
    if s[0] != '{' {
      assert s[..1][0] == s[0];
    } else {
      assert s[..1] == "{";
      var t := SkipSpace(s[1..]);
      assert |t| >= 6 ==> t[..6][0] == t[0];
    }
  }

  lemma NoMatch(s: string)
    requires s != [] && (s[0] != '{' || NoAsset(s[1..]))
    ensures MatchRow(s).None?
  {
    hide Head, NoAsset;
    NoHead(s);
  }

  lemma {:induction false} SkipInert(s: string, rest: string)
    requires Inert(s) && NoAsset(rest)
    ensures Rows(s + rest) == Rows(rest)
    decreases |s|
  {
    hide MatchRow, NoAsset;
    if s == [] {
      assert s + rest == rest;
    } else {
      var u := s + rest;
      assert u[1..] == s[1..] + rest;
      if s[0] == '{' { NoAssetAppend(s[1..], rest); }
      NoMatch(u);
      forall i | 0 <= i < |s[1..]| && s[1..][i] == '{'
        ensures NoAsset(s[1..][i + 1..])
      {
        assert s[i + 1] == '{' && s[1..][i + 1..] == s[i + 2..];
      }
      SkipInert(s[1..], rest);
    }
  }

  function SeenAll(rows: seq<Row>): (seen: seq<Row>)
    ensures |seen| == |rows|
  {
    seq(|rows|, i requires 0 <= i < |rows| => Seen(rows[i]))
  }

  lemma LineForm(r: Row, rest: string)
    ensures RowLine(r) + "\n" + rest == "    " + (RowCore(r) + (",\n" + rest))
  {
    hide CStr, IntText;
    assert RowLine(r) == "    " + RowCore(r) + ",";
  }

  lemma RowThenRest(r: Row, rest: string)
    requires Matchable(r)
    ensures Rows(RowCore(r) + rest) == [Seen(r)] + Rows(rest)
  {
    hide RowCore, MatchRow;
    RowPrinted(r, rest);
  }

  lemma SkipChar(c: char, rest: string)
    requires c != '{'
    ensures Rows([c] + rest) == Rows(rest)
  {
    hide MatchRow, NoAsset;
    NoMatch([c] + rest);
    assert ([c] + rest)[1..] == rest;
  }

  /** What the row lines put between two rows. */
  lemma Margins(rest: string)
    ensures Rows(",\n" + rest) == Rows(rest) == Rows("    " + rest)
    ensures rest != [] && rest[0] == '{' ==> NoAsset("    " + rest)
  {
    hide Rows, SkipSpace;
    var s1, s2, s3 := " " + rest, "  " + rest, "   " + rest;
    assert s2 == " " + s1 && s3 == " " + s2 && "    " + rest == " " + s3;
    assert ",\n" + rest == "," + ("\n" + rest);
    SkipChar(',', "\n" + rest);
    SkipChar('\n', rest);
    SkipChar(' ', rest);
    SkipChar(' ', s1);
    SkipChar(' ', s2);
    SkipChar(' ', s3);
    if rest != [] && rest[0] == '{' {
      SpaceKeeps(' ', rest);
      SpaceKeeps(' ', s1);
      SpaceKeeps(' ', s2);
      SpaceKeeps(' ', s3);
      SpaceKeeps('{', rest[1..]);
      assert rest == ['{'] + rest[1..];
    }
  }

  lemma LinesStart(rows: seq<Row>, post: string)
    requires NoAsset(post)
    ensures NoAsset(RowLines(rows) + post)
  {
    hide NoAsset, RowLine, RowCore, Rows, SkipSpace;
    if rows == [] {
      assert RowLines(rows) + post == post;
    } else {
      var r, rest := rows[0], RowLines(rows[1..]) + post;
      assert RowLines(rows) + post == RowLine(r) + "\n" + rest;
      LineForm(r, rest);
      CoreStarts(r, ",\n" + rest);
      Margins(RowCore(r) + (",\n" + rest));
    }
  }

  lemma LineSeen(r: Row, rest: string)
    requires Matchable(r)
    ensures Rows(RowLine(r) + "\n" + rest) == [Seen(r)] + Rows(rest)
  {
    hide RowLine, RowCore, Rows, Matchable, Seen;
    LineForm(r, rest);
    Margins(RowCore(r) + (",\n" + rest));
    RowThenRest(r, ",\n" + rest);
    Margins(rest);
  }

  /** Rows without quotes in their plain fields are all found, in order, each with
      its plain fields' backslashes doubled. */
  lemma {:induction false} LinesSeen(rows: seq<Row>, post: string)
    requires forall i :: 0 <= i < |rows| ==> Matchable(rows[i])
    ensures Rows(RowLines(rows) + post) == SeenAll(rows) + Rows(post)
    decreases |rows|
  {
    hide RowLine, Rows, Matchable, Seen;
    if rows == [] {
      assert RowLines(rows) + post == post;
    } else {
      var rest := RowLines(rows[1..]) + post;
      LinesSeen(rows[1..], post);
      assert RowLines(rows) + post == RowLine(rows[0]) + "\n" + rest;
      LineSeen(rows[0], rest);
      assert SeenAll(rows) == [Seen(rows[0])] + SeenAll(rows[1..]);
    }
  }

  lemma CoreStarts(r: Row, rest: string)
    ensures RowCore(r) + rest != [] && (RowCore(r) + rest)[0] == '{'
  {
  }

  // ----- carriage returns do not survive text mode

  lemma {:induction false} UniversalLacks(s: string)
    ensures Lacks(Universal(s), '\r')
    decreases |s|
  {
    if s != [] {
      if s[0] == '\r' {
        UniversalLacks(if |s| > 1 && s[1] == '\n' then s[2..] else s[1..]);
      } else {
        UniversalLacks(s[1..]);
      }
    }
  }

  lemma {:induction false} UniversalKeeps(s: string)
    requires Lacks(s, '\r')
    ensures Universal(s) == s
  {
    if s != [] { UniversalKeeps(s[1..]); }
  }

  lemma {:induction false} EscapeLacks(s: string, c: char)
    requires Lacks(s, c) && c != '\\'
    ensures Lacks(Escape(s), c)
  {
    if s != [] { EscapeLacks(s[1..], c); }
  }

  lemma CStrLacks(s: Option<string>, c: char)
    requires (s.Some? ==> Lacks(s.value, c)) && c == '\r'
    ensures Lacks(CStr(s), c)
  {
    if s.Some? {
      CStrForm(s.value);
      EscapeLacks(s.value, c);
    }
  }

  lemma IntTextLacks(i: int)
    ensures Lacks(IntText(i), '\r')
  {
    var d := Decimal(if i < 0 then -i else i);
    assert forall k :: 0 <= k < |d| ==> d[k] in d;
  }

  predicate FreeOfReturns(r: Row) {
    Lacks(r.datafile, '\r') && Lacks(r.fourcc, '\r') && (r.objectName.Some? ==> Lacks(r.objectName.value, '\r'))
  }

  lemma LacksAppend(s: string, t: string, c: char)
    ensures Lacks(s + t, c) <==> Lacks(s, c) && Lacks(t, c)
  {
    var u := s + t;
    if Lacks(u, c) {
      assert forall i :: 0 <= i < |s| ==> s[i] == u[i];
      assert forall i :: 0 <= i < |t| ==> t[i] == u[|s| + i];
    }
  }

  lemma IdLacks(id: string)
    requires IsAssetId(id)
    ensures Lacks(id, '\r')
  {
    assert id == id[..6] + id[6..];
    LacksAppend(id[..6], id[6..], '\r');
  }

  lemma LineLacks(r: Row)
    requires IsAssetId(r.id) && FreeOfReturns(r)
    ensures Lacks(RowLine(r), '\r')
  {
    hide CStr, IntText, Lacks, IsAssetId;
    var f, i, n, t := CStr(Some(r.datafile)), IntText(r.index), CStr(r.objectName), CStr(Some(r.fourcc));
    IdLacks(r.id);
    CStrLacks(Some(r.datafile), '\r');
    IntTextLacks(r.index);
    CStrLacks(r.objectName, '\r');
    CStrLacks(Some(r.fourcc), '\r');
    Constants();
    var s1 := "    { " + r.id;
    var s2 := s1 + ", " + f;
    var s3 := s2 + ", " + i;
    var s4 := s3 + ", " + n;
    var s5 := s4 + ", " + t;
    LacksAppend("    { ", r.id, '\r');
    LacksAppend(s1, ", ", '\r');
    LacksAppend(s1 + ", ", f, '\r');
    LacksAppend(s2, ", ", '\r');
    LacksAppend(s2 + ", ", i, '\r');
    LacksAppend(s3, ", ", '\r');
    LacksAppend(s3 + ", ", n, '\r');
    LacksAppend(s4, ", ", '\r');
    LacksAppend(s4 + ", ", t, '\r');
    LacksAppend(s5, " },", '\r');
  }

  lemma Constants()
    ensures Lacks("    { ", '\r') && Lacks(", ", '\r') && Lacks(" },", '\r') && Lacks("\n", '\r') && Lacks("", '\r')
  {
  }

  lemma {:induction false} LinesLack(rows: seq<Row>)
    requires forall i :: 0 <= i < |rows| ==> IsAssetId(rows[i].id) && FreeOfReturns(rows[i])
    ensures Lacks(RowLines(rows), '\r')
  {
    hide RowLine, Lacks, IsAssetId, FreeOfReturns;
    Constants();
    if rows != [] {
      LineLacks(rows[0]);
      LinesLack(rows[1..]);
      LacksAppend(RowLine(rows[0]), "\n", '\r');
      LacksAppend(RowLine(rows[0]) + "\n", RowLines(rows[1..]), '\r');
    }
  }

  // ----- what no reader of the file can see

  lemma SliceLacks(s: string, i: nat, j: nat, c: char)
    requires i <= j <= |s| && Lacks(s, c)
    ensures Lacks(s[i..j], c) && Lacks(s[i..], c)
  {
  }

  lemma {:induction false} ReplaceLacks(s: string, pat: string, sub: string, c: char)
    requires pat != [] && Lacks(s, c) && Lacks(sub, c)
    ensures Lacks(Replace(s, pat, sub), c)
    decreases |s|
  {
    if |s| < |pat| {
    } else if s[..|pat|] == pat {
      ReplaceLacks(s[|pat|..], pat, sub, c);
    } else {
      ReplaceLacks(s[1..], pat, sub, c);
    }
  }

  lemma CommaClean(s: string, c: char)
    requires Comma(s).Some? && Lacks(s, c)
    ensures Lacks(Comma(s).value, c)
  {
    hide IsSpace;
    var t := SkipSpace(s);
    SliceLacks(s, Span(s, IsSpace), |s|, c);
    var u := Eat(t, ",").value;
    assert t == "," + u;
    LacksAppend(",", u, c);
    SliceLacks(u, Span(u, IsSpace), |u|, c);
  }

  lemma PlainClean(s: string, c: char)
    requires PlainString(s).Some?
    ensures Lacks(PlainString(s).value.0, '\"')
    ensures Lacks(s, c) ==> Lacks(PlainString(s).value.0, c) && Lacks(PlainString(s).value.1, c)
  {
    var u := Eat(s, QUOTE).value;
    var n := Span(u, NotQuote);
    assert forall i :: 0 <= i < n ==> NotQuote(u[i]);
    LacksAppend(QUOTE, u, c);
    if Lacks(s, c) {
      SliceLacks(u, 0, n, c);
      SliceLacks(u, n + 1, |u|, c);
    }
  }

  lemma HeadClean(s: string, c: char)
    requires Head(s).Some? && Lacks(s, c)
    ensures Lacks(Head(s).value.1, c)
  {
    hide Comma, IdLiteral, Span, Lacks;
    var u := Eat(s, "{").value;
    LacksAppend("{", u, c);
    SliceLacks(u, Span(u, IsSpace), |u|, c);
    var id := IdLiteral(SkipSpace(u)).value;
    LacksAppend(id.0, id.1, c);
    CommaClean(id.1, c);
  }

  lemma TailClean(s: string, c: char)
    requires Tail(s).Some?
    ensures Lacks(Tail(s).value.0, '\"')
    ensures Lacks(s, c) ==> Lacks(Tail(s).value.0, c) && Lacks(Tail(s).value.1, c)
  {
    hide PlainString, Span, Lacks;
    PlainClean(s, c);
    var f := PlainString(s).value;
    if Lacks(s, c) {
      SliceLacks(f.1, Span(f.1, IsSpace), |f.1|, c);
      LacksAppend("}", Eat(SkipSpace(f.1), "}").value, c);
    }
  }

  lemma IntClean(s: string, c: char)
    requires IntLiteral(s).Some? && Lacks(s, c)
    ensures Lacks(IntLiteral(s).value.1, c)
  {
    hide Span, Lacks, DigitsValue;
    var body := if Eat(s, "-").Some? then s[1..] else s;
    SliceLacks(s, 1, |s|, c);
    SliceLacks(body, Span(body, IsDigit), |body|, c);
  }

  lemma NameClean(s: string)
    requires NameLiteral(s).Some? && Lacks(s, '\r')
    ensures var (lit, rest) := NameLiteral(s).value;
            (lit == NULL || |lit| >= 2) && Lacks(rest, '\r')
            && (CUnescape(lit).Some? ==> Lacks(CUnescape(lit).value, '\r'))
  {
    var (lit, rest) := NameLiteral(s).value;
    NameLiteralLength(s);
    hide NameLiteral, Replace;
    LacksAppend(lit, rest, '\r');
    if lit != NULL {
      var inner := lit[1..|lit| - 1];
      SliceLacks(lit, 1, |lit| - 1, '\r');
      ReplaceLacks(inner, BACKSLASH + QUOTE, QUOTE, '\r');
      ReplaceLacks(Replace(inner, BACKSLASH + QUOTE, QUOTE), BACKSLASH + BACKSLASH, BACKSLASH, '\r');
    }
  }

  /** A matched row never has a quote in its plain fields, nor a carriage return
      that is not in the text. */
  lemma MatchClean(s: string)
    requires MatchRow(s).Some?
    ensures var (r, rest) := MatchRow(s).value;
            Lacks(r.datafile, '\"') && Lacks(r.fourcc, '\"')
            && (Lacks(s, '\r') ==> FreeOfReturns(r) && Lacks(rest, '\r'))
  {
    hide Head, PlainString, Comma, IntLiteral, NameLiteral, Tail, Lacks, CUnescape;
    var head := Head(s).value;
    var file := PlainString(head.1).value;
    var s2 := Comma(file.1).value;
    var index := IntLiteral(s2).value;
    var s3 := Comma(index.1).value;
    var name := NameLiteral(s3).value;
    var s4 := Comma(name.1).value;
    PlainClean(head.1, '\r');
    TailClean(s4, '\r');
    if Lacks(s, '\r') {
      HeadClean(s, '\r');
      CommaClean(file.1, '\r');
      IntClean(s2, '\r');
      CommaClean(index.1, '\r');
      NameClean(s3);
      CommaClean(name.1, '\r');
    }
  }

  lemma {:induction false} RowsClean(s: string, i: nat)
    requires i < |Rows(s)| && Lacks(s, '\r')
    ensures FreeOfReturns(Rows(s)[i]) && Lacks(Rows(s)[i].datafile, '\"') && Lacks(Rows(s)[i].fourcc, '\"')
    decreases |s|
  {
    hide MatchRow, FreeOfReturns;
    var m := MatchRow(s);
    if m.Some? {
      MatchClean(s);
      if i > 0 { RowsClean(m.value.1, i - 1); }
    } else {
      SliceLacks(s, 1, |s|, '\r');
      RowsClean(s[1..], i);
    }
  }

  // ----- the round trip, exactly

  /** The rows a text file can carry. */
  predicate Faithful(r: Row) {
    FreeOfReturns(r) && Lacks(r.datafile, '\"') && Lacks(r.fourcc, '\"')
    && Lacks(r.datafile, '\\') && Lacks(r.fourcc, '\\')
  }

  lemma {:induction false} EscapeFixed(s: string)
    requires Lacks(s, '\"')
    ensures Escape(s) == s <==> Lacks(s, '\\')
    ensures |Escape(s)| >= |s|
  {
    if s != [] {
      EscapeFixed(s[1..]);
      assert s == [s[0]] + s[1..];
      LacksAppend([s[0]], s[1..], '\\');
      if s[0] != '\\' && Escape(s) == s { assert Escape(s)[1..] == s[1..]; }
    }
  }

  lemma SeenIsFaithful(r: Row)
    requires Matchable(r)
    ensures Seen(r) == r <==> Lacks(r.datafile, '\\') && Lacks(r.fourcc, '\\')
  {
    hide Escape, Lacks;
    EscapeFixed(r.datafile);
    EscapeFixed(r.fourcc);
  }

  /** The text before and after the rows, in which no row begins. */
  predicate Frame(pre: string, post: string) {
    Inert(pre) && Inert(post) && NoAsset(post) && Lacks(pre, '\r') && Lacks(post, '\r')
  }

  lemma FileSeen(pre: string, rows: seq<Row>, post: string)
    requires Frame(pre, post) && forall i :: 0 <= i < |rows| ==> Matchable(rows[i])
    ensures Rows(pre + (RowLines(rows) + post)) == SeenAll(rows)
  {
    hide Rows, RowLines, Matchable, Inert, NoAsset;
    LinesStart(rows, post);
    SkipInert(pre, RowLines(rows) + post);
    LinesSeen(rows, post);
    NoAssetInNothing();
    SkipInert(post, "");
    assert post + "" == post;
    assert SeenAll(rows) + [] == SeenAll(rows);
  }

  lemma NoAssetInNothing()
    ensures NoAsset("") && Rows("") == []
  {
  }

  /** The generated table reads back as the rows printed exactly when none of their
      strings holds a carriage return and no family or type holds a quote or a
      backslash. Object names may hold anything else, row-like text included. */
  lemma TableReadsBack(pre: string, rows: seq<Row>, post: string)
    requires Frame(pre, post) && forall i :: 0 <= i < |rows| ==> IsAssetId(rows[i].id)
    ensures Rows(Universal(pre + (RowLines(rows) + post))) == rows
            <==> forall i :: 0 <= i < |rows| ==> Faithful(rows[i])
  {
    hide Rows, RowLines, Universal, Inert, NoAsset, IsAssetId, FreeOfReturns, Lacks, Seen;
    var file := pre + (RowLines(rows) + post);
    var text := Universal(file);
    UniversalLacks(file);
    if Rows(text) == rows {
      forall i | 0 <= i < |rows|
        ensures FreeOfReturns(rows[i]) && Matchable(rows[i])
      {
        RowsClean(text, i);
      }
    }
    if forall i :: 0 <= i < |rows| ==> FreeOfReturns(rows[i]) && Matchable(rows[i]) {
      LinesLack(rows);
      LacksAppend(RowLines(rows), post, '\r');
      LacksAppend(pre, RowLines(rows) + post, '\r');
      UniversalKeeps(file);
      FileSeen(pre, rows, post);
      var seen := SeenAll(rows);
      forall i | 0 <= i < |rows|
        ensures seen[i] == rows[i] <==> Faithful(rows[i])
      {
        SeenIsFaithful(rows[i]);
      }
      assert seen == rows <==> forall i :: 0 <= i < |rows| ==> seen[i] == rows[i];
    }
  }

  // ----- from the manifest to the table and back

  function RowOf(a: Asset): Row {
    Row(a.idName, a.family, a.index, Some(a.objectName), a.fourcc)
  }

  function RowsOf(assets: seq<Asset>): (rows: seq<Row>)
    ensures |rows| == |assets|
  {
    seq(|assets|, i requires 0 <= i < |assets| => RowOf(assets[i]))
  }

  lemma {:induction false} AllWantedAreAssetIds(recs: seq<Record>, stems: Stems, i: nat)
    requires AllWanted(recs, stems).Ok? && i < |recs|
    requires forall f :: f in stems ==> PlainStem(stems[f])
    ensures IsAssetId(AllWanted(recs, stems).value[i].idName)
  {
    hide IsAssetId, PlainStem;
    var n := |recs| - 1;
    if i < n {
      AllWantedAreAssetIds(recs[..n], stems, i);
    } else {
      WantedIsAssetId(recs[n], stems);
    }
  }

  /** The checker's first comparison: a table written from the assets of any manifest
      holds those assets, in order, exactly when their strings are faithful. */
  lemma GeneratedTableReadsBack(pre: string, manifest: seq<Record>, stems: Stems,
                                wanted: seq<Asset>, assets: seq<Asset>, post: string)
    requires Frame(pre, post)
    requires AllWanted(Selected(manifest), stems) == Ok(wanted) && Built(assets, wanted)
    requires forall f :: f in stems ==> PlainStem(stems[f])
    ensures var rows := RowsOf(assets);
            Rows(Universal(pre + (RowLines(rows) + post))) == rows
            <==> forall i :: 0 <= i < |rows| ==> Faithful(rows[i])
  {
    hide Rows, RowLines, Universal, Frame, IsAssetId, Faithful, PlainStem, Given, AllWanted;
    forall i | 0 <= i < |assets|
      ensures IsAssetId(assets[i].idName)
    {
      AllWantedAreAssetIds(Selected(manifest), stems, i);
      GivenIsAssetId(assets[i].idName, wanted[i].idName, Ids(assets[..i]));
    }
    TableReadsBack(pre, RowsOf(assets), post);
  }

  /** An object whose name does not survive. */
  lemma ReturnIsLost()
    ensures var rec := Record("datafile_object", "data.dat", 0, Some("X\r"), "BMP ");
            var asset := Wanted(rec, map["data.dat" := "data"]);
            asset.Ok? && asset.value.objectName == "X\r"
            && Rows(Universal(RowLines([RowOf(asset.value)]))) != [RowOf(asset.value)]
  {
    hide SanitizeToken, IsAssetId;
    var rec := Record("datafile_object", "data.dat", 0, Some("X\r"), "BMP ");
    var stems := map["data.dat" := "data"];
    assert !IsCharStem("data") by { assert "data"[1] != CHAR_PREFIX[1]; }
    WantedIsAssetId(rec, stems);
    LostRow(RowOf(Wanted(rec, stems).value));
  }

  lemma LostRow(r: Row)
    requires IsAssetId(r.id) && r.objectName == Some("X\r")
    ensures Rows(Universal(RowLines([r]))) != [r]
  {
    hide Rows, RowLines, Universal, IsAssetId, NoAsset;
    NoAssetInNothing();
    assert "X\r"[1] == '\r';
    assert !Faithful([r][0]);
    TableReadsBack("", [r], "");
    assert "" + (RowLines([r]) + "") == RowLines([r]);
  }
}
