/** The rows of assets_table.inc: c_str and the row loop of carrier/gen/gen_assets.py,
    and ROW_RE, c_unescape and parse_table_inc of carrier/gen/check_assets.py. */
module AssetTable {
  import opened Wrappers
  import opened Text
  import opened AssetNames

  datatype Row = Row(id: string, datafile: string, index: int, objectName: Option<string>, fourcc: string)

  // ----- str.replace

  /** Python's s.replace(pat, by): leftmost occurrences, not overlapping. */
  function Replace(s: string, pat: string, sub: string): string
    requires pat != []
  {
    if |s| < |pat| then s
    else if s[..|pat|] == pat then sub + Replace(s[|pat|..], pat, sub)
    else [s[0]] + Replace(s[1..], pat, sub)
  }

  const BACKSLASH := "\\"
  const QUOTE := "\""
  const NULL := "(const char *)0"

  // ----- printing

  function CStr(s: Option<string>): string {
    match s
    case None => NULL
    case Some(t) => QUOTE + Replace(Replace(t, BACKSLASH, BACKSLASH + BACKSLASH), QUOTE, BACKSLASH + QUOTE) + QUOTE
  }

  /** "%d" */
  function IntText(i: int): string {
    if i < 0 then "-" + Decimal(-i) else Decimal(i)
  }

  function RowLine(r: Row): string {
    "    { " + r.id + ", " + CStr(Some(r.datafile)) + ", " + IntText(r.index) + ", " + CStr(r.objectName)
    + ", " + CStr(Some(r.fourcc)) + " },"
  }

  /** The row lines, each ended by a newline. */
  function RowLines(rows: seq<Row>): string {
    if rows == [] then "" else RowLine(rows[0]) + "\n" + RowLines(rows[1..])
  }

  lemma RowLinesStep(rows: seq<Row>, i: nat, text: string)
    requires i < |rows|
    ensures text + RowLines(rows[i..]) == text + RowLine(rows[i]) + "\n" + RowLines(rows[i + 1..])
  {
    hide RowLine;
    assert rows[i..][1..] == rows[i + 1..];
  }

  lemma RowLinesEnds(rows: seq<Row>, text: string)
    ensures RowLines(rows[0..]) == RowLines(rows)
    ensures text + RowLines(rows[|rows|..]) == text
  {
    hide RowLine;
    assert rows[0..] == rows;
    var none := rows[|rows|..];
    assert none == [] && RowLines(none) == "";
    hide RowLines;
    assert text + "" == text;
  }

  method WriteRows(rows: seq<Row>) returns (text: string)
    ensures text == RowLines(rows)
  {
    hide RowLine, RowLines;
    text := "";
    RowLinesEnds(rows, text);
    for i := 0 to |rows|
      invariant text + RowLines(rows[i..]) == RowLines(rows)
    {
      RowLinesStep(rows, i, text);
      text := text + RowLine(rows[i]) + "\n";
    }
    RowLinesEnds(rows, text);
  }

  // ----- reading a file in text mode

  /** Universal newlines: \r\n and \r both become \n. */
  function Universal(s: string): string {
    if s == [] then []
    else if s[0] == '\r' then ['\n'] + Universal(if |s| > 1 && s[1] == '\n' then s[2..] else s[1..])
    else [s[0]] + Universal(s[1..])
  }

  // ----- the row pattern, matched greedily from the left; module RowPattern relates
  // ----- this to all the ways the pattern can match

  /** \s of a Python str pattern. */
  predicate IsSpace(c: char) {
    var n := c as int;
    9 <= n <= 13 || 28 <= n <= 32 || n == 0x85 || n == 0xA0 || n == 0x1680 || 0x2000 <= n <= 0x200A
    || n == 0x2028 || n == 0x2029 || n == 0x202F || n == 0x205F || n == 0x3000
  }

  /** How many characters at the front satisfy p. */
  function Span(s: string, p: char -> bool): (n: nat)
    ensures n <= |s| && (forall i :: 0 <= i < n ==> p(s[i])) && (n < |s| ==> !p(s[n]))
  {
    if s != [] && p(s[0]) then 1 + Span(s[1..], p) else 0
  }

  function SkipSpace(s: string): (t: string)
    ensures |t| <= |s|
  {
    s[Span(s, IsSpace)..]
  }

  /** The rest of s behind a literal. */
  function Eat(s: string, lit: string): (t: Option<string>)
    ensures t.Some? ==> s == lit + t.value
  {
    if |lit| <= |s| && s[..|lit|] == lit then Some(s[|lit|..]) else None
  }

  /** \s*,\s* */
  function Comma(s: string): (t: Option<string>)
    ensures t.Some? ==> |t.value| < |s|
  {
    var t := Eat(SkipSpace(s), ",");
    if t.None? then None else Some(SkipSpace(t.value))
  }

  predicate NotQuote(c: char) {
    c != '\"'
  }

  /** "([^"]*)" */
  function PlainString(s: string): (t: Option<(string, string)>)
    ensures t.Some? ==> |t.value.1| < |s|
  {
    var t := Eat(s, QUOTE);
    if t.None? then None
    else
      var n := Span(t.value, NotQuote);
      if n == |t.value| then None else Some((t.value[..n], t.value[n + 1..]))
  }

  /** The length of (?:[^"\\]|\\.)* at the front of s. */
  function EscapedSpan(s: string): (n: nat)
    ensures n <= |s|
  {
    if s == [] || s[0] == '\"' then 0
    else if s[0] != '\\' then 1 + EscapedSpan(s[1..])
    else if |s| > 1 && s[1] != '\n' then 2 + EscapedSpan(s[2..])
    else 0
  }

  /** "(?:[^"\\]|\\.)*" or (const char *)0, with the quotes. */
  function NameLiteral(s: string): (t: Option<(string, string)>)
    ensures t.Some? ==> s == t.value.0 + t.value.1 && t.value.0 != ""
  {
    if Eat(s, QUOTE).Some? then
      var n := 1 + EscapedSpan(s[1..]);
      if n < |s| && s[n] == '\"' then Some((s[..n + 1], s[n + 1..])) else None
    else if Eat(s, NULL).Some? then Some((s[..|NULL|], s[|NULL|..]))
    else None
  }

  /** -?\d+ and its value. */
  function IntLiteral(s: string): (t: Option<(int, string)>)
    ensures t.Some? ==> |t.value.1| < |s|
  {
    var body := if Eat(s, "-").Some? then s[1..] else s;
    var n := Span(body, IsDigit);
    if n == 0 then None
    else
      var v := DigitsValue(body[..n]);
      Some((if Eat(s, "-").Some? then -v else v, body[n..]))
  }

  function DigitsValue(s: string): int {
    if s == [] then 0 else DigitsValue(s[..|s| - 1]) * 10 + (s[|s| - 1] as int - '0' as int)
  }

  /** c_unescape of a literal NameLiteral can return: two replacements in sequence. */
  function CUnescape(lit: string): Option<string>
    requires lit == NULL || |lit| >= 2
  {
    if lit == NULL then None
    else Some(Replace(Replace(lit[1..|lit| - 1], BACKSLASH + QUOTE, QUOTE), BACKSLASH + BACKSLASH, BACKSLASH))
  }

  /** ASSET_[A-Za-z0-9_]+ */
  function IdLiteral(s: string): (t: Option<(string, string)>)
    ensures t.Some? ==> s == t.value.0 + t.value.1
  {
    var t := Eat(s, "ASSET_");
    if t.None? then None
    else
      var n := Span(t.value, IsWord);
      if n == 0 then None else Some((s[..6 + n], s[6 + n..]))
  }

  function Head(s: string): (t: Option<(string, string)>)
    ensures t.Some? ==> |t.value.1| < |s|
  {
    var a := Eat(s, "{");
    if a.None? then None
    else
      var id := IdLiteral(SkipSpace(a.value));
      if id.None? then None
      else
        var rest := Comma(id.value.1);
        if rest.None? then None else Some((id.value.0, rest.value))
  }

  /** A field parsed by `p`, then a comma. */
  function Tail(s: string): (t: Option<(string, string)>)
    ensures t.Some? ==> |t.value.1| < |s|
  {
    var f := PlainString(s);
    if f.None? then None
    else
      var close := Eat(SkipSpace(f.value.1), "}");
      if close.None? then None else Some((f.value.0, close.value))
  }

  /** ROW_RE at the front of s: the row, and what follows the match. */
  function MatchRow(s: string): (t: Option<(Row, string)>)
    ensures t.Some? ==> |t.value.1| < |s|
  {
    var head := Head(s);
    if head.None? then None
    else
      var file := PlainString(head.value.1);
      if file.None? then None
      else
        var s2 := Comma(file.value.1);
        if s2.None? then None
        else
          var index := IntLiteral(s2.value);
          if index.None? then None
          else
            var s3 := Comma(index.value.1);
            if s3.None? then None
            else
              var name := NameLiteral(s3.value);
              if name.None? then None
              else
                var s4 := Comma(name.value.1);
                if s4.None? then None
                else
                  var last := Tail(s4.value);
                  if last.None? then None
                  else
                    NameLiteralLength(s3.value);
                    Some((Row(head.value.0, file.value.0, index.value.0, CUnescape(name.value.0), last.value.0),
                          last.value.1))
  }

  lemma NameLiteralLength(s: string)
    requires NameLiteral(s).Some?
    ensures var lit := NameLiteral(s).value.0;
            lit == NULL || |lit| >= 2
  {
  }

  /** finditer: all matches from the left. */
  function Rows(s: string): seq<Row>
    decreases |s|
  {
    if s == [] then []
    else
      var m := MatchRow(s);
      if m.Some? then [m.value.0] + Rows(m.value.1) else Rows(s[1..])
  }

  method ParseTableInc(file: string) returns (rows: seq<Row>)
    ensures rows == Rows(Universal(file))
  {
    hide MatchRow, Universal;
    var rest := Universal(file);
    rows := [];
    while rest != []
      invariant rows + Rows(rest) == Rows(Universal(file))
      decreases |rest|
    {
      var m := MatchRow(rest);
      if m.Some? {
        assert rows + ([m.value.0] + Rows(m.value.1)) == rows + [m.value.0] + Rows(m.value.1);
        rows := rows + [m.value.0];
        rest := m.value.1;
      } else {
        rest := rest[1..];
      }
    }
    assert rows + [] == rows;
  }
}
