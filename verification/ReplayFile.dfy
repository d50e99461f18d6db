/** The .itr replay format of scripts/itr_real_files_check.py: parse, the writer it
    reads back, and the shape of every file it accepts. */
module ReplayFile {
  import opened Wrappers
  import opened Bits
  import opened Words
  import opened Layout

  /** One record in memory order; cc comes first on disk. */
  datatype Record = Record(kf: byte, cc: int32)

  /** Each float column entry is its four stored bytes as a word. */
  datatype Replay = Replay(
    header: seq<byte>, size: int32, name: seq<byte>, date: seq<byte>,
    score: int32, floor: int32, combo: int32, nctf: int32, blc: int32,
    ccc: seq<int32>, jc: seq<int32>,
    floorShrink: int32, floorSize: int32, startSpeed: int32, speedIncrease: int32,
    gravity: int32, rejump: int32, seed: int32,
    comment: seq<byte>, checksum: int32, tcPosts: int32,
    cols: seq<seq<word>>, records: seq<Record>, trailing: nat)

  /** struct.error or IndexError: the file ends inside a field. */
  datatype Error = Truncated

  const FIXED := 2212

  // ----- what parsing means, by absolute offsets

  function IntAt(b: seq<byte>, p: nat): int32
    requires p + 4 <= |b|
  {
    Signed(WordAt(b, p))
  }

  function IntsAt(b: seq<byte>, p: nat, n: nat): (vs: seq<int32>)
    requires p + 4 * n <= |b|
    ensures |vs| == n
  {
    seq(n, i requires 0 <= i < n => IntAt(b, p + 4 * i))
  }

  /** Column k of row i stands at 212 + 4 * (5 * i + k). */
  function ColumnAt(b: seq<byte>, k: nat, n: nat): (c: seq<word>)
    requires |b| >= FIXED && k < 5 && n <= 100
    ensures |c| == n
  {
    seq(n, i requires 0 <= i < n => WordAt(b, 212 + 4 * (5 * i + k)))
  }

  function AllColumns(b: seq<byte>): seq<seq<word>>
    requires |b| >= FIXED
  {
    [ColumnAt(b, 0, 100), ColumnAt(b, 1, 100), ColumnAt(b, 2, 100), ColumnAt(b, 3, 100), ColumnAt(b, 4, 100)]
  }

  function RecordAt(b: seq<byte>, i: nat): Record
    requires FIXED + 5 * i + 5 <= |b|
  {
    Record(b[FIXED + 5 * i + 4], IntAt(b, FIXED + 5 * i))
  }

  function RecordsAt(b: seq<byte>, n: nat): (rs: seq<Record>)
    requires FIXED + 5 * n <= |b|
    ensures |rs| == n
  {
    seq(n, i requires 0 <= i < n => RecordAt(b, i))
  }

  function Count(size: int32): nat {
    if size < 0 then 0 else size
  }

  function ReplayAt(b: seq<byte>): Replay
    requires |b| >= FIXED && |b| >= FIXED + 5 * Count(IntAt(b, 6))
  {
    var size := IntAt(b, 6);
    Replay(b[0..6], size, b[10..42], b[42..74],
           IntAt(b, 74), IntAt(b, 78), IntAt(b, 82), IntAt(b, 86), IntAt(b, 90),
           IntsAt(b, 94, 5), IntsAt(b, 114, 5),
           IntAt(b, 134), IntAt(b, 138), IntAt(b, 142), IntAt(b, 146),
           IntAt(b, 150), IntAt(b, 154), IntAt(b, 158),
           b[162..204], IntAt(b, 204), IntAt(b, 208),
           AllColumns(b),
           RecordsAt(b, Count(size)), |b| - FIXED - 5 * Count(size))
  }

  function Parsed(b: seq<byte>): (r: Result<Replay, Error>)
    ensures r.Ok? ==> Shaped(r.value)
  {
    if |b| < FIXED || |b| < FIXED + 5 * Count(IntAt(b, 6)) then Err(Truncated) else Ok(ReplayAt(b))
  }

  // ----- the parser

  /** struct.unpack_from("<i", b, off)[0] */
  method Unpack(b: seq<byte>, off: nat) returns (v: Result<int32, Error>)
    ensures v.Ok? || v == Err(Truncated)
    ensures v.Ok? <==> off + 4 <= |b|
    ensures v.Ok? ==> v.value == IntAt(b, off)
  {
    if off + 4 > |b| {
      return Err(Truncated);
    }
    return Ok(Signed(LeWord(b[off..off + 4])));
  }

  /** struct.unpack_from("<%di" % n, b, off) */
  method UnpackMany(b: seq<byte>, off: nat, n: nat) returns (vs: Result<seq<int32>, Error>)
    ensures vs.Ok? || vs == Err(Truncated)
    ensures vs.Ok? <==> off + 4 * n <= |b|
    ensures vs.Ok? ==> vs.value == IntsAt(b, off, n)
  {
    if off + 4 * n > |b| {
      return Err(Truncated);
    }
    var out: seq<int32> := [];
    for i := 0 to n
      invariant |out| == i && forall k :: 0 <= k < i ==> out[k] == IntAt(b, off + 4 * k)
    {
      out := out + [Signed(LeWord(b[off + 4 * i..off + 4 * i + 4]))];
    }
    return Ok(out);
  }

  method Parse(b: seq<byte>) returns (r: Result<Replay, Error>)
    ensures r == Parsed(b)
  {
    hide IntAt, AllColumns, RecordsAt;
    var off := 0;
    var header := if |b| < 6 then b else b[0..6];
    off := 6;
    var size :- Unpack(b, off);
    off := off + 4;
    var name := Slice(b, off, off + 32);
    off := off + 32;
    var date := Slice(b, off, off + 32);
    off := off + 32;
    var first :- UnpackMany(b, off, 5);
    off := off + 20;
    var ccc :- UnpackMany(b, off, 5);
    off := off + 20;
    var jc :- UnpackMany(b, off, 5);
    off := off + 20;
    var second :- UnpackMany(b, off, 7);
    off := off + 28;
    var comment := Slice(b, off, off + 42);
    off := off + 42;
    var checksum :- Unpack(b, off);
    off := off + 4;
    var tcPosts :- Unpack(b, off);
    off := off + 4;
    var cols :- ParseColumns(b, off);
    off := off + 2000;
    var records :- ParseRecords(b, off, size);
    off := off + 5 * |records|;
    return Ok(Replay(header, size, name, date, first[0], first[1], first[2], first[3], first[4], ccc, jc,
                     second[0], second[1], second[2], second[3], second[4], second[5], second[6],
                     comment, checksum, tcPosts, cols, records, |b| - off));
  }

  lemma WordAtSlice(b: seq<byte>, p: nat)
    requires p + 4 <= |b|
    ensures LeWord(b[p..p + 4]) == WordAt(b, p)
  {
  }

  /** The 100 rows of five interleaved floats. */
  method ParseColumns(b: seq<byte>, start: nat) returns (cols: Result<seq<seq<word>>, Error>)
    requires start == 212
    ensures cols.Ok? || cols == Err(Truncated)
    ensures cols.Ok? <==> |b| >= FIXED
    ensures cols.Ok? ==> cols.value == AllColumns(b)
  {
    hide WordAt;
    var off := start;
    var out: seq<seq<word>> := [[], [], [], [], []];
    for row := 0 to 100
      invariant off == 212 + 20 * row && |out| == 5
      invariant off <= |b| || row == 0
      invariant forall k :: 0 <= k < 5 ==> |out[k]| == row
      invariant forall k, i :: 0 <= k < 5 && 0 <= i < row ==>
                  212 + 4 * (5 * i + k) + 4 <= |b| && out[k][i] == WordAt(b, 212 + 4 * (5 * i + k))
    {
      for k := 0 to 5
        invariant off == 212 + 4 * (5 * row + k) && |out| == 5
        invariant off <= |b| || row == k == 0
        invariant forall j :: 0 <= j < 5 ==> |out[j]| == if j < k then row + 1 else row
        invariant forall j, i :: 0 <= j < 5 && 0 <= i < |out[j]| ==>
                    212 + 4 * (5 * i + j) + 4 <= |b| && out[j][i] == WordAt(b, 212 + 4 * (5 * i + j))
      {
        if off + 4 > |b| {
          return Err(Truncated);
        }
        WordAtSlice(b, off);
        out := out[k := out[k] + [LeWord(b[off..off + 4])]];
        off := off + 4;
      }
    }
    assert forall k :: 0 <= k < 5 ==> out[k] == ColumnAt(b, k, 100);
    return Ok(out);
  }

  method ParseRecords(b: seq<byte>, start: nat, size: int32) returns (recs: Result<seq<Record>, Error>)
    requires start == FIXED <= |b|
    ensures recs.Ok? || recs == Err(Truncated)
    ensures recs.Ok? <==> |b| >= FIXED + 5 * Count(size)
    ensures recs.Ok? ==> recs.value == RecordsAt(b, Count(size))
  {
    var off := start;
    var out: seq<Record> := [];
    var n := 0;
    while n < size
      invariant n <= Count(size) && |out| == n
      invariant off == FIXED + 5 * n <= |b|
      invariant forall i :: 0 <= i < n ==> out[i] == RecordAt(b, i)
    {
      var cc :- Unpack(b, off);
      off := off + 4;
      if off >= |b| {
        return Err(Truncated);
      }
      var kf := b[off];
      off := off + 1;
      out := out + [Record(kf, cc)];
      n := n + 1;
    }
    return Ok(out);
  }

  // ----- the writer

  /** The lengths every parsed replay has. */
  predicate Shaped(r: Replay) {
    |r.header| == 6 && |r.name| == 32 && |r.date| == 32 && |r.ccc| == 5 && |r.jc| == 5 &&
    |r.comment| == 42 && |r.cols| == 5 && (forall k :: 0 <= k < 5 ==> |r.cols[k]| == 100)
  }

  predicate Complete(r: Replay) {
    Shaped(r) && r.size == |r.records|
  }

  function Ints(r: Replay): (vs: seq<int32>)
    ensures Complete(r) ==> |vs| == 22
  {
    [r.score, r.floor, r.combo, r.nctf, r.blc] + r.ccc + r.jc
    + [r.floorShrink, r.floorSize, r.startSpeed, r.speedIncrease, r.gravity, r.rejump, r.seed]
  }

  function Unsigneds(vs: seq<int32>): (ws: seq<word>)
    ensures |ws| == |vs|
  {
    seq(|vs|, i requires 0 <= i < |vs| => Unsigned(vs[i]))
  }

  /** The columns row by row. */
  function Interleaved(cols: seq<seq<word>>): (ws: seq<word>)
    requires |cols| == 5 && forall k :: 0 <= k < 5 ==> |cols[k]| == 100
    ensures |ws| == 500
  {
    seq(500, n requires 0 <= n < 500 => cols[n % 5][n / 5])
  }

  function RecordBytes(rs: seq<Record>): (b: seq<byte>)
    ensures |b| == 5 * |rs|
  {
    if rs == [] then [] else LeBytes(Unsigned(rs[0].cc)) + [rs[0].kf] + RecordBytes(rs[1..])
  }

  /** save_replay's order. */
  function Write(r: Replay): (b: seq<byte>)
    requires Complete(r)
    ensures |b| == FIXED + 5 * |r.records|
  {
    r.header + (LeAll([Unsigned(r.size)]) + (r.name + (r.date + (LeAll(Unsigneds(Ints(r))) + (r.comment
    + (LeAll([Unsigned(r.checksum), Unsigned(r.tcPosts)])
    + (LeAll(Interleaved(r.cols)) + RecordBytes(r.records))))))))
  }

  // ----- parsing undoes writing

  lemma IntsRoundTrip(b: seq<byte>, p: nat, vs: seq<int32>)
    requires p + 4 * |vs| <= |b|
    ensures At(b, p, LeAll(Unsigneds(vs))) <==> IntsAt(b, p, |vs|) == vs
  {
    hide At, LeAll, WordAt, Signed, Unsigned;
    var ws, read, raw := Unsigneds(vs), IntsAt(b, p, |vs|), WordsAt(b, p, |vs|);
    WordsRoundTrip(b, p, ws);
    forall i | 0 <= i < |vs|
      ensures read[i] == vs[i] <==> raw[i] == ws[i]
    {
      UnsignedSigned(WordAt(b, p + 4 * i));
    }
    assert read == vs <==> forall i :: 0 <= i < |vs| ==> read[i] == vs[i];
    assert raw == ws <==> forall i :: 0 <= i < |vs| ==> raw[i] == ws[i];
  }

  lemma IntRoundTrip(b: seq<byte>, p: nat, v: int32)
    requires p + 4 <= |b|
    ensures At(b, p, LeAll([Unsigned(v)])) <==> IntAt(b, p) == v
  {
    IntsRoundTrip(b, p, [v]);
    assert Unsigneds([v]) == [Unsigned(v)];
    if IntAt(b, p) == v { assert IntsAt(b, p, 1) == [v]; }
    if IntsAt(b, p, 1) == [v] { assert IntsAt(b, p, 1)[0] == v; }
  }

  lemma ColumnsRoundTrip(b: seq<byte>, cols: seq<seq<word>>)
    requires |b| >= FIXED && |cols| == 5 && forall k :: 0 <= k < 5 ==> |cols[k]| == 100
    ensures At(b, 212, LeAll(Interleaved(cols))) <==> AllColumns(b) == cols
  {
    hide At, LeAll, WordAt;
    var ws, raw, all := Interleaved(cols), WordsAt(b, 212, 500), AllColumns(b);
    WordsRoundTrip(b, 212, ws);
    forall k, i | 0 <= k < 5 && 0 <= i < 100
      ensures all[k][i] == raw[5 * i + k] && cols[k][i] == ws[5 * i + k]
    {
    }
    if raw == ws {
      forall k | 0 <= k < 5
        ensures all[k] == cols[k]
      {
      }
    }
    if all == cols {
      forall n | 0 <= n < 500
        ensures raw[n] == ws[n]
      {
        assert all[n % 5][n / 5] == raw[5 * (n / 5) + n % 5];
      }
    }
  }

  lemma {:induction false} RecordsRoundTrip(b: seq<byte>, rs: seq<Record>, i: nat)
    requires i <= |rs| && FIXED + 5 * |rs| <= |b|
    ensures At(b, FIXED + 5 * i, RecordBytes(rs[i..]))
            <==> forall k :: i <= k < |rs| ==> RecordAt(b, k) == rs[k]
    decreases |rs| - i
  {
    hide LeBytes, LeWord, Signed, Unsigned, IntAt;
    if i < |rs| {
      var r, p := rs[i], FIXED + 5 * i;
      var rest := RecordBytes(rs[i + 1..]);
      assert rs[i..][1..] == rs[i + 1..];
      assert RecordBytes(rs[i..]) == LeBytes(Unsigned(r.cc)) + [r.kf] + rest;
      RecordsRoundTrip(b, rs, i + 1);
      RecordRoundTrip(b, p, r);
      AtBoth(b, p, LeBytes(Unsigned(r.cc)) + [r.kf], rest);
    }
  }

  lemma RecordRoundTrip(b: seq<byte>, p: nat, r: Record)
    requires p + 5 <= |b|
    ensures At(b, p, LeBytes(Unsigned(r.cc)) + [r.kf]) <==> IntAt(b, p) == r.cc && b[p + 4] == r.kf
  {
    AtBoth(b, p, LeBytes(Unsigned(r.cc)), [r.kf]);
    IntRoundTrip(b, p, r.cc);
    assert LeAll([Unsigned(r.cc)]) == LeBytes(Unsigned(r.cc));
    assert b[p + 4..p + 5] == [b[p + 4]];
  }

  /** The nine runs of a written replay, each at its offset. */
  predicate Runs(b: seq<byte>, r: Replay)
    requires Complete(r)
  {
    At(b, 0, r.header) && At(b, 6, LeAll([Unsigned(r.size)])) && At(b, 10, r.name) && At(b, 42, r.date) &&
    At(b, 74, LeAll(Unsigneds(Ints(r)))) && At(b, 162, r.comment) &&
    At(b, 204, LeAll([Unsigned(r.checksum), Unsigned(r.tcPosts)])) &&
    At(b, 212, LeAll(Interleaved(r.cols))) && At(b, FIXED, RecordBytes(r.records))
  }

  lemma WriteIsRuns(b: seq<byte>, r: Replay)
    requires Complete(r)
    ensures At(b, 0, Write(r)) <==> Runs(b, r)
  {
    hide At, Unsigned, Unsigneds, LeAll, Interleaved;
    var w9 := RecordBytes(r.records);
    var w8 := LeAll(Interleaved(r.cols)) + w9;
    var w7 := LeAll([Unsigned(r.checksum), Unsigned(r.tcPosts)]) + w8;
    var w6 := r.comment + w7;
    var w5 := LeAll(Unsigneds(Ints(r))) + w6;
    var w4 := r.date + w5;
    var w3 := r.name + w4;
    var w2 := LeAll([Unsigned(r.size)]) + w3;
    AtBoth(b, 0, r.header, w2);
    AtBoth(b, 6, LeAll([Unsigned(r.size)]), w3);
    AtBoth(b, 10, r.name, w4);
    AtBoth(b, 42, r.date, w5);
    AtBoth(b, 74, LeAll(Unsigneds(Ints(r))), w6);
    AtBoth(b, 162, r.comment, w7);
    AtBoth(b, 204, LeAll([Unsigned(r.checksum), Unsigned(r.tcPosts)]), w8);
    AtBoth(b, 212, LeAll(Interleaved(r.cols)), w9);
  }

  lemma IntsAreFields(b: seq<byte>, r: Replay)
    requires Complete(r) && |b| >= FIXED
    ensures IntsAt(b, 74, 22) == Ints(r) <==>
            IntAt(b, 74) == r.score && IntAt(b, 78) == r.floor && IntAt(b, 82) == r.combo
            && IntAt(b, 86) == r.nctf && IntAt(b, 90) == r.blc
            && IntsAt(b, 94, 5) == r.ccc && IntsAt(b, 114, 5) == r.jc
            && IntAt(b, 134) == r.floorShrink && IntAt(b, 138) == r.floorSize
            && IntAt(b, 142) == r.startSpeed && IntAt(b, 146) == r.speedIncrease
            && IntAt(b, 150) == r.gravity && IntAt(b, 154) == r.rejump && IntAt(b, 158) == r.seed
  {
    hide IntAt;
    var all := IntsAt(b, 74, 22);
    assert all[0..5] == [IntAt(b, 74), IntAt(b, 78), IntAt(b, 82), IntAt(b, 86), IntAt(b, 90)];
    assert all[5..10] == IntsAt(b, 94, 5);
    assert all[10..15] == IntsAt(b, 114, 5);
    assert all[15..22] == [IntAt(b, 134), IntAt(b, 138), IntAt(b, 142), IntAt(b, 146),
                           IntAt(b, 150), IntAt(b, 154), IntAt(b, 158)];
    FourParts(all, Ints(r), 5, 10, 15);
    assert Ints(r)[0..5] == [r.score, r.floor, r.combo, r.nctf, r.blc];
    assert Ints(r)[5..10] == r.ccc;
    assert Ints(r)[10..15] == r.jc;
    assert Ints(r)[15..22] == [r.floorShrink, r.floorSize, r.startSpeed, r.speedIncrease,
                               r.gravity, r.rejump, r.seed];
  }

  lemma FourParts(s: seq<int32>, t: seq<int32>, i: nat, j: nat, k: nat)
    requires |s| == |t| && i <= j <= k <= |s|
    ensures s == t <==>
            s[0..i] == t[0..i] && s[i..j] == t[i..j] && s[j..k] == t[j..k] && s[k..|s|] == t[k..|t|]
  {
    assert s == s[0..i] + s[i..j] + s[j..k] + s[k..|s|];
    assert t == t[0..i] + t[i..j] + t[j..k] + t[k..|t|];
  }

  lemma ChecksumsAreFields(b: seq<byte>, r: Replay)
    requires |b| >= FIXED
    ensures At(b, 204, LeAll([Unsigned(r.checksum), Unsigned(r.tcPosts)]))
            <==> IntAt(b, 204) == r.checksum && IntAt(b, 208) == r.tcPosts
  {
    hide At, LeAll, Unsigned, IntAt;
    var vs := [r.checksum, r.tcPosts];
    assert Unsigneds(vs) == [Unsigned(r.checksum), Unsigned(r.tcPosts)];
    IntsRoundTrip(b, 204, vs);
    assert IntsAt(b, 204, 2) == [IntAt(b, 204), IntAt(b, 208)];
  }

  lemma RecordsAreFields(b: seq<byte>, rs: seq<Record>)
    requires FIXED + 5 * |rs| <= |b|
    ensures At(b, FIXED, RecordBytes(rs)) <==> RecordsAt(b, |rs|) == rs
  {
    hide At, RecordBytes, RecordAt;
    RecordsRoundTrip(b, rs, 0);
    assert rs[0..] == rs;
    var read := RecordsAt(b, |rs|);
    assert read == rs <==> forall k :: 0 <= k < |rs| ==> read[k] == rs[k];
    assert forall k :: 0 <= k < |rs| ==> read[k] == RecordAt(b, k);
  }

  /** A file holds the fields of r in the written order, with nothing but the
      trailing bytes besides, exactly when parsing it gives r. */
  lemma ParseIffWritten(b: seq<byte>, r: Replay)
    requires Complete(r) && |b| == FIXED + 5 * |r.records| + r.trailing
    ensures At(b, 0, Write(r)) <==> Parsed(b) == Ok(r)
  {
    hide IntAt, IntsAt, AllColumns, RecordsAt, LeAll, Unsigned, Interleaved, RecordBytes, Unsigneds, Ints, Write;
    WriteIsRuns(b, r);
    IntRoundTrip(b, 6, r.size);
    IntsRoundTrip(b, 74, Ints(r));
    IntsAreFields(b, r);
    ChecksumsAreFields(b, r);
    ColumnsRoundTrip(b, r.cols);
    RecordsAreFields(b, r.records);
  }

  /** Parsing a written replay, whatever follows it in the file, gives it back. */
  lemma ParseWrite(r: Replay, tail: seq<byte>)
    requires Complete(r)
    ensures Parsed(Write(r) + tail) == Ok(r.(trailing := |tail|))
  {
    hide Parsed;
    var b, t := Write(r) + tail, r.(trailing := |tail|);
    assert Write(t) == Write(r);
    ParseIffWritten(b, t);
  }

  /** Every file that parses with a non-negative size is the written form of what
      was parsed, followed by its trailing bytes. */
  lemma WriteParsed(b: seq<byte>)
    requires Parsed(b).Ok? && Parsed(b).value.size >= 0
    ensures var r := Parsed(b).value;
            Complete(r) && |b| == FIXED + 5 * r.size + r.trailing
            && Write(r) == b[..|b| - r.trailing]
  {
    hide IntAt, IntsAt, ColumnAt, RecordAt, Write;
    ParseIffWritten(b, Parsed(b).value);
  }
}
