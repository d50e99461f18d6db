/** The replay format in numbers: where every field of a parsed replay stands. */
module ReplayBytes {
  import opened Bits
  import opened Layout
  import opened ReplayFile

  /** The four bytes at p, lowest first. */
  function UnsignedAt(b: seq<byte>, p: nat): nat
    requires p + 4 <= |b|
  {
    b[p] as int + b[p + 1] as int * 256 + b[p + 2] as int * 65536 + b[p + 3] as int * 16777216
  }

  /** The same in two's complement. */
  function SignedAt(b: seq<byte>, p: nat): int
    requires p + 4 <= |b|
  {
    (UnsignedAt(b, p) + 2147483648) % 4294967296 - 2147483648
  }

  lemma WordInNumbers(b: seq<byte>, p: nat)
    requires p + 4 <= |b|
    ensures WordAt(b, p) == UnsignedAt(b, p) && IntAt(b, p) == SignedAt(b, p)
  {
  }

  /** A file parses exactly if it is long enough for its records. */
  lemma ParsesIff(b: seq<byte>)
    ensures Parsed(b).Ok? <==> |b| >= 2212 && |b| >= 2212 + 5 * SignedAt(b, 6)
  {
    hide IntAt, SignedAt, ReplayAt;
    if |b| >= 2212 { WordInNumbers(b, 6); }
  }

  /** The fields before the float columns. */
  lemma HeaderInNumbers(b: seq<byte>)
    requires Parsed(b).Ok?
    ensures |b| >= 2212
    ensures var r := Parsed(b).value;
            r.header == b[..6] && r.size == SignedAt(b, 6) && r.name == b[10..42] && r.date == b[42..74]
            && r.score == SignedAt(b, 74) && r.floor == SignedAt(b, 78) && r.combo == SignedAt(b, 82)
            && r.nctf == SignedAt(b, 86) && r.blc == SignedAt(b, 90)
            && r.floorShrink == SignedAt(b, 134) && r.floorSize == SignedAt(b, 138)
            && r.startSpeed == SignedAt(b, 142) && r.speedIncrease == SignedAt(b, 146)
            && r.gravity == SignedAt(b, 150) && r.rejump == SignedAt(b, 154) && r.seed == SignedAt(b, 158)
            && r.comment == b[162..204] && r.checksum == SignedAt(b, 204) && r.tcPosts == SignedAt(b, 208)
  {
    hide IntAt, SignedAt, IntsAt, AllColumns, RecordsAt;
    WordInNumbers(b, 6);
    WordInNumbers(b, 74);
    WordInNumbers(b, 78);
    WordInNumbers(b, 82);
    WordInNumbers(b, 86);
    WordInNumbers(b, 90);
    WordInNumbers(b, 134);
    WordInNumbers(b, 138);
    WordInNumbers(b, 142);
    WordInNumbers(b, 146);
    WordInNumbers(b, 150);
    WordInNumbers(b, 154);
    WordInNumbers(b, 158);
    WordInNumbers(b, 204);
    WordInNumbers(b, 208);
  }

  /** Entry i of the two arrays, row i of float column k, and record n. */
  lemma RowsInNumbers(b: seq<byte>, i: nat, k: nat, n: nat)
    requires Parsed(b).Ok?
    ensures |b| >= 2212
    ensures i < 5 ==> |Parsed(b).value.ccc| == |Parsed(b).value.jc| == 5
                      && Parsed(b).value.ccc[i] == SignedAt(b, 94 + 4 * i)
                      && Parsed(b).value.jc[i] == SignedAt(b, 114 + 4 * i)
    ensures i < 100 && k < 5 ==> Parsed(b).value.cols[k][i] == UnsignedAt(b, 212 + 20 * i + 4 * k)
    ensures |Parsed(b).value.records| == if SignedAt(b, 6) < 0 then 0 else SignedAt(b, 6)
    ensures n < |Parsed(b).value.records|
            ==> 2217 + 5 * n <= |b| && Parsed(b).value.records[n] == Record(b[2216 + 5 * n], SignedAt(b, 2212 + 5 * n))
    ensures Parsed(b).value.trailing == |b| - 2212 - 5 * |Parsed(b).value.records|
  {
    hide IntAt, WordAt, SignedAt, UnsignedAt;
    WordInNumbers(b, 6);
    if i < 5 {
      WordInNumbers(b, 94 + 4 * i);
      WordInNumbers(b, 114 + 4 * i);
    }
    if i < 100 && k < 5 {
      assert 212 + 4 * (5 * i + k) == 212 + 20 * i + 4 * k;
      WordInNumbers(b, 212 + 20 * i + 4 * k);
      assert Parsed(b).value.cols[k] == ColumnAt(b, k, 100);
    }
    if n < |Parsed(b).value.records| { WordInNumbers(b, 2212 + 5 * n); }
  }
}
