/** Bitmap conversion of tools_recon/assets_convert.py and the canonical bitmap
    bytes of scripts/asset_oracle_digest.py. A PNG is its list of RGB rows. */
module Bitmap {
  import opened Wrappers
  import opened Bits
  import opened Layout

  type rgb = s: seq<byte> | |s| == 3 witness [0, 0, 0]

  /** What bmp_to_png returns, and the rows it writes to the PNG. */
  datatype Converted = Converted(ok: Option<bool>, w: nat, h: nat, bpp: nat, rows: seq<seq<byte>>)

  /** struct.error, KeyError, AssertionError, IndexError, ValueError. */
  datatype Error = ShortHeader | UnknownDepth | WrongSize | OutOfRange | BadColour

  // ----- one pixel

  function Be16(hi: byte, lo: byte): nat {
    hi as int * 256 + lo
  }

  function Be16Bytes(n: nat): seq<byte>
    requires n < 0x1_0000
  {
    [n / 256, n % 256]
  }

  /** On-disk bytes per pixel. */
  function SBytes(bpp: nat): nat {
    if bpp == 8 then 1 else if bpp == 15 || bpp == 16 then 2 else 3
  }

  predicate KnownDepth(bpp: nat) {
    bpp in {8, 15, 16, 24, 32}
  }

  predicate Is565(bpp: nat) {
    bpp == 15 || bpp == 16
  }

  /** The 565 fields widened to eight bits by repeating their top bits. */
  function Expand(v: nat): rgb
    requires v < 0x1_0000
  {
    var r, g, b := v / 2048, v / 32 % 64, v % 32;
    [r * 8 + r / 4, g * 4 + g / 16, b * 8 + b / 4]
  }

  function Requantise(p: rgb): (v: nat)
    ensures v < 0x1_0000
  {
    p[0] as int / 8 * 2048 + p[1] as int / 4 * 32 + p[2] as int / 8
  }

  lemma RequantiseExpand(v: nat)
    requires v < 0x1_0000
    ensures Requantise(Expand(v)) == v
  {
    var r, g, b := v / 2048, v / 32 % 64, v % 32;
    FieldsRestored(r, g);
    FieldsRestored(b, 0);
    ThreeFields(v);
  }

  lemma FieldsRestored(r: nat, g: nat)
    requires r < 32 && g < 64
    ensures (r * 8 + r / 4) / 8 == r && (g * 4 + g / 16) / 4 == g
  {
  }

  lemma ThreeFields(v: nat)
    ensures v == v / 2048 * 2048 + v / 32 % 64 * 32 + v % 32
  {
    assert v / 32 / 64 == v / 2048;
  }

  /** Why pixel value i has no colour; without a palette every value is a grey. */
  function ColourError(pal: seq<byte>, i: byte): Option<Error> {
    if pal == [] then None
    else if i * 4 + 2 >= |pal| then Some(OutOfRange)
    else if pal[i * 4] > 63 || pal[i * 4 + 1] > 63 || pal[i * 4 + 2] > 63 then Some(BadColour)
    else None
  }

  /** Six bits stretched over eight. */
  function Widened(v: byte): byte
    requires v <= 63
  {
    v as int * 255 / 63
  }

  /** The colour of a pixel value; black stands in where there is none. */
  function Colour(pal: seq<byte>, i: byte): rgb {
    if ColourError(pal, i).Some? then [0, 0, 0]
    else if pal == [] then [i, i, i]
    else [Widened(pal[i * 4]), Widened(pal[i * 4 + 1]), Widened(pal[i * 4 + 2])]
  }

  /** The first error among the first n pixel values. */
  function FirstError(px: seq<byte>, pal: seq<byte>, n: nat): Option<Error>
    requires n <= |px|
  {
    if n == 0 then None
    else if FirstError(px, pal, n - 1).Some? then FirstError(px, pal, n - 1)
    else ColourError(pal, px[n - 1])
  }

  /** The colour of the pixel stored at the front of `s`. */
  function ToRgb(bpp: nat, pal: seq<byte>, s: seq<byte>): rgb
    requires |s| == SBytes(bpp)
  {
    if bpp == 8 then Colour(pal, s[0])
    else if Is565(bpp) then Expand(s[0] as int + s[1] as int * 256)
    else [s[2], s[1], s[0]]
  }

  /** The index of an 8 bpp pixel is not kept: a zero takes its place. */
  function ToDisk(bpp: nat, p: rgb): (s: seq<byte>)
    ensures |s| == SBytes(bpp)
  {
    if bpp == 8 then [0]
    else if Is565(bpp) then [Requantise(p) % 256, Requantise(p) / 256]
    else [p[2], p[1], p[0]]
  }

  /** Storing a pixel again gives its bytes. */
  lemma PixelRoundTrip(bpp: nat, pal: seq<byte>, s: seq<byte>)
    requires |s| == SBytes(bpp) && bpp != 8
    ensures ToDisk(bpp, ToRgb(bpp, pal, s)) == s
  {
    if Is565(bpp) {
      hide Expand, Requantise;
      var v := s[0] as int + s[1] as int * 256;
      RequantiseExpand(v);
      assert v % 256 == s[0] && v / 256 == s[1];
    }
  }

  // ----- whole images

  /** A product, named so that proofs can treat it as a single quantity. */
  function Times(x: nat, y: nat): nat {
    x * y
  }

  lemma TimesStep(x: nat, y: nat)
    ensures Times(0, y) == 0 && Times(x + 1, y) == Times(x, y) + y
  {
  }

  lemma {:induction false} TimesAdd(x: nat, y: nat, z: nat)
    ensures Times(x + y, z) == Times(x, z) + Times(y, z)
  {
  }

  lemma TimesAssoc(x: nat, y: nat, z: nat)
    ensures Times(Times(x, y), z) == Times(x, Times(y, z))
  {
  }

  /** The pixels stored from `base` on, as colours written by `put`: the first n. */
  function WritePixels(px: seq<byte>, bpp: nat, pal: seq<byte>, base: nat, n: nat, put: rgb -> seq<byte>): seq<byte>
    requires base + Times(n, SBytes(bpp)) <= |px|
  {
    if n == 0 then []
    else
      TimesStep(n - 1, SBytes(bpp));
      var o := base + Times(n - 1, SBytes(bpp));
      WritePixels(px, bpp, pal, base, n - 1, put) + put(ToRgb(bpp, pal, px[o..o + SBytes(bpp)]))
  }

  /** The first x pixels of the row that starts at `base`, as RGB bytes. */
  function RowTo(px: seq<byte>, bpp: nat, pal: seq<byte>, base: nat, x: nat): (row: seq<byte>)
    requires base + Times(x, SBytes(bpp)) <= |px|
    ensures |row| == 3 * x
  {
    if x == 0 then []
    else
      TimesStep(x - 1, SBytes(bpp));
      var o := base + Times(x - 1, SBytes(bpp));
      RowTo(px, bpp, pal, base, x - 1) + ToRgb(bpp, pal, px[o..o + SBytes(bpp)])
  }

  function RowBytes(bpp: nat, w: nat): nat {
    Times(w, SBytes(bpp))
  }

  function RowsTo(px: seq<byte>, bpp: nat, pal: seq<byte>, w: nat, y: nat): (rows: seq<seq<byte>>)
    requires Times(y, RowBytes(bpp, w)) <= |px|
    ensures |rows| == y && forall i :: 0 <= i < y ==> |rows[i]| == 3 * w
  {
    if y == 0 then []
    else
      TimesStep(y - 1, RowBytes(bpp, w));
      RowsTo(px, bpp, pal, w, y - 1) + [RowTo(px, bpp, pal, Times(y - 1, RowBytes(bpp, w)), w)]
  }

  /** The first x pixels of an RGB row, written by `put`. */
  function WriteRow(row: seq<byte>, x: nat, put: rgb -> seq<byte>): seq<byte>
    requires 3 * x <= |row|
  {
    if x == 0 then []
    else WriteRow(row, x - 1, put) + put(row[3 * x - 3..3 * x])
  }

  predicate Wide(rows: seq<seq<byte>>, w: nat) {
    forall i :: 0 <= i < |rows| ==> 3 * w <= |rows[i]|
  }

  /** The first y rows. */
  function WriteRows(rows: seq<seq<byte>>, w: nat, y: nat, put: rgb -> seq<byte>): seq<byte>
    requires Wide(rows, w) && y <= |rows|
  {
    if y == 0 then [] else WriteRows(rows, w, y - 1, put) + WriteRow(rows[y - 1], w, put)
  }

  // ----- writing rows is writing the stored pixels

  lemma {:induction false} RowPixel(px: seq<byte>, bpp: nat, pal: seq<byte>, base: nat, w: nat, x: nat)
    requires x < w && base + Times(w, SBytes(bpp)) <= |px|
    ensures var o := base + Times(x, SBytes(bpp));
            o + SBytes(bpp) <= |px|
            && RowTo(px, bpp, pal, base, w)[3 * x..3 * x + 3] == ToRgb(bpp, pal, px[o..o + SBytes(bpp)])
    decreases w
  {
    hide ToRgb, SBytes, Times;
    TimesStep(w - 1, SBytes(bpp));
    var front, all := RowTo(px, bpp, pal, base, w - 1), RowTo(px, bpp, pal, base, w);
    if x < w - 1 {
      RowPixel(px, bpp, pal, base, w - 1, x);
      assert all[3 * x..3 * x + 3] == front[3 * x..3 * x + 3];
    }
  }

  lemma {:induction false} WriteRowIsPixels(px: seq<byte>, bpp: nat, pal: seq<byte>, base: nat, w: nat, x: nat, put: rgb -> seq<byte>)
    requires x <= w && base + Times(w, SBytes(bpp)) <= |px|
    ensures base + Times(x, SBytes(bpp)) <= |px|
    ensures WriteRow(RowTo(px, bpp, pal, base, w), x, put) == WritePixels(px, bpp, pal, base, x, put)
  {
    hide RowTo, ToRgb, SBytes, Times;
    TimesStep(0, SBytes(bpp));
    if x > 0 {
      RowPixel(px, bpp, pal, base, w, x - 1);
      TimesStep(x - 1, SBytes(bpp));
      WriteRowIsPixels(px, bpp, pal, base, w, x - 1, put);
    }
  }

  lemma {:induction false} WritePixelsJoin(px: seq<byte>, bpp: nat, pal: seq<byte>, base: nat, n: nat, m: nat, put: rgb -> seq<byte>)
    requires base + Times(n, SBytes(bpp)) + Times(m, SBytes(bpp)) <= |px|
    ensures Times(n + m, SBytes(bpp)) == Times(n, SBytes(bpp)) + Times(m, SBytes(bpp))
    ensures WritePixels(px, bpp, pal, base, n, put) + WritePixels(px, bpp, pal, base + Times(n, SBytes(bpp)), m, put)
            == WritePixels(px, bpp, pal, base, n + m, put)
    decreases m
  {
    hide ToRgb, SBytes, Times;
    var sb := SBytes(bpp);
    TimesAdd(n, m, sb);
    var front := WritePixels(px, bpp, pal, base, n, put);
    if m > 0 {
      TimesStep(m - 1, sb);
      TimesAdd(n, m - 1, sb);
      WritePixelsJoin(px, bpp, pal, base, n, m - 1, put);
      var o := base + Times(n + m - 1, sb);
      var last := put(ToRgb(bpp, pal, px[o..o + sb]));
      var mid := WritePixels(px, bpp, pal, base + Times(n, sb), m - 1, put);
      Regroup(front, mid, last);
    } else {
      assert front + [] == front;
    }
  }

  lemma Regroup(a: seq<byte>, b: seq<byte>, c: seq<byte>)
    ensures a + (b + c) == (a + b) + c
  {
  }

  lemma {:induction false} WriteRowsIsPixels(px: seq<byte>, bpp: nat, pal: seq<byte>, w: nat, h: nat, y: nat, put: rgb -> seq<byte>)
    requires y <= h && Times(h, RowBytes(bpp, w)) <= |px|
    ensures Times(Times(y, w), SBytes(bpp)) == Times(y, RowBytes(bpp, w)) <= Times(h, RowBytes(bpp, w))
    ensures WriteRows(RowsTo(px, bpp, pal, w, h), w, y, put) == WritePixels(px, bpp, pal, 0, Times(y, w), put)
  {
    hide SBytes, RowsTo, RowTo, WriteRow, WriteRows, WritePixels, ToRgb, Times;
    var sb := SBytes(bpp);
    NothingWritten(px, bpp, pal, w, h, put);
    TimesStep(0, w);
    TimesStep(0, RowBytes(bpp, w));
    TimesMonotone(y, h, RowBytes(bpp, w));
    TimesAssoc(y, w, sb);
    if y > 0 {
      var z := y - 1;
      var base := Times(z, RowBytes(bpp, w));
      TimesAssoc(z, w, sb);
      TimesStep(z, RowBytes(bpp, w));
      TimesStep(z, w);
      RowOf(px, bpp, pal, w, h, z);
      WriteRowsStep(RowsTo(px, bpp, pal, w, h), w, z, put);
      WriteRowsIsPixels(px, bpp, pal, w, h, z, put);
      WriteRowIsPixels(px, bpp, pal, base, w, w, put);
      WritePixelsJoin(px, bpp, pal, 0, Times(z, w), w, put);
    }
  }

  lemma NothingWritten(px: seq<byte>, bpp: nat, pal: seq<byte>, w: nat, h: nat, put: rgb -> seq<byte>)
    requires Times(h, RowBytes(bpp, w)) <= |px|
    ensures Times(0, SBytes(bpp)) <= |px| && WritePixels(px, bpp, pal, 0, 0, put) == []
    ensures WriteRows(RowsTo(px, bpp, pal, w, h), w, 0, put) == []
  {
    hide RowsTo;
  }

  lemma WriteRowsStep(rows: seq<seq<byte>>, w: nat, y: nat, put: rgb -> seq<byte>)
    requires Wide(rows, w) && y < |rows|
    ensures WriteRows(rows, w, y + 1, put) == WriteRows(rows, w, y, put) + WriteRow(rows[y], w, put)
  {
    hide WriteRow;
  }

  lemma TimesMonotone(x: nat, y: nat, z: nat)
    requires x <= y
    ensures Times(x, z) <= Times(y, z)
  {
    TimesAdd(x, y - x, z);
  }

  lemma {:induction false} RowOf(px: seq<byte>, bpp: nat, pal: seq<byte>, w: nat, h: nat, y: nat)
    requires y < h && Times(h, RowBytes(bpp, w)) <= |px|
    ensures Times(y, RowBytes(bpp, w)) + RowBytes(bpp, w) <= |px|
    ensures RowsTo(px, bpp, pal, w, h)[y] == RowTo(px, bpp, pal, Times(y, RowBytes(bpp, w)), w)
    decreases h
  {
    hide RowTo, SBytes, Times;
    TimesStep(h - 1, RowBytes(bpp, w));
    if y < h - 1 { RowOf(px, bpp, pal, w, h - 1, y); }
  }

  // ----- bmp_to_png

  function DiskWriter(bpp: nat): rgb -> seq<byte> {
    p => ToDisk(bpp, p)
  }

  function HeaderBytes(bpp: nat, w: nat, h: nat): seq<byte>
    requires bpp < 0x1_0000 && w < 0x1_0000 && h < 0x1_0000
  {
    Be16Bytes(bpp) + Be16Bytes(w) + Be16Bytes(h)
  }

  /** `pal` is empty when there is no palette. */
  function Conversion(data: seq<byte>, pal: seq<byte>): Result<Converted, Error> {
    if |data| < 6 then Err(ShortHeader)
    else
      var bpp, w, h := Be16(data[0], data[1]), Be16(data[2], data[3]), Be16(data[4], data[5]);
      var px := data[6..];
      if !KnownDepth(bpp) then Err(UnknownDepth)
      else if |px| != Times(h, RowBytes(bpp, w)) then Err(WrongSize)
      else if bpp == 8 && FirstError(px, pal, |px|).Some? then Err(FirstError(px, pal, |px|).value)
      else
        var rows := RowsTo(px, bpp, pal, w, h);
        var back := HeaderBytes(bpp, w, h) + WriteRows(rows, w, h, DiskWriter(bpp));
        Ok(Converted(if bpp == 8 then None else Some(back == data), w, h, bpp, rows))
  }

  lemma HeaderRoundTrip(data: seq<byte>)
    requires |data| >= 6
    ensures HeaderBytes(Be16(data[0], data[1]), Be16(data[2], data[3]), Be16(data[4], data[5])) == data[..6]
  {
    assert data[..6] == data[0..2] + data[2..4] + data[4..6];
    assert Be16Bytes(Be16(data[0], data[1])) == data[0..2];
    assert Be16Bytes(Be16(data[2], data[3])) == data[2..4];
    assert Be16Bytes(Be16(data[4], data[5])) == data[4..6];
  }

  lemma {:induction false} PixelsRestored(px: seq<byte>, bpp: nat, pal: seq<byte>, n: nat)
    requires bpp != 8 && Times(n, SBytes(bpp)) <= |px|
    ensures WritePixels(px, bpp, pal, 0, n, DiskWriter(bpp)) == px[..Times(n, SBytes(bpp))]
  {
    hide ToRgb, ToDisk, SBytes, Times;
    var sb := SBytes(bpp);
    TimesStep(0, sb);
    if n > 0 {
      TimesStep(n - 1, sb);
      var o := Times(n - 1, sb);
      PixelsRestored(px, bpp, pal, n - 1);
      PixelRoundTrip(bpp, pal, px[o..o + sb]);
      assert px[..o + sb] == px[..o] + px[o..o + sb];
    }
  }

  /** Whenever a bitmap converts, the check it carries out on itself succeeds; there is
      none at 8 bpp. */
  lemma ConversionLossless(data: seq<byte>, pal: seq<byte>)
    requires Conversion(data, pal).Ok?
    ensures Conversion(data, pal).value.ok == if Conversion(data, pal).value.bpp == 8 then None else Some(true)
  {
    hide SBytes, WritePixels, RowsTo, WriteRows, Times, HeaderBytes, DiskWriter;
    var bpp, w, h := Be16(data[0], data[1]), Be16(data[2], data[3]), Be16(data[4], data[5]);
    var px := data[6..];
    if bpp != 8 {
      WriteRowsIsPixels(px, bpp, pal, w, h, h, DiskWriter(bpp));
      PixelsRestored(px, bpp, pal, Times(h, w));
      HeaderRoundTrip(data);
      assert px[..|px|] == px;
      assert data == data[..6] + px;
    }
  }

  // ----- canonical bytes

  /** In-memory bytes of a pixel: as on disk, with a zero alpha byte at 32 bpp. */
  function ToMemory(bpp: nat, p: rgb): seq<byte>
    requires bpp != 8
  {
    if Is565(bpp) || bpp == 24 then ToDisk(bpp, p) else [p[2], p[1], p[0], 0]
  }

  function MemoryWriter(bpp: nat): rgb -> seq<byte>
    requires bpp != 8
  {
    p => ToMemory(bpp, p)
  }

  /** The first y rows as they are. */
  function Verbatim(rows: seq<seq<byte>>, y: nat): seq<byte>
    requires y <= |rows|
  {
    if y == 0 then [] else Verbatim(rows, y - 1) + rows[y - 1]
  }

  /** bitmap_mem_bytes_from_png, on rows already read: indices at 8 bpp, else colours. */
  function FromRows(rows: seq<seq<byte>>, bpp: nat, w: nat, h: nat): seq<byte>
    requires bpp < 0x1_0000 && w < 0x1_0000 && h < 0x1_0000 && (bpp == 8 || Wide(rows, w))
  {
    HeaderBytes(bpp, w, h)
    + if bpp == 8 then Verbatim(rows, |rows|) else WriteRows(rows, w, |rows|, MemoryWriter(bpp))
  }

  /** The first n three-byte pixels of a body, a zero behind each. */
  function WithAlpha(body: seq<byte>, n: nat): seq<byte>
    requires Times(n, 3) <= |body|
  {
    if n == 0 then [] else WithAlpha(body, n - 1) + body[3 * n - 3..3 * n] + [0]
  }

  /** _bitmap_body_mem_bytes: the bytes and the position behind them. */
  function FromBody(buf: seq<byte>, pos: nat, bpp: nat, w: nat, h: nat): Result<(seq<byte>, nat), Error> {
    if !KnownDepth(bpp) then Err(UnknownDepth)
    else
      var npix := Times(w, h);
      var size := Times(npix, SBytes(bpp));
      var body := Slice(buf, pos, pos + size);
      if bpp != 32 then Ok((body, pos + size))
      else if |body| < size then Err(OutOfRange)
      else Ok((WithAlpha(body, npix), pos + size))
  }

  lemma PixelInMemory(bpp: nat, pal: seq<byte>, s: seq<byte>)
    requires bpp in {15, 16, 24, 32} && |s| == SBytes(bpp)
    ensures ToMemory(bpp, ToRgb(bpp, pal, s)) == if bpp == 32 then s + [0] else s
  {
    PixelRoundTrip(bpp, pal, s);
  }

  lemma {:induction false} PixelsVerbatim(px: seq<byte>, bpp: nat, pal: seq<byte>, n: nat)
    requires bpp in {15, 16, 24} && Times(n, SBytes(bpp)) <= |px|
    ensures WritePixels(px, bpp, pal, 0, n, MemoryWriter(bpp)) == px[..Times(n, SBytes(bpp))]
  {
    hide ToRgb, ToMemory, SBytes, Times;
    var sb := SBytes(bpp);
    TimesStep(0, sb);
    if n > 0 {
      TimesStep(n - 1, sb);
      var o := Times(n - 1, sb);
      PixelsVerbatim(px, bpp, pal, n - 1);
      PixelInMemory(bpp, pal, px[o..o + sb]);
      assert px[..o + sb] == px[..o] + px[o..o + sb];
    }
  }

  lemma {:induction false} PixelsWithAlpha(px: seq<byte>, pal: seq<byte>, n: nat)
    requires Times(n, 3) <= |px|
    ensures WritePixels(px, 32, pal, 0, n, MemoryWriter(32)) == WithAlpha(px, n)
  {
    hide ToRgb, ToMemory;
    if n > 0 {
      var o := 3 * n - 3;
      PixelsWithAlpha(px, pal, n - 1);
      PixelInMemory(32, pal, px[o..o + 3]);
      assert WithAlpha(px, n - 1) + (px[o..o + 3] + [0]) == WithAlpha(px, n - 1) + px[o..o + 3] + [0];
    }
  }

  /** The two routes to the canonical bytes of a bitmap meet: from the converted RGB
      rows, and straight from the stored body behind the same six header bytes. */
  lemma RoutesMeet(data: seq<byte>, pal: seq<byte>)
    requires Conversion(data, pal).Ok? && Conversion(data, pal).value.bpp != 8
    ensures var c := Conversion(data, pal).value;
            var direct := FromBody(data, 6, c.bpp, c.w, c.h);
            direct.Ok? && direct.value.1 == |data|
            && FromRows(c.rows, c.bpp, c.w, c.h) == data[..6] + direct.value.0
  {
    hide SBytes, WritePixels, RowsTo, WriteRows, Times, HeaderBytes, DiskWriter, MemoryWriter, WithAlpha;
    var bpp, w, h := Be16(data[0], data[1]), Be16(data[2], data[3]), Be16(data[4], data[5]);
    var px := data[6..];
    WriteRowsIsPixels(px, bpp, pal, w, h, h, MemoryWriter(bpp));
    TimesSwap(w, h);
    HeaderRoundTrip(data);
    assert Slice(data, 6, 6 + |px|) == px == px[..|px|];
    if bpp == 32 {
      DepthOf32();
      PixelsWithAlpha(px, pal, Times(h, w));
    } else {
      PixelsVerbatim(px, bpp, pal, Times(h, w));
    }
  }

  lemma TimesSwap(x: nat, y: nat)
    ensures Times(x, y) == Times(y, x)
  {
  }

  lemma DepthOf32()
    ensures SBytes(32) == 3
  {
  }

  // ----- 8 bpp

  /** The rows of pixel values an 8 bpp PNG holds: the first y of them. */
  function IndexRows(px: seq<byte>, w: nat, y: nat): (rows: seq<seq<byte>>)
    requires Times(y, w) <= |px|
    ensures |rows| == y
  {
    if y == 0 then []
    else
      TimesStep(y - 1, w);
      IndexRows(px, w, y - 1) + [px[Times(y - 1, w)..Times(y, w)]]
  }

  lemma {:induction false} IndexRowsVerbatim(px: seq<byte>, w: nat, h: nat, y: nat)
    requires y <= h && Times(h, w) <= |px|
    ensures Times(y, w) <= |px| && Verbatim(IndexRows(px, w, h), y) == px[..Times(y, w)]
  {
    hide Times;
    TimesStep(0, w);
    TimesMonotone(y, h, w);
    if y > 0 {
      TimesStep(y - 1, w);
      IndexRowsVerbatim(px, w, h, y - 1);
      IndexRow(px, w, h, y - 1);
      assert px[..Times(y, w)] == px[..Times(y - 1, w)] + px[Times(y - 1, w)..Times(y, w)];
    }
  }

  lemma {:induction false} IndexRow(px: seq<byte>, w: nat, h: nat, y: nat)
    requires y < h && Times(h, w) <= |px|
    ensures Times(y, w) <= Times(y + 1, w) <= |px|
    ensures IndexRows(px, w, h)[y] == px[Times(y, w)..Times(y + 1, w)]
    decreases h
  {
    hide Times;
    TimesStep(y, w);
    TimesMonotone(y + 1, h, w);
    TimesStep(h - 1, w);
    if y < h - 1 { IndexRow(px, w, h - 1, y); }
  }

  /** The two routes meet at 8 bpp too. */
  lemma IndexRoutesMeet(data: seq<byte>, pal: seq<byte>)
    requires Conversion(data, pal).Ok? && Conversion(data, pal).value.bpp == 8
    ensures var c := Conversion(data, pal).value;
            var direct := FromBody(data, 6, 8, c.w, c.h);
            direct.Ok? && direct.value.1 == |data| && Times(c.h, c.w) == |data| - 6
            && FromRows(IndexRows(data[6..], c.w, c.h), 8, c.w, c.h) == data[..6] + direct.value.0
  {
    hide RowsTo, WriteRows, Times, HeaderBytes, DiskWriter, FirstError;
    var w, h := Be16(data[2], data[3]), Be16(data[4], data[5]);
    var px := data[6..];
    TimesOne(w);
    TimesOne(Times(w, h));
    TimesSwap(w, h);
    HeaderRoundTrip(data);
    IndexRowsVerbatim(px, w, h, h);
    assert Slice(data, 6, 6 + |px|) == px == px[..|px|];
  }

  lemma TimesOne(x: nat)
    ensures Times(x, SBytes(8)) == x
  {
  }

  /** Without a palette the grey rows still hold every pixel value. */
  lemma GreyLossless(data: seq<byte>)
    requires Conversion(data, []).Ok? && Conversion(data, []).value.bpp == 8
    ensures var c := Conversion(data, []).value;
            WriteRows(c.rows, c.w, c.h, (p: rgb) => [p[0]]) == data[6..]
  {
    hide SBytes, WritePixels, RowsTo, WriteRows, Times, HeaderBytes, DiskWriter, FirstError;
    var w, h := Be16(data[2], data[3]), Be16(data[4], data[5]);
    var px := data[6..];
    var first := (p: rgb) => [p[0]];
    WriteRowsIsPixels(px, 8, [], w, h, h, first);
    TimesAssoc(h, w, SBytes(8));
    GreyPixels(px, Times(h, w), first);
    assert px[..|px|] == px;
  }

  lemma {:induction false} GreyPixels(px: seq<byte>, n: nat, first: rgb -> seq<byte>)
    requires Times(n, SBytes(8)) <= |px| && forall p: rgb :: first(p) == [p[0]]
    ensures WritePixels(px, 8, [], 0, n, first) == px[..Times(n, SBytes(8))]
  {
    hide Times, ToRgb, SBytes;
    var sb := SBytes(8);
    TimesStep(0, sb);
    if n > 0 {
      TimesStep(n - 1, sb);
      var o := Times(n - 1, sb);
      GreyPixels(px, n - 1, first);
      GreyPixel(px[o..o + sb]);
      assert px[..o + sb] == px[..o] + px[o..o + sb];
    }
  }

  lemma GreyPixel(s: seq<byte>)
    requires |s| == SBytes(8)
    ensures [ToRgb(8, [], s)[0]] == s
  {
  }
}
