/** Bitmaps in numbers: which stored bytes become which bytes of a row, and which bytes
    of a row become which canonical bytes. */
module BitmapBytes {
  import opened Wrappers
  import opened Bits
  import opened Layout
  import opened Bitmap

  // ----- which bitmaps convert

  function Depth(data: seq<byte>): nat
    requires |data| >= 6
  {
    256 * data[0] as int + data[1]
  }

  function Width(data: seq<byte>): nat
    requires |data| >= 6
  {
    256 * data[2] as int + data[3]
  }

  function Height(data: seq<byte>): nat
    requires |data| >= 6
  {
    256 * data[4] as int + data[5]
  }

  function BytesPerPixel(bpp: nat): nat {
    if bpp == 8 then 1 else if bpp == 15 || bpp == 16 then 2 else 3
  }

  /** A palette has four bytes for each value, the first three of at most six bits. */
  predicate HasColour(pal: seq<byte>, v: byte) {
    pal == [] || (4 * v + 2 < |pal| && pal[4 * v] < 64 && pal[4 * v + 1] < 64 && pal[4 * v + 2] < 64)
  }

  predicate AllColoured(data: seq<byte>, pal: seq<byte>) {
    forall i :: 6 <= i < |data| ==> HasColour(pal, data[i])
  }

  lemma ConvertsIff(data: seq<byte>, pal: seq<byte>)
    ensures Conversion(data, pal).Ok? <==>
              |data| >= 6 && Depth(data) in {8, 15, 16, 24, 32}
              && |data| - 6 == Width(data) * Height(data) * BytesPerPixel(Depth(data))
              && (Depth(data) == 8 ==> AllColoured(data, pal))
    ensures Conversion(data, pal).Ok? ==>
              var c := Conversion(data, pal).value;
              c.bpp == Depth(data) && c.w == Width(data) && c.h == Height(data) && |c.rows| == c.h
              && forall y :: 0 <= y < c.h ==> |c.rows[y]| == 3 * c.w
  {
    hide RowsTo, WriteRows, DiskWriter, HeaderBytes, ColourError, FirstError, HasColour;
    if |data| >= 6 {
      var w, h, sb := Width(data), Height(data), SBytes(Depth(data));
      Reordered(w, h, sb);
      var px := data[6..];
      FirstErrorMeaning(px, pal, |px|);
      forall v: byte ensures ColourError(pal, v) == None <==> HasColour(pal, v) { ColourMeaning(pal, v); }
      assert forall i :: 6 <= i < |data| ==> data[i] == px[i - 6];
      assert forall i :: 0 <= i < |px| ==> px[i] == data[i + 6];
    }
  }

  lemma Reordered(w: nat, h: nat, sb: nat)
    ensures Times(h, Times(w, sb)) == w * h * sb
  {
    assert h * (w * sb) == w * h * sb;
  }

  lemma ColourMeaning(pal: seq<byte>, v: byte)
    ensures ColourError(pal, v) == None <==> HasColour(pal, v)
  {
  }

  lemma {:induction false} FirstErrorMeaning(px: seq<byte>, pal: seq<byte>, n: nat)
    requires n <= |px|
    ensures FirstError(px, pal, n) == None <==> forall i :: 0 <= i < n ==> ColourError(pal, px[i]) == None
  {
    hide ColourError;
    if n > 0 { FirstErrorMeaning(px, pal, n - 1); }
  }

  // ----- from stored bytes to rows

  /** Pixel n of row order lies inside the file. */
  predicate Stored(data: seq<byte>, bpp: nat, n: nat) {
    (if bpp == 8 then 6 + n else if bpp == 15 || bpp == 16 then 7 + 2 * n else 8 + 3 * n) < |data|
  }

  /** Pixel n as red, green and blue: 565 fields widened by repeating their top bits,
      stored triplets turned round, palette entries stretched from 63 to 255. */
  function Shown(data: seq<byte>, pal: seq<byte>, bpp: nat, n: nat): seq<byte>
    requires Stored(data, bpp, n) && (bpp == 8 ==> HasColour(pal, data[6 + n]))
  {
    if bpp == 8 then
      var v: int := data[6 + n];
      if pal == [] then [v, v, v]
      else [Stretched(pal[4 * v]), Stretched(pal[4 * v + 1]), Stretched(pal[4 * v + 2])]
    else if bpp == 15 || bpp == 16 then Fields(data[6 + 2 * n] as int + 256 * data[7 + 2 * n] as int)
    else [data[8 + 3 * n], data[7 + 3 * n], data[6 + 3 * n]]
  }

  function Stretched(v: byte): byte
    requires v < 64
  {
    255 * (v as int) / 63
  }

  function Fields(v: nat): seq<byte>
    requires v < 65536
  {
    var r, g, b := v / 2048, v / 32 % 64, v % 32;
    [8 * r + r / 4, 4 * g + g / 16, 8 * b + b / 4]
  }

  /** The three bytes pixel x of row y has in the converted rows. */
  lemma PixelInNumbers(data: seq<byte>, pal: seq<byte>, x: nat, y: nat, n: nat)
    requires Conversion(data, pal).Ok? && x < Width(data) && y < Height(data) && n == y * Width(data) + x
    ensures Stored(data, Depth(data), n) && (Depth(data) == 8 ==> HasColour(pal, data[6 + n]))
    ensures var row := Conversion(data, pal).value.rows[y];
            |row| == 3 * Width(data) && row[3 * x..3 * x + 3] == Shown(data, pal, Depth(data), n)
  {
    hide RowsTo, WriteRows, DiskWriter, HeaderBytes, Times, FirstError, ToRgb, Shown, HasColour, SBytes, Stored;
    var bpp, w, h := Depth(data), Width(data), Height(data);
    ConvertsIff(data, pal);
    RowsPixel(data[6..], bpp, pal, w, h, x, y);
    var o := Times(y, RowBytes(bpp, w)) + Times(x, SBytes(bpp));
    PixelOffset(w, x, y, SBytes(bpp), n);
    PixelStored(data, bpp, n, o);
    if bpp == 8 { assert HasColour(pal, data[6 + n]) by { StoredForm(data, n); } }
    StoredPixel(data, pal, bpp, n, o);
  }

  lemma StoredForm(data: seq<byte>, n: nat)
    requires Stored(data, 8, n)
    ensures 6 + n < |data|
  {
  }

  lemma RowsPixel(px: seq<byte>, bpp: nat, pal: seq<byte>, w: nat, h: nat, x: nat, y: nat)
    requires Times(h, RowBytes(bpp, w)) <= |px| && x < w && y < h
    ensures var o, row := Times(y, RowBytes(bpp, w)) + Times(x, SBytes(bpp)), RowsTo(px, bpp, pal, w, h)[y];
            o + SBytes(bpp) <= |px| && |row| == 3 * w
            && row[3 * x..3 * x + 3] == ToRgb(bpp, pal, px[o..o + SBytes(bpp)])
  {
    hide ToRgb, RowsTo, RowTo, SBytes, Times;
    RowOf(px, bpp, pal, w, h, y);
    RowPixel(px, bpp, pal, Times(y, RowBytes(bpp, w)), w, x);
  }

  lemma PixelOffset(w: nat, x: nat, y: nat, sb: nat, n: nat)
    requires n == y * w + x
    ensures Times(y, Times(w, sb)) + Times(x, sb) == Times(n, sb)
  {
    TimesAssoc(y, w, sb);
    TimesAdd(Times(y, w), x, sb);
  }

  lemma PixelStored(data: seq<byte>, bpp: nat, n: nat, o: nat)
    requires |data| >= 6 && o == Times(n, SBytes(bpp)) && o + SBytes(bpp) <= |data[6..]|
    ensures Stored(data, bpp, n)
  {
  }

  lemma StoredPixel(data: seq<byte>, pal: seq<byte>, bpp: nat, n: nat, o: nat)
    requires Stored(data, bpp, n) && |data| >= 6 && o == Times(n, SBytes(bpp)) && o + SBytes(bpp) <= |data[6..]|
    requires bpp == 8 ==> HasColour(pal, data[6 + n])
    ensures ToRgb(bpp, pal, data[6..][o..o + SBytes(bpp)]) == Shown(data, pal, bpp, n)
  {
    hide Expand, Fields, HasColour, Colour;
    var s := data[6..][o..o + SBytes(bpp)];
    if bpp == 8 {
      assert s[0] == data[6 + n];
      PaletteColour(pal, s[0]);
    } else if bpp == 15 || bpp == 16 {
      assert s[0] == data[6 + 2 * n] && s[1] == data[7 + 2 * n];
      FieldsForm(s[0] as int + s[1] as int * 256);
    } else {
      assert s[0] == data[6 + 3 * n] && s[1] == data[7 + 3 * n] && s[2] == data[8 + 3 * n];
    }
  }

  lemma FieldsForm(v: nat)
    requires v < 65536
    ensures Expand(v) == Fields(v)
  {
  }

  lemma PaletteColour(pal: seq<byte>, v: byte)
    requires HasColour(pal, v)
    ensures Colour(pal, v) == if pal == [] then [v, v, v]
                              else [Stretched(pal[4 * v]), Stretched(pal[4 * v + 1]), Stretched(pal[4 * v + 2])]
  {
  }

  lemma SBytesForm(bpp: nat)
    ensures SBytes(bpp) == BytesPerPixel(bpp)
  {
  }

  // ----- from rows to canonical bytes

  lemma {:induction false} WriteRowAt(row: seq<byte>, w: nat, x: nat, put: rgb -> seq<byte>, len: nat)
    requires x < w && 3 * w <= |row| && forall p: rgb :: |put(p)| == len
    ensures |WriteRow(row, w, put)| == Times(w, len) && Times(x, len) + len <= Times(w, len)
    ensures WriteRow(row, w, put)[Times(x, len)..Times(x, len) + len] == put(row[3 * x..3 * x + 3])
    decreases w
  {
    hide Times;
    TimesStep(w - 1, len);
    RowLength(row, w - 1, put, len);
    var front, last := WriteRow(row, w - 1, put), put(row[3 * w - 3..3 * w]);
    assert WriteRow(row, w, put) == front + last;
    if x < w - 1 {
      WriteRowAt(row, w - 1, x, put, len);
      assert (front + last)[Times(x, len)..Times(x, len) + len] == front[Times(x, len)..Times(x, len) + len];
    } else {
      assert (front + last)[|front|..|front| + len] == last;
    }
  }

  lemma {:induction false} RowLength(row: seq<byte>, w: nat, put: rgb -> seq<byte>, len: nat)
    requires 3 * w <= |row| && forall p: rgb :: |put(p)| == len
    ensures |WriteRow(row, w, put)| == Times(w, len)
  {
    hide Times;
    TimesStep(0, len);
    if w > 0 {
      RowLength(row, w - 1, put, len);
      TimesStep(w - 1, len);
    }
  }

  lemma {:induction false} RowsLength(rows: seq<seq<byte>>, w: nat, y: nat, put: rgb -> seq<byte>, len: nat)
    requires Wide(rows, w) && y <= |rows| && forall p: rgb :: |put(p)| == len
    ensures |WriteRows(rows, w, y, put)| == Times(y, Times(w, len))
  {
    hide Times, WriteRow;
    TimesStep(0, Times(w, len));
    if y > 0 {
      RowsLength(rows, w, y - 1, put, len);
      RowLength(rows[y - 1], w, put, len);
      TimesStep(y - 1, Times(w, len));
    }
  }

  lemma {:induction false} WriteRowsAt(rows: seq<seq<byte>>, w: nat, h: nat, x: nat, y: nat, put: rgb -> seq<byte>, len: nat)
    requires Wide(rows, w) && x < w && y < h <= |rows| && forall p: rgb :: |put(p)| == len
    ensures var o := Times(y, Times(w, len)) + Times(x, len);
            o + len <= |WriteRows(rows, w, h, put)|
            && WriteRows(rows, w, h, put)[o..o + len] == put(rows[y][3 * x..3 * x + 3])
    decreases h
  {
    hide Times, WriteRow;
    var o := Times(y, Times(w, len)) + Times(x, len);
    var front := WriteRows(rows, w, h - 1, put);
    RowsLength(rows, w, h - 1, put, len);
    if y < h - 1 {
      WriteRowsAt(rows, w, h - 1, x, y, put, len);
      assert WriteRows(rows, w, h, put)[o..o + len] == front[o..o + len];
    } else {
      WriteRowAt(rows[y], w, x, put, len);
      var last := WriteRow(rows[y], w, put);
      assert WriteRows(rows, w, h, put)[o..o + len] == last[Times(x, len)..Times(x, len) + len];
    }
  }

  /** What a pixel becomes in memory: a 565 word lowest byte first, or blue, green, red
      and, at 32 bpp, a zero. */
  function InMemory(bpp: nat, r: byte, g: byte, b: byte): seq<byte> {
    if bpp == 15 || bpp == 16 then
      var v := 2048 * (r / 8) + 32 * (g / 4) + b / 8;
      [v % 256, v / 256]
    else if bpp == 24 then [b, g, r]
    else [b, g, r, 0]
  }

  /** The canonical bytes from rows of colours: six bytes of header, then the pixels row
      by row. */
  lemma RowsInNumbers(rows: seq<seq<byte>>, bpp: nat, w: nat, h: nat, x: nat, y: nat, n: nat)
    requires bpp != 8 && bpp < 0x1_0000 && w < 0x1_0000 && h < 0x1_0000 && Wide(rows, w) && x < w && y < |rows|
    requires n == y * w + x
    ensures var out, m := FromRows(rows, bpp, w, h),
                          InMemory(bpp, rows[y][3 * x], rows[y][3 * x + 1], rows[y][3 * x + 2]);
            |out| >= 6 && out[..6] == [bpp / 256, bpp % 256, w / 256, w % 256, h / 256, h % 256]
            && 6 + n * |m| + |m| <= |out| && out[6 + n * |m|..6 + n * |m| + |m|] == m
  {
    hide WriteRows, Times, MemoryWriter, InMemory;
    var len := |InMemory(bpp, 0, 0, 0)|;
    var put := MemoryWriter(bpp);
    forall p: rgb
      ensures |put(p)| == len && put(p) == InMemory(bpp, p[0], p[1], p[2])
    {
      MemoryInNumbers(bpp, p);
    }
    WriteRowsAt(rows, w, |rows|, x, y, put, len);
    PixelOffset(w, x, y, len, n);
    TimesForm(n, len);
    assert rows[y][3 * x..3 * x + 3] == [rows[y][3 * x], rows[y][3 * x + 1], rows[y][3 * x + 2]];
    BehindHeader(bpp, w, h, WriteRows(rows, w, |rows|, put), n * len, len);
  }

  lemma BehindHeader(bpp: nat, w: nat, h: nat, body: seq<byte>, o: nat, len: nat)
    requires bpp < 0x1_0000 && w < 0x1_0000 && h < 0x1_0000 && o + len <= |body|
    ensures var out := HeaderBytes(bpp, w, h) + body;
            out[..6] == [bpp / 256, bpp % 256, w / 256, w % 256, h / 256, h % 256]
            && out[6 + o..6 + o + len] == body[o..o + len]
  {
  }

  lemma MemoryInNumbers(bpp: nat, p: rgb)
    requires bpp != 8
    ensures MemoryWriter(bpp)(p) == InMemory(bpp, p[0], p[1], p[2])
    ensures |InMemory(bpp, p[0], p[1], p[2])| == |InMemory(bpp, 0, 0, 0)|
  {
  }

  // ----- the stored body

  /** The canonical bytes of a stored body are its bytes, with a zero behind every three
      at 32 bpp, wherever the body stands. */
  lemma BodyInNumbers(pre: seq<byte>, body: seq<byte>, post: seq<byte>, bpp: nat, w: nat, h: nat)
    requires bpp in {8, 15, 16, 24, 32} && |body| == w * h * BytesPerPixel(bpp)
    ensures var res := FromBody(pre + body + post, |pre|, bpp, w, h);
            res.Ok? && res.value.1 == |pre| + |body|
            && if bpp != 32 then res.value.0 == body
               else |res.value.0| == 4 * (w * h)
                    && forall k :: 0 <= k < w * h ==> res.value.0[4 * k..4 * k + 4]
                                                      == [body[3 * k], body[3 * k + 1], body[3 * k + 2], 0]
  {
    hide WithAlpha, Times;
    var buf := pre + body + post;
    TimesForm(w, h);
    TimesForm(w * h, SBytes(bpp));
    assert Slice(buf, |pre|, |pre| + |body|) == body;
    if bpp == 32 {
      TimesForm(w * h, 3);
      var n := w * h;
      WithAlphaLength(body, n);
      var out := WithAlpha(body, n);
      forall k | 0 <= k < n
        ensures out[4 * k..4 * k + 4] == [body[3 * k], body[3 * k + 1], body[3 * k + 2], 0]
      {
        WithAlphaAt(body, n, k);
      }
    }
  }

  lemma TimesForm(x: nat, y: nat)
    ensures Times(x, y) == x * y
  {
  }

  lemma {:induction false} WithAlphaLength(body: seq<byte>, n: nat)
    requires 3 * n <= |body|
    ensures Times(n, 3) == 3 * n && |WithAlpha(body, n)| == 4 * n
  {
    if n > 0 { WithAlphaLength(body, n - 1); }
  }

  lemma {:induction false} WithAlphaAt(body: seq<byte>, n: nat, k: nat)
    requires 3 * n <= |body| && k < n
    ensures Times(n, 3) == 3 * n && |WithAlpha(body, n)| == 4 * n
    ensures WithAlpha(body, n)[4 * k..4 * k + 4] == [body[3 * k], body[3 * k + 1], body[3 * k + 2], 0]
  {
    WithAlphaLength(body, n);
    WithAlphaLength(body, n - 1);
    var front, all := WithAlpha(body, n - 1), WithAlpha(body, n);
    assert all == front + body[3 * n - 3..3 * n] + [0];
    hide WithAlpha, Times;
    if k < n - 1 {
      WithAlphaAt(body, n - 1, k);
      assert all[4 * k..4 * k + 4] == front[4 * k..4 * k + 4];
    } else {
      assert body[3 * n - 3..3 * n] == [body[3 * k], body[3 * k + 1], body[3 * k + 2]];
    }
  }

  /** A body cut short is an error at 32 bpp only; elsewhere what is there is taken. */
  lemma CutBody(buf: seq<byte>, pos: nat, bpp: nat, w: nat, h: nat)
    requires bpp in {8, 15, 16, 24, 32} && |buf| < pos + w * h * BytesPerPixel(bpp) && w * h > 0
    ensures FromBody(buf, pos, bpp, w, h)
            == if bpp == 32 then Err(OutOfRange)
               else Ok((if pos < |buf| then buf[pos..] else [], pos + w * h * BytesPerPixel(bpp)))
  {
    hide WithAlpha, Times, SBytes;
    SBytesForm(bpp);
    var size := w * h * BytesPerPixel(bpp);
    TimesForm(w, h);
    TimesForm(w * h, SBytes(bpp));
    assert Slice(buf, pos, pos + size) == if pos < |buf| then buf[pos..] else [];
  }
}
