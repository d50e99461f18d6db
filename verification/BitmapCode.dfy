/** The loops of bmp_to_png, bitmap_mem_bytes_from_png and _bitmap_body_mem_bytes,
    proved against the functions of Bitmap. */
module BitmapCode {
  import opened Wrappers
  import opened Bits
  import opened Layout
  import opened Bitmap

  // ----- the bit operations, as arithmetic

  lemma WideningForms(r: nat, g: nat)
    requires r < 32 && g < 64
    ensures Or(Shl(r, 3), Shr(r, 2)) == r * 8 + r / 4
    ensures Or(Shl(g, 2), Shr(g, 4)) == g * 4 + g / 16
  {
    Pow2Values();
    ShlTimes(r, 3);
    ShrDivides(r, 2);
    OrComm(Shl(r, 3), Shr(r, 2));
    OrDisjoint(Shr(r, 2), r, 3);
    ShlTimes(g, 2);
    ShrDivides(g, 4);
    OrComm(Shl(g, 2), Shr(g, 4));
    OrDisjoint(Shr(g, 4), g, 2);
  }

  lemma SplitForms(lo: byte, hi: byte)
    ensures var v: nat := Or(lo, Shl(hi, 8));
            v == lo as int + hi as int * 256
            && And(Shr(v, 11), 0x1F) == v / 2048 && And(Shr(v, 5), 0x3F) == v / 32 % 64
            && And(v, 0x1F) == v % 32
  {
    hide And, Or;
    Pow2Values();
    assert Pow2(11) == 2048 && Pow2(6) == 64;
    var v: nat := lo as int + hi as int * 256;
    ShlTimes(hi, 8);
    OrDisjoint(lo, hi, 8);
    ShrDivides(v, 11);
    ShrDivides(v, 5);
    AndLow(v / 2048, 5);
    AndLow(v / 32, 6);
    AndLow(v, 5);
  }

  lemma PackForm(p: rgb)
    ensures Or(Or(Shl(Shr(p[0], 3), 11), Shl(Shr(p[1], 2), 5)), Shr(p[2], 3)) == Requantise(p)
  {
    hide Or, Shr, Shl;
    Pow2Values();
    assert Pow2(11) == 2048;
    var r, g, b: nat := p[0] as int / 8, p[1] as int / 4, p[2] as int / 8;
    ShrDivides(p[0], 3);
    ShrDivides(p[1], 2);
    ShrDivides(p[2], 3);
    ShlTimes(r, 11);
    ShlTimes(g, 5);
    OrComm(Shl(r, 11), Shl(g, 5));
    OrDisjoint(Shl(g, 5), r, 11);
    var high: nat := r * 64 + g;
    ShlTimes(high, 5);
    OrComm(Shl(high, 5), b);
    OrDisjoint(b, high, 5);
  }

  lemma ExpandForm(v: nat)
    requires v < 0x1_0000
    ensures var r, g, b := v / 2048, v / 32 % 64, v % 32;
            Expand(v) == [r * 8 + r / 4, g * 4 + g / 16, b * 8 + b / 4]
  {
  }

  /** One pixel value to RGB. */
  method LookUp(pal: seq<byte>, i: byte) returns (p: Result<rgb, Error>)
    ensures p == if ColourError(pal, i).Some? then Err(ColourError(pal, i).value) else Ok(Colour(pal, i))
  {
    if pal == [] {
      return Ok([i, i, i]);
    }
    if i * 4 + 2 >= |pal| {
      return Err(OutOfRange);
    }
    var r, g, b := pal[i * 4] as int * 255 / 63, pal[i * 4 + 1] as int * 255 / 63, pal[i * 4 + 2] as int * 255 / 63;
    if r > 255 || g > 255 || b > 255 {
      return Err(BadColour);
    }
    return Ok([r, g, b]);
  }

  /** One stored pixel of 15, 16, 24 or 32 bits to RGB. */
  method DecodePixel(px: seq<byte>, bpp: nat, pal: seq<byte>, o: nat) returns (p: rgb)
    requires bpp != 8 && o + SBytes(bpp) <= |px|
    ensures p == ToRgb(bpp, pal, px[o..o + SBytes(bpp)])
  {
    hide Or, And, Shl, Shr, Expand, Colour;
    if bpp == 15 || bpp == 16 {
      SplitForms(px[o], px[o + 1]);
      var v := Or(px[o], Shl(px[o + 1], 8));
      var r, g, b := And(Shr(v, 11), 0x1F), And(Shr(v, 5), 0x3F), And(v, 0x1F);
      WideningForms(r, g);
      WideningForms(b, 0);
      ExpandForm(px[o] as int + px[o + 1] as int * 256);
      p := [Or(Shl(r, 3), Shr(r, 2)), Or(Shl(g, 2), Shr(g, 4)), Or(Shl(b, 3), Shr(b, 2))];
    } else {
      p := [px[o + 2], px[o + 1], px[o]];
    }
  }

  /** struct.pack("<H", ...) of a requantised pixel. */
  method Pack565(r: byte, g: byte, b: byte) returns (s: seq<byte>)
    ensures s == [Requantise([r, g, b]) % 256, Requantise([r, g, b]) / 256]
  {
    PackForm([r, g, b]);
    var v := Or(Or(Shl(Shr(r, 3), 11), Shl(Shr(g, 2), 5)), Shr(b, 3));
    s := [v % 256, v / 256];
  }

  method BmpToPng(data: seq<byte>, pal: seq<byte>) returns (c: Result<Converted, Error>)
    ensures c == Conversion(data, pal)
  {
    if |data| < 6 {
      return Err(ShortHeader);
    }
    var bpp, w, h := Be16(data[0], data[1]), Be16(data[2], data[3]), Be16(data[4], data[5]);
    if bpp !in {8, 15, 16, 24, 32} {
      return Err(UnknownDepth);
    }
    var sb := SBytes(bpp);
    var px := data[6..];
    TimesAssoc(h, w, sb);
    TimesSwap(w, h);
    if |px| != Times(Times(w, h), sb) {
      return Err(WrongSize);
    }
    hide RowsTo, WriteRows, HeaderBytes, FirstError;
    var rows :- DecodeRows(px, bpp, pal, w, h);
    var body := EncodeRows(rows, bpp, w);
    var back := HeaderBytes(bpp, w, h) + body;
    return Ok(Converted(if bpp != 8 then Some(back == data) else None, w, h, bpp, rows));
  }

  /** The re-encoding half of bmp_to_png. */
  method EncodeRows(rows: seq<seq<byte>>, bpp: nat, w: nat) returns (back: seq<byte>)
    requires Wide(rows, w)
    ensures back == WriteRows(rows, w, |rows|, DiskWriter(bpp))
  {
    hide WriteRow, DiskWriter;
    back := [];
    for y := 0 to |rows|
      invariant back == WriteRows(rows, w, y, DiskWriter(bpp))
    {
      var row := rows[y];
      ghost var before := back;
      RowStart(row, DiskWriter(bpp));
      for x := 0 to w
        invariant back == before + WriteRow(row, x, DiskWriter(bpp))
      {
        var r, g, b := row[x * 3], row[x * 3 + 1], row[x * 3 + 2];
        RowStep(row, x, DiskWriter(bpp));
        DiskForm(bpp, r, g, b);
        if bpp == 15 || bpp == 16 {
          var s := Pack565(r, g, b);
          back := back + s;
        } else if bpp == 8 {
          back := back + [0];
        } else {
          back := back + [b, g, r];
        }
      }
    }
  }

  lemma RowStart(row: seq<byte>, put: rgb -> seq<byte>)
    ensures WriteRow(row, 0, put) == []
  {
  }

  lemma RowStep(row: seq<byte>, x: nat, put: rgb -> seq<byte>)
    requires 3 * (x + 1) <= |row|
    ensures row[3 * x..3 * x + 3] == [row[3 * x], row[3 * x + 1], row[3 * x + 2]]
    ensures WriteRow(row, x + 1, put)
            == WriteRow(row, x, put) + put([row[3 * x], row[3 * x + 1], row[3 * x + 2]])
  {
    assert row[3 * x..3 * x + 3] == [row[3 * x], row[3 * x + 1], row[3 * x + 2]];
  }

  lemma DiskForm(bpp: nat, r: byte, g: byte, b: byte)
    ensures DiskWriter(bpp)([r, g, b])
            == if bpp == 8 then [0]
               else if Is565(bpp) then [Requantise([r, g, b]) % 256, Requantise([r, g, b]) / 256]
               else [b, g, r]
  {
  }

  /** The decoding half of bmp_to_png. */
  method DecodeRows(px: seq<byte>, bpp: nat, pal: seq<byte>, w: nat, h: nat)
      returns (res: Result<seq<seq<byte>>, Error>)
    requires Times(h, RowBytes(bpp, w)) == |px|
    ensures res == if bpp == 8 && FirstError(px, pal, |px|).Some? then Err(FirstError(px, pal, |px|).value)
                   else Ok(RowsTo(px, bpp, pal, w, h))
  {
    hide SBytes, Times, ToRgb, RowTo, FirstError, ColourError, Colour;
    var sb := SBytes(bpp);
    var rows: seq<seq<byte>> := [];
    TimesStep(0, RowBytes(bpp, w));
    NoErrorYet(px, pal);
    for y := 0 to h
      invariant Times(y, RowBytes(bpp, w)) <= |px| && rows == RowsTo(px, bpp, pal, w, y)
      invariant bpp == 8 ==> FirstError(px, pal, Times(y, RowBytes(bpp, w))) == None
    {
      TimesStep(y, RowBytes(bpp, w));
      TimesMonotone(y + 1, h, RowBytes(bpp, w));
      TimesAssoc(y, w, sb);
      var row: seq<byte> := [];
      var base := Times(Times(y, w), sb);
      RowToStart(px, bpp, pal, base);
      for x := 0 to w
        invariant base + Times(x, sb) <= |px| && row == RowTo(px, bpp, pal, base, x)
        invariant bpp == 8 ==> FirstError(px, pal, base + Times(x, sb)) == None
      {
        TimesStep(x, sb);
        TimesMonotone(x + 1, w, sb);
        var o := base + Times(x, sb);
        RowToStep(px, bpp, pal, base, x);
        if bpp == 8 {
          OneByte();
          ByteDepth(px, pal, o);
          var p :- LookUp(pal, px[o]);
          row := row + p;
        } else {
          var p := DecodePixel(px, bpp, pal, o);
          row := row + p;
        }
      }
      rows := rows + [row];
    }
    return Ok(rows);
  }

  lemma OneByte()
    ensures SBytes(8) == 1
  {
  }

  lemma NoErrorYet(px: seq<byte>, pal: seq<byte>)
    ensures FirstError(px, pal, 0) == None
  {
  }

  /** At 8 bpp the pixel at o decides whether an error comes up there. */
  lemma ByteDepth(px: seq<byte>, pal: seq<byte>, o: nat)
    requires o < |px| && FirstError(px, pal, o) == None
    ensures ToRgb(8, pal, px[o..o + 1]) == Colour(pal, px[o])
    ensures FirstError(px, pal, o + 1) == ColourError(pal, px[o])
    ensures ColourError(pal, px[o]).Some? ==> FirstError(px, pal, |px|) == ColourError(pal, px[o])
  {
    hide Colour, ColourError;
    if ColourError(pal, px[o]).Some? { ErrorStays(px, pal, o + 1, |px|); }
  }

  lemma {:induction false} ErrorStays(px: seq<byte>, pal: seq<byte>, m: nat, n: nat)
    requires m <= n <= |px| && FirstError(px, pal, m).Some?
    ensures FirstError(px, pal, n) == FirstError(px, pal, m)
  {
    hide ColourError;
    if m < n { ErrorStays(px, pal, m, n - 1); }
  }

  lemma RowToStart(px: seq<byte>, bpp: nat, pal: seq<byte>, base: nat)
    requires base <= |px|
    ensures Times(0, SBytes(bpp)) == 0 && RowTo(px, bpp, pal, base, 0) == []
  {
  }

  lemma RowToStep(px: seq<byte>, bpp: nat, pal: seq<byte>, base: nat, x: nat)
    requires base + Times(x, SBytes(bpp)) + SBytes(bpp) <= |px|
    requires base + Times(x + 1, SBytes(bpp)) <= |px|
    ensures var o := base + Times(x, SBytes(bpp));
            RowTo(px, bpp, pal, base, x + 1) == RowTo(px, bpp, pal, base, x) + ToRgb(bpp, pal, px[o..o + SBytes(bpp)])
  {
  }

  /** bitmap_mem_bytes_from_png for a PNG already read into rows. */
  method MemBytesFromRows(rows: seq<seq<byte>>, bpp: nat, w: nat, h: nat) returns (out: seq<byte>)
    requires bpp < 0x1_0000 && w < 0x1_0000 && h < 0x1_0000 && (bpp == 8 || Wide(rows, w))
    ensures out == FromRows(rows, bpp, w, h)
  {
    hide WriteRow, MemoryWriter;
    out := HeaderBytes(bpp, w, h);
    ghost var header := out;
    if bpp == 8 {
      for y := 0 to |rows|
        invariant out == header + Verbatim(rows, y)
      {
        out := out + rows[y];
      }
      return out;
    }
    for y := 0 to |rows|
      invariant out == header + WriteRows(rows, w, y, MemoryWriter(bpp))
    {
      var row := rows[y];
      ghost var before := out;
      RowStart(row, MemoryWriter(bpp));
      for x := 0 to w
        invariant out == before + WriteRow(row, x, MemoryWriter(bpp))
      {
        var r, g, b := row[x * 3], row[x * 3 + 1], row[x * 3 + 2];
        RowStep(row, x, MemoryWriter(bpp));
        MemoryForm(bpp, r, g, b);
        if bpp == 15 || bpp == 16 {
          var s := Pack565(r, g, b);
          out := out + s;
        } else if bpp == 24 {
          out := out + [b, g, r];
        } else {
          out := out + [b, g, r, 0];
        }
      }
    }
  }

  lemma MemoryForm(bpp: nat, r: byte, g: byte, b: byte)
    requires bpp != 8
    ensures MemoryWriter(bpp)([r, g, b])
            == if Is565(bpp) then [Requantise([r, g, b]) % 256, Requantise([r, g, b]) / 256]
               else if bpp == 24 then [b, g, r] else [b, g, r, 0]
  {
  }

  method BodyMemBytes(buf: seq<byte>, pos: nat, bpp: nat, w: nat, h: nat)
      returns (res: Result<(seq<byte>, nat), Error>)
    ensures res == FromBody(buf, pos, bpp, w, h)
  {
    hide Times, Slice;
    TimesStep(0, 3);
    if bpp !in {8, 15, 16, 24, 32} {
      return Err(UnknownDepth);
    }
    var diskBpp := SBytes(bpp);
    var npix := Times(w, h);
    var size := Times(npix, diskBpp);
    var body := Slice(buf, pos, pos + size);
    var after := pos + size;
    if bpp != 32 {
      return Ok((body, after));
    }
    var out: seq<byte> := [];
    for i := 0 to npix
      invariant 3 * i == Times(i, 3) <= |body| && out == WithAlpha(body, i)
    {
      var o := i * 3;
      TimesStep(i, 3);
      TimesMonotone(i + 1, npix, 3);
      if o + 2 >= |body| {
        return Err(OutOfRange);
      }
      assert body[o..o + 3] == [body[o], body[o + 1], body[o + 2]];
      out := out + [body[o], body[o + 1], body[o + 2], 0];
    }
    return Ok((out, after));
  }
}
