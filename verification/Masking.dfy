/** Relocation masking and the byte_exact verdict of tools_recon/fingerprint_compare.py. */
module Masking {
  import opened Bits
  import opened Layout

  datatype Reloc = Reloc(off: nat, rtype: string)

  const RELOC_WIDTH: map<string, nat> := map[
    "dir32" := 4, "DIR32" := 4, "dir32nb" := 4, "DIR32NB" := 4,
    "rel32" := 4, "REL32" := 4, "secrel32" := 4, "SECREL32" := 4]

  function Width(rtype: string): nat {
    if rtype in RELOC_WIDTH then RELOC_WIDTH[rtype] else 4
  }

  /** Byte i of a function at `start` belongs to the relocated field of r. */
  predicate Covers(r: Reloc, start: nat, i: int) {
    r.off - start <= i < r.off - start + Width(r.rtype)
  }

  predicate Covered(i: int, relocs: seq<Reloc>, start: nat) {
    exists k :: 0 <= k < |relocs| && Covers(relocs[k], start, i)
  }

  function Masked(data: seq<byte>, relocs: seq<Reloc>, start: nat): (m: seq<byte>)
    ensures |m| == |data|
  {
    seq(|data|, i requires 0 <= i < |data| => if Covered(i, relocs, start) then 0 else data[i])
  }

  /** The two nested loops that zero a bytearray in place. */
  method ZeroRelocated(b: array<byte>, relocs: seq<Reloc>, start: nat)
    modifies b
    ensures b[..] == Masked(old(b[..]), relocs, start)
  {
    hide Width, Covers;
    for k := 0 to |relocs|
      invariant forall i :: 0 <= i < b.Length ==> b[i] == if Covered(i, relocs[..k], start) then 0 else old(b[i])
    {
      var width := Width(relocs[k].rtype);
      var local := relocs[k].off - start;
      var end := if local + width < b.Length then local + width else b.Length;
      var i := local;
      while i < end
        invariant local <= i && (i <= end || i == local)
        invariant forall x :: 0 <= x < b.Length ==>
                    b[x] == if local <= x < i || Covered(x, relocs[..k], start) then 0 else old(b[x])
      {
        if 0 <= i < b.Length {
          b[i] := 0;
        }
        i := i + 1;
      }
      forall x | 0 <= x < b.Length
        ensures Covered(x, relocs[..k + 1], start) <==> local <= x < i || Covered(x, relocs[..k], start)
      {
        CoveredStep(x, relocs, start, k);
        CoversForm(relocs[k], start, x);
      }
    }
    assert relocs[..|relocs|] == relocs;
  }

  lemma CoversForm(r: Reloc, start: nat, i: int)
    ensures Covers(r, start, i) <==> r.off - start <= i < r.off - start + Width(r.rtype)
  {
  }

  lemma CoveredStep(i: int, relocs: seq<Reloc>, start: nat, k: nat)
    requires k < |relocs|
    ensures Covered(i, relocs[..k + 1], start) <==> Covers(relocs[k], start, i) || Covered(i, relocs[..k], start)
  {
    hide Covers;
    var more, fewer := relocs[..k + 1], relocs[..k];
    if Covered(i, fewer, start) {
      var j :| 0 <= j < |fewer| && Covers(fewer[j], start, i);
      assert Covers(more[j], start, i);
    }
    if Covers(relocs[k], start, i) { assert Covers(more[k], start, i); }
    if Covered(i, more, start) && !Covers(relocs[k], start, i) {
      var j :| 0 <= j < |more| && Covers(more[j], start, i);
      assert Covers(fewer[j], start, i);
    }
  }

  /** A masked byte is zero inside a relocated field, four bytes from its offset, and
      kept elsewhere. */
  lemma MaskedInNumbers(data: seq<byte>, relocs: seq<Reloc>, start: nat, i: nat)
    requires i < |data|
    ensures Masked(data, relocs, start)[i]
            == if exists r :: r in relocs && r.off <= start + i < r.off + 4 then 0 else data[i]
  {
    hide Width;
    forall r: Reloc ensures Width(r.rtype) == 4 { FourWide(r.rtype); }
    if Covered(i, relocs, start) {
      var k :| 0 <= k < |relocs| && Covers(relocs[k], start, i);
      assert relocs[k] in relocs;
    }
    if exists r :: r in relocs && r.off <= start + i < r.off + 4 {
      var r :| r in relocs && r.off <= start + i < r.off + 4;
      var k :| 0 <= k < |relocs| && relocs[k] == r;
      assert Covers(relocs[k], start, i);
    }
  }

  method MaskBytes(data: seq<byte>, relocs: seq<Reloc>, start: nat) returns (m: seq<byte>)
    ensures m == Masked(data, relocs, start)
  {
    var b := new byte[|data|](i requires 0 <= i < |data| => data[i]);
    assert b[..] == data;
    ZeroRelocated(b, relocs, start);
    m := b[..];
  }

  predicate Inside(r: Reloc, symAddr: nat, symEnd: nat) {
    symAddr <= r.off < symEnd
  }

  function Filtered(relocs: seq<Reloc>, symAddr: nat, symEnd: nat): seq<Reloc> {
    if relocs == [] then []
    else
      var i := |relocs| - 1;
      Filtered(relocs[..i], symAddr, symEnd) + (if Inside(relocs[i], symAddr, symEnd) then [relocs[i]] else [])
  }

  /** The byte comparison of evaluate_function. The original function stands at file
      offset `off` with its recorded size, the compiled one from symAddr to symEnd, cut
      at the end of the section; a relocated field is four bytes wide. */
  method ByteExact(exe: seq<byte>, off: nat, sizeOrig: nat,
                   text: seq<byte>, symAddr: nat, symEnd: nat, relocs: seq<Reloc>) returns (same: bool)
    ensures same <==>
              var end := if symEnd < |text| then symEnd else |text|;
              (if sizeOrig == 0 then end <= symAddr else symAddr + sizeOrig == end && off + sizeOrig <= |exe|)
              && forall p :: symAddr <= p < symAddr + sizeOrig
                             ==> text[p] == exe[off + p - symAddr]
                                 || exists r :: r in relocs && symAddr <= r.off < symEnd && r.off <= p < r.off + 4
  {
    var orig := Slice(exe, off, off + sizeOrig);
    var mine := Slice(text, symAddr, symEnd);
    var relocsInFunc: seq<Reloc> := [];
    for k := 0 to |relocs|
      invariant relocsInFunc == Filtered(relocs[..k], symAddr, symEnd)
    {
      assert relocs[..k + 1][..k] == relocs[..k];
      if symAddr <= relocs[k].off < symEnd {
        relocsInFunc := relocsInFunc + [relocs[k]];
      }
    }
    assert relocs[..|relocs|] == relocs;
    var mineMasked := MaskBytes(mine, relocsInFunc, symAddr);
    var origMasked := MaskBytes(orig, relocsInFunc, symAddr);
    same := |mine| == sizeOrig && mineMasked == origMasked;
    MaskedEqual(mine, orig, relocsInFunc, symAddr);
    forall i
      ensures Covered(i, relocsInFunc, symAddr) <==>
              exists r :: r in relocs && symAddr <= r.off < symEnd && r.off <= symAddr + i < r.off + 4
    {
      CoveredFiltered(i, relocs, symAddr, symEnd);
    }
    var end := if symEnd < |text| then symEnd else |text|;
    assert |mine| == |orig| == sizeOrig
           <==> if sizeOrig == 0 then end <= symAddr else symAddr + sizeOrig == end && off + sizeOrig <= |exe|;
    if |mine| == |orig| == sizeOrig {
      if same {
        forall p | symAddr <= p < symAddr + sizeOrig
          ensures text[p] == exe[off + p - symAddr] || Covered(p - symAddr, relocsInFunc, symAddr)
        {
          assert mine[p - symAddr] == text[p] && orig[p - symAddr] == exe[off + p - symAddr];
        }
      }
      if !same {
        var i :| 0 <= i < sizeOrig && mine[i] != orig[i] && !Covered(i, relocsInFunc, symAddr);
        assert text[symAddr + i] == mine[i];
      }
    }
  }

  lemma FourWide(rtype: string)
    ensures Width(rtype) == 4
  {
  }

  lemma {:induction false} InFiltered(r: Reloc, relocs: seq<Reloc>, symAddr: nat, symEnd: nat)
    ensures r in Filtered(relocs, symAddr, symEnd) <==> r in relocs && Inside(r, symAddr, symEnd)
  {
    hide Inside;
    if relocs != [] {
      var i := |relocs| - 1;
      InFiltered(r, relocs[..i], symAddr, symEnd);
      assert relocs == relocs[..i] + [relocs[i]];
    }
  }

  lemma CoveredFiltered(i: int, relocs: seq<Reloc>, symAddr: nat, symEnd: nat)
    ensures Covered(i, Filtered(relocs, symAddr, symEnd), symAddr) <==>
            exists r :: r in relocs && symAddr <= r.off < symEnd && r.off <= symAddr + i < r.off + 4
  {
    hide Width, Filtered;
    forall r: Reloc ensures Width(r.rtype) == 4 { FourWide(r.rtype); }
    var fs := Filtered(relocs, symAddr, symEnd);
    if Covered(i, fs, symAddr) {
      var k :| 0 <= k < |fs| && Covers(fs[k], symAddr, i);
      InFiltered(fs[k], relocs, symAddr, symEnd);
      assert fs[k] in fs;
    }
    if exists r :: r in relocs && Inside(r, symAddr, symEnd) && Covers(r, symAddr, i) {
      var r :| r in relocs && Inside(r, symAddr, symEnd) && Covers(r, symAddr, i);
      InFiltered(r, relocs, symAddr, symEnd);
      var k :| 0 <= k < |fs| && fs[k] == r;
      assert Covers(fs[k], symAddr, i);
    }
  }

  /** Masked bytes agree exactly when the bytes agree outside the covered ones. */
  lemma MaskedEqual(a: seq<byte>, b: seq<byte>, relocs: seq<Reloc>, start: nat)
    ensures Masked(a, relocs, start) == Masked(b, relocs, start) <==>
            |a| == |b| && forall i :: 0 <= i < |a| ==> a[i] == b[i] || Covered(i, relocs, start)
  {
    hide Covered;
    var x, y := Masked(a, relocs, start), Masked(b, relocs, start);
    if x == y {
      forall i | 0 <= i < |a|
        ensures a[i] == b[i] || Covered(i, relocs, start)
      {
        assert x[i] == y[i];
      }
    }
  }
}
