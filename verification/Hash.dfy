/** hash32 and s32 of scripts/itr_real_files_check.py, with the inverse of hash32. */
module Hash {
  import opened Bits
  import opened Words

  // ----- shift-and-xor

  function XorShift(a: nat, s: nat): nat {
    Xor(a, Shr(a, s))
  }

  lemma {:induction false} ShrSmaller(a: nat, s: nat)
    requires a > 0 && s > 0
    ensures Shr(a, s) < a
  {
    if s > 1 {
      if a / 2 > 0 { ShrSmaller(a / 2, s - 1); } else { ShrOfZero(s - 1); }
    }
  }

  lemma {:induction false} ShrOfZero(s: nat)
    ensures Shr(0, s) == 0
  {
    if s > 0 { ShrOfZero(s - 1); }
  }

  function UnXorShift(y: nat, s: nat): nat
    requires s > 0
    decreases y
  {
    if y == 0 then 0
    else
      ShrSmaller(y, s);
      Xor(y, UnXorShift(Shr(y, s), s))
  }

  lemma {:induction false} UndoXorShift(a: nat, s: nat)
    requires s > 0
    ensures UnXorShift(XorShift(a, s), s) == a
    decreases a
  {
    var b := Shr(a, s);
    var y := Xor(a, b);
    if a == 0 {
      ShrOfZero(s);
    } else {
      ShrSmaller(a, s);
      UndoXorShift(b, s);
      XorShr(a, b, s);
      assert Shr(y, s) == XorShift(b, s);
      XorCancel(a, b);
      if y == 0 {
        XorSelf(b);
        XorInjective(a, b, b);
      }
    }
  }

  lemma {:induction false} RedoXorShift(y: nat, s: nat)
    requires s > 0
    ensures XorShift(UnXorShift(y, s), s) == y
    decreases y
  {
    if y == 0 {
      ShrOfZero(s);
    } else {
      ShrSmaller(y, s);
      var z := Shr(y, s);
      var u := UnXorShift(z, s);
      RedoXorShift(z, s);
      XorShr(y, u, s);
      XorCancel(u, Shr(u, s));
      XorCancel(y, u);
    }
  }

  lemma {:induction false} ShrAtMost(a: nat, s: nat)
    ensures Shr(a, s) <= a
  {
    if s > 0 { ShrAtMost(a / 2, s - 1); }
  }

  lemma XorShiftIsWord(a: word, s: nat)
    ensures XorShift(a, s) < TWO32
  {
    Pow2Values();
    ShrAtMost(a, s);
    XorBound(a, Shr(a, s), 32);
  }

  lemma {:induction false} UnXorShiftIsWord(y: word, s: nat)
    requires s > 0
    ensures UnXorShift(y, s) < TWO32
    decreases y
  {
    Pow2Values();
    if y > 0 {
      ShrSmaller(y, s);
      UnXorShiftIsWord(Shr(y, s), s);
      XorBound(y, UnXorShift(Shr(y, s), s), 32);
    }
  }

  // ----- multiplication modulo 2^32

  const MUL := 0x27D4_EB2D
  const UNMUL := 0xFB69_9CA5
  const UNNINE := 0x38E3_8E39

  function Scale(a: word, c: nat): word {
    a as int * c % TWO32
  }

  lemma ScaleBack(a: word, c: nat, d: nat, k: nat)
    requires c * d == k * TWO32 + 1
    ensures Scale(Scale(a, c), d) == a
  {
    var x := a as int * c;
    var q, r := x / TWO32, x % TWO32;
    var n := a as int * k - q * d;
    calc {
      r * d;
    ==
      (x - q * TWO32) * d;
    ==
      x * d - q * TWO32 * d;
    == { assert x * d == a as int * (c * d); assert q * TWO32 * d == q * d * TWO32; }
      a as int * (k * TWO32 + 1) - q * d * TWO32;
    == { assert a as int * (k * TWO32 + 1) == a as int * k * TWO32 + a; }
      n * TWO32 + a;
    }
    DivUnique(r * d, TWO32, n, a);
  }

  // ----- hash32

  /** The value hash32 returns for a word. */
  function HashOf(a: word): word {
    XorShiftIsWord(a, 16);
    var a1 := Tweak(XorShift(a, 16));
    var a2 := Scale(a1, 9);
    XorShiftIsWord(a2, 4);
    var a3 := XorShift(a2, 4);
    var a4 := Scale(a3, MUL);
    XorShiftIsWord(a4, 15);
    XorShift(a4, 15)
  }

  function Tweak(a: word): word {
    Pow2Values();
    XorBound(a, 61, 32);
    Xor(a, 61)
  }

  function Unhash(h: word): word {
    UnXorShiftIsWord(h, 15);
    var a4 := UnXorShift(h, 15);
    var a3 := Scale(a4, UNMUL);
    UnXorShiftIsWord(a3, 4);
    var a2 := UnXorShift(a3, 4);
    var a1 := Scale(a2, UNNINE);
    UnXorShiftIsWord(Tweak(a1), 16);
    UnXorShift(Tweak(a1), 16)
  }

  lemma UnhashHash(a: word)
    ensures Unhash(HashOf(a)) == a
  {
    hide XorShift, UnXorShift, Scale, Xor;
    XorShiftIsWord(a, 16);
    var x := XorShift(a, 16);
    var a1 := Tweak(x);
    var a2 := Scale(a1, 9);
    XorShiftIsWord(a2, 4);
    var a3 := XorShift(a2, 4);
    UndoXorShift(Scale(a3, MUL), 15);
    ScaleBack(a3, MUL, UNMUL, 656290121);
    UndoXorShift(a2, 4);
    ScaleBack(a1, 9, UNNINE, 2);
    XorCancel(x, 61);
    UndoXorShift(a, 16);
  }

  lemma HashUnhash(h: word)
    ensures HashOf(Unhash(h)) == h
  {
    hide XorShift, UnXorShift, Scale, Xor;
    UnXorShiftIsWord(h, 15);
    var a4 := UnXorShift(h, 15);
    var a3 := Scale(a4, UNMUL);
    UnXorShiftIsWord(a3, 4);
    var a2 := UnXorShift(a3, 4);
    var a1 := Scale(a2, UNNINE);
    RedoXorShift(Tweak(a1), 16);
    XorCancel(a1, 61);
    ScaleBack(a2, UNNINE, 9, 2);
    RedoXorShift(a3, 4);
    ScaleBack(a4, UNMUL, MUL, 656290121);
    RedoXorShift(h, 15);
  }

  /** hash32 is a bijection on words: no two words share a hash, every word is one. */
  lemma HashBijective(a: word, b: word)
    ensures HashOf(a) == HashOf(b) <==> a == b
    ensures HashOf(Unhash(a)) == a
  {
    UnhashHash(a);
    UnhashHash(b);
    HashUnhash(a);
  }

  method Hash32(a0: nat) returns (a: nat)
    ensures a == HashOf(a0 % TWO32)
  {
    hide *;
    ghost var w: word := a0 % TWO32;
    WordForm(a0);
    a := And(a0, 0xFFFF_FFFF);
    FirstStep(w);
    a := And(Xor(Xor(a, 61), Shr(a, 16)), 0xFFFF_FFFF);
    ghost var a1: word := a;
    TimesNine(a1);
    a := And(a + Shl(a, 3), 0xFFFF_FFFF);
    ghost var a2: word := a;
    ShiftStep(a2, 4);
    a := And(Xor(a, Shr(a, 4)), 0xFFFF_FFFF);
    ghost var a3: word := a;
    ScaleStep(a3);
    a := And(a * 0x27D4_EB2D, 0xFFFF_FFFF);
    ghost var a4: word := a;
    ShiftStep(a4, 15);
    a := And(Xor(a, Shr(a, 15)), 0xFFFF_FFFF);
    HashSteps(w, a1, a2, a3, a4, a);
  }

  lemma HashSteps(w: word, a1: word, a2: word, a3: word, a4: word, h: int)
    requires XorShift(w, 16) < TWO32 && a1 == Tweak(XorShift(w, 16)) && a2 == Scale(a1, 9)
    requires a3 == XorShift(a2, 4) && a4 == Scale(a3, MUL) && h == XorShift(a4, 15)
    ensures h == HashOf(w)
  {
    hide XorShift, Tweak, Scale;
  }

  lemma TimesNine(a: word)
    ensures And(a + Shl(a, 3), 0xFFFF_FFFF) == Scale(a, 9)
  {
    hide And, Shl;
    ShlTimes(a, 3);
    Pow2Values();
    WordForm(a + Shl(a, 3));
  }

  lemma ShiftStep(a: word, s: nat)
    ensures And(Xor(a, Shr(a, s)), 0xFFFF_FFFF) == XorShift(a, s) < TWO32
  {
    hide And, Xor, Shr;
    XorShiftIsWord(a, s);
    WordForm(Xor(a, Shr(a, s)));
  }

  lemma ScaleStep(a: word)
    ensures And(a * 0x27D4_EB2D, 0xFFFF_FFFF) == Scale(a, MUL)
  {
    hide And;
    WordForm(a * MUL);
  }

  /** The first step is a shift-and-xor whose result has six bits flipped. */
  lemma FirstStep(a: word)
    ensures XorShift(a, 16) < TWO32
    ensures And(Xor(Xor(a, 61), Shr(a, 16)), 0xFFFF_FFFF) == Tweak(XorShift(a, 16))
  {
    hide Xor, And, Shr;
    var b := Shr(a, 16);
    XorAssoc(a, 61, b);
    XorComm(61, b);
    XorAssoc(a, b, 61);
    XorShiftIsWord(a, 16);
    WordForm(Xor(Xor(a, 61), b));
  }

  // ----- s32

  /** s32 of a word: xor with the top bit, then subtract it. */
  method S32(v: nat) returns (r: int)
    ensures r == Signed(v % TWO32)
  {
    WordForm(v);
    FlipTop(v % TWO32);
    r := Xor(And(v, 0xFFFF_FFFF), 0x8000_0000) - 0x8000_0000;
  }

  lemma FlipTop(w: word)
    ensures Xor(w, 0x8000_0000) == if w < TWO31 then w + TWO31 else w - TWO31
  {
    Pow2Values();
    XorHigh(w, 31);
  }

  lemma {:induction false} XorHigh(w: nat, k: nat)
    requires w < Pow2(k + 1)
    ensures Xor(w, Pow2(k)) == if w < Pow2(k) then w + Pow2(k) else w - Pow2(k)
  {
    hide Xor, Pow2;
    Pow2Step(k);
    Pow2Step(k + 1);
    if k > 0 {
      XorHigh(w / 2, k - 1);
      XorDigit(w / 2, w % 2, Pow2(k - 1), 0);
    } else {
      XorSelf(1);
      XorZero(1);
    }
  }

  lemma SignedInjective(v: word, w: word)
    ensures Signed(v) == Signed(w) <==> v == w
  {
  }
}
