/** Python string formatting the modelled code relies on. */
module Text {
  import opened Bits

  /** bytes.decode("latin-1"): every byte is the code of its character. */
  function Latin1(b: seq<byte>): (s: string)
    ensures |s| == |b|
  {
    seq(|b|, i requires 0 <= i < |b| => b[i] as char)
  }

  lemma Latin1Codes(b: seq<byte>, i: nat)
    requires i < |b|
    ensures Latin1(b)[i] as int == b[i]
  {
  }

  function DigitChar(d: nat): (c: char)
    requires d < 10
    ensures '0' <= c <= '9'
  {
    '0' + d as char
  }

  /** "%d" of a non-negative number. */
  function Decimal(n: nat): (s: string)
    ensures |s| >= 1 && forall c :: c in s ==> '0' <= c <= '9'
    ensures n > 0 ==> s[0] != '0'
  {
    if n < 10 then [DigitChar(n)] else Decimal(n / 10) + [DigitChar(n % 10)]
  }

  /** Different numbers print differently. */
  lemma {:induction false} DecimalInjective(m: nat, n: nat)
    requires Decimal(m) == Decimal(n)
    ensures m == n
  {
    var s, t := Decimal(m), Decimal(n);
    assert s[|s| - 1] == DigitChar(m % 10) && t[|t| - 1] == DigitChar(n % 10);
    if m >= 10 && n >= 10 {
      assert s[..|s| - 1] == Decimal(m / 10) && t[..|t| - 1] == Decimal(n / 10);
      DecimalInjective(m / 10, n / 10);
    }
  }

  function Pow10(k: nat): (p: nat)
    ensures p >= 1
  {
    if k == 0 then 1 else 10 * Pow10(k - 1)
  }

  /** The character k places from the right is the digit of 10^k in n; 48 is the code
      of zero. */
  lemma {:induction false} DecimalPlaces(n: nat, k: nat)
    requires k < |Decimal(n)|
    ensures Decimal(n)[|Decimal(n)| - 1 - k] as int - 48 == n / Pow10(k) % 10
    decreases k
  {
    hide Pow10;
    Pow10Step(k);
    if n >= 10 && k > 0 {
      DecimalPlaces(n / 10, k - 1);
      TenFirst(n, Pow10(k - 1));
    }
  }

  lemma Pow10Step(k: nat)
    ensures Pow10(k) == if k == 0 then 1 else 10 * Pow10(k - 1)
  {
  }

  lemma TenFirst(n: nat, p: nat)
    requires p > 0
    ensures n / (10 * p) == n / 10 / p
  {
    var m, c := n / 10, n % 10;
    var q, r := m / p, m % p;
    assert m == q * p + r;
    assert q * (10 * p) == 10 * (q * p);
    DivUnique(n, 10 * p, q, 10 * r + c);
  }

  /** There are as many characters as n has places. */
  lemma {:induction false} DecimalLength(n: nat)
    ensures n < Pow10(|Decimal(n)|)
    ensures |Decimal(n)| > 1 ==> Pow10(|Decimal(n)| - 1) <= n
    decreases n
  {
    hide Pow10;
    Pow10Step(0);
    Pow10Step(1);
    if n >= 10 {
      DecimalLength(n / 10);
      Pow10Step(|Decimal(n)|);
      Pow10Step(|Decimal(n)| - 1);
    }
  }
}
