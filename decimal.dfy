/** Decimal text as printf's "%d" conversion writes it: digits without leading
    zeros, a '-' for negative values, and a minimum field width filled with
    spaces before the sign, or with zeros after it when the '0' flag is given.
    Also the inverse direction: the value of a string of digits. */
module Decimal {

  predicate IsDigit(c: char)
  {
    '0' <= c <= '9'
  }

  predicate AllDigits(s: string)
  {
    forall i :: 0 <= i < |s| ==> IsDigit(s[i])
  }

  function DigitChar(d: nat): (c: char)
    requires d < 10
    ensures IsDigit(c)
  {
    ('0' as int + d) as char
  }

  function DigitValue(c: char): (d: nat)
    requires IsDigit(c)
    ensures d < 10
  {
    c as int - '0' as int
  }

  function Pow10(k: nat): (p: nat)
    ensures p >= 1
  {
    if k == 0 then 1 else 10 * Pow10(k - 1)
  }

  /** The digits of n, most significant first, with no leading zero. */
  function Digits(n: nat): (s: string)
    ensures 1 <= |s| && AllDigits(s)
    ensures s[0] == '0' ==> n == 0 && s == "0"
  {
    if n < 10 then [DigitChar(n)] else Digits(n / 10) + [DigitChar(n % 10)]
  }

  /** The number a string of digits denotes; leading zeros are allowed. */
  function Value(s: string): nat
    requires AllDigits(s)
  {
    if s == [] then 0 else Value(s[..|s| - 1]) * 10 + DigitValue(s[|s| - 1])
  }

  /** Reading back what Digits wrote gives the number again. */
  lemma {:induction false} ValueOfDigits(n: nat)
    ensures Value(Digits(n)) == n
  {
    if n >= 10 {
      var s := Digits(n);
      assert s[..|s| - 1] == Digits(n / 10);
      ValueOfDigits(n / 10);
    }
  }

  /** Digits(n) fits in k characters exactly when n < 10^k. */
  lemma {:induction false} DigitsLength(n: nat, k: nat)
    requires k >= 1
    ensures |Digits(n)| <= k <==> n < Pow10(k)
  {
    if n >= 10 {
      if k == 1 {
        assert |Digits(n)| == |Digits(n / 10)| + 1;
      } else {
        DigitsLength(n / 10, k - 1);
        assert n < Pow10(k) <==> n / 10 < Pow10(k - 1);
      }
    }
  }

  /** Reading a concatenation: the left part is shifted by the right part's length. */
  lemma {:induction false} ValueAppend(a: string, b: string)
    requires AllDigits(a) && AllDigits(b)
    ensures AllDigits(a + b)
    ensures Value(a + b) == Value(a) * Pow10(|b|) + Value(b)
  {
    if b != [] {
      var b' := b[..|b| - 1];
      assert (a + b)[..|a + b| - 1] == a + b';
      ValueAppend(a, b');
      var last := DigitValue(b[|b| - 1]);
      assert (a + b)[|a + b| - 1] == b[|b| - 1];
      assert Value(a + b) == Value(a + b') * 10 + last;
      assert b[..|b| - 1] == b';
      assert Value(b) == Value(b') * 10 + last;
      ShiftDigit(Value(a), Pow10(|b'|), Value(b'), last);
    } else {
      assert a + b == a;
    }
  }

  lemma ShiftDigit(x: nat, p: nat, y: nat, d: nat)
    ensures (x * p + y) * 10 + d == x * (10 * p) + (y * 10 + d)
  {
  }

  /** k copies of c. */
  function Repeat(c: char, k: nat): (r: string)
    ensures |r| == k
    ensures forall i :: 0 <= i < k ==> r[i] == c
  {
    if k == 0 then [] else Repeat(c, k - 1) + [c]
  }

  lemma {:induction false} ValueOfZeros(k: nat)
    ensures AllDigits(Repeat('0', k)) && Value(Repeat('0', k)) == 0
  {
    if k > 0 {
      var z := Repeat('0', k);
      assert z[..k - 1] == Repeat('0', k - 1);
      ValueOfZeros(k - 1);
    }
  }

  /** s right-aligned in a field of the given width, filled on the left with c. */
  function PadLeft(s: string, c: char, width: nat): (r: string)
    ensures |r| == if |s| < width then width else |s|
    ensures r[|r| - |s|..] == s
    ensures forall i :: 0 <= i < |r| - |s| ==> r[i] == c
  {
    if |s| < width then Repeat(c, width - |s|) + s else s
  }

  /** Leading zeros do not change the value of a string of digits. */
  lemma ValueZeroPadded(s: string, width: nat)
    requires AllDigits(s)
    ensures AllDigits(PadLeft(s, '0', width))
    ensures Value(PadLeft(s, '0', width)) == Value(s)
  {
    if |s| < width {
      ValueOfZeros(width - |s|);
      ValueAppend(Repeat('0', width - |s|), s);
    }
  }

  /** printf's "%<width>d" (zero false) or "%0<width>d" (zero true) of i. */
  function FormatInt(i: int, width: nat, zero: bool): (s: string)
    ensures i >= 0 && zero ==> s == PadLeft(Digits(i), '0', width)
    ensures i >= 0 && !zero ==> s == PadLeft(Digits(i), ' ', width)
    ensures i < 0 && !zero ==> s == PadLeft("-" + Digits(-i), ' ', width)
    ensures i < 0 && zero ==> s == "-" + PadLeft(Digits(-i), '0', if width > 0 then width - 1 else 0)
  {
    var magnitude := Digits(if i < 0 then -i else i);
    if i < 0 && zero then "-" + PadLeft(magnitude, '0', if width > 0 then width - 1 else 0)
    else if i < 0 then PadLeft("-" + magnitude, ' ', width)
    else PadLeft(magnitude, if zero then '0' else ' ', width)
  }

  /** The integer a "%d" text denotes: an optional '-' and then digits. */
  function SignedValue(s: string): int
  {
    if s != [] && s[0] == '-' && AllDigits(s[1..]) then -(Value(s[1..]) as int)
    else if AllDigits(s) then Value(s)
    else 0
  }

  /** Reading back what "%d" wrote gives the integer again. */
  lemma SignedValueOfFormat(i: int)
    ensures SignedValue(FormatInt(i, 0, false)) == i
  {
    var s := FormatInt(i, 0, false);
    if i < 0 {
      assert s == "-" + Digits(-i);
      assert s[1..] == Digits(-i);
      ValueOfDigits(-i);
    } else {
      assert s == Digits(i);
      assert s[0] != '-' by {
        assert IsDigit(s[0]);
      }
      ValueOfDigits(i);
    }
  }

  /** "%d" with no width: distinct values print as distinct text. */
  lemma FormatIntInjective(i: int, j: int)
    requires FormatInt(i, 0, false) == FormatInt(j, 0, false)
    ensures i == j
  {
    SignedValueOfFormat(i);
    SignedValueOfFormat(j);
  }
}
