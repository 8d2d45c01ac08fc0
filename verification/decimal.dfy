/** Decimal rendering of integers as Go's strconv and fmt produce it, and Go's
    integer arithmetic where it differs from Dafny's (truncating division, 64-bit wrap). */
module Decimal {

  predicate IsDigit(c: char) { '0' <= c <= '9' }

  predicate AllDigits(s: string) { forall i :: 0 <= i < |s| ==> IsDigit(s[i]) }

  function DigitChar(d: nat): (c: char)
    requires d < 10
    ensures IsDigit(c) && c as int - '0' as int == d
  {
    (d + '0' as int) as char
  }

  function DigitValue(c: char): (d: nat)
    requires IsDigit(c)
    ensures d < 10 && DigitChar(d) == c
  {
    c as int - '0' as int
  }

  /** The decimal digits of n, most significant first, without leading zeros. */
  function Digits(n: nat): (s: string)
    ensures 1 <= |s| && AllDigits(s)
    ensures s[0] == '0' ==> n == 0
    decreases n
  {
    if n < 10 then [DigitChar(n)] else Digits(n / 10) + [DigitChar(n % 10)]
  }

  /** The number a string of digits denotes (leading zeros allowed). */
  function ValueOf(s: string): nat
    requires AllDigits(s)
    decreases |s|
  {
    if s == [] then 0 else ValueOf(s[..|s| - 1]) * 10 + DigitValue(s[|s| - 1])
  }

  lemma {:induction false} ValueOfDigits(n: nat)
    ensures ValueOf(Digits(n)) == n
    decreases n
  {
    if n >= 10 {
      var s := Digits(n);
      assert s[..|s| - 1] == Digits(n / 10);
      ValueOfDigits(n / 10);
    }
  }

  lemma DigitsInjective(a: nat, b: nat)
    ensures Digits(a) == Digits(b) ==> a == b
  {
    ValueOfDigits(a);
    ValueOfDigits(b);
  }

  lemma {:induction false} ValueOfZeros(z: string, s: string)
    requires AllDigits(z) && AllDigits(s)
    requires forall i :: 0 <= i < |z| ==> z[i] == '0'
    ensures AllDigits(z + s) && ValueOf(z + s) == ValueOf(s)
    decreases |s|
  {
    if s == [] {
      ZerosValue(z);
      assert z + s == z;
    } else {
      assert (z + s)[..|z + s| - 1] == z + s[..|s| - 1];
      ValueOfZeros(z, s[..|s| - 1]);
    }
  }

  lemma {:induction false} ZerosValue(z: string)
    requires AllDigits(z)
    requires forall i :: 0 <= i < |z| ==> z[i] == '0'
    ensures ValueOf(z) == 0
    decreases |z|
  {
    if z != [] { ZerosValue(z[..|z| - 1]); }
  }

  /** The number of decimal digits of n is at most k exactly when n < 10^k. */
  function Pow10(k: nat): (p: nat)
    ensures p >= 1
  {
    if k == 0 then 1 else 10 * Pow10(k - 1)
  }

  lemma {:induction false} DigitsLength(n: nat, k: nat)
    requires 1 <= k
    ensures |Digits(n)| <= k <==> n < Pow10(k)
    decreases n
  {
    if n >= 10 {
      if k == 1 {
        assert Pow10(1) == 10;
        assert |Digits(n)| >= 2;
      } else {
        DigitsLength(n / 10, k - 1);
        assert Pow10(k) == 10 * Pow10(k - 1);
      }
    } else {
      assert Pow10(k) >= 10 by { Pow10AtLeast(k); }
    }
  }

  lemma {:induction false} Pow10AtLeast(k: nat)
    requires 1 <= k
    ensures Pow10(k) >= 10
  {
    if k > 1 { Pow10AtLeast(k - 1); }
  }

  /** strconv.Itoa: an optional minus sign, then the digits of the magnitude. */
  function Itoa(n: int): (s: string)
    ensures 1 <= |s|
  {
    if n < 0 then "-" + Digits(-n) else Digits(n)
  }

  lemma ItoaInjective(a: int, b: int)
    ensures Itoa(a) == Itoa(b) ==> a == b
  {
    if Itoa(a) == Itoa(b) {
      if a < 0 && b < 0 {
        assert Digits(-a) == Itoa(a)[1..] == Itoa(b)[1..] == Digits(-b);
        DigitsInjective(-a, -b);
      } else if a >= 0 && b >= 0 {
        DigitsInjective(a, b);
      } else {
        assert Itoa(a)[0] == Itoa(b)[0];
      }
    }
  }

  function Zeros(k: int): (z: string)
    ensures |z| == if k < 0 then 0 else k
    ensures forall i :: 0 <= i < |z| ==> z[i] == '0'
    decreases k
  {
    if k <= 0 then "" else "0" + Zeros(k - 1)
  }

  /** The digits of n >= 0 padded on the left with zeros to at least `width` characters. */
  function PaddedDigits(n: nat, width: int): (s: string)
    ensures AllDigits(s) && ValueOf(s) == n
    ensures |s| == if width > |Digits(n)| then width else |Digits(n)|
  {
    var d := Digits(n);
    ValueOfDigits(n);
    ValueOfZeros(Zeros(width - |d|), d);
    Zeros(width - |d|) + d
  }

  /** fmt.Sprintf("%0<width>d", n): the sign counts towards the width. */
  function SprintfPadded(n: int, width: int): (s: string)
    ensures n >= 0 ==> AllDigits(s) && ValueOf(s) == n
    ensures n < 0 ==> |s| >= 2 && s[0] == '-'
  {
    if n >= 0 then PaddedDigits(n, width) else "-" + PaddedDigits(-n, width - 1)
  }

  /** A non-negative value below 10^width prints in exactly `width` digits. */
  lemma SprintfPaddedWidth(n: nat, width: nat)
    requires 1 <= width && n < Pow10(width)
    ensures |SprintfPadded(n, width)| == width
  {
    DigitsLength(n, width);
  }

  /** How a Go time layout prints a number field (appendInt): sign, then the magnitude padded to `width`. */
  function LayoutPadded(n: int, width: int): (s: string)
    ensures n >= 0 ==> AllDigits(s) && ValueOf(s) == n
  {
    if n >= 0 then PaddedDigits(n, width) else "-" + PaddedDigits(-n, width)
  }

  /** Go's integer `/`: the quotient truncated toward zero. */
  function TruncDiv(a: int, b: int): (q: int)
    requires b > 0
    ensures a >= 0 ==> q == a / b
    ensures a < 0 ==> q == -((-a) / b)
  {
    if a >= 0 then a / b else -((-a) / b)
  }

  /** Go's integer `%`: the remainder takes the sign of the dividend. */
  function TruncRem(a: int, b: int): (r: int)
    requires b > 0
    ensures a == TruncDiv(a, b) * b + r
    ensures a >= 0 ==> 0 <= r < b
    ensures a < 0 ==> -b < r <= 0
  {
    if a >= 0 then a % b else -((-a) % b)
  }

  const TwoTo63: int := 0x8000_0000_0000_0000
  const TwoTo64: int := 0x1_0000_0000_0000_0000

  predicate InInt64(x: int) { -TwoTo63 <= x < TwoTo63 }

  /** Two's-complement wrap-around of a Go int64 result. */
  function WrapInt64(x: int): (w: int)
    ensures InInt64(w)
    ensures (w - x) % TwoTo64 == 0
    ensures InInt64(x) ==> w == x
  {
    (x + TwoTo63) % TwoTo64 - TwoTo63
  }

  /** A string of w digits denotes a number below 10^w. */
  lemma {:induction false} ValueOfBound(t: string)
    requires AllDigits(t)
    ensures ValueOf(t) < Pow10(|t|)
    decreases |t|
  {
    if t != [] {
      ValueOfBound(t[..|t| - 1]);
    }
  }

  lemma {:induction false} ValueOfZeroIsZeros(t: string)
    requires AllDigits(t) && ValueOf(t) == 0
    ensures t == Zeros(|t|)
    decreases |t|
  {
    if t != [] {
      ValueOfZeroIsZeros(t[..|t| - 1]);
      assert t == t[..|t| - 1] + [t[|t| - 1]];
      ZerosSnoc(|t| - 1);
    }
  }

  lemma {:induction false} ZerosSnoc(k: nat)
    ensures Zeros(k + 1) == Zeros(k) + "0"
    decreases k
  {
    if k > 0 { ZerosSnoc(k - 1); }
  }

  /** Printing the value of a string of w >= 1 digits, zero-padded to width w, gives the string back. */
  lemma {:induction false} PaddedValueOf(t: string)
    requires 1 <= |t| && AllDigits(t)
    ensures PaddedDigits(ValueOf(t), |t|) == t
    decreases |t|
  {
    var t', c := t[..|t| - 1], t[|t| - 1];
    var x, n := ValueOf(t'), ValueOf(t);
    assert t == t' + [c];
    if x == 0 {
      ValueOfZeroIsZeros(t');
      assert Digits(n) == [c];
      ZerosSnoc(|t'|);
    } else {
      assert n / 10 == x && n % 10 == DigitValue(c);
      assert Digits(n) == Digits(x) + [c];
      ValueOfBound(t');
      DigitsLength(x, |t'|);
      PaddedValueOf(t');
    }
  }
}
