/** Overflow-checked decimal reading: my_strtoull and my_strtoui. */
module Decimal {
  import opened Bytes

  newtype uint64 = x: int | 0 <= x < 0x1_0000_0000_0000_0000
  const ULLONG_MAX: uint64 := 0xFFFF_FFFF_FFFF_FFFF
  const UINT_MAX: uint64 := 0xFFFF_FFFF

  /** The digits at the start of a text. */
  function Digits(s: seq<byte>): (d: seq<byte>)
    ensures forall i :: 0 <= i < |d| ==> IsDigit(d[i])
  {
    s[..DigitRun(s)]
  }

  lemma {:induction false} NumeralSnoc(s: seq<byte>, n: nat)
    requires n < |s| && forall i :: 0 <= i <= n ==> IsDigit(s[i])
    ensures Numeral(s[..n + 1]) == 10 * Numeral(s[..n]) + Digit(s[n])
  {
    assert s[..n + 1][..n] == s[..n];
  }

  lemma {:induction false} NumeralGrows(s: seq<byte>, n: nat, m: nat)
    requires n <= m <= |s| && forall i :: 0 <= i < m ==> IsDigit(s[i])
    ensures Numeral(s[..n]) <= Numeral(s[..m])
    decreases m
  {
    if n < m {
      NumeralGrows(s, n, m - 1);
      NumeralSnoc(s, m - 1);
    }
  }

  /**
    Reads the longest digit prefix.  There is an error exactly when there is no digit or the
    number does not fit 64 bits; the arithmetic stays in 64 bits on every input, and on
    overflow the digits read are as many as fit.
   */
  method StrToULL(s: seq<byte>) returns (val: uint64, n: nat, err: bool)
    ensures n <= DigitRun(s) && val as int == Numeral(s[..n])
    ensures err <==> DigitRun(s) == 0 || Numeral(Digits(s)) > ULLONG_MAX as int
    ensures !err ==> n == DigitRun(s)
    ensures n < DigitRun(s) ==> Numeral(s[..n + 1]) > ULLONG_MAX as int
  {
    val, n, err := 0, 0, false;
    while n < |s|
      invariant n <= DigitRun(s) && val as int == Numeral(s[..n]) && !err
    {
      if !IsDigit(s[n]) {
        break;
      }
      NumeralSnoc(s, n);
      var d := Digit(s[n]) as uint64;
      if val > ULLONG_MAX / 10 || val * 10 > ULLONG_MAX - d {
        err := true;
        NumeralGrows(s, n + 1, DigitRun(s));
        break;
      }
      val := val * 10 + d;
      n := n + 1;
    }
    if n == 0 {
      err := true;
    }
  }

  /** A number read from the start of a text, and how many digits it has. */
  datatype Read = NoNumber | Got(value: nat, size: nat)

  function ReadUint(s: seq<byte>): Read {
    if DigitRun(s) == 0 || Numeral(Digits(s)) > UINT_MAX as int then NoNumber
    else Got(Numeral(Digits(s)), DigitRun(s))
  }

  method StrToUI(s: seq<byte>) returns (val: nat, n: nat, err: bool)
    ensures n <= |s| && val <= UINT_MAX as int
    ensures err == ReadUint(s).NoNumber?
    ensures !err ==> ReadUint(s) == Got(val, n)
    ensures DigitRun(s) == 0 ==> val == 0
  {
    var ull: uint64;
    ull, n, err := StrToULL(s);
    if ull > UINT_MAX {
      NumeralGrows(s, n, DigitRun(s));
      err := true;
    }
    val := ull as int % 0x1_0000_0000;
  }

  // --- printing -----------------------------------------------------------------------------------

  function Pow10(w: nat): (p: nat)
    ensures p > 0
  {
    if w == 0 then 1 else 10 * Pow10(w - 1)
  }

  /** The last `w` decimal digits of a number. */
  function Pad(n: nat, w: nat): (s: seq<byte>)
    ensures |s| == w
    ensures forall i :: 0 <= i < w ==> IsDigit(s[i])
  {
    if w == 0 then [] else Pad(n / 10, w - 1) + [48 + n % 10]
  }

  /** A padded number reads back as itself, up to the first byte that is not a digit. */
  lemma {:induction false} PadValue(n: nat, w: nat)
    requires n < Pow10(w)
    ensures Numeral(Pad(n, w)) == n
  {
    if w > 0 {
      PadValue(n / 10, w - 1);
      var s := Pad(n, w);
      assert s[..w - 1] == Pad(n / 10, w - 1) && Digit(s[w - 1]) == n % 10;
      assert Numeral(s) == 10 * Numeral(s[..w - 1]) + Digit(s[w - 1]);
    }
  }

  lemma {:induction false} ReadPadded(n: nat, w: nat, rest: seq<byte>)
    requires 0 < w <= 9 && n < Pow10(w) && (rest != [] ==> !IsDigit(rest[0]))
    ensures ReadUint(Pad(n, w) + rest) == Got(n, w)
  {
    var s := Pad(n, w) + rest;
    DigitRunIs(s, w);
    PadValue(n, w);
    assert s[..w] == Pad(n, w);
    Pow10Bound(w);
  }

  lemma {:induction false} Pow10Bound(w: nat)
    requires w <= 9
    ensures Pow10(w) <= 1_000_000_000
  {
    assert Pow10(3) == 1000;
    assert Pow10(6) == 1000 * Pow10(3);
    assert Pow10(9) == 1000 * Pow10(6);
    Pow10Grows(w, 9);
  }

  lemma {:induction false} Pow10Grows(v: nat, w: nat)
    requires v <= w
    ensures Pow10(v) <= Pow10(w)
  {
    if v < w {
      Pow10Grows(v, w - 1);
    }
  }
}
