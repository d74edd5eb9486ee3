/** Bytes, the ASCII characters the statement scanner looks at, and decimal digit runs. */
module Bytes {

  type byte = b: int | 0 <= b < 256

  const NUL: byte := 0
  const NEWLINE: byte := 10
  const SPACE: byte := 32
  const BANG: byte := 33
  const DQUOTE: byte := 34
  const HASH: byte := 35
  const PERCENT: byte := 37
  const SQUOTE: byte := 39
  const LPAREN: byte := 40
  const RPAREN: byte := 41
  const STAR: byte := 42
  const DASH: byte := 45
  const DOT: byte := 46
  const SLASH: byte := 47
  const COLON: byte := 58
  const QMARK: byte := 63
  const UPPER_M: byte := 77
  const BACKSLASH: byte := 92
  const BACKTICK: byte := 96
  const LOWER_D: byte := 100
  const LOWER_S: byte := 115

  /** The byte at offset `i` of a C string: the terminating NUL is readable. */
  function At(s: seq<byte>, i: nat): byte {
    if i < |s| then s[i] else NUL
  }

  predicate IsQuote(b: byte) {
    b == SQUOTE || b == DQUOTE || b == BACKTICK
  }

  /** `isspace` in the C locale. */
  predicate IsSpace(b: byte) {
    9 <= b <= 13 || b == SPACE
  }

  /** The parser's own IS_WHITESPACE macro, which leaves out VT and FF. */
  predicate IsBlank(b: byte) {
    b == 32 || b == 9 || b == 10 || b == 13
  }

  predicate IsDigit(b: byte) {
    48 <= b <= 57
  }

  function ToUpper(b: byte): byte {
    if 97 <= b <= 122 then b - 32 else b
  }

  /** Length of the longest prefix made of decimal digits. */
  function DigitRun(s: seq<byte>): (n: nat)
    ensures n <= |s|
    ensures forall i :: 0 <= i < n ==> IsDigit(s[i])
    ensures n < |s| ==> !IsDigit(s[n])
  {
    if s == [] || !IsDigit(s[0]) then 0 else 1 + DigitRun(s[1..])
  }

  function Digit(b: byte): nat
    requires IsDigit(b)
  {
    b as int - 48
  }

  /** The number a digit string denotes. */
  function Numeral(s: seq<byte>): nat
    requires forall i :: 0 <= i < |s| ==> IsDigit(s[i])
  {
    if s == [] then 0 else 10 * Numeral(s[..|s| - 1]) + Digit(s[|s| - 1])
  }

  /** A digit run is determined by where the digits stop. */
  lemma {:induction false} DigitRunIs(s: seq<byte>, n: nat)
    requires n <= |s|
    requires forall i :: 0 <= i < n ==> IsDigit(s[i])
    requires n < |s| ==> !IsDigit(s[n])
    ensures DigitRun(s) == n
  {
    if n > 0 {
      DigitRunIs(s[1..], n - 1);
    }
  }
}
