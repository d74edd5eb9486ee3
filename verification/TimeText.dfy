/** Temporal text: parse_time, parse_date, Py_str_to_TIME, check_date and check_time. */
module TimeText {
  import opened Bytes
  import opened Decimal
  import opened TimeDelta
  import opened Wrappers

  datatype Kind = ErrorKind | TimeKind | DateKind | DateTimeKind

  /** MYSQL_TIME. */
  datatype Moment = Moment(neg: bool, year: nat, month: nat, day: nat,
                           hour: nat, minute: nat, second: nat, part: nat, kind: Kind)
  {
    function Time(): Clock {
      Clock(neg, hour, minute, second, part)
    }
  }

  const ZERO := Moment(false, 0, 0, 0, 0, 0, 0, 0, ErrorKind)

  // --- what the parsers read ---------------------------------------------------------------------------

  /** A number, at most `limit`, that is followed by `sep`; and what follows. */
  function Field(s: seq<byte>, limit: nat, sep: byte): Option<(nat, seq<byte>)> {
    match ReadUint(s)
    case NoNumber => None
    case Got(v, n) =>
      if v > limit || n == |s| || s[n] != sep then None else Some((v, s[n + 1..]))
  }

  const FRAC_MUL: seq<nat> := [1000000, 100000, 10000, 1000, 100, 10]

  /** The fraction after the point: at most six characters are looked at. */
  function Fraction(s: seq<byte>): nat {
    var len := if |s| < 6 then |s| else 6;
    var v := Numeral(Digits(s[..len]));
    if len < 6 then v * FRAC_MUL[len] else v
  }

  /** `second[.fraction]`; anything else after the seconds is ignored. */
  function SecondFields(s: seq<byte>): Option<(nat, nat)> {
    match ReadUint(s)
    case NoNumber => None
    case Got(second, n) =>
      if second > 59 then None
      else Some((second, if n < |s| && s[n] == DOT then Fraction(s[n + 1..]) else 0))
  }

  /** `hour:minute:second[.fraction]`. */
  function TimeFields(s: seq<byte>): Option<(nat, nat, nat, nat)> {
    match Field(s, 838, COLON)
    case None => None
    case Some((hour, s1)) =>
      match Field(s1, 59, COLON)
      case None => None
      case Some((minute, s2)) =>
        match SecondFields(s2)
        case None => None
        case Some((second, part)) => Some((hour, minute, second, part))
  }

  /** `year-month-day`, two-digit years expanded; and what follows. */
  function DateFields(s: seq<byte>): Option<(nat, nat, nat, seq<byte>)> {
    match Field(s, 9999, DASH)
    case None => None
    case Some((y, s1)) =>
      match Field(s1, 12, DASH)
      case None => None
      case Some((month, s2)) =>
        match ReadUint(s2)
        case NoNumber => None
        case Got(day, n) =>
          var year := if DigitRun(s) == 2 then if y >= 70 then y + 1900 else y + 2000 else y;
          if day > 31 then None else Some((year, month, day, s2[n..]))
  }

  function TrimLeft(s: seq<byte>): (r: seq<byte>)
    ensures |r| <= |s|
  {
    if s != [] && IsSpace(s[0]) then TrimLeft(s[1..]) else s
  }

  function TrimRight(s: seq<byte>): (r: seq<byte>)
    ensures |r| <= |s|
  {
    if s != [] && IsSpace(s[|s| - 1]) then TrimRight(s[..|s| - 1]) else s
  }

  /** The first `-` or `:` at or after offset `i`. */
  function Separator(s: seq<byte>, i: nat): byte
    decreases |s| - i
  {
    if i >= |s| then NUL else if s[i] == DASH || s[i] == COLON then s[i] else Separator(s, i + 1)
  }

  function FromTime(neg: bool, s: seq<byte>): Moment {
    match TimeFields(s)
    case None => ZERO
    case Some((h, m, sec, us)) => Moment(neg, 0, 0, 0, h, m, sec, us, TimeKind)
  }

  function FromDate(s: seq<byte>): Moment {
    match DateFields(s)
    case None => ZERO
    case Some((y, mo, d, rest)) =>
      if rest == [] || rest[0] != SPACE then Moment(false, y, mo, d, 0, 0, 0, 0, DateKind)
      else
        match TimeFields(rest[1..])
        case None => ZERO
        case Some((h, m, sec, us)) =>
          if h > 23 then ZERO else Moment(false, y, mo, d, h, m, sec, us, DateTimeKind)
  }

  /** What a temporal text denotes. */
  function MomentOf(text: seq<byte>): Moment {
    Denoted(TrimRight(TrimLeft(text)))
  }

  function Denoted(s: seq<byte>): Moment {
    if |s| < 5 then ZERO
    else if s[0] == DASH then FromTime(true, s[1..])
    else if Separator(s, 1) == COLON then FromTime(false, s)
    else FromDate(s)
  }

  // --- the parsers ------------------------------------------------------------------------------------------

  /** A number and its separator: the pointer moves past both. */
  method ParseField(s: seq<byte>, limit: nat, sep: byte) returns (failed: bool, v: nat, n: nat, rest: seq<byte>)
    ensures failed == Field(s, limit, sep).None?
    ensures !failed ==> Field(s, limit, sep) == Some((v, rest)) && n == DigitRun(s)
  {
    var err;
    v, n, err := StrToUI(s);
    failed, rest := true, [];
    if err || v > limit || n == |s| || s[n] != sep {
      return;
    }
    failed, rest := false, s[n + 1..];
  }

  method ParseTime(s: seq<byte>) returns (failed: bool, h: nat, m: nat, sec: nat, us: nat)
    ensures failed == TimeFields(s).None?
    ensures !failed ==> TimeFields(s) == Some((h, m, sec, us))
  {
    failed, h, m, sec, us := true, 0, 0, 0, 0;
    var bad, err, p, n;
    bad, h, n, p := ParseField(s, 838, COLON);
    if bad {
      return;
    }
    bad, m, n, p := ParseField(p, 59, COLON);
    if bad {
      return;
    }
    sec, n, err := StrToUI(p);
    if err || sec > 59 {
      return;
    }
    failed := false;
    if n == |p| || p[n] != DOT {
      return;
    }
    us := ParseFraction(p[n + 1..]);
  }

  method ParseFraction(s: seq<byte>) returns (us: nat)
    ensures us == Fraction(s)
  {
    var fracLen := if |s| < 6 then |s| else 6;
    var n, err;
    SixDigits(s[..fracLen]);
    us, n, err := StrToUI(s[..fracLen]);
    if err {
      return;
    }
    if fracLen < 6 {
      us := us * FRAC_MUL[fracLen];
    }
  }

  /** Up to six digits always fit: the only error left is that there is no digit. */
  lemma SixDigits(s: seq<byte>)
    requires |s| <= 6
    ensures ReadUint(s).NoNumber? <==> DigitRun(s) == 0
    ensures Numeral(Digits(s)) < 1_000_000
  {
    NumeralBound(Digits(s));
    Pow10Grows(DigitRun(s), 6);
    assert Pow10(3) == 1000;
    assert Pow10(6) == 1000 * Pow10(3);
  }

  lemma {:induction false} NumeralBound(d: seq<byte>)
    requires forall i :: 0 <= i < |d| ==> IsDigit(d[i])
    ensures Numeral(d) < Pow10(|d|)
  {
    if d != [] {
      NumeralBound(d[..|d| - 1]);
    }
  }

  method ParseDate(s: seq<byte>) returns (failed: bool, y: nat, mo: nat, d: nat, rest: seq<byte>)
    ensures failed == DateFields(s).None?
    ensures !failed ==> DateFields(s) == Some((y, mo, d, rest))
  {
    failed, y, mo, d, rest := true, 0, 0, 0, [];
    var bad, err, p, n;
    bad, y, n, p := ParseField(s, 9999, DASH);
    if bad {
      return;
    }
    if n == 2 {
      y := y + if y >= 70 then 1900 else 2000;
    }
    bad, mo, n, p := ParseField(p, 12, DASH);
    if bad {
      return;
    }
    d, n, err := StrToUI(p);
    if err || d > 31 {
      return;
    }
    failed, rest := false, p[n..];
  }

  /** Blanks at both ends are skipped. */
  method Trim(text: seq<byte>) returns (s: seq<byte>)
    ensures s == TrimRight(TrimLeft(text))
  {
    var lo, hi := 0, |text|;
    while lo < hi && IsSpace(text[lo])
      invariant lo <= |text|
      invariant TrimLeft(text[lo..]) == TrimLeft(text)
    {
      assert text[lo..][1..] == text[lo + 1..];
      lo := lo + 1;
    }
    ghost var left := text[lo..];
    assert text[lo..hi] == left == TrimLeft(text);
    while lo < hi && IsSpace(text[hi - 1])
      invariant lo <= hi <= |text|
      invariant TrimRight(text[lo..hi]) == TrimRight(left)
    {
      assert text[lo..hi][..hi - lo - 1] == text[lo..hi - 1];
      hi := hi - 1;
    }
    s := text[lo..hi];
  }

  /** Py_str_to_TIME: the parsers put together; every failure leaves a zeroed structure. */
  method StrToTime(text: seq<byte>) returns (tm: Moment)
    ensures tm == MomentOf(text)
  {
    tm := ZERO;
    var s := Trim(text);
    if |s| < 5 {
      return;
    }
    var neg, isTime := s[0] == DASH, s[0] == DASH;
    if neg {
      s := s[1..];
    } else {
      isTime := FindSeparator(s);
    }
    if isTime {
      var failed, h, m, sec, us := ParseTime(s);
      if !failed {
        tm := Moment(neg, 0, 0, 0, h, m, sec, us, TimeKind);
      }
      return;
    }
    tm := DateOrDateTime(s);
  }

  method FindSeparator(s: seq<byte>) returns (isTime: bool)
    ensures isTime == (Separator(s, 1) == COLON)
  {
    var i := 1;
    while i < |s|
      invariant 1 <= i
      invariant Separator(s, 1) == Separator(s, i)
    {
      if s[i] == DASH || s[i] == COLON {
        return s[i] == COLON;
      }
      i := i + 1;
    }
    return false;
  }

  method DateOrDateTime(s: seq<byte>) returns (tm: Moment)
    ensures tm == FromDate(s)
  {
    tm := ZERO;
    var failed, y, mo, d, rest := ParseDate(s);
    if failed {
      return;
    }
    if rest == [] || rest[0] != SPACE {
      return Moment(false, y, mo, d, 0, 0, 0, 0, DateKind);
    }
    var bad, h, m, sec, us := ParseTime(rest[1..]);
    if bad || h > 23 {
      return;
    }
    tm := Moment(false, y, mo, d, h, m, sec, us, DateTimeKind);
  }
}
