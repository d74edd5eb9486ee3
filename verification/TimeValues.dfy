/** TIME and DATE values: text, binary and Python forms agree. */
module TimeValues {
  import opened Bytes
  import opened Decimal
  import opened TimeDelta
  import opened TimeText
  import opened Korr
  import opened Wrappers

  // --- decoding ------------------------------------------------------------------------------------------

  predicate CheckTime(tm: Moment) {
    tm.hour <= 838 && tm.minute <= 59 && tm.second <= 59 && tm.part <= 999999
  }

  /** A TIME column in the text protocol. */
  function TextTime(text: seq<byte>): Option<Delta> {
    var tm := MomentOf(text);
    if CheckTime(tm) then Some(GetTimeDelta(tm.Time())) else None
  }

  /** The fields of a TIME column in the binary protocol: 0, 8 or 12 bytes. */
  function RowClock(row: seq<byte>): Clock
    requires |row| == 0 || |row| == 8 || |row| == 12
  {
    if |row| == 0 then Clock(false, 0, 0, 0, 0)
    else
      var day := Uint4(row, 1);
      var hour := if day != 0 then Uint32(row[5] as int + day * 24) else row[5] as int;
      Clock(row[0] != 0, hour, row[6], row[7], if |row| > 8 then Uint4(row, 8) else 0)
  }

  function BinaryTime(row: seq<byte>): Delta
    requires |row| == 0 || |row| == 8 || |row| == 12
  {
    GetTimeDelta(RowClock(row))
  }

  // --- canonical text -------------------------------------------------------------------------------------

  ghost predicate AllDigits(s: seq<byte>) {
    forall i :: 0 <= i < |s| ==> IsDigit(s[i])
  }

  /** The microseconds a digit string after the point stands for; digits beyond six are cut off. */
  ghost function FractionMicros(frac: seq<byte>): nat
    requires AllDigits(frac)
  {
    if |frac| <= 6 then Numeral(frac) * Pow10(6 - |frac|) else Numeral(frac[..6])
  }

  function HourText(h: nat): seq<byte> {
    Pad(h, if h < 100 then 2 else 3)
  }

  function ClockText(h: nat, m: nat, s: nat, frac: seq<byte>): seq<byte> {
    HourText(h) + ([COLON] + (Pad(m, 2) + ([COLON] + (Pad(s, 2) + FracText(frac)))))
  }

  function FracText(frac: seq<byte>): seq<byte> {
    if frac == [] then [] else [DOT] + frac
  }

  function SignedText(neg: bool, h: nat, m: nat, s: nat, frac: seq<byte>): seq<byte> {
    (if neg then [DASH] else []) + ClockText(h, m, s, frac)
  }

  lemma {:induction false} FieldPadded(n: nat, w: nat, limit: nat, sep: byte, rest: seq<byte>)
    requires 0 < w <= 9 && n < Pow10(w) && n <= limit && !IsDigit(sep)
    ensures Field(Pad(n, w) + ([sep] + rest), limit, sep) == Some((n, rest))
  {
    ReadPadded(n, w, [sep] + rest);
    var s := Pad(n, w) + ([sep] + rest);
    assert s[w] == sep && s[w + 1..] == rest;
  }

  lemma {:induction false} FractionRead(frac: seq<byte>)
    requires AllDigits(frac) && frac != []
    ensures Fraction(frac) == FractionMicros(frac) <= 999999
  {
    var len := if |frac| < 6 then |frac| else 6;
    var f := frac[..len];
    DigitRunIs(f, len);
    assert f[..len] == f;
    NumeralBound(f);
    assert Pow10(1) == 10 && Pow10(2) == 100 && Pow10(3) == 1000;
    assert Pow10(4) == 10 * Pow10(3) && Pow10(5) == 100 * Pow10(3);
    assert Pow10(6) == 100 * Pow10(4);
    if |frac| <= 6 {
      assert f == frac;
    }
  }

  lemma {:induction false} TimeFieldsRead(h: nat, m: nat, s: nat, frac: seq<byte>)
    requires h <= 838 && m < 60 && s < 60 && AllDigits(frac)
    ensures TimeFields(ClockText(h, m, s, frac)) == Some((h, m, s, FractionMicros(frac)))
  {
    assert Pow10(2) == 100 && Pow10(3) == 10 * Pow10(2);
    var last := Pad(s, 2) + FracText(frac);
    FieldPadded(h, if h < 100 then 2 else 3, 838, COLON, Pad(m, 2) + ([COLON] + last));
    FieldPadded(m, 2, 59, COLON, last);
    SecondFieldsRead(s, frac);
  }

  lemma {:induction false} SecondFieldsRead(s: nat, frac: seq<byte>)
    requires s < 60 && AllDigits(frac)
    ensures SecondFields(Pad(s, 2) + FracText(frac)) == Some((s, FractionMicros(frac)))
  {
    var last := Pad(s, 2) + FracText(frac);
    assert Pow10(2) == 100;
    ReadPadded(s, 2, FracText(frac));
    if frac != [] {
      assert last[2] == DOT && last[3..] == frac;
      FractionRead(frac);
    }
  }

  lemma {:induction false} NothingToTrim(s: seq<byte>)
    requires s != [] && !IsSpace(s[0]) && !IsSpace(s[|s| - 1])
    ensures TrimRight(TrimLeft(s)) == s
  {
  }

  /** A text with nothing to trim, read as a time or as a date. */
  lemma {:induction false} Untrimmed(s: seq<byte>)
    requires |s| >= 5 && !IsSpace(s[0]) && !IsSpace(s[|s| - 1])
    ensures MomentOf(s) == if s[0] == DASH then FromTime(true, s[1..])
                           else if Separator(s, 1) == COLON then FromTime(false, s)
                           else FromDate(s)
  {
    NothingToTrim(s);
  }

  lemma {:induction false} SeparatorIs(s: seq<byte>, i: nat, k: nat)
    requires i <= k < |s| && (s[k] == COLON || s[k] == DASH)
    requires forall j :: i <= j < k ==> IsDigit(s[j])
    ensures Separator(s, i) == s[k]
    decreases k - i
  {
    if i < k {
      SeparatorIs(s, i + 1, k);
    }
  }

  lemma {:induction false} ClockTextShape(h: nat, m: nat, s: nat, frac: seq<byte>)
    requires AllDigits(frac)
    ensures var t := ClockText(h, m, s, frac);
      && |t| >= 8 && IsDigit(t[0]) && IsDigit(t[|t| - 1])
      && Separator(t, 1) == COLON
  {
    var t := ClockText(h, m, s, frac);
    var k := |HourText(h)|;
    var last := Pad(s, 2) + FracText(frac);
    assert t == HourText(h) + ([COLON] + (Pad(m, 2) + ([COLON] + last)));
    assert t[|t| - 1] == last[|last| - 1];
    assert t[k] == COLON && forall j :: 0 <= j < k ==> t[j] == HourText(h)[j];
    SeparatorIs(t, 1, k);
  }

  /** Parsing the canonical text of a time gives its fields. */
  lemma {:induction false} CanonicalTimeRead(neg: bool, h: nat, m: nat, s: nat, frac: seq<byte>)
    requires h <= 838 && m < 60 && s < 60 && AllDigits(frac)
    ensures MomentOf(SignedText(neg, h, m, s, frac)) == Moment(neg, 0, 0, 0, h, m, s, FractionMicros(frac), TimeKind)
  {
    var t := ClockText(h, m, s, frac);
    var text := SignedText(neg, h, m, s, frac);
    ClockTextShape(h, m, s, frac);
    TimeFieldsRead(h, m, s, frac);
    if neg {
      assert text[0] == DASH && text[1..] == t && text[|text| - 1] == t[|t| - 1];
    } else {
      assert text == t;
    }
    Untrimmed(text);
  }

  // --- text and binary agree ----------------------------------------------------------------------------

  /** What the server sends for a TIME: sign, days, hours, minutes, seconds and microseconds. */
  function LongRow(neg: bool, day: nat, hour: byte, m: byte, s: byte, us: nat): (r: seq<byte>) {
    ShortRow(neg, day, hour, m, s) + Stored(us, 4)
  }

  function ShortRow(neg: bool, day: nat, hour: byte, m: byte, s: byte): seq<byte> {
    [if neg then 1 else 0] + Stored(day, 4) + [hour, m, s]
  }

  lemma {:induction false} StoredFour(b: seq<byte>, i: nat, n: nat)
    requires i + 4 <= |b| && b[i..i + 4] == Stored(n, 4) && n < 0x1_0000_0000
    ensures Uint4(b, i) == n
  {
    StoredUnsigned(n, 4);
    Powers();
    ReadersAgree(b[i..i + 4]);
    assert Uint4(b[i..i + 4], 0) == Uint4(b, i);
  }

  lemma {:induction false} ShortFields(row: seq<byte>, neg: bool, day: nat, hour: byte, m: byte, s: byte)
    requires day < 35 && |row| >= 8 && row[..8] == ShortRow(neg, day, hour, m, s)
    ensures Uint4(row, 1) == day && (row[0] != 0) == neg && row[5] == hour && row[6] == m && row[7] == s
  {
    var short := row[..8];
    assert short[1..5] == Stored(day, 4);
    assert row[1..5] == short[1..5];
    StoredFour(row, 1, day);
    assert row[0] == short[0] && row[5] == short[5] && row[6] == short[6] && row[7] == short[7];
  }

  lemma {:induction false} BinaryFields(row: seq<byte>, neg: bool, day: nat, hour: byte, m: byte, s: byte, us: nat)
    requires day < 35 && us < 1_000_000
    requires row == LongRow(neg, day, hour, m, s, us) || (us == 0 && row == ShortRow(neg, day, hour, m, s))
    ensures |row| == 8 || |row| == 12
    ensures RowClock(row) == Clock(neg, hour as int + 24 * day, m, s, us)
  {
    var short := ShortRow(neg, day, hour, m, s);
    assert |short| == 8 && row[..8] == short;
    ShortFields(row, neg, day, hour, m, s);
    if row != short {
      assert row[8..12] == Stored(us, 4);
      StoredFour(row, 8, us);
    }
  }

  /** The rows a server may send for a TIME value: zero has a row of no bytes. */
  predicate RowFor(row: seq<byte>, neg: bool, day: nat, hour: byte, m: byte, s: byte, us: nat) {
    || row == LongRow(neg, day, hour, m, s, us)
    || (us == 0 && row == ShortRow(neg, day, hour, m, s))
    || (us == 0 && day == 0 && hour == 0 && m == 0 && s == 0 && row == [])
  }

  /** The text and the row have the same fields, but for the sign of a zero. */
  lemma {:induction false} SameClock(neg: bool, h: nat, m: byte, s: byte, frac: seq<byte>,
                                     day: nat, hour: byte, row: seq<byte>)
    requires h <= 838 && m < 60 && s < 60 && AllDigits(frac) && h == 24 * day + hour
    requires RowFor(row, neg, day, hour, m, s, FractionMicros(frac))
    ensures |row| == 0 || |row| == 8 || |row| == 12
    ensures MomentOf(SignedText(neg, h, m, s, frac)).Time() == Clock(neg, h, m, s, FractionMicros(frac))
    ensures CheckTime(MomentOf(SignedText(neg, h, m, s, frac)))
    ensures RowClock(row) == Clock(neg && row != [], h, m, s, FractionMicros(frac))
  {
    MicrosBound(frac);
    CanonicalTimeRead(neg, h, m, s, frac);
    if row != [] {
      BinaryFields(row, neg, day, hour, m, s, FractionMicros(frac));
    }
  }

  /**
    For every TIME value up to 838:59:59.999999, either sign and any number of fraction
    digits, the text and the binary form decode to the same timedelta, and that is the
    signed number of microseconds.
   */
  lemma {:induction false} TextAndBinaryAgree(neg: bool, h: nat, m: byte, s: byte, frac: seq<byte>,
                                              day: nat, hour: byte, row: seq<byte>)
    requires h <= 838 && m < 60 && s < 60 && AllDigits(frac) && h == 24 * day + hour
    requires RowFor(row, neg, day, hour, m, s, FractionMicros(frac))
    ensures |row| == 0 || |row| == 8 || |row| == 12
    ensures TextTime(SignedText(neg, h, m, s, frac)) == Some(BinaryTime(row))
    ensures BinaryTime(row).Total() == Micros(neg, h, m, s, FractionMicros(frac))
  {
    SameClock(neg, h, m, s, frac, day, hour, row);
    MicrosBound(frac);
    ClockTotal(Clock(neg, h, m, s, FractionMicros(frac)));
    if row == [] {
      NoSignOnZero(neg);
    }
  }

  lemma {:induction false} MicrosBound(frac: seq<byte>)
    requires AllDigits(frac)
    ensures FractionMicros(frac) <= 999999
  {
    if frac != [] {
      FractionRead(frac);
    }
  }

  lemma {:induction false} NoSignOnZero(neg: bool)
    ensures GetTimeDelta(Clock(neg, 0, 0, 0, 0)) == GetTimeDelta(Clock(false, 0, 0, 0, 0))
  {
    ClockTotal(Clock(neg, 0, 0, 0, 0));
    ClockTotal(Clock(false, 0, 0, 0, 0));
    NormalUnique(GetTimeDelta(Clock(neg, 0, 0, 0, 0)), GetTimeDelta(Clock(false, 0, 0, 0, 0)));
  }

  // --- dates ------------------------------------------------------------------------------------------------

  function CheckDate(year: nat, month: nat, day: nat): bool {
    var leap := (year % 4 == 0 && year % 100 != 0) || year % 400 == 0;
    if year < 1 || year > 9999 then false
    else if month < 1 || month > 12 then false
    else if month == 2 && leap && day > 29 then false
    else if month == 2 && !leap && day > 28 then false
    else if (month == 4 || month == 6 || month == 9 || month == 11) && day > 30 then false
    else true
  }

  const MONTHS: seq<nat> := [31, 28, 31, 30, 31, 30, 31, 31, 30, 31, 30, 31]

  /** The Gregorian calendar: every fourth year is long, but of the centuries only every fourth. */
  predicate Gregorian(y: nat, m: nat, d: nat) {
    && 1 <= y <= 9999 && 1 <= m <= 12
    && 1 <= d <= MONTHS[m - 1] + if m == 2 && y % (if y % 100 == 0 then 400 else 4) == 0 then 1 else 0
  }

  function DateText(y: nat, m: nat, d: nat): seq<byte> {
    Pad(y, 4) + ([DASH] + (Pad(m, 2) + ([DASH] + Pad(d, 2))))
  }

  /** Every Gregorian date reads back as itself; its four-digit year is never expanded. */
  lemma {:induction false} DateRoundTrip(y: nat, m: nat, d: nat)
    requires Gregorian(y, m, d)
    ensures MomentOf(DateText(y, m, d)) == Moment(false, y, m, d, 0, 0, 0, 0, DateKind)
    ensures CheckDate(y, m, d)
  {
    CheckIsCalendar(y, m, d);
    DateRead(y, m, d);
  }

  lemma {:induction false} DateRead(y: nat, m: nat, d: nat)
    requires y <= 9999 && m <= 12 && d <= 31
    ensures MomentOf(DateText(y, m, d)) == Moment(false, y, m, d, 0, 0, 0, 0, DateKind)
  {
    var t := DateText(y, m, d);
    DateFieldsRead(y, m, d);
    assert FromDate(t) == Moment(false, y, m, d, 0, 0, 0, 0, DateKind);
    DateTextShape(y, m, d);
    Untrimmed(t);
  }

  lemma {:induction false} DateTextShape(y: nat, m: nat, d: nat)
    ensures var t := DateText(y, m, d);
      |t| == 10 && IsDigit(t[0]) && IsDigit(t[9]) && Separator(t, 1) == DASH
  {
    var t := DateText(y, m, d);
    assert t[9] == Pad(d, 2)[1] && t[4] == DASH;
    assert forall j :: 0 <= j < 4 ==> t[j] == Pad(y, 4)[j];
    SeparatorIs(t, 1, 4);
  }

  lemma {:induction false} DateFieldsRead(y: nat, m: nat, d: nat)
    requires y <= 9999 && m <= 12 && d <= 31
    ensures DateFields(DateText(y, m, d)) == Some((y, m, d, []))
  {
    var last := Pad(d, 2);
    assert Pow10(2) == 100 && Pow10(4) == 100 * Pow10(2);
    FieldPadded(y, 4, 9999, DASH, Pad(m, 2) + ([DASH] + last));
    FieldPadded(m, 2, 12, DASH, last);
    ReadPadded(d, 2, []);
    assert last + [] == last && last[2..] == [];
    ReadPadded(y, 4, [DASH] + (Pad(m, 2) + ([DASH] + last)));
  }

  /** The check is the calendar, except that it lets day 0 pass. */
  lemma CheckIsCalendar(y: nat, m: nat, d: nat)
    requires d <= 31
    ensures CheckDate(y, m, d) && d >= 1 <==> Gregorian(y, m, d)
    ensures CheckDate(y, m, 0) <==> Gregorian(y, m, 1)
  {
  }

  lemma {:induction false} DateFieldsBound(s: seq<byte>)
    requires DateFields(s).Some?
    ensures DateFields(s).value.0 <= 9999 && DateFields(s).value.1 <= 12 && DateFields(s).value.2 <= 31
  {
    if DigitRun(s) == 2 {
      NumeralBound(Digits(s));
      assert Pow10(2) == 100;
    }
  }

  /**
    Conversely, a date read from any text passes the check exactly when it is a Gregorian
    date or would be one but for its day being 0, which nothing rejects.
   */
  lemma {:induction false} CheckedDates(text: seq<byte>)
    requires MomentOf(text).kind == DateKind || MomentOf(text).kind == DateTimeKind
    ensures var tm := MomentOf(text);
      && (CheckDate(tm.year, tm.month, tm.day) && tm.day >= 1 <==> Gregorian(tm.year, tm.month, tm.day))
      && (CheckDate(tm.year, tm.month, tm.day) && tm.day == 0 <==> tm.day == 0 && Gregorian(tm.year, tm.month, 1))
  {
    var tm := MomentOf(text);
    assert tm.day <= 31 by {
      DateFieldsBound(TrimRight(TrimLeft(text)));
    }
    CheckIsCalendar(tm.year, tm.month, tm.day);
  }

  /** The text of a day 0 is such a date, in every month there is. */
  lemma {:induction false} DayZeroPasses(y: nat, m: nat)
    requires Gregorian(y, m, 1)
    ensures MomentOf(DateText(y, m, 0)) == Moment(false, y, m, 0, 0, 0, 0, 0, DateKind)
    ensures CheckDate(y, m, 0) && !Gregorian(y, m, 0)
  {
    DateRead(y, m, 0);
  }
}
