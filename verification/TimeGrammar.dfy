/** Which texts are times, dates and datetimes, and what they denote. */
module TimeGrammar {
  import opened Bytes
  import opened Decimal
  import opened TimeText
  import opened TimeValues
  import opened Wrappers

  ghost predicate Number(d: seq<byte>) {
    d != [] && AllDigits(d)
  }

  ghost predicate NoDigitFirst(s: seq<byte>) {
    s == [] || !IsDigit(s[0])
  }

  // --- numbers and fields -----------------------------------------------------------------------------------

  lemma {:induction false} NumberRead(d: seq<byte>, rest: seq<byte>)
    requires Number(d) && NoDigitFirst(rest)
    ensures DigitRun(d + rest) == |d| && (d + rest)[|d|..] == rest
    ensures ReadUint(d + rest) == if Numeral(d) > 0xFFFF_FFFF then NoNumber else Got(Numeral(d), |d|)
  {
    var s := d + rest;
    DigitRunIs(s, |d|);
    assert s[..|d|] == d;
  }

  lemma {:induction false} NumberFound(s: seq<byte>) returns (d: seq<byte>, rest: seq<byte>)
    requires ReadUint(s).Got?
    ensures s == d + rest && Number(d) && NoDigitFirst(rest) && d == Digits(s)
  {
    d, rest := Digits(s), s[DigitRun(s)..];
    RunEnds(s);
  }

  lemma {:induction false} RunEnds(s: seq<byte>)
    ensures DigitRun(s) <= |s| && NoDigitFirst(s[DigitRun(s)..])
  {
    if s != [] && IsDigit(s[0]) {
      RunEnds(s[1..]);
      assert s[DigitRun(s)..] == s[1..][DigitRun(s[1..])..];
    }
  }

  lemma {:induction false} FieldRead(d: seq<byte>, limit: nat, sep: byte, rest: seq<byte>)
    requires Number(d) && limit <= 0xFFFF_FFFF && !IsDigit(sep)
    ensures Field(d + ([sep] + rest), limit, sep) == if Numeral(d) <= limit then Some((Numeral(d), rest)) else None
  {
    var s := d + ([sep] + rest);
    NumberRead(d, [sep] + rest);
    assert s[|d|] == sep && s[|d| + 1..] == rest;
  }

  lemma {:induction false} FieldFound(s: seq<byte>, limit: nat, sep: byte) returns (d: seq<byte>)
    requires Field(s, limit, sep).Some?
    ensures Number(d) && s == d + ([sep] + Field(s, limit, sep).value.1) && d == Digits(s)
  {
    var rest;
    d, rest := NumberFound(s);
    assert rest == [sep] + rest[1..] && rest[1..] == s[|d| + 1..];
  }

  // --- times ------------------------------------------------------------------------------------------------

  /** Three numbers with colons between them, and anything that is not one more digit. */
  function HoursText(h: seq<byte>, m: seq<byte>, s: seq<byte>, tail: seq<byte>): seq<byte> {
    h + ([COLON] + (m + ([COLON] + (s + tail))))
  }

  /** The microseconds, if the rest of the text starts with a point. */
  function Micro(tail: seq<byte>): nat {
    if tail != [] && tail[0] == DOT then Fraction(tail[1..]) else 0
  }

  lemma {:induction false} SecondsRead(s: seq<byte>, tail: seq<byte>)
    requires Number(s) && NoDigitFirst(tail)
    ensures SecondFields(s + tail) == if Numeral(s) <= 59 then Some((Numeral(s), Micro(tail))) else None
  {
    NumberRead(s, tail);
    var t := s + tail;
    if tail != [] {
      assert t[|s|] == tail[0] && t[|s| + 1..] == tail[1..];
    }
  }

  /** Such a text is a time if and only if it is at most 838 hours, 59 minutes and 59 seconds. */
  lemma {:induction false} TimeRead(h: seq<byte>, m: seq<byte>, s: seq<byte>, tail: seq<byte>)
    requires Number(h) && Number(m) && Number(s) && NoDigitFirst(tail)
    ensures TimeFields(HoursText(h, m, s, tail))
         == if Numeral(h) <= 838 && Numeral(m) <= 59 && Numeral(s) <= 59
            then Some((Numeral(h), Numeral(m), Numeral(s), Micro(tail))) else None
  {
    FieldRead(h, 838, COLON, m + ([COLON] + (s + tail)));
    FieldRead(m, 59, COLON, s + tail);
    SecondsRead(s, tail);
  }

  /** And no other text is one. */
  lemma {:induction false} TimeFound(t: seq<byte>)
      returns (h: seq<byte>, m: seq<byte>, s: seq<byte>, tail: seq<byte>)
    requires TimeFields(t).Some?
    ensures Number(h) && Number(m) && Number(s) && NoDigitFirst(tail) && t == HoursText(h, m, s, tail)
  {
    h := FieldFound(t, 838, COLON);
    var t1 := Field(t, 838, COLON).value.1;
    m := FieldFound(t1, 59, COLON);
    var t2 := Field(t1, 59, COLON).value.1;
    s, tail := NumberFound(t2);
  }

  /** A time in a text: with a sign or without. */
  lemma {:induction false} TimesAccepted(neg: bool, h: seq<byte>, m: seq<byte>, s: seq<byte>, tail: seq<byte>)
    requires Number(h) && Number(m) && Number(s) && NoDigitFirst(tail)
    requires tail != [] ==> !IsSpace(tail[|tail| - 1])
    ensures MomentOf((if neg then [DASH] else []) + HoursText(h, m, s, tail))
         == if Numeral(h) <= 838 && Numeral(m) <= 59 && Numeral(s) <= 59
            then Moment(neg, 0, 0, 0, Numeral(h), Numeral(m), Numeral(s), Micro(tail), TimeKind) else ZERO
  {
    var t := HoursText(h, m, s, tail);
    var text := (if neg then [DASH] else []) + t;
    TimeRead(h, m, s, tail);
    TimeShape(h, m, s, tail);
    if neg {
      assert text[0] == DASH && text[1..] == t && text[|text| - 1] == t[|t| - 1];
    } else {
      assert text == t;
    }
    Untrimmed(text);
  }

  lemma {:induction false} TimeShape(h: seq<byte>, m: seq<byte>, s: seq<byte>, tail: seq<byte>)
    requires Number(h) && Number(m) && Number(s)
    requires tail != [] ==> !IsSpace(tail[|tail| - 1])
    ensures var t := HoursText(h, m, s, tail);
      |t| >= 5 && IsDigit(t[0]) && !IsSpace(t[|t| - 1]) && Separator(t, 1) == COLON
  {
    var t := HoursText(h, m, s, tail);
    assert t[|h|] == COLON && forall j :: 0 <= j < |h| ==> t[j] == h[j];
    assert t[|t| - 1] == (s + tail)[|s + tail| - 1];
    SeparatorIs(t, 1, |h|);
  }

  lemma {:induction false} Unsigned(s: seq<byte>) returns (t: seq<byte>)
    requires Denoted(s).kind == TimeKind
    ensures s == (if Denoted(s).neg then [DASH] else []) + t && TimeFields(t).Some?
  {
    t := if s[0] == DASH then s[1..] else s;
  }

  /** Conversely, what is read as a time is such a text, with blanks around it. */
  lemma {:induction false} TimesAreThese(text: seq<byte>)
      returns (h: seq<byte>, m: seq<byte>, s: seq<byte>, tail: seq<byte>)
    requires MomentOf(text).kind == TimeKind
    ensures Number(h) && Number(m) && Number(s) && NoDigitFirst(tail)
    ensures TrimRight(TrimLeft(text)) == (if MomentOf(text).neg then [DASH] else []) + HoursText(h, m, s, tail)
  {
    var t := Unsigned(TrimRight(TrimLeft(text)));
    h, m, s, tail := TimeFound(t);
  }

  // --- dates ------------------------------------------------------------------------------------------------

  /** Three numbers with dashes between them, and anything that is not one more digit. */
  function DayText(y: seq<byte>, m: seq<byte>, d: seq<byte>, tail: seq<byte>): seq<byte> {
    y + ([DASH] + (m + ([DASH] + (d + tail))))
  }

  /** The year of a number: two digits from 70 on are in the twentieth century, below in the twenty-first. */
  ghost function YearOf(y: seq<byte>): nat
    requires Number(y)
  {
    if |y| != 2 then Numeral(y)
    else if Numeral(y) < 70 then 2000 + Numeral(y)
    else 1900 + Numeral(y)
  }

  ghost predicate InRange(y: seq<byte>, m: seq<byte>, d: seq<byte>)
    requires Number(y) && Number(m) && Number(d)
  {
    Numeral(y) <= 9999 && Numeral(m) <= 12 && Numeral(d) <= 31
  }

  lemma {:induction false} DaySteps(y: seq<byte>, m: seq<byte>, d: seq<byte>,
                                    t: seq<byte>, t1: seq<byte>, t2: seq<byte>)
    requires Number(y) && Number(m) && Number(d) && |d| <= |t2| && DigitRun(t) == |y|
    requires Field(t, 9999, DASH) == if Numeral(y) <= 9999 then Some((Numeral(y), t1)) else None
    requires Field(t1, 12, DASH) == if Numeral(m) <= 12 then Some((Numeral(m), t2)) else None
    requires ReadUint(t2) == if Numeral(d) > 0xFFFF_FFFF then NoNumber else Got(Numeral(d), |d|)
    ensures DateFields(t) == if InRange(y, m, d) then Some((YearOf(y), Numeral(m), Numeral(d), t2[|d|..])) else None
  {
  }

  /** Such a text starts with a date if and only if year, month and day are at most 9999, 12 and 31. */
  lemma {:induction false} DayRead(y: seq<byte>, m: seq<byte>, d: seq<byte>, tail: seq<byte>)
    requires Number(y) && Number(m) && Number(d) && NoDigitFirst(tail)
    ensures DateFields(DayText(y, m, d, tail))
         == if InRange(y, m, d) then Some((YearOf(y), Numeral(m), Numeral(d), tail)) else None
  {
    var t2 := d + tail;
    var t1 := m + ([DASH] + t2);
    FieldRead(y, 9999, DASH, t1);
    NumberRead(y, [DASH] + t1);
    FieldRead(m, 12, DASH, t2);
    NumberRead(d, tail);
    DaySteps(y, m, d, y + ([DASH] + t1), t1, t2);
  }

  /** And no other text does. */
  lemma {:induction false} DayFound(t: seq<byte>)
      returns (y: seq<byte>, m: seq<byte>, d: seq<byte>, tail: seq<byte>)
    requires DateFields(t).Some?
    ensures Number(y) && Number(m) && Number(d) && NoDigitFirst(tail) && t == DayText(y, m, d, tail)
  {
    y := FieldFound(t, 9999, DASH);
    var t1 := Field(t, 9999, DASH).value.1;
    m := FieldFound(t1, 12, DASH);
    var t2 := Field(t1, 12, DASH).value.1;
    d, tail := NumberFound(t2);
  }

  lemma {:induction false} DayShape(y: seq<byte>, m: seq<byte>, d: seq<byte>, tail: seq<byte>)
    requires Number(y) && Number(m) && Number(d)
    requires tail != [] ==> !IsSpace(tail[|tail| - 1])
    ensures MomentOf(DayText(y, m, d, tail)) == FromDate(DayText(y, m, d, tail))
  {
    var t := DayText(y, m, d, tail);
    assert t[|y|] == DASH && forall j :: 0 <= j < |y| ==> t[j] == y[j];
    assert t[|t| - 1] == (d + tail)[|d + tail| - 1];
    SeparatorIs(t, 1, |y|);
    Untrimmed(t);
  }

  /** A date that no blank follows. */
  lemma {:induction false} DatesAccepted(y: seq<byte>, m: seq<byte>, d: seq<byte>, tail: seq<byte>)
    requires Number(y) && Number(m) && Number(d) && NoDigitFirst(tail)
    requires tail != [] ==> tail[0] != SPACE && !IsSpace(tail[|tail| - 1])
    ensures MomentOf(DayText(y, m, d, tail))
         == if InRange(y, m, d) then Moment(false, YearOf(y), Numeral(m), Numeral(d), 0, 0, 0, 0, DateKind) else ZERO
  {
    DayRead(y, m, d, tail);
    DayShape(y, m, d, tail);
  }

  /** A date, a blank and a time below 24 hours are a datetime; anything else after the blank is an error. */
  lemma {:induction false} DateTimesAccepted(y: seq<byte>, m: seq<byte>, d: seq<byte>, rest: seq<byte>)
    requires Number(y) && Number(m) && Number(d) && rest != [] && !IsSpace(rest[|rest| - 1])
    ensures MomentOf(DayText(y, m, d, [SPACE] + rest))
         == if !InRange(y, m, d) || TimeFields(rest).None? || TimeFields(rest).value.0 > 23 then ZERO
            else var (hour, minute, second, part) := TimeFields(rest).value;
                 Moment(false, YearOf(y), Numeral(m), Numeral(d), hour, minute, second, part, DateTimeKind)
  {
    var tail := [SPACE] + rest;
    assert tail[1..] == rest && tail[|tail| - 1] == rest[|rest| - 1];
    DayRead(y, m, d, tail);
    DayShape(y, m, d, tail);
  }

  /** What is read as a date or a datetime is such a text, with blanks around it. */
  lemma {:induction false} DatesAreThese(text: seq<byte>)
      returns (y: seq<byte>, m: seq<byte>, d: seq<byte>, tail: seq<byte>)
    requires MomentOf(text).kind == DateKind || MomentOf(text).kind == DateTimeKind
    ensures Number(y) && Number(m) && Number(d) && NoDigitFirst(tail)
    ensures TrimRight(TrimLeft(text)) == DayText(y, m, d, tail)
    ensures MomentOf(text).kind == DateTimeKind <==> tail != [] && tail[0] == SPACE
  {
    y, m, d, tail := DateOfText(TrimRight(TrimLeft(text)));
  }

  lemma {:induction false} KindOfDate(t: seq<byte>)
    requires Denoted(t).kind == DateKind || Denoted(t).kind == DateTimeKind
    ensures DateFields(t).Some?
    ensures var rest := DateFields(t).value.3;
      Denoted(t).kind == DateTimeKind <==> rest != [] && rest[0] == SPACE
  {
    assert Denoted(t) == FromDate(t);
  }

  lemma {:induction false} DateOfText(t: seq<byte>)
      returns (y: seq<byte>, m: seq<byte>, d: seq<byte>, tail: seq<byte>)
    requires Denoted(t).kind == DateKind || Denoted(t).kind == DateTimeKind
    ensures Number(y) && Number(m) && Number(d) && NoDigitFirst(tail) && t == DayText(y, m, d, tail)
    ensures Denoted(t).kind == DateTimeKind <==> tail != [] && tail[0] == SPACE
  {
    KindOfDate(t);
    y, m, d, tail := DayFound(t);
    DayRead(y, m, d, tail);
  }

  // --- canonical datetimes ------------------------------------------------------------------------------------

  lemma {:induction false} PadNumber(n: nat, w: nat)
    requires 0 < w && n < Pow10(w)
    ensures Number(Pad(n, w)) && Numeral(Pad(n, w)) == n && |Pad(n, w)| == w
  {
    PadValue(n, w);
  }

  /** The canonical text of a datetime reads back as its fields; a time of 24 hours or more is an error. */
  lemma {:induction false} DateTimeRoundTrip(y: nat, mo: nat, d: nat, h: nat, m: nat, s: nat, frac: seq<byte>)
    requires y <= 9999 && mo <= 12 && d <= 31 && h <= 838 && m < 60 && s < 60 && AllDigits(frac)
    ensures MomentOf(DateText(y, mo, d) + ([SPACE] + ClockText(h, m, s, frac)))
         == if h < 24 then Moment(false, y, mo, d, h, m, s, FractionMicros(frac), DateTimeKind) else ZERO
  {
    var rest := ClockText(h, m, s, frac);
    assert Pow10(2) == 100 && Pow10(4) == 100 * Pow10(2);
    PadNumber(y, 4);
    PadNumber(mo, 2);
    PadNumber(d, 2);
    ClockTextShape(h, m, s, frac);
    TimeFieldsRead(h, m, s, frac);
    DateTimesAccepted(Pad(y, 4), Pad(mo, 2), Pad(d, 2), rest);
    SameText(Pad(y, 4), Pad(mo, 2), Pad(d, 2), [SPACE] + rest);
  }

  lemma {:induction false} SameText(y: seq<byte>, m: seq<byte>, d: seq<byte>, tail: seq<byte>)
    ensures DayText(y, m, d, tail) == (y + ([DASH] + (m + ([DASH] + d)))) + tail
  {
  }

  /** A two-digit year means 1970 to 2069. */
  lemma {:induction false} TwoDigitYear(n: nat, mo: nat, d: nat)
    requires n < 100 && mo <= 12 && d <= 31
    ensures MomentOf(Pad(n, 2) + ([DASH] + (Pad(mo, 2) + ([DASH] + Pad(d, 2)))))
         == Moment(false, if n < 70 then 2000 + n else 1900 + n, mo, d, 0, 0, 0, 0, DateKind)
  {
    assert Pow10(2) == 100;
    PadNumber(n, 2);
    PadNumber(mo, 2);
    PadNumber(d, 2);
    DatesAccepted(Pad(n, 2), Pad(mo, 2), Pad(d, 2), []);
    assert Pad(d, 2) + [] == Pad(d, 2);
  }

  // --- blanks -----------------------------------------------------------------------------------------------

  ghost predicate Blank(w: seq<byte>) {
    forall i :: 0 <= i < |w| ==> IsSpace(w[i])
  }

  lemma {:induction false} BlanksBefore(w: seq<byte>, s: seq<byte>)
    requires Blank(w)
    ensures TrimLeft(w + s) == TrimLeft(s)
  {
    if w == [] {
      assert w + s == s;
    } else {
      assert (w + s)[1..] == w[1..] + s;
      BlanksBefore(w[1..], s);
    }
  }

  lemma {:induction false} BlanksAfter(s: seq<byte>, w: seq<byte>)
    requires Blank(w)
    ensures TrimRight(s + w) == TrimRight(s)
  {
    if w == [] {
      assert s + w == s;
    } else {
      assert (s + w)[..|s + w| - 1] == s + w[..|w| - 1];
      BlanksAfter(s, w[..|w| - 1]);
    }
  }

  lemma {:induction false} BlanksBetween(s: seq<byte>, w: seq<byte>)
    requires Blank(w)
    ensures TrimRight(TrimLeft(s + w)) == TrimRight(TrimLeft(s))
  {
    if s == [] {
      assert s + w == w && w == w + [];
      BlanksBefore(w, []);
    } else if IsSpace(s[0]) {
      assert (s + w)[1..] == s[1..] + w;
      BlanksBetween(s[1..], w);
    } else {
      BlanksAfter(s, w);
    }
  }

  /** Blanks around a text do not matter. */
  lemma {:induction false} BlanksIgnored(before: seq<byte>, text: seq<byte>, after: seq<byte>)
    requires Blank(before) && Blank(after)
    ensures MomentOf(before + (text + after)) == MomentOf(text)
  {
    BlanksBefore(before, text + after);
    BlanksBetween(text, after);
  }

  // --- every time passes the check -------------------------------------------------------------------------------

  lemma {:induction false} FractionBound(s: seq<byte>)
    ensures Fraction(s) <= 999999
  {
    var len := if |s| < 6 then |s| else 6;
    var f := s[..len];
    SixDigits(f);
    NumeralBound(Digits(f));
    Pow10Grows(DigitRun(f), len);
    assert Pow10(1) == 10 && Pow10(2) == 100 && Pow10(3) == 1000;
    assert Pow10(4) == 10 * Pow10(3) && Pow10(5) == 100 * Pow10(3);
  }

  lemma {:induction false} PartBound(t: seq<byte>)
    requires TimeFields(t).Some?
    ensures TimeFields(t).value.3 <= 999999
  {
    var h, m, s, tail := TimeFound(t);
    TimeRead(h, m, s, tail);
    if tail != [] && tail[0] == DOT {
      FractionBound(tail[1..]);
    }
  }

  /** A fraction is scaled by all that follows the point, up to six characters, digits or not. */
  lemma {:induction false} FractionScaled(d: seq<byte>, rest: seq<byte>)
    requires AllDigits(d) && |d| <= 6 && NoDigitFirst(rest)
    ensures Fraction(d + rest) == Numeral(d) * Pow10(if |d| + |rest| < 6 then 6 - |d| - |rest| else 0)
  {
    var len := if |d| + |rest| < 6 then |d| + |rest| else 6;
    var f := (d + rest)[..len];
    DigitRunIs(f, |d|);
    assert f[..|d|] == d;
    assert Pow10(1) == 10 && Pow10(2) == 100 && Pow10(3) == 1000;
    assert Pow10(4) == 10 * Pow10(3) && Pow10(5) == 100 * Pow10(3);
    assert Pow10(6) == 100 * Pow10(4);
  }

  /** The range check never refuses what the parser accepted. */
  lemma {:induction false} ParsedTimesPass(text: seq<byte>)
    ensures CheckTime(MomentOf(text))
  {
    DenotedPasses(TrimRight(TrimLeft(text)));
  }

  lemma {:induction false} DenotedPasses(t: seq<byte>)
    ensures CheckTime(Denoted(t))
  {
    if Denoted(t).kind == TimeKind {
      PartBound(if t[0] == DASH then t[1..] else t);
    } else if Denoted(t).kind == DateTimeKind {
      PartBound(DateFields(t).value.3[1..]);
    }
  }
}
