/**
  timedelta to MYSQL_TIME and back: mariadb_pydelta_to_tm, Mrdb_GetTimeDelta and the binary
  TIME decoder.  C's int wraps at 32 bits and its division truncates toward zero.
 */
module TimeDelta {

  const TWO31: int := 0x8000_0000
  const TWO32: int := 0x1_0000_0000
  const MICROS: int := 1_000_000
  const DAY: int := 86_400

  /** Conversion to a 32-bit int, and to an unsigned int. */
  function Int32(x: int): (r: int)
    ensures -TWO31 <= r < TWO31
    ensures -TWO31 <= x < TWO31 ==> r == x
  {
    (x + TWO31) % TWO32 - TWO31
  }

  function Uint32(x: int): (r: int)
    ensures 0 <= r < TWO32
  {
    x % TWO32
  }

  /** Wrapping is undone by wrapping: only the residue counts. */
  lemma Int32Residue(x: int, y: int, k: int)
    requires x == y + k * TWO32
    ensures Int32(x) == Int32(y)
  {
  }

  lemma Int32Quotient(x: int) returns (k: int)
    ensures x == Int32(x) + k * TWO32
  {
    k := (x + TWO31) / TWO32;
  }

  /** `abs` on int: the most negative value has no positive counterpart and stays itself. */
  function Abs32(x: int): int
    requires -TWO31 <= x < TWO31
  {
    if x == -TWO31 then x else if x < 0 then -x else x
  }

  function Quot(a: int, b: int): int
    requires b > 0
  {
    if a >= 0 then a / b else -(-a / b)
  }

  function Rem(a: int, b: int): int
    requires b > 0
  {
    a - b * Quot(a, b)
  }

  // --- Python's timedelta ---------------------------------------------------------------------------

  datatype Delta = Delta(days: int, seconds: int, micros: int) {
    function Total(): int {
      (days * DAY + seconds) * MICROS + micros
    }

    predicate Normal() {
      0 <= seconds < DAY && 0 <= micros < MICROS
    }
  }

  /** PyDelta_FromDSU: the normal form of days, seconds and microseconds. */
  function FromDSU(days: int, seconds: int, micros: int): (d: Delta)
    ensures d.Normal()
    ensures d.Total() == Delta(days, seconds, micros).Total()
  {
    var s := seconds + micros / MICROS;
    Delta(days + s / DAY, s % DAY, micros % MICROS)
  }

  /** The normal form is determined by the total. */
  lemma NormalUnique(d: Delta, e: Delta)
    requires d.Normal() && e.Normal() && d.Total() == e.Total()
    ensures d == e
  {
    var a, b := d.days * DAY + d.seconds, e.days * DAY + e.seconds;
    assert (a - b) * MICROS == e.micros - d.micros;
    assert a == b && (d.days - e.days) * DAY == e.seconds - d.seconds;
  }

  // --- MYSQL_TIME ---------------------------------------------------------------------------------------

  datatype Clock = Clock(neg: bool, hour: int, minute: int, second: int, part: int)

  /** mariadb_pydelta_to_tm. */
  method FromDelta(d: Delta) returns (tm: Clock)
    requires d.Normal()
    ensures tm == ClockOf(d)
  {
    var part, neg := d.micros, d.days < 0;
    var totalSeconds := Abs32(Int32(Int32(Int32(d.days * 3600) * 24) + d.seconds));
    WrapOnce(d);
    if part != 0 && neg {
      totalSeconds := Int32(totalSeconds - 1);
      part := 1000000 - part;
    }
    var remain := Rem(totalSeconds, 3600);
    tm := Clock(neg, Uint32(Quot(totalSeconds, 3600)), Uint32(Quot(remain, 60)), Uint32(Rem(remain, 60)), part);
  }

  /** The intermediate products may wrap; the result is the wrapped number of seconds. */
  lemma WrapOnce(d: Delta)
    ensures Int32(Int32(Int32(d.days * 3600) * 24) + d.seconds) == Int32(d.days * DAY + d.seconds)
  {
    var k := Int32Quotient(d.days * 3600);
    var a := Int32(d.days * 3600) * 24;
    var m := Int32Quotient(a);
    Int32Residue(d.days * DAY + d.seconds, Int32(a) + d.seconds, 24 * k + m);
  }

  function Seconds(d: Delta): int {
    d.days * DAY + d.seconds
  }

  /** The fields for a number of seconds and a sign. */
  function ClockFor(neg: bool, t: int, part: int): Clock {
    Clock(neg, Uint32(Quot(t, 3600)), Uint32(Quot(Rem(t, 3600), 60)), Uint32(Rem(Rem(t, 3600), 60)), part)
  }

  function ClockOf(d: Delta): Clock {
    var neg := d.days < 0;
    var t := Abs32(Int32(Seconds(d)));
    if d.micros != 0 && neg then ClockFor(neg, Int32(t - 1), MICROS - d.micros)
    else ClockFor(neg, t, d.micros)
  }

  /** Mrdb_GetTimeDelta. */
  function GetTimeDelta(tm: Clock): (d: Delta)
    ensures d.Normal()
  {
    var hour := Int32(if tm.neg then -1 * tm.hour else tm.hour);
    var minute := Int32(if tm.neg then -1 * tm.minute else tm.minute);
    var second := Int32(if tm.neg then -1 * tm.second else tm.second);
    var part := Int32(if tm.neg then -1 * tm.part else tm.part);
    FromDSU(Quot(hour, 24), Int32(Rem(hour, 24) * 3600 + minute * 60 + second), part)
  }

  /** The signed microseconds a clock value stands for. */
  function Micros(neg: bool, hour: int, minute: int, second: int, part: int): int {
    (if neg then -1 else 1) * (((hour * 60 + minute) * 60 + second) * MICROS + part)
  }

  /** On fields in range the delta is the signed microsecond total. */
  lemma ClockTotal(tm: Clock)
    requires 0 <= tm.hour < TWO31 && 0 <= tm.minute < 60 && 0 <= tm.second < 60 && 0 <= tm.part <= MICROS
    ensures GetTimeDelta(tm).Total() == Micros(tm.neg, tm.hour, tm.minute, tm.second, tm.part)
  {
    var sign := if tm.neg then -1 else 1;
    FieldsTotal(sign * tm.hour, sign * tm.minute, sign * tm.second, sign * tm.part);
  }

  // --- the round trip ---------------------------------------------------------------------------------------

  /** A stored unsigned field and its negation come back as small signed numbers. */
  lemma SignedBack(x: int)
    requires -TWO31 < x < TWO31
    ensures Int32(Uint32(x)) == x && Int32(-1 * Uint32(x)) == -x
  {
    if x < 0 {
      assert Uint32(x) == x + TWO32;
      Int32Residue(x + TWO32, x, 1);
      Int32Residue(-1 * (x + TWO32), -x, -1);
    }
  }

  lemma FieldsTotal(h: int, m: int, s: int, part: int)
    requires -TWO31 <= h < TWO31 && -60 < m < 60 && -60 < s < 60
    ensures FromDSU(Quot(h, 24), Int32(Rem(h, 24) * 3600 + m * 60 + s), part).Total()
         == (h * 3600 + m * 60 + s) * MICROS + part
  {
    assert -24 < Rem(h, 24) < 24 && h == 24 * Quot(h, 24) + Rem(h, 24);
  }

  /** Splitting seconds into fields and putting them together again, whatever the sign. */
  lemma ClockForTotal(neg: bool, t: int, part: int)
    requires -TWO31 <= t < TWO31 && 0 <= part <= MICROS
    ensures GetTimeDelta(ClockFor(neg, t, part)).Total() == (if neg then -1 else 1) * (t * MICROS + part)
  {
    var h, r := Quot(t, 3600), Rem(t, 3600);
    var m, s := Quot(r, 60), Rem(r, 60);
    assert -596524 < h < 596524 && -3600 < r < 3600 && -60 < m < 60 && -60 < s < 60;
    assert t == h * 3600 + m * 60 + s;
    SignedBack(h);
    SignedBack(m);
    SignedBack(s);
    if neg {
      FieldsTotal(-h, -m, -s, -part);
    } else {
      FieldsTotal(h, m, s, part);
    }
  }

  /** The deltas that survive: those whose seconds fit an int, but for the most negative one with no fraction. */
  predicate Survives(d: Delta) {
    -TWO31 < Seconds(d) < TWO31 || (Seconds(d) == -TWO31 && d.micros > 0)
  }

  /** What the wrapped absolute value says about the seconds themselves. */
  lemma WrappedSeconds(big: int)
    ensures big >= 0 ==> (Abs32(Int32(big)) == big <==> big < TWO31)
    ensures big < 0 ==> (-Abs32(Int32(big)) == big <==> big > -TWO31)
    ensures big < 0 ==> (-(Int32(Abs32(Int32(big)) - 1) + 1) == big <==> big >= -TWO31)
  {
    var k := Int32Quotient(big);
  }

  /** A clock value with a borrowed second. */
  lemma BorrowTotal(t: int, micros: int)
    requires -TWO31 <= t < TWO31 && 0 < micros < MICROS
    ensures GetTimeDelta(ClockFor(true, Int32(t - 1), MICROS - micros)).Total()
         == -(Int32(t - 1) + 1) * MICROS + micros
  {
    ClockForTotal(true, Int32(t - 1), MICROS - micros);
  }

  lemma BackTotal(d: Delta)
    requires d.Normal()
    ensures var t := Abs32(Int32(Seconds(d)));
      GetTimeDelta(ClockOf(d)).Total() ==
        if d.days >= 0 then t * MICROS + d.micros
        else if d.micros == 0 then -t * MICROS
        else -(Int32(t - 1) + 1) * MICROS + d.micros
  {
    var t := Abs32(Int32(Seconds(d)));
    if d.micros != 0 && d.days < 0 {
      BorrowTotal(t, d.micros);
    } else {
      ClockForTotal(d.days < 0, t, d.micros);
    }
  }

  /** Binding a timedelta and reading it back is the identity exactly on those deltas. */
  lemma DeltaRoundTrip(d: Delta)
    requires d.Normal()
    ensures GetTimeDelta(ClockOf(d)) == d <==> Survives(d)
  {
    var back := GetTimeDelta(ClockOf(d));
    BackTotal(d);
    WrappedSeconds(Seconds(d));
    assert d.days < 0 <==> Seconds(d) < 0;
    assert d.Total() == Seconds(d) * MICROS + d.micros;
    if back.Total() == d.Total() {
      NormalUnique(back, d);
    }
  }

  /** Every field is in its range, and the fields add up to the signed total of the delta. */
  ghost predicate Denotes(tm: Clock, d: Delta) {
    && 0 <= tm.hour && 0 <= tm.minute < 60 && 0 <= tm.second < 60 && 0 <= tm.part < 1000000
    && (tm.neg <==> d.Total() < 0)
    && (if tm.neg then -1 else 1) * (((tm.hour * 60 + tm.minute) * 60 + tm.second) * 1000000 + tm.part)
       == (d.days * 86400 + d.seconds) * 1000000 + d.micros
  }

  lemma {:induction false} SplitSeconds(t: int) returns (h: int, m: int, s: int)
    requires 0 <= t < TWO31
    ensures 0 <= h < TWO31 && 0 <= m < 60 && 0 <= s < 60 && h * 3600 + m * 60 + s == t
    ensures h == t / 3600 && m == (t % 3600) / 60 && s == (t % 3600) % 60
  {
    h, m, s := t / 3600, (t % 3600) / 60, (t % 3600) % 60;
  }

  lemma {:induction false} FieldsOf(neg: bool, t: int, part: int)
    requires 0 <= t < TWO31
    ensures var tm := ClockFor(neg, t, part);
      && tm.neg == neg && tm.part == part
      && 0 <= tm.hour && 0 <= tm.minute < 60 && 0 <= tm.second < 60
      && tm.hour * 3600 + tm.minute * 60 + tm.second == t
  {
    var h, m, s := SplitSeconds(t);
    assert ClockFor(neg, t, part) == Clock(neg, h, m, s, part);
  }

  lemma {:induction false} DenotesTotal(tm: Clock, d: Delta, t: int)
    requires 0 <= tm.hour && 0 <= tm.minute < 60 && 0 <= tm.second < 60 && 0 <= tm.part < 1000000
    requires tm.hour * 3600 + tm.minute * 60 + tm.second == t
    requires tm.neg <==> d.Total() < 0
    requires d.Total() == if tm.neg then -(t * 1000000 + tm.part) else t * 1000000 + tm.part
    ensures Denotes(tm, d)
  {
    assert (tm.hour * 60 + tm.minute) * 60 + tm.second == t;
  }

  /** The fields of every delta that survives are those of its total. */
  lemma {:induction false} ClockFields(d: Delta)
    requires d.Normal() && Survives(d)
    ensures Denotes(ClockOf(d), d)
  {
    var t := Abs32(Int32(Seconds(d)));
    if d.micros != 0 && d.days < 0 {
      FieldsOf(true, Int32(t - 1), MICROS - d.micros);
      DenotesTotal(ClockOf(d), d, Int32(t - 1));
    } else {
      FieldsOf(d.days < 0, t, d.micros);
      DenotesTotal(ClockOf(d), d, t);
    }
  }
}
