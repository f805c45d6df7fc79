/**
 * The success screen's countdown to the next 14 February: choosing the
 * target date once at mount, splitting the milliseconds left into days,
 * hours, minutes and seconds on every tick, and printing each unit with at
 * least two digits.
 *
 * Instants are integer milliseconds and local dates are (year, month index,
 * day, milliseconds into the day) compared field by field; the clock and the
 * time-zone conversion between the two are left to the caller.
 */
module SuccessScreen {

  const MsPerSecond: int := 1000
  const MsPerMinute: int := 60000
  const MsPerHour: int := 3600000
  const MsPerDay: int := 86400000

  /** Month indices count from 0, as in the source's date constructor, so 1 is February. */
  const February: int := 1
  const ValentineDay: int := 14

  /** A local date and time of day. */
  datatype LocalDateTime = LocalDateTime(year: int, month: int, day: int, msOfDay: int)

  /** `a` is strictly later than `b`: the lexicographic order of the fields. */
  predicate Later(a: LocalDateTime, b: LocalDateTime)
  {
    || a.year > b.year
    || (a.year == b.year && a.month > b.month)
    || (a.year == b.year && a.month == b.month && a.day > b.day)
    || (a.year == b.year && a.month == b.month && a.day == b.day && a.msOfDay > b.msOfDay)
  }

  /** Later is a strict total order. */
  lemma LaterIsStrictTotalOrder(a: LocalDateTime, b: LocalDateTime, c: LocalDateTime)
    ensures !Later(a, a)
    ensures Later(a, b) ==> !Later(b, a)
    ensures Later(a, b) && Later(b, c) ==> Later(a, c)
    ensures a == b || Later(a, b) || Later(b, a)
  {
  }

  /** Midnight at the start of 14 February of `year`. */
  function ValentineOf(year: int): LocalDateTime
  {
    LocalDateTime(year, February, ValentineDay, 0)
  }

  /**
   * The countdown target: 14 February of the current year, unless now is
   * strictly later than its midnight, in which case 14 February of the next
   * year. Either way it is a 14 February midnight no earlier than now.
   */
  function TargetDate(now: LocalDateTime): (t: LocalDateTime)
    ensures t == ValentineOf(now.year) || t == ValentineOf(now.year + 1)
    ensures !Later(now, t)
  {
    var vDay := ValentineOf(now.year);
    if Later(now, vDay) then ValentineOf(now.year + 1) else vDay
  }

  /** The target is the next occurrence: no 14 February midnight no earlier than now comes before it. */
  lemma TargetIsNextOccurrence(now: LocalDateTime, year: int)
    requires !Later(now, ValentineOf(year))
    ensures TargetDate(now).year <= year
    ensures !Later(TargetDate(now), ValentineOf(year))
  {
  }

  /** The current year is kept exactly when now is not after its 14 February midnight. */
  lemma TargetYear(now: LocalDateTime)
    ensures TargetDate(now).year == now.year <==> !Later(now, ValentineOf(now.year))
    ensures TargetDate(now).year == now.year + 1 <==> Later(now, ValentineOf(now.year))
  {
  }

  /** The comparison is strict: at 14 February midnight itself the target is that same instant. */
  lemma TargetAtValentineMidnight(year: int)
    ensures TargetDate(ValentineOf(year)) == ValentineOf(year)
  {
  }

  /** 13 February 2024 counts down to 14 February 2024, 15 February 2024 to 14 February 2025. */
  lemma TargetExamples()
    ensures TargetDate(LocalDateTime(2024, February, 13, 0)) == ValentineOf(2024)
    ensures TargetDate(LocalDateTime(2024, February, 15, 0)) == ValentineOf(2025)
    ensures TargetDate(LocalDateTime(2024, February, 14, 1)) == ValentineOf(2025)
  {
  }

  /** Whole days, hours, minutes and seconds left. */
  datatype TimeLeft = TimeLeft(days: nat, hours: nat, minutes: nat, seconds: nat)

  /** Sum of the units in milliseconds. */
  function Milliseconds(t: TimeLeft): int
  {
    t.days * MsPerDay + t.hours * MsPerHour + t.minutes * MsPerMinute + t.seconds * MsPerSecond
  }

  predicate InRange(t: TimeLeft)
  {
    t.hours < 24 && t.minutes < 60 && t.seconds < 60
  }

  lemma MulAtLeast(a: int, b: int)
    requires a > 0 && b >= 1
    ensures a * b >= a
  {
  }

  lemma DivUnique(n: int, d: int, q: int, r: int)
    requires d > 0 && 0 <= r < d && n == d * q + r
    ensures n / d == q
  {
    var q', r' := n / d, n % d;
    assert n == d * q' + r' && 0 <= r' < d;
    if q' < q {
      assert d * q == d * q' + d * (q - q');
      MulAtLeast(d, q - q');
    } else if q' > q {
      assert d * q' == d * q + d * (q' - q);
      MulAtLeast(d, q' - q);
    }
  }

  /** Dividing by `k` and then by `m` is dividing by `k * m`. */
  lemma DivDiv(n: int, k: int, m: int)
    requires n >= 0 && k > 0 && m > 0
    ensures n / (k * m) == (n / k) / m
  {
    var q, r := n / k, n % k;
    var q2, r2 := q / m, q % m;
    assert n == k * q + r && 0 <= r < k;
    assert q == m * q2 + r2 && 0 <= r2 < m;
    assert k * q == (k * m) * q2 + k * r2 by {
      assert k * (m * q2 + r2) == k * (m * q2) + k * r2;
      assert k * (m * q2) == (k * m) * q2;
    }
    assert k * r2 + r < k * m by {
      assert k * m == k * r2 + k * (m - r2);
      MulAtLeast(k, m - r2);
    }
    assert k * r2 >= 0;
    DivUnique(n, k * m, q2, k * r2 + r);
  }

  /** The integer duration decomposition: the units are in range and add back up to `d` less its sub-second part. */
  function Decompose(d: nat): (t: TimeLeft)
    ensures InRange(t)
    ensures Milliseconds(t) + d % MsPerSecond == d
  {
    DivDiv(d, 1000, 60);
    DivDiv(d, 60000, 60);
    DivDiv(d, 3600000, 24);
    TimeLeft(d / MsPerDay, (d / MsPerHour) % 24, (d / MsPerMinute) % 60, (d / MsPerSecond) % 60)
  }

  /** Conversely, in-range units that add up to `d` less a sub-second remainder are the decomposition. */
  lemma DecomposeUnique(d: nat, t: TimeLeft, rest: int)
    requires InRange(t) && 0 <= rest < MsPerSecond
    requires Milliseconds(t) + rest == d
    ensures t == Decompose(d)
  {
    var secs := (t.days * 24 + t.hours) * 60 * 60 + t.minutes * 60 + t.seconds;
    DivUnique(d, 1000, secs, rest);
    var mins := (t.days * 24 + t.hours) * 60 + t.minutes;
    DivUnique(secs, 60, mins, t.seconds);
    var hours := t.days * 24 + t.hours;
    DivUnique(mins, 60, hours, t.minutes);
    DivUnique(hours, 24, t.days, t.hours);
    DivDiv(d, 1000, 60);
    DivDiv(d, 60000, 60);
    DivDiv(d, 3600000, 24);
  }

  /** Rounds toward zero, as JavaScript's `%` does with its quotient. */
  function Trunc(x: real): (r: int)
    ensures x >= 0.0 ==> r as real <= x < r as real + 1.0
    ensures x < 0.0 ==> r as real - 1.0 < x <= r as real
  {
    if x >= 0.0 then x.Floor else -((-x).Floor)
  }

  /** JavaScript's `%` on numbers: the remainder has the dividend's sign. */
  function JsRemainder(x: real, m: real): (r: real)
    requires m != 0.0
    ensures m > 0.0 && x >= 0.0 ==> 0.0 <= r < m
    ensures m > 0.0 && x < 0.0 ==> -m < r <= 0.0
  {
    RemainderBounds(x, m);
    x - m * (Trunc(x / m) as real)
  }

  /** The remainder left after taking a truncated multiple of a positive `m` lies strictly within `m` of zero, on the dividend's side. */
  lemma RemainderBounds(x: real, m: real)
    requires m != 0.0
    ensures m > 0.0 && x >= 0.0 ==> 0.0 <= x - m * (Trunc(x / m) as real) < m
    ensures m > 0.0 && x < 0.0 ==> -m < x - m * (Trunc(x / m) as real) <= 0.0
  {
    if m > 0.0 {
      QuotientSign(x, m);
      if x >= 0.0 {
        RemainderAbove(x, m, Trunc(x / m) as real);
      } else {
        RemainderBelow(x, m, Trunc(x / m) as real);
      }
    }
  }

  /** Taking `m` times a lower bound within one of the quotient leaves less than `m`. */
  lemma RemainderAbove(x: real, m: real, t: real)
    requires m > 0.0 && t <= x / m < t + 1.0
    ensures 0.0 <= x - m * t < m
  {
    var f, r := x / m - t, x - m * t;
    SubtractMultiple(x, m, t);
    assert r == m * f;
    ScaleFraction(m, f);
    assert 0.0 <= r < m;
  }

  /** Taking `m` times an upper bound within one of the quotient leaves more than `-m`. */
  lemma RemainderBelow(x: real, m: real, t: real)
    requires m > 0.0 && t - 1.0 < x / m <= t
    ensures -m < x - m * t <= 0.0
  {
    var f, r := x / m - t, x - m * t;
    SubtractMultiple(x, m, t);
    assert r == m * f;
    ScaleFraction(m, f);
    assert -m < r <= 0.0;
  }

  /** Dividing by a positive number keeps the sign. */
  lemma QuotientSign(x: real, m: real)
    requires m > 0.0
    ensures x >= 0.0 <==> x / m >= 0.0
  {
    SubtractMultiple(x, m, 0.0);
    if x / m < 0.0 { MulMonotone(m, x / m, 0.0); }
    if x / m >= 0.0 { MulMonotone(m, 0.0, x / m); }
  }

  /** Taking `t` copies of `m` from `x` leaves `m` times what the quotient has beyond `t`. */
  lemma SubtractMultiple(x: real, m: real, t: real)
    requires m != 0.0
    ensures x - m * t == m * (x / m - t)
  {
  }

  /** A positive `m` times a number strictly within one of zero stays strictly within `m` of zero, on the same side. */
  lemma ScaleFraction(m: real, f: real)
    requires m > 0.0
    ensures 0.0 <= f < 1.0 ==> 0.0 <= m * f < m
    ensures -1.0 < f <= 0.0 ==> -m < m * f <= 0.0
  {
    if 0.0 <= f < 1.0 {
      MulMonotone(m, 0.0, f);
      MulMonotone(m, f, 1.0);
    }
    if -1.0 < f <= 0.0 {
      MulMonotone(m, -1.0, f);
      MulMonotone(m, f, 0.0);
    }
  }

  /** Multiplying by a positive number keeps the order, and keeps it strict. */
  lemma MulMonotone(m: real, a: real, b: real)
    requires m > 0.0 && a <= b
    ensures m * a <= m * b
    ensures a < b ==> m * a < m * b
  {
    assert m * b - m * a == m * (b - a);
  }

  lemma FloorOfQuotient(n: int, k: int)
    requires n >= 0 && k > 0
    ensures (n as real / k as real).Floor == n / k
  {
    var q, r := n / k, n % k;
    assert n == k * q + r && 0 <= r < k;
    assert (n as real) == (k as real) * (q as real) + (r as real);
    assert n as real / k as real == q as real + r as real / k as real;
    assert 0.0 <= r as real / k as real < 1.0;
  }

  /** Flooring the remainder of `n / k` by `m`, taken on exact reals, is the integer `(n / k) % m`. */
  lemma FloorOfRemainder(n: int, k: int, m: int)
    requires n >= 0 && k > 0 && m > 0
    ensures JsRemainder(n as real / k as real, m as real).Floor == (n / k) % m
  {
    var x, y := n as real / k as real, n as real / k as real / m as real;
    assert y == n as real / (k * m) as real by {
      assert (k * m) as real == k as real * m as real;
    }
    FloorOfQuotient(n, k * m);
    DivDiv(n, k, m);
    var f := (n / k) / m;
    assert Trunc(y) == f;
    assert JsRemainder(x, m as real) == x - (m * f) as real;
    FloorShift(x, m * f);
    FloorOfQuotient(n, k);
    assert n / k - m * f == (n / k) % m;
  }

  /** Subtracting an integer moves the floor by exactly that integer. */
  lemma FloorShift(x: real, c: int)
    ensures (x - c as real).Floor == x.Floor - c
  {
  }

  /** The four unit expressions of `calculateTimeLeft`, on exact reals, are integer divisions and remainders. */
  lemma UnitExpressions(difference: int)
    requires difference > 0
    ensures (difference as real / 86400000.0).Floor == difference / MsPerDay
    ensures JsRemainder(difference as real / 3600000.0, 24.0).Floor == (difference / MsPerHour) % 24
    ensures JsRemainder(difference as real / 1000.0 / 60.0, 60.0).Floor == (difference / MsPerMinute) % 60
    ensures JsRemainder(difference as real / 1000.0, 60.0).Floor == (difference / MsPerSecond) % 60
  {
    FloorOfQuotient(difference, 86400000);
    FloorOfRemainder(difference, 3600000, 24);
    FloorOfRemainder(difference, 60000, 60);
    assert difference as real / 1000.0 / 60.0 == difference as real / 60000.0;
    FloorOfRemainder(difference, 1000, 60);
  }

  /**
   * `calculateTimeLeft`: the milliseconds from now to the target split into
   * units by dividing, taking JavaScript's `%` and flooring,
   * as the source writes it on exact reals; zero in every unit once the
   * target is not in the future. For a future target this is exactly the
   * integer decomposition.
   */
  function CalculateTimeLeft(targetMs: int, nowMs: int): (t: TimeLeft)
    ensures targetMs - nowMs <= 0 ==> t == TimeLeft(0, 0, 0, 0)
    ensures targetMs - nowMs > 0 ==> t == Decompose(targetMs - nowMs)
  {
    var difference := targetMs - nowMs;
    if difference > 0 then
      var d := difference as real;
      UnitExpressions(difference);
      TimeLeft(
        (d / 86400000.0).Floor,
        JsRemainder(d / 3600000.0, 24.0).Floor,
        JsRemainder(d / 1000.0 / 60.0, 60.0).Floor,
        JsRemainder(d / 1000.0, 60.0).Floor)
    else
      TimeLeft(0, 0, 0, 0)
  }

  /** The units never leave their ranges, and they account for all but the sub-second part of the time left. */
  lemma TimeLeftBounds(targetMs: int, nowMs: int)
    ensures InRange(CalculateTimeLeft(targetMs, nowMs))
    ensures targetMs - nowMs > 0 ==>
      Milliseconds(CalculateTimeLeft(targetMs, nowMs)) + (targetMs - nowMs) % MsPerSecond == targetMs - nowMs
  {
  }

  /** 90,061,000 ms is one day, one hour, one minute and one second. */
  lemma TimeLeftExample()
    ensures CalculateTimeLeft(90061000, 0) == TimeLeft(1, 1, 1, 1)
  {
  }

  predicate IsDigit(c: char)
  {
    '0' <= c <= '9'
  }

  predicate AllDigits(s: string)
  {
    forall i :: 0 <= i < |s| ==> IsDigit(s[i])
  }

  function DigitChar(d: int): (c: char)
    requires 0 <= d < 10
    ensures IsDigit(c)
  {
    ('0' as int + d) as char
  }

  function DigitValue(c: char): int
  {
    c as int - '0' as int
  }

  /** `toString` of a natural number: its decimal digits, with a leading zero only for zero itself. */
  function DecimalString(n: nat): (s: string)
    ensures |s| >= 1 && AllDigits(s)
    ensures |s| == 1 <==> n < 10
    ensures s[0] == '0' ==> n == 0
    decreases n
  {
    if n < 10 then [DigitChar(n)] else DecimalString(n / 10) + [DigitChar(n % 10)]
  }

  /** Reads a string of decimal digits back as a number; leading zeros are allowed. */
  function ParseDecimal(s: string): nat
    requires AllDigits(s)
    decreases |s|
  {
    if s == [] then 0 else ParseDecimal(s[..|s| - 1]) * 10 + DigitValue(s[|s| - 1])
  }

  /** Reading back the decimal digits of `n` gives `n`. */
  lemma {:induction false} DecimalRoundTrip(n: nat)
    ensures ParseDecimal(DecimalString(n)) == n
    decreases n
  {
    var s := DecimalString(n);
    if n >= 10 {
      assert s[..|s| - 1] == DecimalString(n / 10);
      DecimalRoundTrip(n / 10);
    }
  }

  /** A leading zero does not change the number read. */
  lemma {:induction false} LeadingZero(s: string)
    requires AllDigits(s)
    ensures AllDigits("0" + s) && ParseDecimal("0" + s) == ParseDecimal(s)
    decreases |s|
  {
    var z := "0" + s;
    assert AllDigits(z) by {
      forall i | 0 <= i < |z| ensures IsDigit(z[i]) {
        if i > 0 { assert z[i] == s[i - 1]; }
      }
    }
    if s != [] {
      assert z[..|z| - 1] == "0" + s[..|s| - 1];
      LeadingZero(s[..|s| - 1]);
    }
  }

  /** `n` copies of `c`. */
  function Repeat(c: char, n: nat): (r: string)
    ensures |r| == n
    ensures forall i :: 0 <= i < n ==> r[i] == c
  {
    if n == 0 then [] else [c] + Repeat(c, n - 1)
  }

  /**
   * `padStart` with a one-character fill: a string at least `targetLength`
   * long is returned as it is; a shorter one gets copies of `fill` in front
   * until it is exactly `targetLength` long.
   */
  function PadStart(s: string, targetLength: nat, fill: char): (r: string)
    ensures |r| == if |s| >= targetLength then |s| else targetLength
    ensures r[|r| - |s|..] == s
    ensures forall i :: 0 <= i < |r| - |s| ==> r[i] == fill
  {
    if |s| >= targetLength then s else Repeat(fill, targetLength - |s|) + s
  }

  /**
   * What a countdown unit shows: `value.toString().padStart(2, '0')`. A zero
   * is put in front exactly of the one-digit values, the result is at least
   * two digits long and it reads back as the value.
   */
  function FormatUnit(value: nat): (r: string)
    ensures |r| >= 2
    ensures value < 10 ==> r == "0" + DecimalString(value)
    ensures value >= 10 ==> r == DecimalString(value)
    ensures AllDigits(r) && ParseDecimal(r) == value
  {
    var digits := DecimalString(value);
    var r := PadStart(digits, 2, '0');
    DecimalRoundTrip(value);
    LeadingZero(digits);
    assert value < 10 ==> r == "0" + digits by {
      if value < 10 {
        assert r[0] == '0' && r[1..] == digits;
      }
    }
    r
  }

  /** One box of the countdown: the padded digits and the caption under them. */
  datatype UnitView = UnitView(digits: string, caption: string)

  /** A box shows `value`: at least two digits that read back as `value`. */
  predicate Shows(u: UnitView, value: nat)
  {
    |u.digits| >= 2 && AllDigits(u.digits) && ParseDecimal(u.digits) == value
  }

  /** A box has a zero in front only if it is two digits long, as `padStart(2, '0')` leaves it. */
  predicate NoExtraZero(u: UnitView)
  {
    |u.digits| == 2 || (|u.digits| > 0 && u.digits[0] != '0')
  }

  /** The four boxes the countdown renders, in order: days, hours, minutes, seconds. */
  function CountdownView(t: TimeLeft): (v: seq<UnitView>)
    ensures |v| == 4
    ensures Shows(v[0], t.days) && Shows(v[1], t.hours)
    ensures Shows(v[2], t.minutes) && Shows(v[3], t.seconds)
  {
    var days, hours := UnitView(FormatUnit(t.days), "Days"), UnitView(FormatUnit(t.hours), "Hrs");
    var minutes, seconds := UnitView(FormatUnit(t.minutes), "Min"), UnitView(FormatUnit(t.seconds), "Sec");
    assert Shows(days, t.days) && Shows(hours, t.hours);
    assert Shows(minutes, t.minutes) && Shows(seconds, t.seconds);
    [days, hours, minutes, seconds]
  }

  /** A formatted unit has a zero in front only when it is two digits long. */
  lemma FormatUnitNoExtraZero(value: nat, caption: string)
    ensures NoExtraZero(UnitView(FormatUnit(value), caption))
  {
  }

  /** No box of the countdown carries a zero in front beyond the one padding adds. */
  lemma CountdownViewNoExtraZero(t: TimeLeft)
    ensures forall i :: 0 <= i < 4 ==> NoExtraZero(CountdownView(t)[i])
  {
    var v := CountdownView(t);
    FormatUnitNoExtraZero(t.days, "Days");
    FormatUnitNoExtraZero(t.hours, "Hrs");
    FormatUnitNoExtraZero(t.minutes, "Min");
    FormatUnitNoExtraZero(t.seconds, "Sec");
    assert NoExtraZero(v[0]) && NoExtraZero(v[1]) && NoExtraZero(v[2]) && NoExtraZero(v[3]);
  }

  /** A digit string without a zero in front, or the single digit 0, is the decimal string of the number it reads as. */
  lemma {:induction false} CanonicalDecimal(s: string)
    requires AllDigits(s) && |s| >= 1 && (|s| == 1 || s[0] != '0')
    ensures s == DecimalString(ParseDecimal(s))
    decreases |s|
  {
    var d := DigitValue(s[|s| - 1]);
    if |s| == 1 {
      assert s[..0] == [];
      assert s == [DigitChar(d)];
    } else {
      var p := s[..|s| - 1];
      assert p[0] == s[0];
      CanonicalDecimal(p);
      var m := ParseDecimal(p);
      assert m != 0;
      var n := m * 10 + d;
      assert n / 10 == m && n % 10 == d;
      assert s == p + [DigitChar(d)];
    }
  }

  /**
   * What a box reads as, together with having no extra zero in front, fixes
   * its digits: they are exactly what `padStart(2, '0')` makes of the value.
   */
  lemma ShownDigitsAreFormatted(u: UnitView, value: nat)
    requires Shows(u, value) && NoExtraZero(u)
    ensures u.digits == FormatUnit(value)
  {
    var s := u.digits;
    if s[0] != '0' {
      CanonicalDecimal(s);
    } else {
      var tail := s[1..];
      assert |s| == 2 && s == "0" + tail;
      LeadingZero(tail);
      CanonicalDecimal(tail);
    }
  }

  /** Hours, minutes and seconds always show exactly two digits; days show at least two. */
  lemma SubDayUnitsShowTwoDigits(t: TimeLeft)
    requires InRange(t)
    ensures |CountdownView(t)[1].digits| == 2
    ensures |CountdownView(t)[2].digits| == 2
    ensures |CountdownView(t)[3].digits| == 2
  {
  }

  lemma TwoDigitsBelowHundred(n: nat)
    requires n < 100
    ensures |FormatUnit(n)| == 2
  {
  }

  lemma FormatExamples()
    ensures FormatUnit(0) == "00"
    ensures FormatUnit(7) == "07"
    ensures FormatUnit(42) == "42"
    ensures FormatUnit(365) == "365"
  {
    assert DecimalString(42) == "42" by {
      assert DecimalString(42) == DecimalString(4) + [DigitChar(2)];
    }
    assert DecimalString(36) == "36" by {
      assert DecimalString(36) == DecimalString(3) + [DigitChar(6)];
    }
    assert DecimalString(365) == "365" by {
      assert DecimalString(365) == DecimalString(36) + [DigitChar(5)];
    }
  }
}
