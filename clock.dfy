/** The solver's clock value: an hour and a minute, used both as a point in
    the day and as a duration (app/src/main/java/com/algorithm/Time.java).
    Java's `int` is modelled as an unbounded `int`; Java's `/` and `%`
    truncate toward zero and are written out below. */
module Clock {

  datatype Time = Time(hour: int, minute: int)

  const MinutesPerHour: int := 60
  const HoursPerDay: int := 24

  /** A value the data model calls a clock reading: 00:00 .. 23:59. */
  predicate IsClockValue(t: Time) {
    0 <= t.hour < HoursPerDay && 0 <= t.minute < MinutesPerHour
  }

  /** The minute field is normalised (the hour may be any duration). */
  predicate Normalised(t: Time) {
    0 <= t.minute < MinutesPerHour
  }

  /** The length of `t` in minutes. */
  function Total(t: Time): int {
    t.hour * MinutesPerHour + t.minute
  }

  /** Java's `a / b` for a positive divisor: truncation toward zero, so the
      quotient has the sign of the dividend and its magnitude is the number
      of whole divisors in the dividend's magnitude. */
  function JavaDiv(a: int, b: int): (q: int)
    requires b > 0
    ensures a >= 0 ==> q >= 0 && q * b <= a < (q + 1) * b
    ensures a < 0 ==> q <= 0 && (-q) * b <= -a < (-q + 1) * b
  {
    if a >= 0 then
      WholeDivisors(a, b);
      a / b
    else
      WholeDivisors(-a, b);
      -((-a) / b)
  }

  /** For non-negative dividends Dafny's quotient counts the whole divisors. */
  lemma WholeDivisors(a: int, b: int)
    requires a >= 0 && b > 0
    ensures a / b >= 0 && (a / b) * b <= a < (a / b + 1) * b
  {
    var q, r := a / b, a % b;
    assert a == b * q + r && 0 <= r < b;
    assert (q + 1) * b == q * b + b;
  }

  /** Java's `a % b` for a positive divisor: the sign follows `a`. */
  function JavaRem(a: int, b: int): (r: int)
    requires b > 0
    ensures JavaDiv(a, b) * b + r == a
    ensures a >= 0 ==> 0 <= r < b
    ensures a < 0 ==> -b < r <= 0
  {
    if a >= 0 then a % b else -((-a) % b)
  }

  /** The constructor `Time(int h, int m)` AS WRITTEN: the hour is stored
      only when it lies in 0..23, but the minute guard tests the field
      `minute` (still 0) instead of `m`, so every non-negative `m` is
      stored, 75 included. */
  function NewTime(h: int, m: int): (t: Time)
    ensures 0 <= t.hour < HoursPerDay && 0 <= t.minute
    ensures 0 <= h < HoursPerDay ==> t.hour == h
    ensures !(0 <= h < HoursPerDay) ==> t.hour == 0
    ensures m >= 0 ==> t.minute == m
    ensures m < 0 ==> t.minute == 0
  {
    var minuteField := 0;
    Time(if 0 <= h < HoursPerDay then h else 0,
         if m >= 0 && minuteField < MinutesPerHour then m else 0)
  }

  /** The minute guard lets an out-of-range minute through. */
  lemma NewTimeAcceptsOversizedMinute()
    ensures NewTime(9, 75) == Time(9, 75)
    ensures !IsClockValue(NewTime(9, 75))
  {
  }

  /** The constructor as evidently intended: each field is stored only when
      it is in range, so every result is a clock value. */
  function NewClock(h: int, m: int): (t: Time)
    ensures IsClockValue(t)
    ensures 0 <= h < HoursPerDay ==> t.hour == h
    ensures 0 <= m < MinutesPerHour ==> t.minute == m
    ensures IsClockValue(Time(h, m)) <==> t == Time(h, m)
  {
    Time(if 0 <= h < HoursPerDay then h else 0,
         if 0 <= m < MinutesPerHour then m else 0)
  }

  /** The copy constructor `Time(Time t)`. */
  function CopyTime(t: Time): (r: Time)
    ensures Equals(r, t) && CompareTime(r, t) == 0
  {
    Time(t.hour, t.minute)
  }

  /** `addTime` AS WRITTEN: minutes carry into the hour, the hour is not
      reduced modulo 24. */
  function AddTime(t1: Time, t2: Time): (r: Time)
    ensures Total(r) == Total(t1) + Total(t2)
    ensures t1.minute >= 0 && t2.minute >= 0 ==> Normalised(r)
    ensures t1.hour >= 0 && t2.hour >= 0 && t1.minute >= 0 && t2.minute >= 0 ==> r.hour >= 0
  {
    var minutes := t1.minute + t2.minute;
    Time(t1.hour + t2.hour + JavaDiv(minutes, MinutesPerHour), JavaRem(minutes, MinutesPerHour))
  }

  /** Two clock values whose sum runs past midnight give hour 24. */
  lemma AddTimePassesMidnight()
    ensures IsClockValue(Time(23, 30)) && IsClockValue(Time(1, 0))
    ensures AddTime(Time(23, 30), Time(1, 0)) == Time(24, 30)
    ensures !IsClockValue(AddTime(Time(23, 30), Time(1, 0)))
  {
  }

  /** Addition of clock values as evidently intended: wraps at midnight. */
  function AddClock(t1: Time, t2: Time): (r: Time)
    requires IsClockValue(t1) && IsClockValue(t2)
    ensures IsClockValue(r)
    ensures Total(r) == (Total(t1) + Total(t2)) % (HoursPerDay * MinutesPerHour)
  {
    var sum := AddTime(t1, t2);
    WrapsAtMidnight(sum.hour, sum.minute);
    Time(JavaRem(sum.hour, HoursPerDay), sum.minute)
  }

  /** Reducing the hour modulo 24 reduces the length modulo a day. */
  lemma WrapsAtMidnight(h: int, m: int)
    requires h >= 0 && 0 <= m < MinutesPerHour
    ensures (h * MinutesPerHour + m) % (HoursPerDay * MinutesPerHour)
            == (h % HoursPerDay) * MinutesPerHour + m
  {
    var q, rh := h / HoursPerDay, h % HoursPerDay;
    assert h * MinutesPerHour + m == (HoursPerDay * MinutesPerHour) * q + (rh * MinutesPerHour + m);
    RemainderUnique(h * MinutesPerHour + m, HoursPerDay * MinutesPerHour, q, rh * MinutesPerHour + m);
  }

  /** Euclidean division has one remainder. */
  lemma RemainderUnique(a: int, d: int, q: int, r: int)
    requires d > 0 && a == d * q + r && 0 <= r < d
    ensures a % d == r
  {
    var q' := a / d;
    assert a == d * q' + a % d;
    if q > q' {
      MultipleAtLeast(d, q, q');
    } else if q < q' {
      MultipleAtLeast(d, q', q);
    }
  }

  /** A larger multiple of a positive number is larger by at least it. */
  lemma {:induction false} MultipleAtLeast(d: int, x: int, y: int)
    requires d > 0 && x > y
    ensures d * x >= d * y + d
    decreases x - y
  {
    if x > y + 1 {
      MultipleAtLeast(d, x - 1, y);
      assert d * x == d * (x - 1) + d;
    } else {
      assert d * x == d * (y + 1);
    }
  }

  /** `substractTime` AS WRITTEN: when no borrow is needed, only the minute
      is set and the hour of the fresh `Time(0,0)` stays 0. */
  function SubstractTime(t1: Time, t2: Time): (r: Time)
    ensures Normalised(t1) && Normalised(t2) ==> Normalised(r)
    ensures t1.minute < t2.minute ==> Total(r) == Total(t1) - Total(t2)
    ensures t1.minute >= t2.minute ==> r.hour == 0 && r.minute == t1.minute - t2.minute
  {
    if t1.minute >= t2.minute then
      Time(0, t1.minute - t2.minute)
    else
      Time(t1.hour - 1 - t2.hour, t1.minute + MinutesPerHour - t2.minute)
  }

  /** 10:30 - 09:00 comes out as 00:30 instead of 01:30. */
  lemma SubstractTimeDropsHours()
    ensures SubstractTime(Time(10, 30), Time(9, 0)) == Time(0, 30)
    ensures Total(SubstractTime(Time(10, 30), Time(9, 0))) != Total(Time(10, 30)) - Total(Time(9, 0))
  {
  }

  /** Subtraction as evidently intended: the hour is set in both branches,
      so the result always measures the difference. */
  function SubtractTime(t1: Time, t2: Time): (r: Time)
    ensures Total(r) == Total(t1) - Total(t2)
    ensures Normalised(t1) && Normalised(t2) ==> Normalised(r)
  {
    if t1.minute >= t2.minute then
      Time(t1.hour - t2.hour, t1.minute - t2.minute)
    else
      Time(t1.hour - 1 - t2.hour, t1.minute + MinutesPerHour - t2.minute)
  }

  /** Lexicographic order on (hour, minute). */
  predicate Earlier(a: Time, b: Time) {
    a.hour < b.hour || (a.hour == b.hour && a.minute < b.minute)
  }

  /** `equals`: same hour and same minute. */
  function Equals(a: Time, b: Time): (r: bool)
    ensures r <==> a == b
  {
    a.hour == b.hour && a.minute == b.minute
  }

  /** `compareTime`: -1, 0 or 1 as `a` is earlier than, equal to or later
      than `b`. */
  function CompareTime(a: Time, b: Time): (r: int)
    ensures r == -1 || r == 0 || r == 1
    ensures r == -1 <==> Earlier(a, b)
    ensures r == 1 <==> Earlier(b, a)
    ensures r == 0 <==> Equals(a, b)
  {
    if a.hour < b.hour then -1
    else if a.hour > b.hour then 1
    else if a.minute < b.minute then -1
    else if a.minute > b.minute then 1
    else 0
  }

  lemma CompareAntisymmetric(a: Time, b: Time)
    ensures CompareTime(a, b) == -CompareTime(b, a)
  {
  }

  lemma CompareTransitive(a: Time, b: Time, c: Time)
    ensures CompareTime(a, b) <= 0 && CompareTime(b, c) <= 0 ==> CompareTime(a, c) <= 0
    ensures CompareTime(a, b) <= 0 && CompareTime(b, c) < 0 ==> CompareTime(a, c) < 0
    ensures CompareTime(a, b) < 0 && CompareTime(b, c) <= 0 ==> CompareTime(a, c) < 0
  {
  }

  /** On values with a normalised minute the lexicographic comparison is the
      comparison of lengths in minutes. */
  lemma CompareAgreesWithTotal(a: Time, b: Time)
    requires Normalised(a) && Normalised(b)
    ensures CompareTime(a, b) < 0 <==> Total(a) < Total(b)
    ensures CompareTime(a, b) == 0 <==> Total(a) == Total(b)
  {
    if a.hour < b.hour {
      assert Total(a) <= a.hour * MinutesPerHour + 59;
      assert (a.hour + 1) * MinutesPerHour <= b.hour * MinutesPerHour;
    } else if a.hour > b.hour {
      assert (b.hour + 1) * MinutesPerHour <= a.hour * MinutesPerHour;
    }
  }
}
