/** Day numbers to dates and timestamps to text (`src/intercept.rs`). */
module Calendar {

  type Date = (int, int, int)

  // ── The code ─────────────────────────────────────────────────────────────

  /** Division truncating toward zero. */
  function TruncDiv(a: int, b: int): int
    requires b > 0
  {
    if a >= 0 then a / b else -((-a) / b)
  }

  function Era(z: int): int {
    TruncDiv(if z >= 0 then z else z - 146096, 146097)
  }

  function YearOfEra(doe: int): int {
    (doe - doe / 1460 + doe / 36524 - doe / 146096) / 365
  }

  function DayOfYear(doe: int): int {
    var yoe := YearOfEra(doe);
    doe - (365 * yoe + yoe / 4 - yoe / 100)
  }

  function MonthIndex(doy: int): int {
    (5 * doy + 2) / 153
  }

  /** Days since 1970-01-01 to (year, month, day). */
  function DaysToYmd(days: int): Date {
    var z := days + 719468;
    var era := Era(z);
    var doe := z - era * 146097;
    var y := YearOfEra(doe) + era * 400;
    var doy := DayOfYear(doe);
    var mp := MonthIndex(doy);
    var d := doy - (153 * mp + 2) / 5 + 1;
    var m := if mp < 10 then mp + 3 else mp - 9;
    (if m <= 2 then y + 1 else y, m, d)
  }

  // ── The calendar ─────────────────────────────────────────────────────────

  predicate Leap(y: int) {
    y % 4 == 0 && (y % 100 != 0 || y % 400 == 0)
  }

  function MonthLength(y: int, m: int): int {
    if m == 2 then (if Leap(y) then 29 else 28)
    else if m == 4 || m == 6 || m == 9 || m == 11 then 30
    else 31
  }

  function NextDay(date: Date): Date {
    var (y, m, d) := date;
    if d < MonthLength(y, m) then (y, m, d + 1)
    else if m < 12 then (y, m + 1, 1)
    else (y + 1, 1, 1)
  }

  predicate IsDate(date: Date) {
    1 <= date.1 <= 12 && 1 <= date.2 <= MonthLength(date.0, date.1)
  }

  // ── Years of an era, starting in March ───────────────────────────────────

  /** Days before year `y` of a 400-year era. */
  function YearStart(y: nat): int {
    365 * y + y / 4 - y / 100
  }

  function YearLength(y: nat): int {
    if Leap(y + 1) then 366 else 365
  }

  lemma {:induction false} YearStartStep(y: nat)
    requires y < 400
    ensures YearStart(y) + YearLength(y) == if y == 399 then 146097 else YearStart(y + 1)
  {
  }

  lemma {:induction false} DivIs(x: int, n: int, q: int)
    requires n > 0 && n * q <= x < n * q + n
    ensures x / n == q
  {
    var d := x / n - q;
    assert n * d == n * (x / n) - n * q;
    assert -n < n * d < n;
    Multiple(n, d);
  }

  lemma {:induction false} Multiple(n: int, d: int)
    requires n > 0
    ensures d >= 1 ==> n * d >= n
    ensures d <= -1 ==> n * d <= -n
  {
  }

  // Year `y` of the era, counted in four-year cycles and in centuries.
  lemma {:induction false} YearPosition(y: nat) returns (a: int, b: int, c: int, k: int)
    requires y < 400
    ensures y == 4 * a + b == 100 * c + k && 0 <= b < 4 && 0 <= k < 100 && 0 <= c < 4
    ensures 0 <= a - 25 * c <= 24 && k == 4 * (a - 25 * c) + b
    ensures YearStart(y) == 1460 * a + 365 * b + a - c == 36524 * c + 365 * k + (a - 25 * c)
    ensures YearLength(y) == 366 <==> b == 3 && (k != 99 || y == 399)
  {
    a, b, c, k := y / 4, y % 4, y / 100, y % 100;
    if y < 100 {
      assert c == 0;
    } else if y < 200 {
      assert c == 1;
    } else if y < 300 {
      assert c == 2;
    } else {
      assert c == 3;
    }
  }

  // The three quotients of the closed form on day `t` of that year.
  lemma {:induction false} YearQuotients(doe: int, a: int, b: int, c: int, k: int, t: int)
    requires 0 <= b < 4 && 0 <= k < 100 && 0 <= c < 4 && 0 <= a - 25 * c <= 24 && k == 4 * (a - 25 * c) + b
    requires doe == 1460 * a + 365 * b + a - c + t && 0 <= t <= 365
    requires t == 365 ==> b == 3 && (k != 99 || c == 3)
    ensures doe / 1460 == if 365 * b + a - c + t >= 1460 then a + 1 else a
    ensures doe / 36524 == if doe == 146096 then 4 else c
    ensures doe / 146096 == if doe == 146096 then 1 else 0
  {
    if 365 * b + a - c + t >= 1460 {
      DivIs(doe, 1460, a + 1);
    } else {
      DivIs(doe, 1460, a);
    }
    if doe != 146096 {
      DivIs(doe, 36524, c);
      DivIs(doe, 146096, 0);
    }
  }

  /** The closed form for the year of the era, from the year it should find and the day of that year. */
  lemma {:induction false} YearFormula(y: nat, t: nat)
    requires y < 400 && t < YearLength(y)
    ensures YearOfEra(YearStart(y) + t) == y
  {
    hide YearStart, YearLength, Leap;
    var a, b, c, k := YearPosition(y);
    LengthBound(y);
    var doe := YearStart(y) + t;
    YearQuotients(doe, a, b, c, k, t);
    var q1, q2, q3 := doe / 1460, doe / 36524, doe / 146096;
    DivIs(doe - q1 + q2 - q3, 365, y);
  }

  // ── Months of a year starting in March ───────────────────────────────────

  /** Day of the year on which month `mp` (0 = March) starts. */
  function MonthStart(mp: nat): int {
    (153 * mp + 2) / 5
  }

  /** The month formula finds the month whose days contain day `t`. */
  lemma {:induction false} MonthFormula(t: nat, mp: nat)
    requires mp < 12 && MonthStart(mp) <= t < MonthStart(mp + 1)
    ensures MonthIndex(t) == mp
  {
    DivIs(5 * t + 2, 153, mp);
  }

  function Month(mp: nat): int {
    if mp < 10 then mp + 3 else mp - 9
  }

  // The date of day `t` of March-year `y` of era `e`, when `t` falls in month `mp`.
  function DateOf(e: int, y: nat, t: nat, mp: nat): Date {
    var m, year := Month(mp), 400 * e + y;
    (if m <= 2 then year + 1 else year, m, t - MonthStart(mp) + 1)
  }

  lemma {:induction false} MonthLengths(e: int, y: nat, mp: nat)
    requires y < 400 && mp < 12
    ensures var date := DateOf(e, y, MonthStart(mp), mp);
            MonthLength(date.0, date.1) ==
            if mp == 11 then YearLength(y) - 337 else MonthStart(mp + 1) - MonthStart(mp)
  {
    LeapShift(e, y + 1);
  }

  lemma {:induction false} LeapShift(e: int, y: int)
    ensures Leap(400 * e + y) == Leap(y)
  {
    ModShift(y, 4, 100 * e);
    ModShift(y, 100, 4 * e);
    ModShift(y, 400, e);
  }

  lemma {:induction false} ModShift(x: int, n: int, q: int)
    requires n > 0
    ensures (n * q + x) % n == x % n
  {
    var r := x % n;
    assert n * q + x == n * (q + x / n) + r;
    DivIs(n * q + x, n, q + x / n);
  }

  lemma {:induction false} FindMonth(t: nat) returns (mp: nat)
    requires t < 366
    ensures mp < 12 && MonthStart(mp) <= t < MonthStart(mp + 1)
  {
    mp := 0;
    while t >= MonthStart(mp + 1)
      invariant mp < 12 && MonthStart(mp) <= t
      decreases 12 - mp
    {
      mp := mp + 1;
    }
  }

  // ── From positions to dates ──────────────────────────────────────────────

  /** A day number as era, year of the era, day of that year, and the month that day falls in. */
  ghost predicate At(days: int, e: int, y: nat, t: nat, mp: nat) {
    && y < 400 && t < YearLength(y)
    && days + 719468 == 146097 * e + YearStart(y) + t
    && mp < 12 && MonthStart(mp) <= t < MonthStart(mp + 1)
  }

  lemma {:induction false} EraFormula(z: int, e: int, doe: nat)
    requires z == 146097 * e + doe && doe < 146097
    ensures Era(z) == e
  {
    if z >= 0 {
      DivIs(z, 146097, e);
    } else {
      DivIs(146096 - z, 146097, -e);
    }
  }

  lemma {:induction false} YearStartBound(y: nat)
    requires y < 400
    ensures 0 <= YearStart(y) && YearStart(y) + YearLength(y) <= 146097
  {
    var a, b, c, k := YearPosition(y);
  }

  /** The code computes the date of the position. */
  lemma {:induction false} DateAt(days: int, e: int, y: nat, t: nat, mp: nat)
    requires At(days, e, y, t, mp)
    ensures DaysToYmd(days) == DateOf(e, y, t, mp)
    ensures DayOfYear(YearStart(y) + t) == t
  {
    hide YearStart, YearLength, Era, YearOfEra, MonthIndex;
    YearStartBound(y);
    EraFormula(days + 719468, e, YearStart(y) + t);
    YearFormula(y, t);
    YearStartIs(y);
    MonthFormula(t, mp);
  }

  /** Every value the code keeps in an unsigned 32-bit variable, and every difference on the way, is in range. */
  lemma {:induction false} UnsignedIntermediates(days: int)
    ensures var doe := days + 719468 - 146097 * Era(days + 719468);
            && 0 <= doe < 146097
            && 0 <= doe - doe / 1460 <= doe - doe / 1460 + doe / 36524 < 0x1_0000_0000
            && 0 <= doe - doe / 1460 + doe / 36524 - doe / 146096
            && 0 <= YearOfEra(doe) < 400
            && 0 <= 365 * YearOfEra(doe) + YearOfEra(doe) / 4 - YearOfEra(doe) / 100 <= doe
            && 0 <= DayOfYear(doe) < 366
            && 0 <= MonthIndex(DayOfYear(doe)) < 12
            && (153 * MonthIndex(DayOfYear(doe)) + 2) / 5 <= DayOfYear(doe)
  {
    hide YearStart, YearLength, Era, YearOfEra, MonthIndex;
    var e, y, t, mp := FindPosition(days);
    DateAt(days, e, y, t, mp);
    YearStartBound(y);
    YearStartIs(y);
    LengthBound(y);
    EraFormula(days + 719468, e, YearStart(y) + t);
    YearFormula(y, t);
    MonthFormula(t, mp);
  }

  lemma {:induction false} YearStartIs(y: nat)
    ensures YearStart(y) == 365 * y + y / 4 - y / 100
  {
  }

  lemma {:induction false} FindPosition(days: int) returns (e: int, y: nat, t: nat, mp: nat)
    ensures At(days, e, y, t, mp)
  {
    hide YearStart, YearLength;
    e := (days + 719468) / 146097;
    var doe: nat := (days + 719468) % 146097;
    y := 0;
    assert YearStart(0) == 0 by {
      YearStartIs(0);
    }
    YearStartBound(0);
    while doe >= YearStart(y) + YearLength(y)
      invariant y < 400 && YearStart(y) <= doe
      decreases 400 - y
    {
      YearStartStep(y);
      y := y + 1;
    }
    t := doe - YearStart(y);
    LengthBound(y);
    mp := FindMonth(t);
  }

  lemma {:induction false} LengthBound(y: nat)
    ensures 365 <= YearLength(y) <= 366
  {
  }

  /** The next day's position: the next day of the year, or the first of the next year, or of the next era. */
  lemma {:induction false} NextPosition(days: int, e: int, y: nat, t: nat, mp: nat)
    requires At(days, e, y, t, mp)
    ensures if t + 1 < YearLength(y) then
              At(days + 1, e, y, t + 1, if t + 1 < MonthStart(mp + 1) then mp else mp + 1)
            else if y < 399 then At(days + 1, e, y + 1, 0, 0)
            else At(days + 1, e + 1, 0, 0, 0)
  {
    hide YearStart, YearLength;
    YearStartStep(y);
    LengthBound(y);
    LengthBound(y + 1);
    LengthBound(0);
    YearStartIs(0);
  }

  /** Day 0 is 1970-01-01. */
  lemma {:induction false} Epoch()
    ensures DaysToYmd(0) == (1970, 1, 1)
  {
    DateAt(0, 4, 369, 306, 10);
  }

  // The date of a position and the date of the next position.
  lemma {:induction false} SuccessorOnPositions(e: int, y: nat, t: nat, mp: nat)
    requires y < 400 && t < YearLength(y) && mp < 12 && MonthStart(mp) <= t < MonthStart(mp + 1)
    ensures IsDate(DateOf(e, y, t, mp))
    ensures NextDay(DateOf(e, y, t, mp))
         == if t + 1 == YearLength(y) then DateOf(e, y + 1, 0, 0)
            else DateOf(e, y, t + 1, if t + 1 < MonthStart(mp + 1) then mp else mp + 1)
  {
    hide YearLength, Leap, MonthLength;
    MonthLengths(e, y, mp);
    LengthBound(y);
  }

  /** The date of every day number, past or future, is a date of the calendar and the next day's is its successor. */
  lemma {:induction false} CalendarSuccessor(days: int)
    ensures IsDate(DaysToYmd(days))
    ensures DaysToYmd(days + 1) == NextDay(DaysToYmd(days))
  {
    hide YearStart, YearLength, DaysToYmd, NextDay, IsDate, MonthStart;
    var e, y, t, mp := FindPosition(days);
    DateAt(days, e, y, t, mp);
    NextPosition(days, e, y, t, mp);
    SuccessorOnPositions(e, y, t, mp);
    if t + 1 < YearLength(y) {
      DateAt(days + 1, e, y, t + 1, if t + 1 < MonthStart(mp + 1) then mp else mp + 1);
    } else if y < 399 {
      DateAt(days + 1, e, y + 1, 0, 0);
    } else {
      DateAt(days + 1, e + 1, 0, 0, 0);
    }
  }

  predicate Before(a: Date, b: Date) {
    a.0 < b.0 || (a.0 == b.0 && (a.1 < b.1 || (a.1 == b.1 && a.2 < b.2)))
  }

  /** Later days have later dates. */
  lemma {:induction false} DatesIncrease(a: int, b: int)
    requires a < b
    ensures Before(DaysToYmd(a), DaysToYmd(b))
    decreases b - a
  {
    hide DaysToYmd;
    CalendarSuccessor(b - 1);
    if a < b - 1 {
      DatesIncrease(a, b - 1);
    }
  }

  // ── Text ─────────────────────────────────────────────────────────────────

  function Digit(n: nat): char
    requires n < 10
  {
    '0' + n as char
  }

  /** Decimal digits padded with zeros to at least `width` characters. */
  function Padded(n: nat, width: nat): (s: string)
    ensures s != []
    decreases n, width
  {
    if n < 10 && width <= 1 then [Digit(n)]
    else Padded(n / 10, if width > 0 then width - 1 else 0) + [Digit(n % 10)]
  }

  function Pow10(w: nat): (p: nat)
    ensures p > 0
  {
    if w == 0 then 1 else 10 * Pow10(w - 1)
  }

  lemma {:induction false} DateFields(days: nat)
    ensures DaysToYmd(days).0 >= 1970 && 1 <= DaysToYmd(days).1 <= 12 && 1 <= DaysToYmd(days).2 <= 31
  {
    hide DaysToYmd;
    Epoch();
    CalendarSuccessor(days);
    if days > 0 {
      DatesIncrease(0, days);
    }
  }

  /** The time stamp as `YYYY-MM-DDTHH:MM:SS.uuuuuu`. */
  function FormatTimestamp(us: nat): string {
    var secs := us / 1_000_000;
    DateFields(secs / 86_400);
    var (y, m, d) := DaysToYmd(secs / 86_400);
    var time := secs % 86_400;
    Padded(y, 4) + ("-" + (Padded(m, 2) + ("-" + (Padded(d, 2) + ("T" + (Padded(time / 3600, 2) + (":" +
    (Padded(time % 3600 / 60, 2) + (":" + (Padded(time % 60, 2) + ("." + Padded(us % 1_000_000, 6))))))))))))
  }

  /** Lexicographic order of strings. */
  predicate LexLess(a: string, b: string) {
    b != [] && (a == [] || a[0] < b[0] || (a[0] == b[0] && LexLess(a[1..], b[1..])))
  }

  lemma {:induction false} LexPrefix(p: string, q: string, a: string, b: string)
    requires |p| == |q| && (LexLess(p, q) || (p == q && LexLess(a, b)))
    ensures LexLess(p + a, q + b)
  {
    if p == [] {
      assert p + a == a && q + b == b;
    } else {
      assert (p + a)[1..] == p[1..] + a && (q + b)[1..] == q[1..] + b;
      if p[0] == q[0] {
        LexPrefix(p[1..], q[1..], a, b);
      }
    }
  }

  lemma {:induction false} PaddedLength(n: nat, width: nat)
    requires width >= 1 && n < Pow10(width)
    ensures |Padded(n, width)| == width
    decreases width
  {
    if width > 1 {
      PaddedLength(n / 10, width - 1);
    }
  }

  /** Among numbers printed with the same number of digits, text order is numeric order. */
  lemma {:induction false} PaddedOrder(n: nat, m: nat, width: nat)
    requires n < m && |Padded(n, width)| == |Padded(m, width)|
    ensures LexLess(Padded(n, width), Padded(m, width))
    decreases m, width
  {
    var w := if width > 0 then width - 1 else 0;
    if m < 10 && width <= 1 {
      LexPrefix([], [], [Digit(n)], [Digit(m)]);
    } else {
      if n / 10 < m / 10 {
        PaddedOrder(n / 10, m / 10, w);
      } else {
        assert [Digit(n % 10)][0] < [Digit(m % 10)][0];
      }
      LexPrefix(Padded(n / 10, w), Padded(m / 10, w), [Digit(n % 10)], [Digit(m % 10)]);
    }
  }

  // One field of the time stamp: a smaller number comes first, an equal one leaves it to the rest.
  lemma {:induction false} FieldOrder(n: nat, m: nat, width: nat, mark: string, a: string, b: string)
    requires |Padded(n, width)| == |Padded(m, width)|
    requires n < m || (n == m && LexLess(a, b))
    ensures LexLess(Padded(n, width) + (mark + a), Padded(m, width) + (mark + b))
  {
    hide Padded, LexLess;
    if n < m {
      PaddedOrder(n, m, width);
    } else {
      LexPrefix(mark, mark, a, b);
    }
    LexPrefix(Padded(n, width), Padded(m, width), mark + a, mark + b);
  }

  // The text from each field on.
  function TimeText(time: nat, micros: nat): string {
    Padded(time / 3600, 2) + (":" + (Padded(time % 3600 / 60, 2) + (":" + (Padded(time % 60, 2) + ("." + Padded(micros, 6))))))
  }

  lemma {:induction false} TwoDigits(n: nat)
    requires n < 100
    ensures |Padded(n, 2)| == 2
  {
    assert Pow10(2) == 100;
    PaddedLength(n, 2);
  }

  lemma {:induction false} TimeOrder(time: nat, micros: nat, time': nat, micros': nat)
    requires time < 86_400 && time' < 86_400 && micros < 1_000_000 && micros' < 1_000_000
    requires time < time' || (time == time' && micros < micros')
    ensures LexLess(TimeText(time, micros), TimeText(time', micros'))
  {
    hide Padded, LexLess;
    var h, m, s := time / 3600, time % 3600 / 60, time % 60;
    var h', m', s' := time' / 3600, time' % 3600 / 60, time' % 60;
    assert time == 3600 * h + 60 * m + s && time' == 3600 * h' + 60 * m' + s' by {
      SplitTime(time);
      SplitTime(time');
    }
    TwoDigits(h);
    TwoDigits(h');
    TwoDigits(m);
    TwoDigits(m');
    TwoDigits(s);
    TwoDigits(s');
    var t6, t6' := Padded(micros, 6), Padded(micros', 6);
    var t5, t5' := Padded(s, 2) + ("." + t6), Padded(s', 2) + ("." + t6');
    var t4, t4' := Padded(m, 2) + (":" + t5), Padded(m', 2) + (":" + t5');
    if h == h' {
      if m == m' {
        if s == s' {
          assert Pow10(6) == 1_000_000;
          PaddedLength(micros, 6);
          PaddedLength(micros', 6);
          PaddedOrder(micros, micros', 6);
        }
        FieldOrder(s, s', 2, ".", t6, t6');
      }
      FieldOrder(m, m', 2, ":", t5, t5');
    }
    FieldOrder(h, h', 2, ":", t4, t4');
  }

  lemma {:induction false} SplitTime(time: nat)
    ensures time == 3600 * (time / 3600) + 60 * (time % 3600 / 60) + time % 60
  {
    var r := time % 3600;
    ModShift(r, 60, 60 * (time / 3600));
  }

  /** The calendar year a time stamp falls in. */
  function YearOf(us: nat): (y: nat)
    ensures y >= 1970
  {
    DateFields(us / 1_000_000 / 86_400);
    DaysToYmd(us / 1_000_000 / 86_400).0
  }

  /** How many digits that year is printed with. */
  function YearDigits(us: nat): nat {
    |Padded(YearOf(us), 4)|
  }

  lemma {:induction false} YearsIncrease(a: nat, b: nat)
    requires a <= b
    ensures YearOf(a) <= YearOf(b) && YearDigits(a) <= YearDigits(b)
  {
    hide DaysToYmd, Padded;
    var days, days' := a / 1_000_000 / 86_400, b / 1_000_000 / 86_400;
    if days < days' {
      DatesIncrease(days, days');
    }
    PaddedGrows(YearOf(a), YearOf(b), 4);
  }

  lemma {:induction false} PaddedGrows(n: nat, m: nat, width: nat)
    requires n <= m
    ensures |Padded(n, width)| <= |Padded(m, width)|
    decreases m, width
  {
    if m >= 10 || width > 1 {
      PaddedGrows(n / 10, m / 10, if width > 0 then width - 1 else 0);
    }
  }

  // Text order for two years printed with the same number of digits.
  lemma {:induction false} SameDigitsOrder(a: nat, b: nat)
    requires a < b && YearDigits(a) == YearDigits(b)
    ensures LexLess(FormatTimestamp(a), FormatTimestamp(b))
  {
    hide Padded, LexLess, DaysToYmd, TimeText;
    var secs, secs' := a / 1_000_000, b / 1_000_000;
    var days, days' := secs / 86_400, secs' / 86_400;
    DateFields(days);
    DateFields(days');
    var (y, m, d) := DaysToYmd(days);
    var (y', m', d') := DaysToYmd(days');
    var t, t' := TimeText(secs % 86_400, a % 1_000_000), TimeText(secs' % 86_400, b % 1_000_000);
    TwoDigits(m);
    TwoDigits(m');
    TwoDigits(d);
    TwoDigits(d');
    if days == days' {
      TimeOrder(secs % 86_400, a % 1_000_000, secs' % 86_400, b % 1_000_000);
    } else {
      DatesIncrease(days, days');
    }
    var u, u' := Padded(d, 2) + ("T" + t), Padded(d', 2) + ("T" + t');
    var v, v' := Padded(m, 2) + ("-" + u), Padded(m', 2) + ("-" + u');
    if y == y' {
      if m == m' {
        FieldOrder(d, d', 2, "T", t, t');
      }
      FieldOrder(m, m', 2, "-", u, u');
    }
    FieldOrder(y, y', 4, "-", v, v');
    TextOf(a);
    TextOf(b);
  }

  // Numbers with more digits: the front of the text is the text of the number without its last digits.

  lemma {:induction false} WidthReached(n: nat, width: nat)
    requires |Padded(n, width)| > width
    ensures Padded(n, width + 1) == Padded(n, width)
    decreases n, width
  {
    if n >= 10 || width > 1 {
      if width > 0 {
        WidthReached(n / 10, width - 1);
      } else if n / 10 >= 1 {
        assert |Padded(n / 10, 0)| > 0;
      }
    }
  }

  lemma {:induction false} DivideTwice(n: nat, p: nat)
    requires p > 0
    ensures n / 10 / p == n / (10 * p)
  {
    var q := n / 10 / p;
    assert q * p <= n / 10 < q * p + p;
    assert 10 * (q * p) == q * (10 * p) && 10 * (q * p + p) == q * (10 * p) + 10 * p;
    DivIs(n, 10 * p, q);
  }

  /** A number without its last k digits. */
  function Without(n: nat, k: nat): (m: nat)
    ensures m == n / Pow10(k)
  {
    if k == 0 then n
    else
      DivideTwice(n, Pow10(k - 1));
      Without(n / 10, k - 1)
  }

  lemma {:induction false} PaddedStep(n: nat, width: nat)
    requires width >= 1 && |Padded(n, width)| >= width + 1
    ensures Padded(n, width) == Padded(n / 10, width) + [Digit(n % 10)]
  {
    WidthReached(n / 10, width - 1);
  }

  lemma {:induction false} PaddedFront(n: nat, width: nat, k: nat)
    requires width >= 1 && |Padded(n, width)| >= width + k
    ensures Padded(n, width)[..|Padded(n, width)| - k] == Padded(Without(n, k), width)
    decreases k
  {
    hide Padded;
    if k > 0 {
      PaddedStep(n, width);
      PaddedFront(n / 10, width, k - 1);
    }
  }

  lemma {:induction false} PaddedDigits(n: nat, width: nat)
    ensures forall i :: 0 <= i < |Padded(n, width)| ==> Padded(n, width)[i] >= '0'
    decreases n, width
  {
    if n >= 10 || width > 1 {
      PaddedDigits(n / 10, if width > 0 then width - 1 else 0);
    }
  }

  lemma {:induction false} LexOneWay(a: string, b: string)
    requires LexLess(a, b)
    ensures !LexLess(b, a)
  {
    if a != [] && a[0] == b[0] {
      LexOneWay(a[1..], b[1..]);
    }
  }

  // Two texts that start with years of different length.
  lemma {:induction false} YearsOrder(y: nat, y': nat, k: nat, a: string, b: string)
    requires k > 0 && |Padded(y, 4)| + k == |Padded(y', 4)|
    ensures LexLess(Padded(y, 4) + ("-" + a), Padded(y', 4) + ("-" + b)) <==> y <= y' / Pow10(k)
  {
    hide Padded, LexLess, Pow10;
    var p, q := Padded(y, 4), Padded(y', 4);
    AtLeastWide(y, 4);
    PaddedFront(y', 4, k);
    var cut := Without(y', k);
    var front, back := q[..|p|], q[|p|..];
    assert q == front + back && front == Padded(cut, 4);
    assert q + ("-" + b) == front + (back + ("-" + b));
    PaddedDigits(y', 4);
    assert back[0] == q[|p|];
    if y < cut {
      PaddedOrder(y, cut, 4);
      LexPrefix(p, front, "-" + a, back + ("-" + b));
    } else if y == cut {
      HyphenFirst("-" + a, back + ("-" + b));
      LexPrefix(p, front, "-" + a, back + ("-" + b));
    } else {
      PaddedOrder(cut, y, 4);
      LexPrefix(front, p, back + ("-" + b), "-" + a);
      LexOneWay(q + ("-" + b), p + ("-" + a));
    }
  }

  lemma {:induction false} HyphenFirst(a: string, b: string)
    requires a != [] && b != [] && a[0] == '-' && b[0] >= '0'
    ensures LexLess(a, b)
  {
  }

  lemma {:induction false} AtLeastWide(n: nat, width: nat)
    ensures |Padded(n, width)| >= width
    decreases n, width
  {
    if n >= 10 || width > 1 {
      AtLeastWide(n / 10, if width > 0 then width - 1 else 0);
    }
  }

  /**
   Text order, exactly: of two time stamps the earlier sorts first if and only if its year is at most the later one's
   without the digits by which that is longer.
   */
  lemma {:induction false} TimestampOrder(a: nat, b: nat)
    requires a < b
    ensures YearDigits(a) <= YearDigits(b)
    ensures LexLess(FormatTimestamp(a), FormatTimestamp(b))
            <==> YearOf(a) <= YearOf(b) / Pow10(YearDigits(b) - YearDigits(a))
  {
    hide DaysToYmd, Padded, LexLess, FormatTimestamp, Pow10, TimeText, YearOf, YearDigits;
    YearsIncrease(a, b);
    if YearDigits(a) == YearDigits(b) {
      assert Without(YearOf(b), 0) == YearOf(b);
      SameDigitsOrder(a, b);
    } else {
      DigitsOf(a);
      DigitsOf(b);
      TextOf(a);
      TextOf(b);
      var rest, rest' := TextAfterYear(a), TextAfterYear(b);
      YearsOrder(YearOf(a), YearOf(b), YearDigits(b) - YearDigits(a), rest, rest');
    }
  }

  lemma {:induction false} DigitsOf(us: nat)
    ensures YearDigits(us) == |Padded(YearOf(us), 4)| && YearOf(us) == DaysToYmd(us / 1_000_000 / 86_400).0
  {
  }

  // The text behind the first hyphen.
  function TextAfterYear(us: nat): string {
    DateFields(us / 1_000_000 / 86_400);
    var (_, m, d) := DaysToYmd(us / 1_000_000 / 86_400);
    Padded(m, 2) + ("-" + (Padded(d, 2) + ("T" + TimeText(us / 1_000_000 % 86_400, us % 1_000_000))))
  }

  lemma {:induction false} TextOf(us: nat)
    ensures var (y, m, d) := DaysToYmd(us / 1_000_000 / 86_400);
            && y >= 0 && m >= 0 && d >= 0
            && FormatTimestamp(us)
               == Padded(y, 4) + ("-" + (Padded(m, 2) + ("-" + (Padded(d, 2) + ("T" +
                  TimeText(us / 1_000_000 % 86_400, us % 1_000_000))))))
  {
    hide Padded, DaysToYmd;
    DateFields(us / 1_000_000 / 86_400);
  }

  /** Through year 9999 text order is time order. */
  lemma {:induction false} TimestampOrderThrough9999(a: nat, b: nat)
    requires a < b && YearOf(b) <= 9999
    ensures LexLess(FormatTimestamp(a), FormatTimestamp(b))
  {
    hide Padded, LexLess, DaysToYmd, FormatTimestamp;
    YearsIncrease(a, b);
    assert Pow10(4) == 10_000;
    PaddedLength(YearOf(a), 4);
    PaddedLength(YearOf(b), 4);
    SameDigitsOrder(a, b);
  }

  /** Through year 9999 every text has the same length. */
  lemma {:induction false} TimestampLength(us: nat)
    requires YearOf(us) <= 9999
    ensures |FormatTimestamp(us)| == 26
  {
    hide Padded, DaysToYmd;
    var days, time := us / 1_000_000 / 86_400, us / 1_000_000 % 86_400;
    DateFields(days);
    TextOf(us);
    assert Pow10(4) == 10_000 && Pow10(6) == 1_000_000;
    PaddedLength(DaysToYmd(days).0, 4);
    TwoDigits(DaysToYmd(days).1);
    TwoDigits(DaysToYmd(days).2);
    TwoDigits(time / 3600);
    TwoDigits(time % 3600 / 60);
    TwoDigits(time % 60);
    PaddedLength(us % 1_000_000, 6);
  }

  lemma {:induction false} FirstDigit(n: nat)
    requires 1000 <= n < 100_000
    ensures Padded(n, 4)[0] == if n < 10_000 then Digit(n / 1000) else Digit(n / 10_000)
  {
    FirstStep(n, 4);
    FirstStep(n / 10, 3);
    FirstStep(n / 10 / 10, 2);
    if n >= 10_000 {
      FirstStep(n / 10 / 10 / 10, 1);
    }
  }

  lemma {:induction false} FirstStep(n: nat, width: nat)
    requires width >= 2 || (width == 1 && n >= 10)
    ensures Padded(n, width)[0] == Padded(n / 10, width - 1)[0]
  {
  }

  /** Beyond year 9999 the fifth digit breaks it: years 10000 to 19999 sort before years 2000 to 9999. */
  lemma {:induction false} TimestampOrderBreaks(a: nat, b: nat)
    requires 2000 <= YearOf(a) <= 9999 && 10_000 <= YearOf(b) <= 19_999
    ensures LexLess(FormatTimestamp(b), FormatTimestamp(a))
  {
    hide DaysToYmd, TimeText, Padded, FormatTimestamp;
    TextOf(a);
    TextOf(b);
    FirstDigit(YearOf(a));
    FirstDigit(YearOf(b));
  }

  /** The break is reached: 10000-01-01 is the day after 9999-12-31. */
  lemma {:induction false} Year10000()
    ensures YearOf(253_402_300_799_999_999) == 9999 && YearOf(253_402_300_800_000_000) == 10_000
  {
    hide DaysToYmd;
    DateAt(2_932_896, 24, 399, 305, 9);
    DateAt(2_932_897, 24, 399, 306, 10);
  }
}
