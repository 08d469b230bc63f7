/**
  Gregorian to Jalali dates in subscription remarks (internal/sub/remark_vars.go): the
  conversion walks month by month from 1402-10-11; the partner is the Jalali calendar one
  day at a time.
*/
module Jalali {

  /** Go's integer division and remainder truncate toward zero. */
  function Quo(a: int, b: int): int
    requires b > 0
  {
    if a >= 0 then a / b else -(-a / b)
  }

  function Rem(a: int, b: int): int
    requires b > 0
  {
    a - b * Quo(a, b)
  }

  // ---------------------------------------------------------------- Gregorian days

  datatype Date = Date(year: int, month: int, day: int)

  predicate GregorianLeap(y: int) {
    y % 4 == 0 && (y % 100 != 0 || y % 400 == 0)
  }

  function GregorianMonthDays(y: int, m: int): int {
    if m == 2 then (if GregorianLeap(y) then 29 else 28)
    else if m in {4, 6, 9, 11} then 30
    else 31
  }

  predicate ValidGregorian(d: Date) {
    d.year >= 1 && 1 <= d.month <= 12 && 1 <= d.day <= GregorianMonthDays(d.year, d.month)
  }

  function NextGregorian(d: Date): Date {
    if d.day < GregorianMonthDays(d.year, d.month) then Date(d.year, d.month, d.day + 1)
    else if d.month < 12 then Date(d.year, d.month + 1, 1)
    else Date(d.year + 1, 1, 1)
  }

  /** The Julian Day Number formula of the code. */
  function Jdn(gy: int, gm: int, gd: int): int {
    var a := Quo(14 - gm, 12);
    var y := gy + 4800 - a;
    var m := gm + 12 * a - 3;
    gd + Quo(153 * m + 2, 5) + 365 * y + Quo(y, 4) - Quo(y, 100) + Quo(y, 400) - 32045
  }

  /** Days before month `m` in a year that starts in March. */
  function MarchDays(m: int): int {
    Quo(153 * m + 2, 5)
  }

  function YearDays(y: int): int {
    365 * y + Quo(y, 4) - Quo(y, 100) + Quo(y, 400)
  }

  lemma MarchMonths()
    ensures MarchDays(0) == 0 && MarchDays(1) == 31 && MarchDays(2) == 61 && MarchDays(3) == 92
    ensures MarchDays(4) == 122 && MarchDays(5) == 153 && MarchDays(6) == 184 && MarchDays(7) == 214
    ensures MarchDays(8) == 245 && MarchDays(9) == 275 && MarchDays(10) == 306 && MarchDays(11) == 337
  {
  }

  /** Day `d` counted from March 1 of its March-based year. */
  function DayOfMarchYear(d: Date): int {
    d.day + MarchDays(if d.month <= 2 then d.month + 9 else d.month - 3)
  }

  lemma NextInMarchYear(d: Date)
    requires ValidGregorian(d)
    ensures DayOfMarchYear(NextGregorian(d)) ==
      if d.month == 2 && d.day == GregorianMonthDays(d.year, 2) then 1 else DayOfMarchYear(d) + 1
    ensures d.month == 2 && d.day == GregorianMonthDays(d.year, 2) ==>
      DayOfMarchYear(d) == if GregorianLeap(d.year) then 366 else 365
  {
    MarchMonths();
  }

  lemma JdnSplit(d: Date)
    requires ValidGregorian(d)
    ensures Jdn(d.year, d.month, d.day)
         == DayOfMarchYear(d) + YearDays(d.year + (if d.month <= 2 then 4799 else 4800)) - 32045
  {
  }

  lemma LeapDay(y: int)
    requires y >= 1
    ensures YearDays(y + 4800) - YearDays(y + 4799) == if GregorianLeap(y) then 366 else 365
  {
    Multiples(y, 4);
    Multiples(y, 100);
    Multiples(y, 400);
  }

  /** A quotient steps by one exactly at the multiples of its divisor. */
  lemma Multiples(y: int, n: int)
    requires y >= 1 && (n == 4 || n == 100 || n == 400)
    ensures Quo(y + 4800, n) - Quo(y + 4799, n) == if y % n == 0 then 1 else 0
  {
    if n == 4 {
      assert (y + 4800) / 4 == y / 4 + 1200 && (y + 4799) / 4 == (y - 1) / 4 + 1200;
    } else if n == 100 {
      assert (y + 4800) / 100 == y / 100 + 48 && (y + 4799) / 100 == (y - 1) / 100 + 48;
    } else {
      assert (y + 4800) / 400 == y / 400 + 12 && (y + 4799) / 400 == (y - 1) / 400 + 12;
    }
  }

  /** Consecutive Gregorian days have consecutive day numbers, over month ends and leap rules. */
  lemma JdnCountsDays(d: Date)
    requires ValidGregorian(d)
    ensures ValidGregorian(NextGregorian(d))
    ensures var n := NextGregorian(d);
      Jdn(n.year, n.month, n.day) == Jdn(d.year, d.month, d.day) + 1
  {
    var n := NextGregorian(d);
    JdnSplit(d);
    JdnSplit(n);
    NextInMarchYear(d);
    LeapDay(d.year);
  }

  // ---------------------------------------------------------------- the Jalali calendar

  predicate IsJalaliLeap(y: int) {
    Rem(y, 33) in {1, 5, 9, 13, 17, 22, 26, 30}
  }

  function MonthDays(y: int, m: int): (n: int)
    ensures 29 <= n <= 31
  {
    if m <= 6 then 31
    else if m <= 11 then 30
    else if IsJalaliLeap(y) then 30
    else 29
  }

  predicate ValidJalali(d: Date) {
    1 <= d.month <= 12 && 1 <= d.day <= MonthDays(d.year, d.month)
  }

  function Next(d: Date): (n: Date)
    requires ValidJalali(d)
    ensures ValidJalali(n)
  {
    if d.day < MonthDays(d.year, d.month) then Date(d.year, d.month, d.day + 1)
    else if d.month < 12 then Date(d.year, d.month + 1, 1)
    else Date(d.year + 1, 1, 1)
  }

  function Previous(d: Date): (p: Date)
    requires ValidJalali(d)
    ensures ValidJalali(p)
  {
    if d.day > 1 then Date(d.year, d.month, d.day - 1)
    else if d.month > 1 then Date(d.year, d.month - 1, MonthDays(d.year, d.month - 1))
    else Date(d.year - 1, 12, MonthDays(d.year - 1, 12))
  }

  lemma NextAndPrevious(d: Date)
    requires ValidJalali(d)
    ensures Next(Previous(d)) == d && Previous(Next(d)) == d
  {
  }

  /** `n` days after `d`, or before it when `n` is negative, one day at a time. */
  function Shift(d: Date, n: int): (r: Date)
    requires ValidJalali(d)
    ensures ValidJalali(r)
    decreases if n < 0 then -n else n
  {
    if n == 0 then d
    else if n > 0 then Shift(Next(d), n - 1)
    else Shift(Previous(d), n + 1)
  }

  lemma {:induction false} ShiftByOneMore(d: Date, n: int)
    requires ValidJalali(d)
    ensures Shift(d, n + 1) == Next(Shift(d, n))
    decreases if n < 0 then -n else n
  {
    if n > 0 {
      ShiftByOneMore(Next(d), n - 1);
    } else if n < -1 {
      ShiftByOneMore(Previous(d), n + 1);
    } else if n == -1 {
      NextAndPrevious(d);
    }
  }

  /** The days left in a month are walked in one stride. */
  lemma {:induction false} StrideForward(d: Date, n: int)
    requires ValidJalali(d) && 0 <= n <= MonthDays(d.year, d.month) - d.day
    ensures ValidJalali(d.(day := d.day + n))
    ensures forall k | k >= n :: Shift(d, k) == Shift(d.(day := d.day + n), k - n)
    decreases n
  {
    if n > 0 {
      StrideForward(Next(d), n - 1);
      forall k | k >= n ensures Shift(d, k) == Shift(d.(day := d.day + n), k - n) {
        assert Shift(d, k) == Shift(Next(d), k - 1);
      }
    }
  }

  lemma {:induction false} StrideBackward(d: Date, n: int)
    requires ValidJalali(d) && 0 <= n < d.day
    ensures forall k | k <= -n :: Shift(d, k) == Shift(d.(day := d.day - n), k + n)
    decreases n
  {
    if n > 0 {
      StrideBackward(Previous(d), n - 1);
      forall k | k <= -n ensures Shift(d, k) == Shift(d.(day := d.day - n), k + n) {
        assert Shift(d, k) == Shift(Previous(d), k + 1);
      }
    }
  }

  const REFERENCE := Date(1402, 10, 11)
  const REFERENCE_JDN := 2460311

  function ToJalali(g: Date): (j: Date)
    ensures ValidJalali(j)
  {
    Shift(REFERENCE, Jdn(g.year, g.month, g.day) - REFERENCE_JDN)
  }

  /** gregorianToJalali: the month walk moves exactly as many days as the day numbers differ. */
  method GregorianToJalali(gy: int, gm: int, gd: int) returns (jy: int, jm: int, jd: int)
    ensures Date(jy, jm, jd) == ToJalali(Date(gy, gm, gd))
  {
    var a := Quo(14 - gm, 12);
    var y := gy + 4800 - a;
    var m := gm + 12 * a - 3;
    var jdn := gd + Quo(153 * m + 2, 5) + 365 * y + Quo(y, 4) - Quo(y, 100) + Quo(y, 400) - 32045;
    var days := jdn - REFERENCE_JDN;
    if days >= 0 {
      jy, jm, jd := WalkForward(days);
    } else {
      jy, jm, jd := WalkBackward(days);
    }
  }

  method WalkForward(count: int) returns (jy: int, jm: int, jd: int)
    requires count >= 0
    ensures Date(jy, jm, jd) == Shift(REFERENCE, count)
  {
    var days := count;
    jy, jm, jd := 1402, 10, 11;
    while days > 0
      invariant days >= 0 && ValidJalali(Date(jy, jm, jd))
      invariant Shift(Date(jy, jm, jd), days) == Shift(REFERENCE, count)
      decreases days
    {
      var remaining := MonthDays(jy, jm) - jd + 1;
      if days < remaining {
        StrideForward(Date(jy, jm, jd), days);
        jd := jd + days;
        return;
      }
      StrideForward(Date(jy, jm, jd), remaining - 1);
      days := days - remaining;
      jm := jm + 1;
      if jm > 12 {
        jm := 1;
        jy := jy + 1;
      }
      jd := 1;
    }
  }

  method WalkBackward(count: int) returns (jy: int, jm: int, jd: int)
    requires count < 0
    ensures Date(jy, jm, jd) == Shift(REFERENCE, count)
  {
    jy, jm, jd := 1402, 10, 11;
    jd := jd + count;
    ghost var goal := Shift(REFERENCE, count);
    if jd < 1 {
      StrideBackward(REFERENCE, 10);
    } else {
      StrideBackward(REFERENCE, -count);
    }
    while jd < 1
      invariant 1 <= jm <= 12 && jd <= MonthDays(jy, jm)
      invariant jd >= 1 ==> Date(jy, jm, jd) == goal
      invariant jd < 1 ==> Shift(Date(jy, jm, 1), jd - 1) == goal
      decreases -jd
    {
      ghost var first, before := Date(jy, jm, 1), jd;
      jm := jm - 1;
      if jm < 1 {
        jm := 12;
        jy := jy - 1;
      }
      ghost var last := Date(jy, jm, MonthDays(jy, jm));
      assert Previous(first) == last;
      assert Shift(first, before - 1) == Shift(last, before);
      jd := jd + MonthDays(jy, jm);
      if jd < 1 {
        StrideBackward(last, MonthDays(jy, jm) - 1);
      } else {
        StrideBackward(last, -before);
      }
    }
  }

  /** Consecutive Gregorian days are consecutive Jalali days. */
  lemma ConsecutiveDays(g: Date)
    requires ValidGregorian(g)
    ensures ToJalali(NextGregorian(g)) == Next(ToJalali(g))
  {
    JdnCountsDays(g);
    ShiftByOneMore(REFERENCE, Jdn(g.year, g.month, g.day) - REFERENCE_JDN);
  }

  // ---------------------------------------------------------------- distinct days stay distinct

  predicate Before(a: Date, b: Date) {
    a.year < b.year || (a.year == b.year && (a.month < b.month || (a.month == b.month && a.day < b.day)))
  }

  lemma {:induction false} ShiftMovesForward(d: Date, n: int)
    requires ValidJalali(d) && n > 0
    ensures Before(d, Shift(d, n))
    decreases n
  {
    if n > 1 {
      ShiftMovesForward(Next(d), n - 1);
    }
  }

  lemma {:induction false} ShiftAdds(d: Date, m: int, n: int)
    requires ValidJalali(d) && n >= 0
    ensures Shift(d, m + n) == Shift(Shift(d, m), n)
    decreases n
  {
    if n > 0 {
      ShiftAdds(d, m, n - 1);
      ShiftByOneMore(d, m + n - 1);
      ShiftByOneMore(Shift(d, m), n - 1);
    }
  }

  /** The conversion keeps the order of days: a later day number is a later Jalali date. */
  lemma OrderIsKept(g: Date, h: Date)
    requires Jdn(g.year, g.month, g.day) < Jdn(h.year, h.month, h.day)
    ensures Before(ToJalali(g), ToJalali(h))
  {
    var m, n := Jdn(g.year, g.month, g.day) - REFERENCE_JDN, Jdn(h.year, h.month, h.day) - Jdn(g.year, g.month, g.day);
    ShiftAdds(REFERENCE, m, n);
    ShiftMovesForward(Shift(REFERENCE, m), n);
  }

  // ---------------------------------------------------------------- the calendar, pinned

  /** `n` days after what is `m` days after a date. */
  lemma ShiftVia(d: Date, m: int, e: Date, n: int, f: Date, total: int)
    requires ValidJalali(d) && ValidJalali(e) && n >= 0 && total == m + n
    requires Shift(d, m) == e && Shift(e, n) == f
    ensures Shift(d, total) == f
  {
    ShiftAdds(d, m, n);
  }

  /** Days in a year before a month: six months of 31 days, five of 30, and the rest. */
  function DaysBefore(m: int): int {
    if m <= 7 then 31 * (m - 1) else 186 + 30 * (m - 7)
  }

  /** Each month starts where the lengths before it say. */
  lemma MonthStarts(y: int)
    ensures forall m | 1 <= m <= 12 :: Shift(Date(y, 1, 1), DaysBefore(m)) == Date(y, m, 1)
    ensures Shift(Date(y, 1, 1), if IsJalaliLeap(y) then 366 else 365) == Date(y + 1, 1, 1)
  {
    var n := if IsJalaliLeap(y) then 366 else 365;
    forall m | 1 <= m <= 12 ensures Shift(Date(y, 1, 1), DaysBefore(m)) == Date(y, m, 1) {
      MonthStart(y, m, DaysBefore(m));
    }
    NextMonth(Date(y, 12, 1));
    ShiftVia(Date(y, 1, 1), DaysBefore(12), Date(y, 12, 1), n - DaysBefore(12), Date(y + 1, 1, 1), n);
  }

  /** From the first of a month its length leads to the first of the next. */
  lemma NextMonth(d: Date)
    requires ValidJalali(d) && d.day == 1
    ensures Shift(d, MonthDays(d.year, d.month)) == if d.month < 12 then Date(d.year, d.month + 1, 1)
      else Date(d.year + 1, 1, 1)
  {
    var n := MonthDays(d.year, d.month);
    StrideForward(d, n - 1);
    assert Shift(d, n) == Shift(d.(day := n), 1);
    assert Shift(d.(day := n), 1) == Shift(Next(d.(day := n)), 0);
  }

  lemma {:induction false} MonthStart(y: int, m: int, at: int)
    requires 1 <= m <= 12 && at == DaysBefore(m)
    ensures Shift(Date(y, 1, 1), at) == Date(y, m, 1)
    decreases m
  {
    if m > 1 {
      var before := DaysBefore(m - 1);
      MonthStart(y, m - 1, before);
      NextMonth(Date(y, m - 1, 1));
      ShiftVia(Date(y, 1, 1), before, Date(y, m - 1, 1), at - before, Date(y, m, 1), at);
    }
  }

  /** Leap years among the first `n` years: eight in thirty-three, spread evenly. */
  function LeapsAmong(n: nat): nat {
    (8 * n + 29) / 33
  }

  lemma DivisionIs(t: int, k: int)
    requires 33 * k <= t < 33 * k + 33
    ensures t / 33 == k && t % 33 == t - 33 * k
  {
  }

  lemma LeapStep(q: nat, r: nat)
    requires r < 33
    ensures (8 * (33 * q + r) + 29) / 33 == 8 * q + (8 * r + 29) / 33
    ensures (33 * q + r) % 33 == r
  {
    var k := (8 * r + 29) / 33;
    DivisionIs(8 * (33 * q + r) + 29, 8 * q + k);
    DivisionIs(33 * q + r, q);
  }

  /** A year is leap exactly when the count steps there. */
  lemma LeapCounts(y: nat)
    requires y >= 1
    ensures LeapsAmong(y) - LeapsAmong(y - 1) == if IsJalaliLeap(y) then 1 else 0
  {
    var q, r := (y - 1) / 33, (y - 1) % 33;
    LeapStep(q, r);
    if r < 32 {
      LeapStep(q, r + 1);
    } else {
      LeapStep(q + 1, 0);
    }
    StepInCycle(r);
  }

  lemma StepInCycle(r: nat)
    requires r < 33
    ensures (8 * (r + 1) + 29) / 33 - (8 * r + 29) / 33 == if r + 1 in {1, 5, 9, 13, 17, 22, 26, 30} then 1 else 0
  {
  }

  /** Each year starts as many days after the first as its number and the even spread of leap years say. */
  lemma {:induction false} YearStarts(y: nat)
    requires y >= 1
    ensures Shift(Date(1, 1, 1), 365 * (y - 1) + LeapsAmong(y - 1)) == Date(y, 1, 1)
    decreases y
  {
    if y > 1 {
      YearStarts(y - 1);
      LeapCounts(y - 1);
      MonthStarts(y - 1);
      ShiftVia(Date(1, 1, 1), 365 * (y - 2) + LeapsAmong(y - 2), Date(y - 1, 1, 1),
               if IsJalaliLeap(y - 1) then 366 else 365, Date(y, 1, 1), 365 * (y - 1) + LeapsAmong(y - 1));
    }
  }

  /** Any thirty-three years have 12053 days. */
  lemma CycleLength(y: nat)
    requires y >= 1
    ensures Shift(Date(y, 1, 1), 12053) == Date(y + 33, 1, 1)
  {
    YearStarts(y);
    YearStarts(y + 33);
    CycleCount(y);
    ShiftAdds(Date(1, 1, 1), 365 * (y - 1) + LeapsAmong(y - 1), 12053);
  }

  lemma CycleCount(y: nat)
    requires y >= 1
    ensures LeapsAmong(y + 32) == LeapsAmong(y - 1) + 8
  {
    assert 8 * (y + 32) + 29 == 8 * (y - 1) + 29 + 33 * 8;
  }

  // ---------------------------------------------------------------- the conversion, pinned

  /** 2024-01-01 is 1402-10-11. */
  lemma Anchor()
    ensures ToJalali(Date(2024, 1, 1)) == Date(1402, 10, 11)
  {
  }

  /** Days from 1-01-01 to a Jalali date: years, their leap days, months and days. */
  function JalaliDay(j: Date): int {
    365 * (j.year - 1) + (8 * (j.year - 1) + 29) / 33 + DaysBefore(j.month) + j.day - 1
  }

  lemma ShiftToDate(j: Date)
    requires ValidJalali(j) && j.year >= 1
    ensures Shift(Date(1, 1, 1), JalaliDay(j)) == j
  {
    YearStarts(j.year);
    MonthStarts(j.year);
    DaysAfterFirst(j);
    var years := YearPart(j);
    ShiftToMonth(j, years, DaysBefore(j.month), JalaliDay(j));
  }

  lemma YearPart(j: Date) returns (years: int)
    requires j.year >= 1
    ensures years == 365 * (j.year - 1) + LeapsAmong(j.year - 1)
    ensures JalaliDay(j) == years + DaysBefore(j.month) + j.day - 1
  {
    years := 365 * (j.year - 1) + LeapsAmong(j.year - 1);
  }

  lemma ShiftToMonth(j: Date, years: int, months: int, total: int)
    requires ValidJalali(j) && months >= 0 && total == years + months + j.day - 1
    requires Shift(Date(1, 1, 1), years) == Date(j.year, 1, 1)
    requires Shift(Date(j.year, 1, 1), months) == Date(j.year, j.month, 1)
    requires Shift(Date(j.year, j.month, 1), j.day - 1) == j
    ensures Shift(Date(1, 1, 1), total) == j
  {
    ShiftVia(Date(1, 1, 1), years, Date(j.year, 1, 1), months, Date(j.year, j.month, 1), years + months);
    ShiftVia(Date(1, 1, 1), years + months, Date(j.year, j.month, 1), j.day - 1, j, total);
  }

  lemma DaysAfterFirst(j: Date)
    requires ValidJalali(j)
    ensures Shift(Date(j.year, j.month, 1), j.day - 1) == j
  {
    StrideForward(j.(day := 1), j.day - 1);
    assert Shift(j.(day := 1), j.day - 1) == Shift(j, 0);
  }

  lemma ShiftIsInjective(d: Date, m: int, n: int)
    requires ValidJalali(d) && m < n
    ensures Shift(d, m) != Shift(d, n)
  {
    ShiftAdds(d, m, n - m);
    ShiftMovesForward(Shift(d, m), n - m);
  }

  /** A day converts to a Jalali date exactly when it is as many days after day 1948320 as that is after 1-01-01. */
  lemma ConversionIff(g: Date, j: Date)
    requires ValidJalali(j) && j.year >= 1
    ensures ToJalali(g) == j <==> Jdn(g.year, g.month, g.day) == 1948320 + JalaliDay(j)
  {
    var first := Date(1, 1, 1);
    var day := Jdn(g.year, g.month, g.day) - 1948320;
    ShiftToDate(j);
    ShiftToDate(REFERENCE);
    ReferenceIsDay();
    if day >= 511991 {
      ShiftAdds(first, 511991, day - 511991);
    } else {
      ShiftBackTo(first, 511991, day);
    }
    if day < JalaliDay(j) {
      ShiftIsInjective(first, day, JalaliDay(j));
    } else if day > JalaliDay(j) {
      ShiftIsInjective(first, JalaliDay(j), day);
    }
  }

  lemma ReferenceIsDay()
    ensures JalaliDay(Date(1402, 10, 11)) == 511991
  {
  }

  lemma {:induction false} ShiftBackTo(d: Date, m: int, n: int)
    requires ValidJalali(d) && n <= m
    ensures Shift(d, n) == Shift(Shift(d, m), n - m)
    decreases m - n
  {
    if n < m {
      ShiftBackTo(d, m, n + 1);
      ShiftByOneMore(d, n);
      ShiftByOneMore(Shift(d, m), n - m);
      NextAndPrevious(Shift(d, n));
      NextAndPrevious(Shift(Shift(d, m), n - m));
    }
  }

  lemma NewYearIs(g: Date, y: int, day: int)
    requires y >= 1 && Jdn(g.year, g.month, g.day) == day && day == 1948320 + 365 * (y - 1) + (8 * (y - 1) + 29) / 33
    ensures ToJalali(g) == Date(y, 1, 1)
  {
    ConversionIff(g, Date(y, 1, 1));
  }

  /** New Year's days around the leap years 1375, 1379, 1399 and 1403. */
  lemma NewYears()
    ensures ToJalali(Date(1970, 3, 21)) == Date(1349, 1, 1) && ToJalali(Date(1997, 3, 21)) == Date(1376, 1, 1)
    ensures ToJalali(Date(2000, 3, 20)) == Date(1379, 1, 1) && ToJalali(Date(2001, 3, 21)) == Date(1380, 1, 1)
    ensures ToJalali(Date(2020, 3, 20)) == Date(1399, 1, 1) && ToJalali(Date(2021, 3, 21)) == Date(1400, 1, 1)
    ensures ToJalali(Date(2024, 3, 20)) == Date(1403, 1, 1) && ToJalali(Date(2025, 3, 21)) == Date(1404, 1, 1)
  {
    NewYearIs(Date(1970, 3, 21), 1349, 2440667);
    NewYearIs(Date(1997, 3, 21), 1376, 2450529);
    NewYearIs(Date(2000, 3, 20), 1379, 2451624);
    NewYearIs(Date(2001, 3, 21), 1380, 2451990);
    NewYearIs(Date(2020, 3, 20), 1399, 2458929);
    NewYearIs(Date(2021, 3, 21), 1400, 2459295);
    NewYearIs(Date(2024, 3, 20), 1403, 2460390);
    NewYearIs(Date(2025, 3, 21), 1404, 2460756);
  }

  function PreviousGregorian(d: Date): Date {
    if d.day > 1 then Date(d.year, d.month, d.day - 1)
    else if d.month > 1 then Date(d.year, d.month - 1, GregorianMonthDays(d.year, d.month - 1))
    else Date(d.year - 1, 12, 31)
  }

  lemma PreviousIsBefore(d: Date)
    requires ValidGregorian(d) && Before(Date(2024, 1, 1), d)
    ensures var p := PreviousGregorian(d);
      ValidGregorian(p) && NextGregorian(p) == d && (p == Date(2024, 1, 1) || Before(Date(2024, 1, 1), p))
  {
  }

  lemma NextIsBefore(d: Date)
    requires ValidGregorian(d) && Before(d, Date(2024, 1, 1))
    ensures var n := NextGregorian(d);
      ValidGregorian(n) && (n == Date(2024, 1, 1) || Before(n, Date(2024, 1, 1)))
  {
  }

  /** A conversion that turns consecutive days into consecutive days, through the known date. */
  ghost predicate FollowsDays(f: Date -> Date) {
    && f(Date(2024, 1, 1)) == Date(1402, 10, 11)
    && forall g | ValidGregorian(g) :: ValidJalali(f(g)) && f(NextGregorian(g)) == Next(f(g))
  }

  function Rank(d: Date): int {
    372 * d.year + 31 * d.month + d.day
  }

  lemma {:induction false} DeterminedAfter(f: Date -> Date, g: Date)
    requires FollowsDays(f) && ValidGregorian(g) && (g == Date(2024, 1, 1) || Before(Date(2024, 1, 1), g))
    ensures f(g) == ToJalali(g)
    decreases Rank(g)
  {
    Anchor();
    if g != Date(2024, 1, 1) {
      PreviousIsBefore(g);
      var p := PreviousGregorian(g);
      DeterminedAfter(f, p);
      ConsecutiveDays(p);
    }
  }

  lemma {:induction false} DeterminedBefore(f: Date -> Date, g: Date)
    requires FollowsDays(f) && ValidGregorian(g) && (g == Date(2024, 1, 1) || Before(g, Date(2024, 1, 1)))
    ensures f(g) == ToJalali(g)
    decreases Rank(Date(2024, 1, 1)) - Rank(g)
  {
    Anchor();
    if g != Date(2024, 1, 1) {
      NextIsBefore(g);
      DeterminedBefore(f, NextGregorian(g));
      ConsecutiveDays(g);
      NextAndPrevious(f(g));
      NextAndPrevious(ToJalali(g));
    }
  }

  lemma ToJalaliFollowsDays()
    ensures FollowsDays(AsFunction())
  {
    Anchor();
    forall g | ValidGregorian(g) ensures ToJalali(NextGregorian(g)) == Next(ToJalali(g)) {
      ConsecutiveDays(g);
    }
  }

  function AsFunction(): Date -> Date {
    (g: Date) => ToJalali(g)
  }

  /** One known date and consecutive days determine the conversion of every valid date, and it is this one. */
  lemma ConversionIsDetermined(f: Date -> Date, g: Date)
    requires FollowsDays(f) && ValidGregorian(g)
    ensures f(g) == ToJalali(g) && FollowsDays(AsFunction())
  {
    ToJalaliFollowsDays();
    if Before(g, Date(2024, 1, 1)) {
      DeterminedBefore(f, g);
    } else {
      DeterminedAfter(f, g);
    }
  }
}
