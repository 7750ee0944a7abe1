/** Moving the displayed month. The widget's "<" and ">" buttons call
    `setMonth(getMonth() + k)` on the anchor date, which keeps the anchor's
    day of month and lets it overflow into the following month. */
module Navigation {
  import opened Gregorian

  /** Months counted from January of year 0: equal indices mean the same
      year and month. */
  function MonthIndex(d: Date): int {
    12 * d.year + d.month0
  }

  lemma MonthIndexInjective(a: Date, b: Date)
    requires MonthIndex(a) == MonthIndex(b)
    ensures a.year == b.year && a.month0 == b.month0
  {
  }

  /** Year and 0-based month reached by moving `k` months from the anchor's month,
      with year rollover. */
  function TargetYear(a: Date, k: int): int {
    a.year + (a.month0 + k) / 12
  }

  function TargetMonth(a: Date, k: int): (m: int)
    ensures 0 <= m < 12
  {
    (a.month0 + k) % 12
  }

  lemma TargetIndex(a: Date, k: int)
    ensures 12 * TargetYear(a, k) + TargetMonth(a, k) == MonthIndex(a) + k
  {
  }

  /** `Date.prototype.setMonth(m)` on a local date (ECMA-262): the year and the
      day of month are kept and the result is normalised. */
  function SetMonth(d: Date, m: int): Date {
    NormalizeDate(d.year, m, d.day)
  }

  /** The anchor after `handleMonthChange(k)` as the source computes it. When the
      anchor's day does not exist in the target month it overflows into the
      month after: the displayed month then moves by `k + 1`. */
  function ShiftMonthAsWritten(a: Date, k: int): (r: Date)
    ensures a.day <= DaysInMonth(TargetYear(a, k), TargetMonth(a, k)) ==>
      r == Ymd(TargetYear(a, k), TargetMonth(a, k), a.day)
    ensures a.day > DaysInMonth(TargetYear(a, k), TargetMonth(a, k)) ==>
      MonthIndex(r) == MonthIndex(a) + k + 1 &&
      r.day == a.day - DaysInMonth(TargetYear(a, k), TargetMonth(a, k))
  {
    SetMonthOutcome(a, k);
    SetMonth(a, a.month0 + k)
  }

  lemma SetMonthOutcome(a: Date, k: int)
    ensures var r := SetMonth(a, a.month0 + k);
      && (a.day <= DaysInMonth(TargetYear(a, k), TargetMonth(a, k)) ==>
            r == Ymd(TargetYear(a, k), TargetMonth(a, k), a.day))
      && (a.day > DaysInMonth(TargetYear(a, k), TargetMonth(a, k)) ==>
            MonthIndex(r) == MonthIndex(a) + k + 1 &&
            r.day == a.day - DaysInMonth(TargetYear(a, k), TargetMonth(a, k)))
  {
    var m := a.month0 + k;
    var ty, tm := TargetYear(a, k), TargetMonth(a, k);
    assert ty == a.year + m / 12 && tm == m % 12;
    assert SetMonth(a, m) == NormalizeDay(ty, tm, a.day);
    TargetIndex(a, k);
    if a.day <= DaysInMonth(ty, tm) {
      NormalizeValid(ty, tm, a.day);
    } else {
      NormalizeOverflow(ty, tm, a.day);
    }
  }

  /** The evidently intended navigation: the displayed month moves by exactly
      `k`, and the day of month is kept when the target month has it and
      clamped to the month's last day otherwise. */
  function ShiftMonth(a: Date, k: int): (r: Date)
    ensures MonthIndex(r) == MonthIndex(a) + k
    ensures r.day == if a.day <= DaysInMonth(r.year, r.month0) then a.day else DaysInMonth(r.year, r.month0)
  {
    var ty, tm := TargetYear(a, k), TargetMonth(a, k);
    TargetIndex(a, k);
    var n := DaysInMonth(ty, tm);
    Ymd(ty, tm, if a.day <= n then a.day else n)
  }

  /** Wherever the source does not overflow, the corrected navigation is the
      source's. */
  lemma ShiftMonthAgrees(a: Date, k: int)
    requires a.day <= DaysInMonth(TargetYear(a, k), TargetMonth(a, k))
    ensures ShiftMonth(a, k) == ShiftMonthAsWritten(a, k)
  {
  }

  /** Forward then back returns to the anchor's month, and to the anchor
      itself when its day exists in every month. */
  lemma ShiftMonthRoundTrip(a: Date, k: int)
    ensures MonthIndex(ShiftMonth(ShiftMonth(a, k), -k)) == MonthIndex(a)
    ensures a.day <= 28 ==> ShiftMonth(ShiftMonth(a, k), -k) == a
  {
    var b := ShiftMonth(a, k);
    var c := ShiftMonth(b, -k);
    MonthIndexInjective(c, a);
  }

  /** Moving by `j` and then by `k` is moving by `j + k`, as far as the
      displayed month goes. */
  lemma ShiftMonthCompose(a: Date, j: int, k: int)
    ensures MonthIndex(ShiftMonth(ShiftMonth(a, j), k)) == MonthIndex(ShiftMonth(a, j + k))
  {
  }

  /** The source's forward-then-back round trip restores the anchor exactly
      when the anchor's day exists in the target month; in particular always
      when the day is at most 28. */
  lemma {:induction false} ShiftMonthAsWrittenRoundTrip(a: Date, k: int)
    ensures ShiftMonthAsWritten(ShiftMonthAsWritten(a, k), -k) == a <==>
      a.day <= DaysInMonth(TargetYear(a, k), TargetMonth(a, k))
  {
    var b := ShiftMonthAsWritten(a, k);
    var c := ShiftMonthAsWritten(b, -k);
    TargetIndex(a, k);
    TargetIndex(b, -k);
    if a.day <= DaysInMonth(TargetYear(a, k), TargetMonth(a, k)) {
      assert MonthIndex(b) == MonthIndex(a) + k;
      MonthIndexInjective(Ymd(TargetYear(b, -k), TargetMonth(b, -k), 1), Ymd(a.year, a.month0, 1));
      assert c == a;
    } else {
      assert b.day <= 3;
      assert MonthIndex(c) == MonthIndex(a) + 1;
    }
  }

  /** Pressing ">" on January 31st of 2023 shows March, not February; going
      back then lands on February 3rd. */
  lemma JanuaryThirtyFirstSkipsFebruary()
    ensures ShiftMonthAsWritten(Ymd(2023, 0, 31), 1) == Ymd(2023, 2, 3)
    ensures ShiftMonthAsWritten(Ymd(2024, 0, 31), 1) == Ymd(2024, 2, 2)
    ensures ShiftMonthAsWritten(Ymd(2023, 2, 3), -1) == Ymd(2023, 1, 3)
    ensures ShiftMonth(Ymd(2023, 0, 31), 1) == Ymd(2023, 1, 28)
  {
    var a: Date := Ymd(2023, 0, 31);
    var r := ShiftMonthAsWritten(a, 1);
    MonthIndexInjective(r, Ymd(2023, 2, 3));
    var a': Date := Ymd(2024, 0, 31);
    var r' := ShiftMonthAsWritten(a', 1);
    MonthIndexInjective(r', Ymd(2024, 2, 2));
  }
}
