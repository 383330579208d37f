/**
 * The date picker's month navigation. The picker shows one month of one
 * year; `month` counts from 0 (January) to 11 (December), as JavaScript's
 * `Date.getMonth` does. The arrows step to the previous or the next month,
 * wrapping over the turn of the year.
 *
 * Where the picker starts (the current month, or the month of the value it
 * is given) comes from the clock and from date parsing, and is not part of
 * this model.
 */
module DatePicker {

  /** The month on display. */
  datatype MonthView = MonthView(month: int, year: int)

  /** The months JavaScript numbers 0 to 11. */
  predicate InRange(v: MonthView) {
    0 <= v.month <= 11
  }

  /** The number of months since January of year 0, a reference count for the steps. */
  function AbsoluteMonth(v: MonthView): int {
    v.year * 12 + v.month
  }

  /** The month `n` months after January of year 0. */
  function FromAbsolute(n: int): (v: MonthView)
    ensures InRange(v) && AbsoluteMonth(v) == n
  {
    MonthView(n % 12, n / 12)
  }

  /** A month in range is determined by its absolute number. */
  lemma AbsoluteMonthDetermines(v: MonthView)
    requires InRange(v)
    ensures FromAbsolute(AbsoluteMonth(v)) == v
  {
  }

  /** The left arrow: December of the year before after January, else the month before. */
  function PreviousMonth(v: MonthView): (r: MonthView)
    ensures v.month == 0 ==> r.month == 11 && r.year == v.year - 1
    ensures v.month != 0 ==> r.month == v.month - 1 && r.year == v.year
    ensures InRange(v) ==> InRange(r) && AbsoluteMonth(r) == AbsoluteMonth(v) - 1
  {
    if v.month == 0 then MonthView(11, v.year - 1) else MonthView(v.month - 1, v.year)
  }

  /** The right arrow: January of the year after after December, else the month after. */
  function NextMonth(v: MonthView): (r: MonthView)
    ensures v.month == 11 ==> r.month == 0 && r.year == v.year + 1
    ensures v.month != 11 ==> r.month == v.month + 1 && r.year == v.year
    ensures InRange(v) ==> InRange(r) && AbsoluteMonth(r) == AbsoluteMonth(v) + 1
  {
    if v.month == 11 then MonthView(0, v.year + 1) else MonthView(v.month + 1, v.year)
  }

  /** Stepping forward and back returns to the month on display. */
  lemma NextThenPrevious(v: MonthView)
    requires InRange(v)
    ensures PreviousMonth(NextMonth(v)) == v
  {
  }

  /** Stepping back and forward returns to the month on display. */
  lemma PreviousThenNext(v: MonthView)
    requires InRange(v)
    ensures NextMonth(PreviousMonth(v)) == v
  {
  }

  /** Both arrows agree with counting months from a fixed origin. */
  lemma StepsAgreeWithAbsoluteCount(v: MonthView)
    requires InRange(v)
    ensures NextMonth(v) == FromAbsolute(AbsoluteMonth(v) + 1)
    ensures PreviousMonth(v) == FromAbsolute(AbsoluteMonth(v) - 1)
  {
    AbsoluteMonthDetermines(NextMonth(v));
    AbsoluteMonthDetermines(PreviousMonth(v));
  }

  /** `n` presses of the right arrow. */
  function Forward(v: MonthView, n: nat): (r: MonthView)
    ensures InRange(v) ==> InRange(r)
    decreases n
  {
    if n == 0 then v else Forward(NextMonth(v), n - 1)
  }

  /** `n` presses of the right arrow move `n` months on; twelve presses move one year on. */
  lemma {:induction false} ForwardCounts(v: MonthView, n: nat)
    requires InRange(v)
    ensures AbsoluteMonth(Forward(v, n)) == AbsoluteMonth(v) + n
    ensures n == 12 ==> Forward(v, n) == MonthView(v.month, v.year + 1)
    decreases n
  {
    if n > 0 {
      ForwardCounts(NextMonth(v), n - 1);
    }
    if n == 12 {
      AbsoluteMonthDetermines(Forward(v, n));
      AbsoluteMonthDetermines(MonthView(v.month, v.year + 1));
    }
  }
}
