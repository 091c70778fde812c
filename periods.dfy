/**
 * The period sequencer of the entry grid: six (month, year) columns where a
 * chosen anchor column fills every later column with the following calendar
 * months, rolling from December over to January of the next year.
 */
module Periods {
  import opened Types

  /** The month and year headers of the six columns. */
  datatype Schedule = Schedule(months: seq<string>, years: seq<int>)

  predicate Sized(s: Schedule) {
    |s.months| == COLUMNS && |s.years| == COLUMNS
  }

  /** The headers of an untouched grid: six empty months and six zero years. */
  const EMPTY_SCHEDULE: Schedule := Schedule(["", "", "", "", "", ""], [0, 0, 0, 0, 0, 0])

  /** The futures row of an untouched grid. */
  const EMPTY_FUTURES: seq<string> := ["", "", "", "", "", ""]

  /**
   * The guard of updateSubsequentColumns: a non-empty month that is a label
   * of MONTHS and a non-zero year.
   */
  predicate Propagates(month: string, year: int) {
    Truthy(month) && year != 0 && IndexOf(month) != -1
  }

  /** No month label occurs twice. */
  lemma MonthsDistinct()
    ensures forall i, j | 0 <= i < j < 12 :: MonthName(i) != MonthName(j)
  {
    forall i, j | 0 <= i < j < 12 ensures MonthName(i) != MonthName(j) {
      assert MonthName(i)[0] != MonthName(j)[0] || MonthName(i)[1] != MonthName(j)[1] || MonthName(i)[2] != MonthName(j)[2];
    }
  }

  /** `MONTHS.indexOf` finds every label at its own position. */
  lemma IndexOfMonth(j: nat)
    requires j < 12
    ensures IndexOf(MonthName(j)) == j
  {
    MonthsDistinct();
  }

  /**
   * Month number `n` months after January of the anchor year, for the
   * offsets the grid can reach (n < 24): its position in MONTHS and how many
   * years it lies ahead. They are `n % 12` and `n / 12` (WrapIsModulo).
   */
  function Wrap(n: nat): nat
    requires n < 24
  {
    if n < 12 then n else n - 12
  }

  function Carry(n: nat): nat
    requires n < 24
  {
    if n < 12 then 0 else 1
  }

  lemma WrapIsModulo(n: nat)
    requires n < 24
    ensures Wrap(n) == n % 12 && Carry(n) == n / 12
  {
  }

  /**
   * The headers after propagating from anchor column `k` holding month
   * number `mi` (0 = Jan) of year `y`: column i >= k gets the month
   * `i - k` months later, with the year carried over each December.
   */
  function Propagated(s: Schedule, k: nat, mi: nat, y: int): (r: Schedule)
    requires Sized(s) && k < COLUMNS && mi < 12
    ensures Sized(r)
    ensures forall i | 0 <= i < COLUMNS :: r.months[i] == PropagatedMonth(s, k, mi, i) && r.years[i] == PropagatedYear(s, k, mi, y, i)
  {
    Schedule(
      seq(COLUMNS, i requires 0 <= i < COLUMNS => PropagatedMonth(s, k, mi, i)),
      seq(COLUMNS, i requires 0 <= i < COLUMNS => PropagatedYear(s, k, mi, y, i)))
  }

  function PropagatedMonth(s: Schedule, k: nat, mi: nat, i: nat): string
    requires Sized(s) && mi < 12 && i < COLUMNS
  {
    if i < k then s.months[i] else MonthName(Wrap(mi + (i - k)))
  }

  function PropagatedYear(s: Schedule, k: nat, mi: nat, y: int, i: nat): int
    requires Sized(s) && mi < 12 && i < COLUMNS
  {
    if i < k then s.years[i] else y + Carry(mi + (i - k))
  }

  /** Propagation keeps the columns before the anchor and puts (MonthName(mi), y) in the anchor column. */
  lemma PropagatedAnchor(s: Schedule, k: nat, mi: nat, y: int)
    requires Sized(s) && k < COLUMNS && mi < 12
    ensures forall i | 0 <= i < k :: Propagated(s, k, mi, y).months[i] == s.months[i]
    ensures forall i | 0 <= i < k :: Propagated(s, k, mi, y).years[i] == s.years[i]
    ensures Propagated(s, k, mi, y).months[k] == MonthName(mi)
    ensures Propagated(s, k, mi, y).years[k] == y
  {
  }

  /** Propagation reads only the columns before the anchor: headers agreeing there propagate alike. */
  lemma PropagatedAgreeBelow(s: Schedule, t: Schedule, k: nat, mi: nat, y: int)
    requires Sized(s) && Sized(t) && k < COLUMNS && mi < 12
    requires forall i | 0 <= i < k :: s.months[i] == t.months[i] && s.years[i] == t.years[i]
    ensures Propagated(s, k, mi, y) == Propagated(t, k, mi, y)
  {
    assert Propagated(s, k, mi, y).months == Propagated(t, k, mi, y).months;
    assert Propagated(s, k, mi, y).years == Propagated(t, k, mi, y).years;
  }

  /**
   * From the anchor on, each column holds the calendar month after the one
   * before it: the next label of MONTHS, and the same year except that
   * December (MonthName(11)) is followed by January of the next year.
   */
  lemma PropagatedSuccession(s: Schedule, k: nat, mi: nat, y: int, i: nat)
    requires Sized(s) && k < COLUMNS && mi < 12
    requires k <= i < COLUMNS - 1
    ensures var r := Propagated(s, k, mi, y);
      && 0 <= IndexOf(r.months[i])
      && r.months[i + 1] == MonthName(if IndexOf(r.months[i]) == 11 then 0 else IndexOf(r.months[i]) + 1)
      && r.years[i + 1] == r.years[i] + (if IndexOf(r.months[i]) == 11 then 1 else 0)
  {
    var d := mi + (i - k);
    IndexOfMonth(Wrap(d));
  }

  /** Propagating twice from the same anchor gives the same headers as propagating once. */
  lemma PropagatedTwice(s: Schedule, k: nat, mi: nat, y: int)
    requires Sized(s) && k < COLUMNS && mi < 12
    ensures Propagated(Propagated(s, k, mi, y), k, mi, y) == Propagated(s, k, mi, y)
  {
    var r := Propagated(s, k, mi, y);
    assert Propagated(r, k, mi, y).months == r.months;
    assert Propagated(r, k, mi, y).years == r.years;
  }

  /** Choosing November 2024 in the first column schedules Nov 2024 through Apr 2025. */
  lemma NovemberExample()
    ensures Propagated(EMPTY_SCHEDULE, 0, 10, 2024)
         == Schedule(["Nov", "Dec", "Jan", "Feb", "Mar", "Apr"], [2024, 2024, 2025, 2025, 2025, 2025])
  {
    var r := Propagated(EMPTY_SCHEDULE, 0, 10, 2024);
    assert r.months == ["Nov", "Dec", "Jan", "Feb", "Mar", "Apr"];
    assert r.years == [2024, 2024, 2025, 2025, 2025, 2025];
  }

  // ---------------------------------------------------------------------------
  // The auto-populate effect

  /** `month && year`: the test by which the effect looks for its anchor. */
  predicate ColumnSet(s: Schedule, c: nat)
    requires Sized(s) && c < COLUMNS
  {
    Truthy(s.months[c]) && s.years[c] != 0
  }

  /** `findIndex` from column `j`: the first set column at or after `j`, or -1. */
  function FirstSetFrom(s: Schedule, j: nat): (i: int)
    requires Sized(s) && j <= COLUMNS
    ensures i == -1 || j <= i < COLUMNS
    ensures i >= 0 ==> ColumnSet(s, i) && forall c | j <= c < i :: !ColumnSet(s, c)
    ensures i == -1 ==> forall c | j <= c < COLUMNS :: !ColumnSet(s, c)
    decreases COLUMNS - j
  {
    if j == COLUMNS then -1
    else if Truthy(s.months[j]) && s.years[j] != 0 then j
    else FirstSetFrom(s, j + 1)
  }

  function FirstSet(s: Schedule): int
    requires Sized(s)
  {
    FirstSetFrom(s, 0)
  }

  /**
   * What the effect leaves behind: propagation from the first set column
   * when its month is a label of MONTHS, and the headers unchanged otherwise.
   */
  function AutoPopulated(s: Schedule): (r: Schedule)
    requires Sized(s)
    ensures Sized(r)
  {
    var a := FirstSet(s);
    if a == -1 then s
    else
      var mi := IndexOf(s.months[a]);
      if mi == -1 then s else Propagated(s, a, mi, s.years[a])
  }

  /** The effect rewrites only columns after the anchor: the anchor and everything before it stay. */
  lemma AutoPopulatedKeepsAnchor(s: Schedule)
    requires Sized(s)
    ensures forall i | 0 <= i < COLUMNS && (FirstSet(s) == -1 || i <= FirstSet(s)) ::
              AutoPopulated(s).months[i] == s.months[i] && AutoPopulated(s).years[i] == s.years[i]
    ensures FirstSet(s) == -1 || IndexOf(s.months[FirstSet(s)]) == -1 ==> AutoPopulated(s) == s
  {
    var a := FirstSet(s);
    if a != -1 && IndexOf(s.months[a]) != -1 {
      PropagatedAnchor(s, a, IndexOf(s.months[a]), s.years[a]);
    }
  }

  /** After the effect, the anchor is the same column and every later column follows it month by month. */
  lemma AutoPopulatedFollowsAnchor(s: Schedule, i: nat)
    requires Sized(s)
    requires FirstSet(s) != -1 && IndexOf(s.months[FirstSet(s)]) != -1
    requires FirstSet(s) <= i < COLUMNS - 1
    ensures FirstSet(AutoPopulated(s)) == FirstSet(s)
    ensures var r := AutoPopulated(s);
      && r.months[i + 1] == MonthName(if IndexOf(r.months[i]) == 11 then 0 else IndexOf(r.months[i]) + 1)
      && r.years[i + 1] == r.years[i] + (if IndexOf(r.months[i]) == 11 then 1 else 0)
  {
    var a := FirstSet(s);
    AutoPopulatedSameAnchor(s);
    PropagatedSuccession(s, a, IndexOf(s.months[a]), s.years[a], i);
  }

  /** The first set column is characterised by being set with no set column before it. */
  lemma FirstSetIs(s: Schedule, a: nat)
    requires Sized(s) && a < COLUMNS
    requires ColumnSet(s, a) && forall c | 0 <= c < a :: !ColumnSet(s, c)
    ensures FirstSet(s) == a
  {
  }

  lemma AutoPopulatedSameAnchor(s: Schedule)
    requires Sized(s)
    ensures FirstSet(AutoPopulated(s)) == FirstSet(s)
  {
    var a := FirstSet(s);
    if a != -1 && IndexOf(s.months[a]) != -1 {
      var mi := IndexOf(s.months[a]);
      var r := Propagated(s, a, mi, s.years[a]);
      assert r.months[a] == s.months[a] && r.years[a] == s.years[a];
      forall c | 0 <= c < a ensures !ColumnSet(r, c) {
        assert r.months[c] == s.months[c] && r.years[c] == s.years[c];
      }
      FirstSetIs(r, a);
    }
  }

  /** Running the effect twice gives the same headers as running it once. */
  lemma AutoPopulatedIdempotent(s: Schedule)
    requires Sized(s)
    ensures AutoPopulated(AutoPopulated(s)) == AutoPopulated(s)
  {
    var a := FirstSet(s);
    if a != -1 && IndexOf(s.months[a]) != -1 {
      var mi := IndexOf(s.months[a]);
      AutoPopulatedSameAnchor(s);
      IndexOfMonth(mi);
      var r := Propagated(s, a, mi, s.years[a]);
      assert r.months[a] == MonthName(mi) && r.years[a] == s.years[a];
      assert AutoPopulated(r) == Propagated(r, a, mi, s.years[a]);
      PropagatedTwice(s, a, mi, s.years[a]);
    }
  }

  /**
   * Why the effect must be off right after a manual change: with Jan–Jun 2024
   * in the headers, setting column 3 to Sep 2024 and then running the effect
   * would bring column 3 back to Apr.
   */
  lemma EffectWouldUndoManualChange()
    ensures var s1 := Propagated(Propagated(EMPTY_SCHEDULE, 0, 0, 2024), 3, 8, 2024);
      && s1.months[3] == "Sep" && AutoPopulated(s1).months[3] == "Apr"
  {
    var s0 := Propagated(EMPTY_SCHEDULE, 0, 0, 2024);
    var s1 := Propagated(s0, 3, 8, 2024);
    PropagatedAnchor(s0, 3, 8, 2024);
    assert s1.months[0] == "Jan" && s1.years[0] == 2024;
    FirstSetIs(s1, 0);
    assert IndexOf("Jan") == 0;
  }

  // ---------------------------------------------------------------------------
  // The propagation loop

  /**
   * `MONTHS[(m + d) % 12]` and `Math.floor((m + d) / 12)`: the label of the
   * month `d` months after month number `m`, and how many years later it falls.
   */
  method MonthAfter(m: nat, d: nat) returns (nextMonth: string, yearIncrement: int)
    requires m < 12 && d < 12
    ensures nextMonth == MonthName(Wrap(m + d)) && yearIncrement == Carry(m + d)
  {
    WrapIsModulo(m + d);
    var nextMonthIndex := (m + d) % 12;
    nextMonth := MONTHS[nextMonthIndex];
    yearIncrement := (m + d) / 12;
  }

  /**
   * The loop shared by updateSubsequentColumns and the effect: with the
   * anchor column already holding (MonthName(mi), y), rewrite every later
   * column of copies of the headers.
   */
  method FillSubsequent(months: seq<string>, years: seq<int>, k: nat, mi: nat, y: int)
    returns (newMonths: seq<string>, newYears: seq<int>)
    requires |months| == COLUMNS && |years| == COLUMNS && k < COLUMNS && mi < 12
    requires months[k] == MonthName(mi) && years[k] == y
    ensures Schedule(newMonths, newYears) == Propagated(Schedule(months, years), k, mi, y)
  {
    newMonths, newYears := months, years;
    var i := k + 1;
    while i < COLUMNS
      invariant k + 1 <= i <= COLUMNS && |newMonths| == COLUMNS && |newYears| == COLUMNS
      invariant forall c | 0 <= c < i :: newMonths[c] == PropagatedMonth(Schedule(months, years), k, mi, c)
      invariant forall c | 0 <= c < i :: newYears[c] == PropagatedYear(Schedule(months, years), k, mi, y, c)
      invariant forall c | i <= c < COLUMNS :: newMonths[c] == months[c] && newYears[c] == years[c]
    {
      var monthsFromChanged := i - k;
      var nextMonth, yearIncrement := MonthAfter(mi, monthsFromChanged);
      newMonths := newMonths[i := nextMonth];
      newYears := newYears[i := y + yearIncrement];
      i := i + 1;
    }
    assert newMonths == Propagated(Schedule(months, years), k, mi, y).months;
    assert newYears == Propagated(Schedule(months, years), k, mi, y).years;
  }
}
