/** Reporting periods of the accounting pack (Accounting.php, getPeriods):
    quarter starts counted backwards from an active year and month, plus
    the first days of earlier years. */
module Periods {

  /** A calendar day; every period is the first day of its month. */
  datatype Date = Date(day: int, month: int, year: int)

  /** The active date's year and month (its day plays no part). */
  datatype YearMonth = YearMonth(year: int, month: int)

  /** The months a quarter starts in, in the order of `periodMonth`. */
  const PeriodMonths: seq<int> := [1, 4, 7, 10]

  /** `makePeriodDate($month, $year)`, before formatting. */
  function PeriodDate(month: int, year: int): (d: Date)
    ensures d.day == 1 && d.month == month && d.year == year
  {
    Date(1, month, year)
  }

  predicate ValidActive(a: YearMonth) {
    1 <= a.month <= 12
  }

  predicate QuarterStart(d: Date) {
    d.day == 1 && d.month in {1, 4, 7, 10}
  }

  /** `a` comes strictly before `b` (both first days of a month). */
  predicate Earlier(a: Date, b: Date) {
    a.year < b.year || (a.year == b.year && a.month < b.month)
  }

  /** A period may be reported when its month has ended by the active month
      of the active year, or it lies in an earlier year. */
  predicate Eligible(d: Date, active: YearMonth) {
    (d.month + 1 <= active.month && d.year == active.year) || d.year < active.year
  }

  /** Counting months from year 0, a period is eligible exactly when its
      month comes before the active month. */
  lemma EligibleMeaning(d: Date, active: YearMonth)
    requires 1 <= d.month <= 12 && 1 <= active.month <= 12
    ensures Eligible(d, active) <==> 12 * d.year + d.month < 12 * active.year + active.month
  {
  }

  /** The quarter start immediately before a quarter start. */
  function Prev(d: Date): (r: Date)
    requires QuarterStart(d)
    ensures QuarterStart(r) && Earlier(r, d)
  {
    if d.month == 1 then Date(1, 10, d.year - 1) else Date(1, d.month - 3, d.year)
  }

  /** No quarter start lies strictly between `Prev(d)` and `d`. */
  lemma PrevIsImmediate(d: Date, q: Date)
    requires QuarterStart(d) && QuarterStart(q)
    requires Earlier(q, d)
    ensures !Earlier(Prev(d), q)
  {
  }

  /** `d` stepped back `k` quarters. */
  function PrevN(d: Date, k: nat): (r: Date)
    requires QuarterStart(d)
    ensures QuarterStart(r)
  {
    if k == 0 then d else Prev(PrevN(d, k - 1))
  }

  lemma {:induction false} PrevNEarlier(d: Date, i: nat, j: nat)
    requires QuarterStart(d) && i < j
    ensures Earlier(PrevN(d, j), PrevN(d, i))
    decreases j
  {
    if j - 1 > i {
      PrevNEarlier(d, i, j - 1);
    }
  }

  /** `n` consecutive quarter starts counting back from `d`. */
  function Series(d: Date, n: nat): (s: seq<Date>)
    requires QuarterStart(d)
    ensures |s| == n
  {
    if n == 0 then [] else Series(d, n - 1) + [PrevN(d, n - 1)]
  }

  /** The `k`-th period of the series is `d` stepped back `k` quarters. */
  lemma {:induction false} SeriesAt(d: Date, n: nat)
    requires QuarterStart(d)
    ensures forall k :: 0 <= k < n ==> Series(d, n)[k] == PrevN(d, k)
  {
    if n > 0 {
      SeriesAt(d, n - 1);
      assert forall k :: 0 <= k < n - 1 ==> Series(d, n)[k] == Series(d, n - 1)[k];
    }
  }

  /** The most recent eligible quarter start. */
  function Latest(active: YearMonth): (d: Date)
    requires ValidActive(active)
    ensures QuarterStart(d) && Eligible(d, active)
  {
    if active.month >= 11 then Date(1, 10, active.year)
    else if active.month >= 8 then Date(1, 7, active.year)
    else if active.month >= 5 then Date(1, 4, active.year)
    else if active.month >= 2 then Date(1, 1, active.year)
    else Date(1, 10, active.year - 1)
  }

  /** Every eligible quarter start is at or before `Latest`. */
  lemma LatestIsMaximal(active: YearMonth, q: Date)
    requires ValidActive(active) && QuarterStart(q) && Eligible(q, active)
    ensures !Earlier(Latest(active), q)
  {
  }

  /** Eligibility is closed under going back in time. */
  lemma EligibleDownward(q: Date, d: Date, active: YearMonth)
    requires Eligible(d, active) && Earlier(q, d)
    ensures Eligible(q, active)
  {
  }

  /** The periods counted back from `Latest` are quarter starts, strictly
      decreasing, all eligible, and leave no eligible quarter start out
      between the first and the last. */
  lemma {:induction false} SeriesProperties(active: YearMonth, n: nat)
    requires ValidActive(active)
    ensures var s := Series(Latest(active), n);
            && (forall k :: 0 <= k < n ==> QuarterStart(s[k]) && Eligible(s[k], active))
            && (forall i, j :: 0 <= i < j < n ==> Earlier(s[j], s[i]))
            && (forall q :: QuarterStart(q) && Eligible(q, active) && n > 0 && !Earlier(q, s[n - 1]) ==>
                  exists k :: 0 <= k < n && s[k] == q)
  {
    var d := Latest(active);
    var s := Series(d, n);
    SeriesAt(d, n);
    forall i, j | 0 <= i < j < n ensures Earlier(s[j], s[i]) {
      PrevNEarlier(d, i, j);
    }
    forall k | 0 <= k < n ensures Eligible(s[k], active) {
      if k > 0 {
        PrevNEarlier(d, 0, k);
        EligibleDownward(s[k], d, active);
      }
    }
    forall q | QuarterStart(q) && Eligible(q, active) && n > 0 && !Earlier(q, s[n - 1])
      ensures exists k :: 0 <= k < n && s[k] == q
    {
      LatestIsMaximal(active, q);
      var k := Locate(d, n - 1, q);
      assert s[k] == q;
    }
  }

  /** A quarter start between `PrevN(d, m)` and `d` is one of the steps. */
  lemma {:induction false} Locate(d: Date, m: nat, q: Date) returns (k: nat)
    requires QuarterStart(d) && QuarterStart(q)
    requires !Earlier(d, q) && !Earlier(q, PrevN(d, m))
    ensures k <= m && PrevN(d, k) == q
  {
    if m == 0 {
      k := 0;
    } else if !Earlier(q, PrevN(d, m - 1)) {
      k := Locate(d, m - 1, q);
    } else {
      PrevIsImmediate(PrevN(d, m - 1), q);
      k := m;
    }
  }

  /** The position of a quarter start in the loop's enumeration: months
      `periodMonth[3 - z]`, so October, July, April, January. */
  function CursorMonth(z: int): (m: int)
    requires 0 <= z <= 3
    ensures m == PeriodMonths[3 - z] && m == 10 - 3 * z
  {
    PeriodMonths[3 - z]
  }

  /** `lastPeriodNumber`: 1 when the latest period is in October, up to 4
      when it is in January. */
  function PeriodNumber(d: Date): (n: int)
    requires QuarterStart(d)
    ensures 1 <= n <= 4
    ensures 3 * n == 13 - d.month
  {
    if d.month == 10 then 1 else if d.month == 7 then 2 else if d.month == 4 then 3 else 4
  }

  /** The January periods among `s`, in order. */
  function JanuariesOf(s: seq<Date>): (r: seq<Date>)
    ensures |r| <= |s|
  {
    if s == [] then []
    else
      var r0 := JanuariesOf(s[..|s| - 1]);
      if s[|s| - 1].month == 1 then r0 + [s[|s| - 1]] else r0
  }

  /** `JanuariesOf` keeps exactly the January periods of `s`. */
  lemma {:induction false} JanuariesOfMeaning(s: seq<Date>)
    ensures forall x :: x in JanuariesOf(s) <==> x in s && x.month == 1
  {
    if s != [] {
      var p := s[..|s| - 1];
      JanuariesOfMeaning(p);
      assert s == p + [s[|s| - 1]];
      assert forall x :: x in s <==> x in p || x == s[|s| - 1];
    }
  }

  /** January 1 of `count` successive years counting back from `year`. */
  function YearStarts(year: int, count: int): (s: seq<Date>)
    ensures |s| == if count <= 0 then 0 else count
    decreases count
  {
    if count <= 0 then [] else YearStarts(year, count - 1) + [Date(1, 1, year - (count - 1))]
  }

  /** The `k`-th year start is January 1 of `year - k`. */
  lemma {:induction false} YearStartsAt(year: int, count: int)
    ensures forall k :: 0 <= k < |YearStarts(year, count)| ==> YearStarts(year, count)[k] == Date(1, 1, year - k)
    decreases count
  {
    if count > 0 {
      YearStartsAt(year, count - 1);
    }
  }

  /** The year the loop's cursor is in once `n` periods are taken. */
  function TailYear(active: YearMonth, n: int): int
    requires ValidActive(active)
  {
    if n <= 0 then active.year else PrevN(Latest(active), n).year
  }

  /** The periods `getPeriods` collects before `array_unique`: the loop's
      series, then with a bank the remaining year starts. */
  function AllPeriods(active: YearMonth, n: int, years: int, withTail: bool): seq<Date>
    requires ValidActive(active)
  {
    var s := Series(Latest(active), if n <= 0 then 0 else n);
    s + (if withTail then YearStarts(TailYear(active, n), years - |JanuariesOf(s)|) else [])
  }

  /** Without a bank exactly the loop's periods are collected, and the
      first of them is the latest eligible quarter start. */
  lemma AllPeriodsStart(active: YearMonth, n: int, years: int, withTail: bool)
    requires ValidActive(active)
    ensures !withTail ==> |AllPeriods(active, n, years, withTail)| == if n <= 0 then 0 else n
    ensures n > 0 ==> |AllPeriods(active, n, years, withTail)| >= n && AllPeriods(active, n, years, withTail)[0] == Latest(active)
  {
    SeriesAt(Latest(active), if n <= 0 then 0 else n);
  }

  /** `array_unique` on a list: the first occurrence of every value, in
      order. */
  function Unique(s: seq<Date>): (r: seq<Date>)
    ensures |r| <= |s|
  {
    if s == [] then []
    else
      var r0 := Unique(s[..|s| - 1]);
      if s[|s| - 1] in s[..|s| - 1] then r0 else r0 + [s[|s| - 1]]
  }

  /** `array_unique` keeps every value of the list. */
  lemma {:induction false} UniqueMeaning(s: seq<Date>)
    ensures forall x :: x in Unique(s) <==> x in s
  {
    if s != [] {
      UniqueMeaning(s[..|s| - 1]);
      assert s == s[..|s| - 1] + [s[|s| - 1]];
    }
  }

  predicate Distinct(s: seq<Date>) {
    forall i, j :: 0 <= i < j < |s| ==> s[i] != s[j]
  }

  /** On a list without repeats `array_unique` changes nothing. */
  lemma {:induction false} UniqueOfDistinct(s: seq<Date>)
    requires Distinct(s)
    ensures Unique(s) == s
  {
    if s != [] {
      var p := s[..|s| - 1];
      assert Distinct(p);
      UniqueOfDistinct(p);
      assert s[|s| - 1] !in p;
      assert p + [s[|s| - 1]] == s;
    }
  }

  predicate Decreasing(s: seq<Date>) {
    forall i, j :: 0 <= i < j < |s| ==> Earlier(s[j], s[i])
  }

  lemma ConcatDecreasing(s: seq<Date>, t: seq<Date>)
    requires Decreasing(s) && Decreasing(t)
    requires |s| > 0 && |t| > 0 ==> Earlier(t[0], s[|s| - 1])
    ensures Decreasing(s + t)
  {
    var all := s + t;
    forall i, j | 0 <= i < j < |all| ensures Earlier(all[j], all[i]) {
      if j < |s| {
        assert all[i] == s[i] && all[j] == s[j];
      } else if i >= |s| {
        assert all[i] == t[i - |s|] && all[j] == t[j - |s|];
      } else {
        assert all[i] == s[i] && all[j] == t[j - |s|];
        assert j - |s| > 0 ==> Earlier(t[j - |s|], t[0]);
        assert i < |s| - 1 ==> Earlier(s[|s| - 1], s[i]);
      }
    }
  }

  /** Year starts go back one year at a time. */
  lemma YearStartsDecreasing(year: int, count: int)
    ensures Decreasing(YearStarts(year, count))
    ensures |YearStarts(year, count)| > 0 ==> YearStarts(year, count)[0] == Date(1, 1, year)
  {
    YearStartsAt(year, count);
  }

  /** The collected periods are strictly decreasing, so `array_unique`
      leaves them as they are. */
  lemma AllPeriodsDecreasing(active: YearMonth, n: int, years: int, withTail: bool)
    requires ValidActive(active)
    ensures Decreasing(AllPeriods(active, n, years, withTail))
    ensures Unique(AllPeriods(active, n, years, withTail)) == AllPeriods(active, n, years, withTail)
  {
    var m := if n <= 0 then 0 else n;
    var s := Series(Latest(active), m);
    var t := if withTail then YearStarts(TailYear(active, n), years - |JanuariesOf(s)|) else [];
    SeriesDecreasing(Latest(active), m);
    YearStartsDecreasing(TailYear(active, n), years - |JanuariesOf(s)|);
    if m > 0 && |t| > 0 {
      TailBoundary(Latest(active), m);
    }
    ConcatDecreasing(s, t);
    assert s + t == AllPeriods(active, n, years, withTail);
    UniqueOfDistinct(s + t);
  }

  /** A series counted back from a quarter start is strictly decreasing. */
  lemma SeriesDecreasing(d: Date, n: nat)
    requires QuarterStart(d)
    ensures Decreasing(Series(d, n))
    ensures n > 0 ==> Series(d, n)[n - 1] == PrevN(d, n - 1)
  {
    var s := Series(d, n);
    SeriesAt(d, n);
    forall i, j | 0 <= i < j < n ensures Earlier(s[j], s[i]) {
      PrevNEarlier(d, i, j);
    }
  }

  /** January 1 of the year the cursor stops in comes before the last
      period taken. */
  lemma TailBoundary(d: Date, m: nat)
    requires QuarterStart(d) && m > 0
    ensures Earlier(Date(1, 1, PrevN(d, m).year), PrevN(d, m - 1))
  {
  }

}
