/** The accounting pack of a client (Accounting.php): its reporting periods
    and its cells grouped by big group and by code. */
module AccountingPack {
  import opened PhpValues
  import opened Periods
  import opened CellGrouping

  /** The two per-bank settings the periods depend on. */
  datatype Bank = Bank(periodsNum: int, yearsNum: int)

  /** Periods taken by the loop: the bank's setting, or 5 without a bank. */
  function NumPeriods(bank: Option<Bank>): int {
    if bank.Some? then bank.value.periodsNum else 5
  }

  /** Year starts wanted: the bank's setting, or 1 without a bank. */
  function NumYears(bank: Option<Bank>): int {
    if bank.Some? then bank.value.yearsNum else 1
  }

  lemma SeriesSnoc(d: Date, i: nat)
    requires QuarterStart(d)
    ensures Series(d, i + 1) == Series(d, i) + [PrevN(d, i)]
  {
  }

  /** Taking one more period adds it to the recorded year starts exactly
      when it is in January. */
  lemma JanuariesSnoc(before: seq<Date>, s: seq<Date>, d: Date)
    ensures |JanuariesOf(s + [d])| == |JanuariesOf(s)| + (if d.month == 1 then 1 else 0)
    ensures before + JanuariesOf(s + [d]) == before + JanuariesOf(s) + (if d.month == 1 then [d] else [])
  {
    assert (s + [d])[..|s|] == s;
  }

  /** The year starts `getPeriods` appends to `yearPeriods`: the January
      periods of the loop's series, then with a bank the remaining year
      starts. */
  function YearPeriodsAdded(active: YearMonth, n: int, years: int, withTail: bool): seq<Date>
    requires ValidActive(active)
  {
    var s := Series(Latest(active), if n <= 0 then 0 else n);
    JanuariesOf(s) + (if withTail then YearStarts(TailYear(active, n), years - |JanuariesOf(s)|) else [])
  }

  /** The pieces `getPeriods` collects make up `AllPeriods` and
      `YearPeriodsAdded`. */
  lemma Assembled(active: YearMonth, n: int, years: int, withTail: bool, series: seq<Date>, tail: seq<Date>)
    requires ValidActive(active)
    requires series == Series(Latest(active), if n <= 0 then 0 else n)
    requires tail == if withTail then YearStarts(TailYear(active, n), years - |JanuariesOf(series)|) else []
    ensures series + tail == AllPeriods(active, n, years, withTail)
    ensures JanuariesOf(series) + tail == YearPeriodsAdded(active, n, years, withTail)
  {
  }

  /** Regrouping of a concatenation; it only helps the prover relate
      `GetPeriods`' two appends to `YearPeriodsAdded`. */
  lemma Regroup(a: seq<Date>, b: seq<Date>, c: seq<Date>)
    ensures a + b + c == a + (b + c)
  {
  }

  class Accounting {
    const bank: Option<Bank>
    var groups: map<int, string>
    var cellsByGroup: map<int, seq<ShownCell>>
    var cellsByCode: map<int, ShownCell>
    var excelRows: map<int, Option<int>>
    var periods: seq<Date>
    var lastPeriod: Option<Date>
    var lastPeriodNumber: int
    var yearPeriods: seq<Date>

    /** The bank is the one `generateForBank` sets, if any. */
    constructor (bank: Option<Bank>)
      ensures this.bank == bank
      ensures groups == map[] && cellsByGroup == map[] && cellsByCode == map[] && excelRows == map[]
      ensures periods == [] && yearPeriods == [] && lastPeriod == None && lastPeriodNumber == 1
    {
      this.bank := bank;
      groups, cellsByGroup, cellsByCode, excelRows := map[], map[], map[], map[];
      periods, yearPeriods := [], [];
      lastPeriod := None;
      lastPeriodNumber := 1;
    }

    /** `getPeriods`: walks the quarter starts back from the active month,
        taking the eligible ones until it has enough, then (with a bank)
        adds the year starts still wanted. `lastPeriod` is the first period
        taken; `yearPeriods` only grows. */
    method GetPeriods(active: YearMonth) returns (result: seq<Date>)
      requires ValidActive(active)
      modifies this`lastPeriod, this`lastPeriodNumber, this`yearPeriods
      ensures var n := NumPeriods(bank);
              && result == AllPeriods(active, n, NumYears(bank), bank.Some?)
              && (n > 0 ==> lastPeriod == Some(Latest(active)) && lastPeriodNumber == PeriodNumber(Latest(active)))
              && (n <= 0 ==> lastPeriod == old(lastPeriod) && lastPeriodNumber == old(lastPeriodNumber))
              && yearPeriods == old(yearPeriods) + YearPeriodsAdded(active, n, NumYears(bank), bank.Some?)
    {
      var numPeriods := NumPeriods(bank);
      var numYears := NumYears(bank);
      var periods, y, yearsLeft := TakeQuarters(active, numPeriods, numYears);
      ghost var series := periods;
      var tail: seq<Date> := [];
      if bank.Some? {
        tail := AddYearStarts(y, yearsLeft);
        periods := periods + tail;
      }
      assert tail == if bank.Some? then YearStarts(TailYear(active, numPeriods), numYears - |JanuariesOf(series)|) else [];
      assert periods == series + tail;
      Assembled(active, numPeriods, numYears, bank.Some?, series, tail);
      Regroup(old(yearPeriods), JanuariesOf(series), tail);
      result := Unique(periods);
      assert result == periods by {
        AllPeriodsDecreasing(active, numPeriods, numYears, bank.Some?);
      }
    }

    /** The second loop of `getPeriods`: January 1 of `count` years
        counting back from `year`, each also added to `yearPeriods`. */
    method AddYearStarts(year: int, count: int) returns (added: seq<Date>)
      modifies this`yearPeriods
      ensures added == YearStarts(year, count)
      ensures yearPeriods == old(yearPeriods) + added
    {
      added := [];
      var y, k := year, 0;
      while k < count
        invariant 0 <= k && (count > 0 ==> k <= count) && (count <= 0 ==> k == 0)
        invariant y == year - k
        invariant added == YearStarts(year, k)
        invariant yearPeriods == old(yearPeriods) + added
      {
        yearPeriods := yearPeriods + [PeriodDate(1, y)];
        added := added + [PeriodDate(1, y)];
        y := y - 1;
        k := k + 1;
      }
    }

    /** The first loop of `getPeriods`: takes `numPeriods` quarter starts
        counting back from the latest eligible one, recording the first as
        `lastPeriod` and every January among them in `yearPeriods`. Returns
        them, the year the cursor stopped in, and how many year starts are
        still wanted. */
    method TakeQuarters(active: YearMonth, numPeriods: int, numYears: int)
        returns (periods: seq<Date>, y: int, yearsLeft: int)
      requires ValidActive(active)
      modifies this`lastPeriod, this`lastPeriodNumber, this`yearPeriods
      ensures periods == Series(Latest(active), if numPeriods <= 0 then 0 else numPeriods)
      ensures y == TailYear(active, numPeriods)
      ensures yearsLeft == numYears - |JanuariesOf(periods)|
      ensures numPeriods > 0 ==> lastPeriod == Some(Latest(active)) && lastPeriodNumber == PeriodNumber(Latest(active))
      ensures numPeriods <= 0 ==> lastPeriod == old(lastPeriod) && lastPeriodNumber == old(lastPeriodNumber)
      ensures yearPeriods == old(yearPeriods) + JanuariesOf(periods)
    {
      yearsLeft := numYears;
      periods := [];
      var i, z := 0, 0;
      y := active.year;
      var last := false;
      ghost var latest := Latest(active);
      ghost var top := QuarterIndex(latest);
      while i < numPeriods
        invariant 0 <= i && (numPeriods > 0 ==> i <= numPeriods)
        invariant numPeriods <= 0 ==> y == active.year && i == 0
        invariant 0 <= z <= 3
        invariant if i == 0 then Position(z, y) >= top else Position(z, y) == top - i
        invariant periods == Series(latest, i)
        invariant last <==> i > 0
        invariant (lastPeriod, lastPeriodNumber) ==
                  if i > 0 then (Some(latest), PeriodNumber(latest)) else (old(lastPeriod), old(lastPeriodNumber))
        invariant yearPeriods == old(yearPeriods) + JanuariesOf(periods)
        invariant yearsLeft == numYears - |JanuariesOf(periods)|
        decreases numPeriods - i, Position(z, y) - top
      {
        var month := PeriodMonths[3 - z];
        CursorAt(active, i, z, y);
        if (month + 1 <= active.month && y == active.year) || y < active.year {
          JanuariesSnoc(old(yearPeriods), periods, PeriodDate(month, y));
          SeriesSnoc(latest, i);
          periods, yearsLeft, last := TakePeriod(PeriodDate(month, y), z + 1, periods, yearsLeft, last);
          i := i + 1;
        }
        z := z + 1;
        if z > 3 {
          y := y - 1;
          z := 0;
        }
      }
      if i > 0 {
        PrevNIndex(latest, i);
      }
    }

    /** The body of the first loop of `getPeriods` for an eligible period
        `d` at position `number` of its year: the first one taken becomes
        `lastPeriod`, a January one is added to `yearPeriods`. */
    method TakePeriod(d: Date, number: int, periods: seq<Date>, yearsLeft: int, last: bool)
        returns (periods': seq<Date>, yearsLeft': int, last': bool)
      modifies this`lastPeriod, this`lastPeriodNumber, this`yearPeriods
      ensures periods' == periods + [d] && last'
      ensures (lastPeriod, lastPeriodNumber) == if last then (old(lastPeriod), old(lastPeriodNumber)) else (Some(d), number)
      ensures yearPeriods == old(yearPeriods) + (if d.month == 1 then [d] else [])
      ensures yearsLeft' == yearsLeft - (if d.month == 1 then 1 else 0)
    {
      periods', yearsLeft', last' := periods, yearsLeft, last;
      if !last {
        lastPeriod := Some(d);
        lastPeriodNumber := number;
        last' := true;
      }
      periods' := periods + [d];
      if d.month == 1 {
        yearsLeft' := yearsLeft - 1;
        yearPeriods := yearPeriods + [d];
      }
    }

    /** `getDataFullPack`: indexes the cells, then computes the periods. */
    method GetDataFullPack(cells: seq<Cell>, active: YearMonth)
      requires ValidActive(active)
      modifies this
      ensures groups == GroupNames(cells) && cellsByGroup == GroupMembers(Annotated(cells))
      ensures cellsByCode == CodeCells(Annotated(cells)) && excelRows == ExcelRows(old(excelRows), cells)
      ensures periods == AllPeriods(active, NumPeriods(bank), NumYears(bank), bank.Some?)
      ensures NumPeriods(bank) > 0 ==> lastPeriod == Some(Latest(active)) && lastPeriodNumber == PeriodNumber(Latest(active))
      ensures NumPeriods(bank) <= 0 ==> lastPeriod == old(lastPeriod) && lastPeriodNumber == old(lastPeriodNumber)
      ensures yearPeriods == old(yearPeriods) + YearPeriodsAdded(active, NumPeriods(bank), NumYears(bank), bank.Some?)
    {
      GroupCells(cells);
      periods := GetPeriods(active);
    }

    /** The grouping loop of `getDataFullPack`. The three indexes start
        empty; `excelRows` keeps what earlier runs put in it. */
    method GroupCells(cells: seq<Cell>)
      modifies this`groups, this`cellsByGroup, this`cellsByCode, this`excelRows
      ensures groups == GroupNames(cells) && cellsByGroup == GroupMembers(Annotated(cells))
      ensures cellsByCode == CodeCells(Annotated(cells)) && excelRows == ExcelRows(old(excelRows), cells)
    {
      groups := map[];
      cellsByGroup := map[];
      cellsByCode := map[];
      var titled: seq<int> := [];
      ghost var a := Annotated(cells);
      var i := 0;
      while i < |cells|
        invariant 0 <= i <= |cells|
        invariant groups == GroupNames(cells[..i]) && cellsByGroup == GroupMembers(a[..i])
        invariant groups.Keys == cellsByGroup.Keys
        invariant cellsByCode == CodeCells(a[..i]) && excelRows == ExcelRows(old(excelRows), cells[..i])
        invariant titled == TitledGroups(cells, i)
      {
        var c := cells[i];
        var shows := c.groupId !in titled && c.isShowName;
        var shown := ShownCell(c, shows);
        TitleStep(cells, i);
        SliceSnoc(cells, i);
        IndexesStep(old(excelRows), cells[..i], a[..i], shown);
        if shows {
          titled := titled + [c.groupId];
        }
        FileCell(shown);
        i := i + 1;
      }
      assert cells[..i] == cells && a[..i] == a;
    }

    /** The rest of one pass of the grouping loop: a big group met for the
        first time gets the cell's name and an empty list, the cell is
        appended to its big group's list and filed under its code, and its
        Excel row is recorded. */
    method FileCell(x: ShownCell)
      modifies this`groups, this`cellsByGroup, this`cellsByCode, this`excelRows
      ensures var big := x.cell.bigGroupId;
              groups == if big in old(cellsByGroup) then old(groups) else old(groups)[big := x.cell.name]
      ensures var big := x.cell.bigGroupId;
              cellsByGroup == old(cellsByGroup)[big := (if big in old(cellsByGroup) then old(cellsByGroup)[big] else []) + [x]]
      ensures cellsByCode == old(cellsByCode)[x.cell.code := x]
      ensures excelRows == old(excelRows)[x.cell.code := x.cell.excelRow]
    {
      var big := x.cell.bigGroupId;
      if big !in cellsByGroup {
        cellsByGroup := cellsByGroup[big := []];
        groups := groups[big := x.cell.name];
      }
      cellsByGroup := cellsByGroup[big := cellsByGroup[big] + [x]];
      cellsByCode := cellsByCode[x.cell.code := x];
      excelRows := excelRows[x.cell.code := x.cell.excelRow];
    }
  }

  /** Quarter starts numbered consecutively, four to a year. */
  function QuarterIndex(d: Date): int {
    4 * d.year + (d.month - 1) / 3
  }

  /** The number of the quarter start the loop's cursor `($z, $y)` is on. */
  function Position(z: int, y: int): int {
    4 * y + 3 - z
  }

  lemma {:induction false} PrevNIndex(d: Date, k: nat)
    requires QuarterStart(d)
    ensures QuarterIndex(PrevN(d, k)) == QuarterIndex(d) - k
  {
    if k > 0 {
      PrevNIndex(d, k - 1);
    }
  }

  /** What the period loop learns from its cursor: the quarter start it is
      on is eligible exactly when it is not after `Latest`, it is the
      `i`-th of the series when the cursor has moved back `i` quarters
      from `Latest`, and the first period taken is numbered `$z + 1`. */
  lemma CursorAt(active: YearMonth, i: nat, z: int, y: int)
    requires ValidActive(active) && 0 <= z <= 3
    ensures var c := Date(1, CursorMonth(z), y);
            var top := QuarterIndex(Latest(active));
            && (Eligible(c, active) <==> Position(z, y) <= top)
            && (Position(z, y) == top - i ==> c == PrevN(Latest(active), i))
            && (Position(z, y) == top ==> z + 1 == PeriodNumber(Latest(active)))
  {
    var c := Date(1, CursorMonth(z), y);
    var latest := Latest(active);
    if Position(z, y) == QuarterIndex(latest) - i {
      PrevNIndex(latest, i);
      var p := PrevN(latest, i);
      assert p.month == c.month && p.year == c.year;
    }
  }
}
