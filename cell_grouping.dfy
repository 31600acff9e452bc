/** How the accounting pack arranges its balance-sheet cells
    (Accounting.php, getDataFullPack and getTableStructureForBank): which
    cell shows its small group's title, what each big group and each code
    collects, and the key that orders the cells. */
module CellGrouping {
  import opened PhpValues

  /** One row of the table structure. */
  datatype Cell = Cell(bigGroupId: int, name: string, groupId: int, isShowName: bool,
                       code: int, excelRow: Option<int>)

  /** A cell as stored, with the `showSmallTitle` flag the loop adds. */
  datatype ShownCell = ShownCell(cell: Cell, showSmallTitle: bool)

  /** A cell shows its small group's title when it asks to show the name and
      no earlier cell of the same small group both asked and showed it. */
  predicate ShowsTitle(cells: seq<Cell>, k: int)
    requires 0 <= k < |cells|
    ensures ShowsTitle(cells, k) ==> cells[k].isShowName
    ensures k == 0 ==> (ShowsTitle(cells, k) <==> cells[k].isShowName)
  {
    cells[k].isShowName &&
    forall j :: 0 <= j < k ==> !(cells[j].isShowName && cells[j].groupId == cells[k].groupId)
  }

  /** The cells with their `showSmallTitle` flags. */
  function Annotated(cells: seq<Cell>): (a: seq<ShownCell>)
    ensures |a| == |cells|
  {
    seq(|cells|, k requires 0 <= k < |cells| => ShownCell(cells[k], ShowsTitle(cells, k)))
  }

  /** Every cell keeps its data and gets the flag `ShowsTitle` gives it. */
  lemma AnnotatedAt(cells: seq<Cell>, k: int)
    requires 0 <= k < |cells|
    ensures Annotated(cells)[k] == ShownCell(cells[k], ShowsTitle(cells, k))
  {
  }

  /** The small groups titled by the first `n` cells, in the order the
      loop records them. */
  function TitledGroups(cells: seq<Cell>, n: int): seq<int>
    requires 0 <= n <= |cells|
  {
    if n == 0 then []
    else
      var t := TitledGroups(cells, n - 1);
      var c := cells[n - 1];
      if c.groupId !in t && c.isShowName then t + [c.groupId] else t
  }

  /** A small group is recorded exactly when one of the first `n` cells
      asked to show its name. */
  lemma {:induction false} TitledGroupsMeaning(cells: seq<Cell>, n: int)
    requires 0 <= n <= |cells|
    ensures forall g :: g in TitledGroups(cells, n) <==> exists j :: 0 <= j < n && cells[j].isShowName && cells[j].groupId == g
  {
    if n > 0 {
      TitledGroupsMeaning(cells, n - 1);
    }
  }

  /** The loop's test (the small group not yet recorded and the cell asks)
      is `ShowsTitle`, so the loop stores the annotated cell. */
  lemma TitleStep(cells: seq<Cell>, i: int)
    requires 0 <= i < |cells|
    ensures var shows := cells[i].groupId !in TitledGroups(cells, i) && cells[i].isShowName;
            && Annotated(cells)[..i + 1] == Annotated(cells)[..i] + [ShownCell(cells[i], shows)]
            && TitledGroups(cells, i + 1) == if shows then TitledGroups(cells, i) + [cells[i].groupId] else TitledGroups(cells, i)
  {
    assert Annotated(cells)[..i + 1] == Annotated(cells)[..i] + [Annotated(cells)[i]];
    TitledGroupsMeaning(cells, i);
    AnnotatedAt(cells, i);
  }

  /** Two cells of one small group never both show its title. */
  lemma AtMostOneTitlePerGroup(cells: seq<Cell>, i: int, j: int)
    requires 0 <= i < j < |cells| && cells[i].groupId == cells[j].groupId
    ensures !(ShowsTitle(cells, i) && ShowsTitle(cells, j))
  {
  }

  /** A small group with a cell that asks to show the name has a cell that
      shows the title, and no cell before it in that group asked. */
  lemma {:induction false} SomeCellShowsTitle(cells: seq<Cell>, k: int) returns (t: int)
    requires 0 <= k < |cells| && cells[k].isShowName
    ensures 0 <= t <= k && cells[t].groupId == cells[k].groupId && ShowsTitle(cells, t)
    decreases k
  {
    if ShowsTitle(cells, k) {
      t := k;
    } else {
      var j :| 0 <= j < k && cells[j].isShowName && cells[j].groupId == cells[k].groupId;
      t := SomeCellShowsTitle(cells, j);
    }
  }

  /** The cells of one big group, in input order. */
  function Select(a: seq<ShownCell>, big: int): (r: seq<ShownCell>)
    ensures |r| <= |a|
  {
    if a == [] then []
    else
      var r0 := Select(a[..|a| - 1], big);
      if a[|a| - 1].cell.bigGroupId == big then r0 + [a[|a| - 1]] else r0
  }

  /** `Select` keeps exactly the cells of the big group. */
  lemma {:induction false} SelectMeaning(a: seq<ShownCell>, big: int)
    ensures forall x :: x in Select(a, big) <==> x in a && x.cell.bigGroupId == big
  {
    if a != [] {
      var p := a[..|a| - 1];
      SelectMeaning(p, big);
      assert a == p + [a[|a| - 1]];
      assert forall x :: x in a <==> x in p || x == a[|a| - 1];
    }
  }

  /** The total size of the big groups listed in `bigs`. */
  function SumSizes(a: seq<ShownCell>, bigs: seq<int>): nat {
    if bigs == [] then 0 else SumSizes(a, bigs[..|bigs| - 1]) + |Select(a, bigs[|bigs| - 1])|
  }

  /** Appending a cell grows the one group it belongs to by one. */
  lemma {:induction false} SumSizesSnoc(a: seq<ShownCell>, x: ShownCell, bigs: seq<int>)
    requires forall i, j :: 0 <= i < j < |bigs| ==> bigs[i] != bigs[j]
    ensures SumSizes(a + [x], bigs) == SumSizes(a, bigs) + (if x.cell.bigGroupId in bigs then 1 else 0)
  {
    if bigs != [] {
      var p := bigs[..|bigs| - 1];
      assert (a + [x])[..|a + [x]| - 1] == a;
      SumSizesSnoc(a, x, p);
      assert x.cell.bigGroupId in bigs <==> x.cell.bigGroupId in p || x.cell.bigGroupId == bigs[|bigs| - 1];
    }
  }

  /** Listing every big group once, the group sizes add up to the number of
      cells: every cell lands in exactly one group. */
  lemma {:induction false} GroupSizesSumToCellCount(a: seq<ShownCell>, bigs: seq<int>)
    requires forall i, j :: 0 <= i < j < |bigs| ==> bigs[i] != bigs[j]
    requires forall x :: x in a ==> x.cell.bigGroupId in bigs
    ensures SumSizes(a, bigs) == |a|
  {
    if a == [] {
      SumSizesEmpty(bigs);
    } else {
      var p := a[..|a| - 1];
      assert p + [a[|a| - 1]] == a;
      GroupSizesSumToCellCount(p, bigs);
      SumSizesSnoc(p, a[|a| - 1], bigs);
    }
  }

  lemma {:induction false} SumSizesEmpty(bigs: seq<int>)
    ensures SumSizes([], bigs) == 0
  {
    if bigs != [] {
      SumSizesEmpty(bigs[..|bigs| - 1]);
    }
  }

  /** The name of the first cell of a big group, if it has one. */
  function FirstName(cells: seq<Cell>, big: int): (r: Option<string>)
  {
    if cells == [] then None
    else
      var r0 := FirstName(cells[..|cells| - 1], big);
      if r0.Some? then r0
      else if cells[|cells| - 1].bigGroupId == big then Some(cells[|cells| - 1].name)
      else None
  }

  /** A big group has a first name exactly when it has a cell, and the name
      is that of its first cell. */
  lemma {:induction false} FirstNameMeaning(cells: seq<Cell>, big: int)
    ensures var r := FirstName(cells, big);
            && (r.Some? <==> exists k :: 0 <= k < |cells| && cells[k].bigGroupId == big)
            && (r.Some? ==> exists k :: 0 <= k < |cells| && cells[k].bigGroupId == big && cells[k].name == r.value &&
                                         forall j :: 0 <= j < k ==> cells[j].bigGroupId != big)
  {
    if cells != [] {
      var p := cells[..|cells| - 1];
      FirstNameMeaning(p, big);
      assert forall k :: 0 <= k < |p| ==> p[k] == cells[k];
    }
  }

  /** The last stored cell with a code, if there is one. */
  function LastWithCode(a: seq<ShownCell>, code: int): (r: Option<ShownCell>)
  {
    if a == [] then None
    else if a[|a| - 1].cell.code == code then Some(a[|a| - 1])
    else LastWithCode(a[..|a| - 1], code)
  }

  /** A code has a last cell exactly when some cell has it, and no later
      cell has it. */
  lemma {:induction false} LastWithCodeMeaning(a: seq<ShownCell>, code: int)
    ensures var r := LastWithCode(a, code);
            && (r.Some? <==> exists k :: 0 <= k < |a| && a[k].cell.code == code)
            && (r.Some? ==> exists k :: 0 <= k < |a| && a[k] == r.value && r.value.cell.code == code &&
                                         forall j :: k < j < |a| ==> a[j].cell.code != code)
  {
    if a != [] && a[|a| - 1].cell.code != code {
      var p := a[..|a| - 1];
      LastWithCodeMeaning(p, code);
      assert forall k :: 0 <= k < |p| ==> p[k] == a[k];
    }
  }

  /** The big groups with at least one cell. */
  function BigIds(cells: seq<Cell>): set<int> {
    set k | 0 <= k < |cells| :: cells[k].bigGroupId
  }

  /** The codes some cell has. */
  function Codes(cells: seq<Cell>): set<int> {
    set k | 0 <= k < |cells| :: cells[k].code
  }

  // ---------------------------------------------------------------------
  // The indexes the grouping loop fills, cell by cell

  /** `groups`: a big group is named once, when its first cell is met. */
  function GroupNames(cells: seq<Cell>): map<int, string> {
    if cells == [] then map[]
    else
      var m := GroupNames(cells[..|cells| - 1]);
      var c := cells[|cells| - 1];
      if c.bigGroupId in m then m else m[c.bigGroupId := c.name]
  }

  /** `cellsByGroup`: every cell is appended to its big group's list. */
  function GroupMembers(a: seq<ShownCell>): map<int, seq<ShownCell>> {
    if a == [] then map[]
    else
      var m := GroupMembers(a[..|a| - 1]);
      var x := a[|a| - 1];
      var big := x.cell.bigGroupId;
      m[big := (if big in m then m[big] else []) + [x]]
  }

  /** `cellsByCode`: every cell overwrites the entry of its code. */
  function CodeCells(a: seq<ShownCell>): map<int, ShownCell> {
    if a == [] then map[]
    else
      var m := CodeCells(a[..|a| - 1]);
      var x := a[|a| - 1];
      m[x.cell.code := x]
  }

  /** `excelRows`, starting from `rows`: every cell overwrites the row of
      its code. */
  function ExcelRows(rows: map<int, Option<int>>, cells: seq<Cell>): map<int, Option<int>> {
    if cells == [] then rows
    else
      var m := ExcelRows(rows, cells[..|cells| - 1]);
      var c := cells[|cells| - 1];
      m[c.code := c.excelRow]
  }

  lemma SliceSnoc(cells: seq<Cell>, i: int)
    requires 0 <= i < |cells|
    ensures cells[..i + 1] == cells[..i] + [cells[i]]
  {
  }

  /** One more cell, one more step of each index. */
  lemma IndexesStep(rows: map<int, Option<int>>, cells: seq<Cell>, a: seq<ShownCell>, x: ShownCell)
    ensures var m := GroupNames(cells);
            GroupNames(cells + [x.cell]) == if x.cell.bigGroupId in m then m else m[x.cell.bigGroupId := x.cell.name]
    ensures var m := GroupMembers(a);
            var big := x.cell.bigGroupId;
            GroupMembers(a + [x]) == m[big := (if big in m then m[big] else []) + [x]]
    ensures GroupNames(cells + [x.cell]).Keys == GroupNames(cells).Keys + {x.cell.bigGroupId}
    ensures GroupMembers(a + [x]).Keys == GroupMembers(a).Keys + {x.cell.bigGroupId}
    ensures CodeCells(a + [x]) == CodeCells(a)[x.cell.code := x]
    ensures ExcelRows(rows, cells + [x.cell]) == ExcelRows(rows, cells)[x.cell.code := x.cell.excelRow]
  {
    assert (cells + [x.cell])[..|cells|] == cells;
    assert (a + [x])[..|a|] == a;
  }

  /** `groups` and `cellsByGroup` are filed under the same big groups. */
  lemma {:induction false} SameGroups(cells: seq<Cell>, a: seq<ShownCell>)
    requires |a| == |cells| && forall k :: 0 <= k < |a| ==> a[k].cell == cells[k]
    ensures GroupNames(cells).Keys == GroupMembers(a).Keys
  {
    if a != [] {
      SameGroups(cells[..|cells| - 1], a[..|a| - 1]);
    }
  }

  /** `groups` holds every big group with a cell, named after its first
      cell. */
  lemma {:induction false} GroupNamesMeaning(cells: seq<Cell>)
    ensures GroupNames(cells).Keys == BigIds(cells)
    ensures forall big :: big in GroupNames(cells) ==> FirstName(cells, big) == Some(GroupNames(cells)[big])
  {
    if cells != [] {
      var p := cells[..|cells| - 1];
      var c := cells[|cells| - 1];
      GroupNamesMeaning(p);
      assert cells == p + [c];
      assert BigIds(cells) == BigIds(p) + {c.bigGroupId} by {
        assert forall k :: 0 <= k < |p| ==> cells[k] == p[k];
      }
      if c.bigGroupId !in GroupNames(p) {
        FirstNameMeaning(p, c.bigGroupId);
        assert forall k :: 0 <= k < |p| ==> p[k].bigGroupId in BigIds(p);
      }
    }
  }

  /** `cellsByGroup` holds every big group with a cell, and lists exactly
      its cells in order. */
  lemma {:induction false} GroupMembersMeaning(a: seq<ShownCell>)
    ensures forall big :: big in GroupMembers(a) <==> exists k :: 0 <= k < |a| && a[k].cell.bigGroupId == big
    ensures forall big :: big in GroupMembers(a) ==> GroupMembers(a)[big] == Select(a, big)
  {
    if a != [] {
      var p := a[..|a| - 1];
      var x := a[|a| - 1];
      GroupMembersMeaning(p);
      assert forall k :: 0 <= k < |p| ==> a[k] == p[k];
      if x.cell.bigGroupId !in GroupMembers(p) {
        SelectNone(p, x.cell.bigGroupId);
      }
    }
  }

  lemma {:induction false} SelectNone(s: seq<ShownCell>, big: int)
    requires forall k :: 0 <= k < |s| ==> s[k].cell.bigGroupId != big
    ensures Select(s, big) == []
  {
    if s != [] {
      SelectNone(s[..|s| - 1], big);
    }
  }

  /** `cellsByCode` holds, per code, the last cell with it. */
  lemma {:induction false} CodeCellsMeaning(a: seq<ShownCell>)
    ensures forall code :: code in CodeCells(a) <==> LastWithCode(a, code).Some?
    ensures forall code :: code in CodeCells(a) ==> LastWithCode(a, code) == Some(CodeCells(a)[code])
  {
    if a != [] {
      CodeCellsMeaning(a[..|a| - 1]);
    }
  }

  /** `excelRows` gains exactly the codes of the cells, and every other
      code keeps its earlier row. */
  lemma {:induction false} ExcelRowsKeys(rows: map<int, Option<int>>, cells: seq<Cell>)
    ensures ExcelRows(rows, cells).Keys == rows.Keys + Codes(cells)
    ensures forall code :: code in rows && code !in Codes(cells) ==> ExcelRows(rows, cells)[code] == rows[code]
  {
    if cells != [] {
      var p := cells[..|cells| - 1];
      ExcelRowsKeys(rows, p);
      assert Codes(cells) == Codes(p) + {cells[|cells| - 1].code} by {
        assert forall k :: 0 <= k < |p| ==> cells[k] == p[k];
      }
    }
  }

  /** The row stored for a code of the cells is that of the last cell with
      the code. */
  lemma {:induction false} ExcelRowsLast(rows: map<int, Option<int>>, cells: seq<Cell>, code: int) returns (k: int)
    requires code in Codes(cells)
    ensures 0 <= k < |cells| && cells[k].code == code
    ensures forall j :: k < j < |cells| ==> cells[j].code != code
    ensures code in ExcelRows(rows, cells) && ExcelRows(rows, cells)[code] == cells[k].excelRow
  {
    var p := cells[..|cells| - 1];
    if cells[|cells| - 1].code == code {
      k := |cells| - 1;
    } else {
      var w :| 0 <= w < |cells| && cells[w].code == code;
      assert p[w] == cells[w];
      k := ExcelRowsLast(rows, p, code);
    }
  }

  /** The two code indexes agree: the row stored for a code is the Excel
      row of the cell stored for it. */
  lemma {:induction false} RowsMatchCodeCells(rows: map<int, Option<int>>, cells: seq<Cell>, a: seq<ShownCell>)
    requires |a| == |cells| && forall k :: 0 <= k < |a| ==> a[k].cell == cells[k]
    ensures forall code :: code in CodeCells(a) ==>
              code in ExcelRows(rows, cells) && ExcelRows(rows, cells)[code] == CodeCells(a)[code].cell.excelRow
  {
    if a != [] {
      RowsMatchCodeCells(rows, cells[..|cells| - 1], a[..|a| - 1]);
    }
  }

  // ---------------------------------------------------------------------
  // The sort key of getTableStructureForBank

  /** Codes below 2000 keep their position; a total (a multiple of 100 from
      2000 on) moves 100 up; any other code is its own key. */
  function SortKey(code: int, index: int): (k: int)
    ensures code < 2000 ==> k == index
    ensures code >= 2000 ==> k >= 2000
  {
    if code < 2000 then index
    else if code % 100 == 0 then code + 100
    else code
  }

  /** A total sorts after the lines of its block and before the lines of
      the next block. */
  lemma TotalAfterItsLines(total: int, line: int, index: int, index': int)
    requires total >= 2000 && total % 100 == 0
    requires line % 100 != 0
    ensures total < line < total + 100 ==> SortKey(line, index') < SortKey(total, index)
    ensures total + 100 < line ==> SortKey(total, index) < SortKey(line, index')
  {
  }

  /** From 2000 on, different codes get different keys. */
  lemma SortKeyInjectiveFrom2000(c: int, d: int, i: int, j: int)
    requires c >= 2000 && d >= 2000 && c != d
    ensures SortKey(c, i) != SortKey(d, j)
  {
  }

  /** Codes below 2000 at positions below 2000 come first, in their
      original order. */
  lemma EarlyCodesFirst(c: int, d: int, i: int, j: int)
    requires c < 2000 && 0 <= i < 2000
    ensures d >= 2000 ==> SortKey(c, i) < SortKey(d, j)
    ensures d < 2000 && i < j ==> SortKey(c, i) < SortKey(d, j)
  {
  }
}
