# Stage workflow engine and accounting pack, in Dafny

This project models two parts of a PHP back office that handles
applications to banks.

**The stage engine (`StagesHandler.php`).** It holds one application
record (the "statement"), whose fields are:

- the current stage id;
- the current sub-stage id;
- the `scoring_wait` flag;
- the remembered `scoring_next_stages` transition.

The engine builds a catalog of the bank group's stages, indexed by id and by
name. Using it, it answers:

- whether the statement is at a given stage;
- whether it is before or after a stage;
- on whose side the current stage is;
- which stages it may move to next.

It moves the statement with `setStage`, `setSubStage` and `forceSetStage`.
While the statement waits for automatic scoring, a transition is remembered
and redirected to the `autoCheck` stage.

**The accounting pack (`Accounting.php`).** Two pieces are modelled:

- `getPeriods` walks the quarter starts (1 January, April, July, October)
  backwards from an active year and month. It takes the ones whose first
  month is over by the active month, records the latest, collects the January periods as year
  periods and, with a bank, adds earlier year starts.
- The grouping loop of `getDataFullPack` files the balance-sheet cells by
  big group and by code. It flags the one cell per small group that shows
  the group title, and records each code's Excel row.

The closure that orders the cells by code is modelled too.

Modules:

- `PhpValues` (`php_values.dfy`) holds the PHP semantics the engine relies
  on: `Option`, loose values (`null`, `false`, strings), PHP 8's `<=>`,
  `is_numeric` and `strpos`.
- `StageCatalog` (`stage_catalog.dfy`) holds the catalog rows and entries,
  and the catalog the constructor builds, as a fold over the rows.
- `StageQueries` (`stage_queries.dfy`) holds the read-only questions:
  name/id resolution, `checkStage`, priorities with `before`/`after`, `on`,
  edge filtering and `canGoTo`.
- `StageEngine` (`stages_handler.dfy`) holds the classes `Statement` and
  `StagesHandler`. Their methods are the source's loops and mutations, each
  proved against the functions above.
- `Periods` (`periods.dfy`) holds quarter-start arithmetic and a reference
  definition of the periods `getPeriods` collects.
- `CellGrouping` (`cell_grouping.dfy`) holds the title rule, the indexes of
  the grouping loop as folds over the cells, their meaning, and the sort key.
- `AccountingPack` (`accounting.dfy`) holds the class `Accounting`, whose
  methods are `getPeriods`, its two loops and the grouping loop.

Mapping of the source's fields:

- A catalog entry keeps the source's labels. The key `priority` holds the
  row's `side` column, and `is_hidden_substage` holds the whole row
  (`StagesHandler.php:77-78`). No `side` key is stored, so `on` compares
  against whatever a role named `side` left there, usually nothing.
- Each catalog entry's role texts sit in the map `texts`, apart from the
  entry's other fields. In the source they share one array with `id`,
  `name`, `priority` and `is_hidden_substage` (`StagesHandler.php:74-79`,
  `:85-86`); see "Left out".
- An absent sub-stage is any id the catalog does not hold.
- `save()` is an outcome fixed per statement, plus a count of calls.
- The per-bank `after<Name>` edge tables are the parameter `edges`, a map
  from stage name to candidate map.

## Model

| member | source | states |
|---|---|---|
| PhpValues.Compare | StagesHandler.php:372-399 | PHP 8 `<=>` on the loose values the priorities produce: -1, 0 or 1, and 0 on equal operands |
| PhpValues.LexCompare | StagesHandler.php:372-399 | string comparison of non-numeric strings is -1, 0 or 1, and 0 exactly on equal strings |
| PhpValues.CompareAntisymmetric | StagesHandler.php:395-398 | swapping the operands negates `<=>`, so `$a >= $b` is `$b <= $a` |
| PhpValues.Contains | StagesHandler.php:475 | `strpos(h, n) !== false` holds exactly when `n` occurs at some index of `h` |
| StageCatalog.AddRow | StagesHandler.php:72-88 | one row adds its id and its name to the indexes, files the entry of a new id under its own name, and leaves every other id's entry alone |
| StageCatalog.BuildCatalog | StagesHandler.php:72-90 | the catalog holds exactly the rows' ids, each under the name its rows carry, and every row's name |
| StageCatalog.BuildCatalogWellFormed | StagesHandler.php:72-90 | every id is filed under itself, and every name leads to an entry of that name whose id leads back |
| StageCatalog.FirstRowFixesEntry | StagesHandler.php:73-84 | the first row of an id fixes the entry's id, name, `priority` (the side column) and `is_hidden_substage` (the row) |
| StageCatalog.TextsAreLastRowPerRole | StagesHandler.php:73-87 | a role text is present exactly when some row of the id has that role, and it is the last such row's text |
| StageCatalog.IndexesAgree | StagesHandler.php:83-87 | with unique names, the by-id and by-name indexes hold the same entry for every stage |
| StageQueries.FromNameToId | StagesHandler.php:492-503 | a numeric string is returned as its value without a lookup; another string resolves exactly when it is a catalog name, to that stage's id |
| StageQueries.FromIdToName | StagesHandler.php:512-523 | the stored name when the id is in the catalog, `false` (None) otherwise |
| StageQueries.NameIdRoundTrip | StagesHandler.php:492-523 | a non-numeric catalog name comes back from name → id → name |
| StageQueries.IdNameRoundTrip | StagesHandler.php:492-523 | with agreeing indexes, an id with a non-numeric name comes back from id → name → id |
| StageQueries.Resolve | StagesHandler.php:534-536 | strings go through `fromNameToId`, integers are taken as they are |
| StageQueries.CurrentStage | StagesHandler.php:265-276 | the entry of the current stage id, `false` (None) when the catalog lacks it; with every id filed under itself, the entry's id is the current stage id |
| StageQueries.CurrentSubStage | StagesHandler.php:285-296 | the entry of the current sub-stage id, `false` (None) when the catalog lacks it; with every id filed under itself, the entry's id is the current sub-stage id |
| StageQueries.CheckStage | StagesHandler.php:532-547 | a match needs a resolved nonzero id; with every id filed under itself, that id is the current sub-stage (above 100) or the current stage (otherwise) |
| StageQueries.CheckStageMeaning | StagesHandler.php:532-547 | an unresolved reference or id 0 never matches; an id above 100 matches exactly the current sub-stage, any other id exactly the current stage |
| StageQueries.CheckStageLooksAtOneField | StagesHandler.php:542-546 | a sub-stage test ignores the stage field and a stage test ignores the sub-stage field |
| StageQueries.Matches | StagesHandler.php:411-421 | an empty list never matches; a list of one matches exactly when its element passes `checkStage` |
| StageQueries.Priorities | StagesHandler.php:557-576 | throws (None) exactly when the target does not resolve or is 0; the target's priority is its side column or `null`; the current one is the side column of the current sub-stage (target above 100) or stage (otherwise), `false` when that id has no entry |
| StageQueries.Before | StagesHandler.php:364-377 | `null` exactly when `getPriority` throws |
| StageQueries.After | StagesHandler.php:387-400 | `null` exactly when `getPriority` throws |
| StageQueries.OrderingDuality | StagesHandler.php:364-400 | `before(s, true)` is `!after(s, false)` and `after(s, true)` is `!before(s, false)`, both `null` together |
| StageQueries.StrictImpliesInclusive | StagesHandler.php:364-400 | a strict `true` implies the inclusive `true` in both directions |
| StageQueries.OrderingLooksAtOneField | StagesHandler.php:557-576 | `before` and `after` against a sub-stage read only the current sub-stage, and against a stage only the current stage |
| StageQueries.BeforeComparesSides | StagesHandler.php:364-377 | for a named stage up to id 100 and a known current stage, `before` compares the two side columns: numerically when both are digit strings, as strings otherwise |
| StageQueries.UnknownCurrentNotAfterEmptySide | StagesHandler.php:364-400 | a current priority of `false` against a falsy target priority is never strictly after it and always at or before it |
| StageQueries.UnknownStageNotAfterEmptySide | StagesHandler.php:569-575 | an unknown current stage is never strictly after a known target id up to 100 whose side column is empty |
| StageQueries.CurrentSide | StagesHandler.php:265-276 | `false` for an unknown current stage, otherwise a string or `null` |
| StageQueries.On | StagesHandler.php:345-354 | `on('moder')` asks about `broker`; for an unknown current stage `on` holds exactly when the side asked about is falsy |
| StageQueries.OnIgnoresSideColumn | StagesHandler.php:345-354 | without a role named `side`, `on` holds exactly for an empty side (known stage) or a falsy side (unknown stage), `moder` read as `broker` |
| StageQueries.ActingRole | StagesHandler.php:48-52 | `auto` without a user, `agent` acts as `client`, any other role as itself; never `agent` |
| StageQueries.LookupId | StagesHandler.php:479 | the by-id entry of a candidate, `null` when the catalog lacks it |
| StageQueries.Keeps | StagesHandler.php:469-478 | a rule that is not a non-empty array keeps the candidate; a `role` equal to the acting role defers to `sub`; a kept candidate's `role` is at least as long as the acting role |
| StageQueries.Filtered | StagesHandler.php:465-483 | a subset of the candidate keys, each mapped to its by-id entry |
| StageQueries.FilteredDropsOnlyFailedRules | StagesHandler.php:469-478 | a candidate is dropped exactly when its rule is a non-empty array whose `sub` fails `checkStage` or whose `role` lacks the acting role as a substring |
| StageQueries.NextStages | StagesHandler.php:303-316 | the filtered edge table of the current stage's name, within that table's keys |
| StageQueries.AllowedTarget | StagesHandler.php:325-336 | an id is returned only when it is the resolved stage, a key of the next stages and not the current stage |
| StageQueries.AllowedTargetComplete | StagesHandler.php:325-336 | every next stage other than the current one is returned for its non-numeric name |
| StageQueries.CurrentStageNotAllowed | StagesHandler.php:330 | `canGoTo` of the current stage is always `false` |
| StageQueries.Defers | StagesHandler.php:216 | no deferral without `scoring_wait`; with it, an id without an entry or with a name outside the override stages (`denied`, `deniedByBank`, `canceled`) is deferred, and an override stage never is |
| StageQueries.SubStageTarget | StagesHandler.php:163-177 | the resolved id, accepted exactly when it is 0 or at least 100 |
| StageQueries.Id100PassesBothGuards | StagesHandler.php:163-177 | 100 is accepted as a sub-stage by `setSubStage` (line 168), yet `checkStage` (line 542) reads 100 as a stage and does not match it |
| StageEngine.Statement.Save | StagesHandler.php:150 | returns the statement's fixed save outcome and counts one more save |
| StageEngine.StagesHandler.constructor | StagesHandler.php:44-91 | the row loop builds exactly `BuildCatalog(rows)`; the role is the acting role |
| StageEngine.StagesHandler.Is | StagesHandler.php:409-422 | `is` holds exactly when the single reference, or some element of the list, passes `checkStage` |
| StageEngine.StagesHandler.IsNot | StagesHandler.php:431-444 | `isNot(x)` is `!is(x)` for a single reference and for a list |
| StageEngine.StagesHandler.IsSuccessfulFinishStage | StagesHandler.php:108-111 | holds exactly when the finish stage passes `checkStage` |
| StageEngine.StagesHandler.IsAnyFinishStage | StagesHandler.php:128-131 | holds exactly when the finish stage, `canceled`, `denied` or `deniedByBank` passes `checkStage` |
| StageEngine.StagesHandler.FilterStages | StagesHandler.php:465-483 | the loop returns exactly `Filtered` of the candidates |
| StageEngine.StagesHandler.GetNextStages | StagesHandler.php:303-316 | exactly the next stages of the current stage |
| StageEngine.StagesHandler.CanGoTo | StagesHandler.php:325-336 | exactly `AllowedTarget` of the name |
| StageEngine.StagesHandler.AutoScoring | StagesHandler.php:214-224 | a deferred transition is remembered with its sub-stage and redirected to `autoCheck` with no sub-stage; otherwise the inputs pass through and nothing changes |
| StageEngine.StagesHandler.SetSubStage | StagesHandler.php:163-177 | a refused name changes and saves nothing; an accepted one writes `substage_id`, saves once and returns the save result |
| StageEngine.StagesHandler.SetStage | StagesHandler.php:141-154 | a refused transition returns `false` and changes nothing; a permitted one writes the new stage even when the sub-stage is refused, and saves once or twice |
| StageEngine.StagesHandler.ForceSetStage | StagesHandler.php:187-204 | no reachability check; a deferred transition goes to `autoCheck`, keeps `substage_id` and remembers the resolved sub-stage; otherwise the sub-stage is written, 0 when it did not resolve |
| Periods.PeriodDate | Accounting.php:338-343 | a period is day 1 of the given month and year |
| Periods.Eligible | Accounting.php:298 | the loop's test on the cursor's month and year (its meaning is `EligibleMeaning`) |
| Periods.EligibleMeaning | Accounting.php:298 | counting months from year 0, a period is eligible exactly when its month comes before the active month |
| Periods.Prev | Accounting.php:313-318 | the cursor's step gives a quarter start strictly earlier |
| Periods.PrevIsImmediate | Accounting.php:313-318 | no quarter start lies strictly between a quarter start and its predecessor |
| Periods.PrevNEarlier | Accounting.php:313-318 | stepping back more quarters gives a strictly earlier date |
| Periods.Series | Accounting.php:296-305 | the loop takes exactly `n` periods |
| Periods.SeriesAt | Accounting.php:296-318 | the `k`-th period is the latest one stepped back `k` quarters |
| Periods.Latest | Accounting.php:297-298 | the first period taken is an eligible quarter start |
| Periods.LatestIsMaximal | Accounting.php:298 | no eligible quarter start is later than the first period taken |
| Periods.EligibleDownward | Accounting.php:298 | anything earlier than an eligible period is eligible |
| Periods.SeriesProperties | Accounting.php:296-318 | every period is a quarter start and eligible, the periods strictly decrease, and no eligible quarter start between the first and the last is skipped |
| Periods.CursorMonth | Accounting.php:297 | `periodMonth[3 - z]` is October, July, April, January for `z` = 0..3 |
| Periods.PeriodNumber | Accounting.php:299-303 | `lastPeriodNumber` is 1 for October up to 4 for January |
| Periods.JanuariesOfMeaning | Accounting.php:307-310 | the year periods the loop records are exactly its January periods |
| Periods.YearStarts | Accounting.php:321-327 | the year-start loop adds `numYears` periods, none when `numYears <= 0` |
| Periods.YearStartsAt | Accounting.php:321-327 | the `k`-th year start is 1 January of `y - k` |
| Periods.YearStartsDecreasing | Accounting.php:321-327 | the year starts strictly decrease, starting at 1 January of the cursor's year |
| Periods.SeriesDecreasing | Accounting.php:296-318 | the loop's periods strictly decrease |
| Periods.TailBoundary | Accounting.php:313-325 | the first year start comes before the last quarter taken |
| Periods.AllPeriods | Accounting.php:284-330 | the reference periods: the loop's series, then with a bank the year starts still wanted (its properties are `AllPeriodsStart` and `AllPeriodsDecreasing`) |
| Periods.AllPeriodsStart | Accounting.php:289-330 | without a bank exactly `numPeriods` periods are collected; when periods are taken the first is the latest eligible quarter start |
| Periods.Unique | Accounting.php:329 | `array_unique` never lengthens the list |
| Periods.UniqueMeaning | Accounting.php:329 | `array_unique` keeps every value of the list and adds none |
| Periods.UniqueOfDistinct | Accounting.php:329 | `array_unique` of a list without repeats is that list |
| Periods.AllPeriodsDecreasing | Accounting.php:284-330 | all collected periods strictly decrease, so the result has no duplicates and `array_unique` leaves it unchanged |
| CellGrouping.Annotated | Accounting.php:221-226 | every cell is stored, with its flag |
| CellGrouping.ShowsTitle | Accounting.php:221-226 | a cell that shows the title asked to show the name; the first cell shows it exactly when it asks |
| CellGrouping.AnnotatedAt | Accounting.php:221-226 | every cell keeps its data and shows the title exactly when it asks and no earlier cell of its small group both asked and showed it |
| CellGrouping.TitledGroupsMeaning | Accounting.php:221-224 | `$showSmallTitle` holds a small group exactly when an earlier cell of it asked to show the name |
| CellGrouping.TitleStep | Accounting.php:221-226 | the loop's `in_array` test decides the same flag as the title rule |
| CellGrouping.AtMostOneTitlePerGroup | Accounting.php:221-226 | two cells of one small group never both show the title |
| CellGrouping.SomeCellShowsTitle | Accounting.php:221-226 | a small group with a cell that asks shows the title on its first asking cell |
| CellGrouping.SelectMeaning | Accounting.php:228 | a big group's list holds exactly that group's cells |
| CellGrouping.GroupSizesSumToCellCount | Accounting.php:228 | the big groups' list sizes add up to the number of cells |
| CellGrouping.FirstNameMeaning | Accounting.php:212-215 | a big group has a name exactly when it has a cell, and it is its first cell's name |
| CellGrouping.LastWithCodeMeaning | Accounting.php:229 | a code has a stored cell exactly when some cell has it, and no later cell has it |
| CellGrouping.IndexesStep | Accounting.php:209-231 | one more cell is one more step of each of the four indexes |
| CellGrouping.SameGroups | Accounting.php:212-228 | `groups` and `cellsByGroup` have the same keys |
| CellGrouping.GroupNames | Accounting.php:212-215 | the fold that fills `groups` (its meaning is `GroupNamesMeaning`) |
| CellGrouping.GroupMembers | Accounting.php:212-228 | the fold that fills `cellsByGroup` (its meaning is `GroupMembersMeaning`) |
| CellGrouping.CodeCells | Accounting.php:229 | the fold that fills `cellsByCode` (its meaning is `CodeCellsMeaning`) |
| CellGrouping.ExcelRows | Accounting.php:230 | the fold that fills `excelRows` (its meaning is `ExcelRowsKeys` and `ExcelRowsLast`) |
| CellGrouping.GroupNamesMeaning | Accounting.php:212-215 | `groups` holds exactly the big groups with a cell, each named after its first cell |
| CellGrouping.GroupMembersMeaning | Accounting.php:212-228 | `cellsByGroup` holds exactly the big groups with a cell, each listing its cells in input order |
| CellGrouping.CodeCellsMeaning | Accounting.php:229 | `cellsByCode[code]` is the last cell with that code |
| CellGrouping.ExcelRowsKeys | Accounting.php:230 | `excelRows` gains exactly the cells' codes and keeps every other earlier row |
| CellGrouping.ExcelRowsLast | Accounting.php:230 | the row stored for a code is the last such cell's `excel_row` |
| CellGrouping.RowsMatchCodeCells | Accounting.php:229-230 | the row stored for a code is the Excel row of the cell stored for it |
| CellGrouping.SortKey | Accounting.php:253-261 | codes below 2000 keep their index; others get a key of at least 2000 |
| CellGrouping.TotalAfterItsLines | Accounting.php:253-261 | a total (a multiple of 100) sorts after the lines of its block and before those of the next block |
| CellGrouping.SortKeyInjectiveFrom2000 | Accounting.php:253-261 | from 2000 on, different codes get different keys |
| CellGrouping.EarlyCodesFirst | Accounting.php:253-261 | codes below 2000 at positions below 2000 come first, in their original order |
| AccountingPack.NumPeriods | Accounting.php:286 | the bank's `buh_periods_num`, or 5 without a bank |
| AccountingPack.NumYears | Accounting.php:287 | the bank's `buh_years_num`, or 1 without a bank |
| AccountingPack.JanuariesSnoc | Accounting.php:307-310 | taking a period records one year period and uses up one year exactly when it is in January |
| AccountingPack.PrevNIndex | Accounting.php:313-318 | each step back moves the quarter number down by one |
| AccountingPack.CursorAt | Accounting.php:296-318 | the cursor's quarter start is eligible exactly when it is not after the latest; `i` quarters back from it is the `i`-th period; the first period taken is numbered `z + 1` |
| AccountingPack.Accounting.constructor | Accounting.php:29-61 | the indexes and lists start empty, `lastPeriodNumber` at 1, no `lastPeriod`; the bank is fixed |
| AccountingPack.Accounting.GetPeriods | Accounting.php:284-330 | the result is the reference periods. When periods are taken, `lastPeriod` is the latest and `lastPeriodNumber` its number; otherwise both are unchanged. `yearPeriods` only grows, by the loop's Januaries and then the year starts |
| AccountingPack.Accounting.TakeQuarters | Accounting.php:289-319 | the first loop takes exactly the series counted back from the latest eligible quarter start, stops in its year, records `lastPeriod` and the Januaries, and uses up one year per January |
| AccountingPack.Accounting.TakePeriod | Accounting.php:298-311 | an eligible period is appended; the first one becomes `lastPeriod`; a January one is recorded and uses up a year |
| AccountingPack.Accounting.AddYearStarts | Accounting.php:321-327 | the second loop appends the year starts to both lists |
| AccountingPack.Accounting.GroupCells | Accounting.php:197-231 | after the loop, the four indexes are the folds over the flagged cells, the three maps having been reset first |
| AccountingPack.Accounting.FileCell | Accounting.php:212-230 | a new big group is named and started empty, the cell is appended to it and filed under its code, and its Excel row is recorded |
| AccountingPack.Accounting.GetDataFullPack | Accounting.php:196-235 | the indexes are the folds over the flagged cells; the periods are the reference periods; when periods are taken `lastPeriod` is the latest and `lastPeriodNumber` its number, otherwise both are unchanged; `yearPeriods` grows by the loop's Januaries and then the year starts |

## Left out

- The SQL catalog query and the bank's table-structure queries
  (`StagesHandler.php:57-70`, `getTableStructureForBank`,
  `getTableStructureUnique`) are out. Their rows and cells are inputs.
- The `auth()` user lookup is out. The signed-in user's role name is a
  constructor parameter.
- `save()` persistence is an external ORM call. It is a fixed outcome per
  statement plus a count of calls.
- The reflection dispatch to `after<Name>` methods, the tables those methods
  return, and `finishStage` are defined outside the files modelled here. They
  are the parameters `edges` and `finishStage`; `overWriteConditions` is the
  identity.
- `getStageName` is out. It reads `['text']` from a bare string and reads a
  hidden flag that holds a whole row, so it has no consistent meaning.
- PHP type errors are out; preconditions stand in for them:
  - `null` reaching the string-typed `fromNameToId` after a deferred
    `setStage`, or with `forceSetStage`'s default argument;
  - `null` reaching `fromNameToId` from a permitted, non-deferred
    `setStage` called without a sub-stage (`StagesHandler.php:147` passes
    the default `null` on to `:165`);
  - `getNextStages` on an unknown current stage.
- StageQueries.FromNameToId: `is_numeric` is modelled as a non-empty string
  of decimal digits. Signs, decimals, exponents and surrounding whitespace
  are not modelled.
- StageQueries.FromNameToId: a numeric string is carried as its integer
  value. Leading zeros are therefore not kept.
- PhpValues.Compare: strings compare numerically only when both are digit
  strings. Other numeric forms compare lexically.
- An unresolved sub-stage on the `forceSetStage` path (`false` written to
  an integer column) is modelled as 0.
- StageCatalog.BuildCatalog: it requires rows that share an id to share a
  name. Otherwise the source creates a by-name entry holding only role texts.
- StageCatalog.AddRow: role texts are kept apart from the entry's fields.
  In the source a role named `id`, `name`, `priority` or
  `is_hidden_substage` writes its text over that field of the entry
  (`StagesHandler.php:74-79`, `:85-86`); the model does not capture that
  overwrite.
- A catalog row's side column and role text are strings. A NULL side
  column, or a NULL text where the `LEFT JOIN` on `stages_lang` finds no
  row (`StagesHandler.php:66`), is not modelled.
- A cell's `group_id` is an integer, and the title test compares it by
  integer equality. The source's loose `in_array` (`Accounting.php:221`)
  agrees on integers and digit strings; a NULL `group_id`, which PHP
  finds equal to 0, is not modelled.
- StageQueries.CurrentSide: a role literally named `side` would put its
  text under the `side` key. The model keeps that case, but
  `OnIgnoresSideColumn` excludes it.
- JSON decoding of cell `params`, `getValues`, Carbon's current date, and
  date formatting are out. The active year and month are inputs, and a
  period is a (day, month, year) triple.
- `sortBy` itself is out: only its key is modelled. The model also ignores
  the order of keys in PHP arrays.
- The bank is passed to the `Accounting` constructor instead of being set
  by `generateForBank`.
- `TicketsController.php`, `UsersApiService.php` and
  `InternalApiService.php` are not part of this model: they are HTTP and
  network plumbing around the core.
- The system's design description has a failure for an empty catalog, and
  a deferral on `setStage` that completes. The code has neither: an empty
  catalog resolves no name (a digit string still passes through as its
  value), and a deferred `setStage` hands `null` to
  `fromNameToId`. The model follows the code.
