/** The stage workflow engine over one statement (StagesHandler.php): the
    statement record it mutates and the handler that builds the catalog,
    answers membership and reachability questions, and moves the statement
    between stages. */
module StageEngine {
  import opened PhpValues
  import opened StageCatalog
  import opened StageQueries

  /** What `scoring_next_stages.substage_id` holds: nothing, the caller's
      raw sub-stage name (the `setStage` path), a resolved id or `false`
      for a name that did not resolve (the `forceSetStage` path). */
  datatype SubValue = NoSubStage | RawName(name: string) | ResolvedId(id: int) | Unresolved

  /** The transition remembered while auto-scoring runs. */
  datatype Pending = Pending(stageId: int, substage: SubValue)

  /** The statement record. `save()` is an external call: its outcome is
      fixed per statement and every call is counted. */
  class Statement {
    var stageId: int
    var substageId: int
    var scoringWait: bool
    var scoringNextStages: Option<Pending>
    var saves: nat
    const saveSucceeds: bool

    constructor (stageId: int, substageId: int, scoringWait: bool, saveSucceeds: bool)
      ensures this.stageId == stageId && this.substageId == substageId
      ensures this.scoringWait == scoringWait && this.saveSucceeds == saveSucceeds
      ensures scoringNextStages == None && saves == 0
    {
      this.stageId := stageId;
      this.substageId := substageId;
      this.scoringWait := scoringWait;
      this.saveSucceeds := saveSucceeds;
      scoringNextStages := None;
      saves := 0;
    }

    function At(): Position
      reads this
    {
      Position(stageId, substageId)
    }

    method Save() returns (ok: bool)
      modifies this`saves
      ensures ok == saveSucceeds && saves == old(saves) + 1
    {
      saves := saves + 1;
      ok := saveSucceeds;
    }
  }

  /** The name of the stage auto-scoring redirects to. */
  const AutoCheck: string := "autoCheck"

  class StagesHandler {
    const statement: Statement
    const stages: Catalog
    const role: string
    /** The per-bank `after<Name>` edge tables, by current stage name. */
    const edges: string -> map<int, Filter>

    /** Builds the catalog from the rows of the stage tables, one row at a
        time: the first row of an id creates its entry under both indexes,
        later rows add their role's text to both. */
    constructor (rows: seq<Row>, user: Option<string>, statement: Statement, edges: string -> map<int, Filter>)
      requires ConsistentNames(rows)
      ensures this.stages == BuildCatalog(rows)
      ensures this.role == ActingRole(user)
      ensures this.statement == statement && this.edges == edges
    {
      var byId: map<int, Entry> := map[];
      var byName: map<string, Entry> := map[];
      var i := 0;
      while i < |rows|
        invariant 0 <= i <= |rows|
        invariant ConsistentNames(rows[..i])
        invariant Catalog(byId, byName) == BuildCatalog(rows[..i])
      {
        var row := rows[i];
        ConsistentPrefix(rows, i + 1);
        assert rows[..i + 1][..i] == rows[..i];
        BuildUnfold(rows[..i + 1]);
        if row.id !in byId {
          var info := Entry(row.id, row.name, row.side, row, map[row.role := row.text]);
          byId := byId[row.id := info];
          byName := byName[row.name := info];
        } else {
          byId := byId[row.id := byId[row.id].(texts := byId[row.id].texts[row.role := row.text])];
          byName := byName[row.name := byName[row.name].(texts := byName[row.name].texts[row.role := row.text])];
        }
        i := i + 1;
      }
      assert rows[..i] == rows;
      this.stages := Catalog(byId, byName);
      this.role := ActingRole(user);
      this.statement := statement;
      this.edges := edges;
    }

    function Current(): Position
      reads statement
    {
      statement.At()
    }

    /** `is`: the first passing element ends the scan. */
    method Is(q: Query) returns (r: bool)
      ensures r == Matches(stages, Current(), q)
    {
      match q
      case One(ref) =>
        r := CheckStage(stages, Current(), ref);
      case Many(refs) =>
        var i := 0;
        while i < |refs|
          invariant 0 <= i <= |refs|
          invariant forall j :: 0 <= j < i ==> !CheckStage(stages, Current(), refs[j])
        {
          if CheckStage(stages, Current(), refs[i]) {
            return true;
          }
          i := i + 1;
        }
        r := false;
    }

    /** `isNot`: the first passing element ends the scan with `false`. */
    method IsNot(q: Query) returns (r: bool)
      ensures r == !Matches(stages, Current(), q)
    {
      match q
      case One(ref) =>
        r := !CheckStage(stages, Current(), ref);
      case Many(refs) =>
        var i := 0;
        while i < |refs|
          invariant 0 <= i <= |refs|
          invariant forall j :: 0 <= j < i ==> !CheckStage(stages, Current(), refs[j])
        {
          if CheckStage(stages, Current(), refs[i]) {
            return false;
          }
          i := i + 1;
        }
        r := true;
    }

    /** The statement is at the bank's successful final stage. */
    method IsSuccessfulFinishStage(finishStage: string) returns (r: bool)
      ensures r == CheckStage(stages, Current(), Name(finishStage))
    {
      r := Is(One(Name(finishStage)));
    }

    /** The statement is at the successful final stage or at one of the
        stages that end a statement unsuccessfully. */
    method IsAnyFinishStage(finishStage: string) returns (r: bool)
      ensures r <==> (|| CheckStage(stages, Current(), Name(finishStage))
                      || CheckStage(stages, Current(), Name("canceled"))
                      || CheckStage(stages, Current(), Name("denied"))
                      || CheckStage(stages, Current(), Name("deniedByBank")))
    {
      var refs := [Name(finishStage), Name("canceled"), Name("denied"), Name("deniedByBank")];
      r := Is(Many(refs));
      if r {
        var i :| 0 <= i < |refs| && CheckStage(stages, Current(), refs[i]);
      } else {
        assert !CheckStage(stages, Current(), refs[0]) && !CheckStage(stages, Current(), refs[1]);
        assert !CheckStage(stages, Current(), refs[2]) && !CheckStage(stages, Current(), refs[3]);
      }
    }

    /** `filterStages`: keeps the candidates whose rules pass, each mapped to
        its by-id entry. */
    method FilterStages(candidates: map<int, Filter>) returns (full: map<int, Option<Entry>>)
      ensures full == Filtered(stages, Current(), role, candidates)
    {
      full := map[];
      var todo := candidates.Keys;
      while todo != {}
        invariant todo <= candidates.Keys
        invariant forall id :: id in full <==> id in candidates && id !in todo && Keeps(stages, Current(), role, candidates[id])
        invariant forall id :: id in full ==> full[id] == LookupId(stages, id)
        decreases todo
      {
        assert exists k :: k in todo by {
          if forall k :: k !in todo {
            assert false;
          }
        }
        var id :| id in todo;
        todo := todo - {id};
        var filter := candidates[id];
        if filter.Conditions? {
          if filter.sub.Some? && !CheckStage(stages, Current(), filter.sub.value) {
            continue;
          }
          if filter.role.Some? && !Contains(filter.role.value, role) {
            continue;
          }
        }
        full := full[id := if id in stages.byId then Some(stages.byId[id]) else None];
      }
      var expected := Filtered(stages, Current(), role, candidates);
      forall id ensures id in full <==> id in expected {
        assert id in expected <==> id in candidates && Keeps(stages, Current(), role, candidates[id]);
      }
      assert full.Keys == expected.Keys;
    }

    /** `getNextStages`: the filtered edge table of the current stage. */
    method GetNextStages() returns (next: map<int, Option<Entry>>)
      requires statement.stageId in stages.byId
      ensures next == NextStages(stages, Current(), role, edges)
    {
      var candidates := edges(stages.byId[statement.stageId].name);
      next := FilterStages(candidates);
    }

    /** `canGoTo`: the id of `stage` if it is an allowed next stage. */
    method CanGoTo(stage: string) returns (r: Option<int>)
      requires statement.stageId in stages.byId || FromNameToId(stages, stage).None?
      ensures r == AllowedTarget(stages, Current(), role, edges, stage)
    {
      r := FromNameToId(stages, stage);
      if r.Some? {
        var next := GetNextStages();
        if !(r.value in next && r.value != statement.stageId) {
          r := None;
        }
      }
    }

    /** `autoScoring`: while the statement waits for scoring, a transition
        to anything but an override stage is remembered and redirected to
        `autoCheck` without a sub-stage. */
    method AutoScoring(stage: int, substage: SubValue) returns (stage': int, substage': SubValue)
      requires Defers(stages, statement.scoringWait, stage) ==> FromNameToId(stages, AutoCheck).Some?
      modifies statement`scoringNextStages
      ensures Defers(stages, statement.scoringWait, stage) ==>
                && statement.scoringNextStages == Some(Pending(stage, substage))
                && stage' == FromNameToId(stages, AutoCheck).value
                && substage' == NoSubStage
      ensures !Defers(stages, statement.scoringWait, stage) ==>
                && statement.scoringNextStages == old(statement.scoringNextStages)
                && stage' == stage && substage' == substage
    {
      stage', substage' := stage, substage;
      if statement.scoringWait {
        var name := FromIdToName(stages, stage);
        if !(name.Some? && name.value in OverrideStages) {
          statement.scoringNextStages := Some(Pending(stage, substage));
          stage' := FromNameToId(stages, AutoCheck).value;
          substage' := NoSubStage;
        }
      }
    }

    /** `setSubStage`: writes and saves the resolved sub-stage unless the
        name does not resolve or resolves to a nonzero id below 100. */
    method SetSubStage(substage: string) returns (ok: bool)
      modifies statement`substageId, statement`saves
      ensures SubStageTarget(stages, substage).None? ==> !ok && unchanged(statement)
      ensures SubStageTarget(stages, substage).Some? ==>
                && statement.substageId == SubStageTarget(stages, substage).value
                && statement.saves == old(statement.saves) + 1
                && ok == statement.saveSucceeds
    {
      var id := FromNameToId(stages, substage);
      if id.None? {
        return false;
      }
      if id.value < SubStageBase && id.value != 0 {
        return false;
      }
      statement.substageId := id.value;
      ok := statement.Save();
    }

    /** `setStage`: a permitted transition writes the stage (even when the
        sub-stage is refused) and saves; a refused one changes nothing. The
        source fails with a type error when a permitted transition has no
        sub-stage or is deferred, hence the second precondition. */
    method SetStage(stage: string, substage: Option<string>) returns (ok: bool)
      requires statement.stageId in stages.byId || FromNameToId(stages, stage).None?
      requires var t := AllowedTarget(stages, Current(), role, edges, stage);
               t.Some? ==> substage.Some? && !Defers(stages, statement.scoringWait, t.value)
      modifies statement
      ensures var t := AllowedTarget(stages, old(Current()), role, edges, stage);
              && (t.None? ==> !ok && unchanged(statement))
              && (t.Some? ==>
                    && statement.stageId == t.value
                    && statement.stageId != old(statement.stageId)
                    && ok == statement.saveSucceeds
                    && statement.scoringWait == old(statement.scoringWait)
                    && statement.scoringNextStages == old(statement.scoringNextStages)
                    && (SubStageTarget(stages, substage.value).Some? ==>
                          statement.substageId == SubStageTarget(stages, substage.value).value
                          && statement.saves == old(statement.saves) + 2)
                    && (SubStageTarget(stages, substage.value).None? ==>
                          statement.substageId == old(statement.substageId)
                          && statement.saves == old(statement.saves) + 1))
    {
      var target := CanGoTo(stage);
      if target.None? {
        return false;
      }
      var stage', substage' := AutoScoring(target.value, RawName(substage.value));
      var _ := SetSubStage(substage'.name);
      statement.stageId := stage';
      ok := statement.Save();
    }

    /** `forceSetStage`: no reachability check. A deferred transition goes
        to `autoCheck` and leaves the sub-stage alone; otherwise the
        sub-stage is written, as 0 when its name did not resolve. The source
        fails with a type error without a sub-stage, so one is required. */
    method ForceSetStage(stage: StageRef, substage: StageRef) returns (ok: bool)
      requires var s := Resolve(stages, stage);
               s.Some? && Defers(stages, statement.scoringWait, s.value) ==> FromNameToId(stages, AutoCheck).Some?
      modifies statement
      ensures var s := Resolve(stages, stage);
              var sub := Resolve(stages, substage);
              && (s.None? ==> !ok && unchanged(statement))
              && (s.Some? ==>
                    && ok == statement.saveSucceeds
                    && statement.saves == old(statement.saves) + 1
                    && statement.scoringWait == old(statement.scoringWait)
                    && (Defers(stages, old(statement.scoringWait), s.value) ==>
                          && statement.stageId == FromNameToId(stages, AutoCheck).value
                          && statement.substageId == old(statement.substageId)
                          && statement.scoringNextStages ==
                               Some(Pending(s.value, if sub.Some? then ResolvedId(sub.value) else Unresolved)))
                    && (!Defers(stages, old(statement.scoringWait), s.value) ==>
                          && statement.stageId == s.value
                          && statement.substageId == (if sub.Some? then sub.value else 0)
                          && statement.scoringNextStages == old(statement.scoringNextStages)))
    {
      var s := Resolve(stages, stage);
      var sub := Resolve(stages, substage);
      if s.None? {
        return false;
      }
      var stage', substage' := AutoScoring(s.value, if sub.Some? then ResolvedId(sub.value) else Unresolved);
      statement.stageId := stage';
      if substage' != NoSubStage {
        statement.substageId := if substage'.ResolvedId? then substage'.id else 0;
      }
      ok := statement.Save();
    }
  }
}
