/** The read-only questions the stage engine answers about one statement:
    name and id resolution, membership tests, ordering by priority, the
    owning side, edge filtering and reachability (StagesHandler.php). */
module StageQueries {
  import opened PhpValues
  import opened StageCatalog

  /** The statement's current stage and sub-stage ids. A missing sub-stage
      is any id the catalog does not hold (PHP looks `null` up as key ""). */
  datatype Position = Position(stageId: int, substageId: int)

  /** A stage given by name (or by a numeric string) or by an integer id. */
  datatype StageRef = Name(name: string) | Id(id: int)

  /** The argument of `is`/`isNot`: a single stage or a list of stages. */
  datatype Query = One(ref: StageRef) | Many(refs: seq<StageRef>)

  /** A candidate's transition rule: anything that is not a non-empty array
      lets the candidate through; a non-empty array may set `sub` and `role`. */
  datatype Filter = Unconditional | Conditions(sub: Option<StageRef>, role: Option<string>)

  /** The roles whose statements move to `broker`'s side under `moder`. */
  const Moderator: string := "moder"
  const Broker: string := "broker"

  /** The stage names exempt from auto-scoring deferral. */
  const OverrideStages: set<string> := {"denied", "deniedByBank", "canceled"}

  /** Stage ids above this are sub-stages for the membership and ordering
      tests. */
  const SubStageBase: int := 100

  // ---------------------------------------------------------------------
  // Name and id resolution (fromNameToId, fromIdToName)

  /** A numeric string stands for its own value and is not looked up; any
      other string is the id of the stage of that name, if there is one. */
  function FromNameToId(c: Catalog, s: string): (r: Option<int>)
    ensures IsNumeric(s) ==> r == Some(DigitsValue(s))
    ensures !IsNumeric(s) ==> (r.Some? <==> s in c.byName)
    ensures NamesFiled(c) && !IsNumeric(s) && r.Some? ==> r.value in c.byId && c.byId[r.value].name == s
  {
    if IsNumeric(s) then Some(DigitsValue(s))
    else if s in c.byName then Some(c.byName[s].id)
    else None
  }

  /** The name stored under an id, if the catalog holds that id. */
  function FromIdToName(c: Catalog, id: int): (r: Option<string>)
    ensures r.Some? <==> id in c.byId
    ensures r.Some? ==> r.value == c.byId[id].name
  {
    if id in c.byId then Some(c.byId[id].name) else None
  }

  /** A catalog name that is not numeric survives the trip name → id → name. */
  lemma NameIdRoundTrip(c: Catalog, n: string)
    requires NamesFiled(c)
    requires n in c.byName && !IsNumeric(n)
    ensures FromNameToId(c, n).Some?
    ensures FromIdToName(c, FromNameToId(c, n).value) == Some(n)
  {
  }

  /** With both indexes in agreement, an id whose name is not numeric
      survives the trip id → name → id. */
  lemma IdNameRoundTrip(c: Catalog, id: int)
    requires IdsFiled(c) && Synced(c)
    requires id in c.byId && !IsNumeric(c.byId[id].name)
    ensures FromIdToName(c, id).Some?
    ensures FromNameToId(c, FromIdToName(c, id).value) == Some(id)
  {
  }

  /** The id a reference resolves to: strings go through `FromNameToId`,
      integers are taken as they are. */
  function Resolve(c: Catalog, ref: StageRef): (r: Option<int>)
    ensures ref.Id? ==> r == Some(ref.id)
    ensures ref.Name? ==> r == FromNameToId(c, ref.name)
  {
    match ref
    case Name(s) => FromNameToId(c, s)
    case Id(i) => Some(i)
  }

  // ---------------------------------------------------------------------
  // The current stage and sub-stage (getCurrentStage, getCurrentSubStage)

  function CurrentStage(c: Catalog, p: Position): (r: Option<Entry>)
    ensures r.Some? <==> p.stageId in c.byId
    ensures r.Some? ==> r.value == c.byId[p.stageId]
    ensures r.Some? && IdsFiled(c) ==> r.value.id == p.stageId
  {
    if p.stageId in c.byId then Some(c.byId[p.stageId]) else None
  }

  function CurrentSubStage(c: Catalog, p: Position): (r: Option<Entry>)
    ensures r.Some? <==> p.substageId in c.byId
    ensures r.Some? ==> r.value == c.byId[p.substageId]
    ensures r.Some? && IdsFiled(c) ==> r.value.id == p.substageId
  {
    if p.substageId in c.byId then Some(c.byId[p.substageId]) else None
  }

  // ---------------------------------------------------------------------
  // Membership (checkStage, is, isNot)

  /** `checkStage`: an unresolved reference or id 0 never matches; an id
      above 100 is compared with the id field of the current sub-stage's
      entry, any other id with that of the current stage's entry. */
  predicate CheckStage(c: Catalog, p: Position, ref: StageRef)
    ensures CheckStage(c, p, ref) ==> Resolve(c, ref).Some? && Resolve(c, ref).value != 0
    ensures CheckStage(c, p, ref) && IdsFiled(c) ==>
              Resolve(c, ref).value == if Resolve(c, ref).value > SubStageBase then p.substageId else p.stageId
  {
    match Resolve(c, ref)
    case None => false
    case Some(v) =>
      if v == 0 then false
      else if v > SubStageBase then
        CurrentSubStage(c, p).Some? && CurrentSubStage(c, p).value.id == v
      else
        CurrentStage(c, p).Some? && CurrentStage(c, p).value.id == v
  }

  /** With every entry filed under its own id, a resolved id above 100
      matches exactly when it is the current sub-stage, and a nonzero id up
      to 100 exactly when it is the current stage. */
  lemma CheckStageMeaning(c: Catalog, p: Position, ref: StageRef)
    requires IdsFiled(c)
    ensures Resolve(c, ref).None? ==> !CheckStage(c, p, ref)
    ensures Resolve(c, ref) == Some(0) ==> !CheckStage(c, p, ref)
    ensures Resolve(c, ref).Some? && Resolve(c, ref).value > SubStageBase ==>
              (CheckStage(c, p, ref) <==> p.substageId == Resolve(c, ref).value && p.substageId in c.byId)
    ensures Resolve(c, ref).Some? && Resolve(c, ref).value != 0 && Resolve(c, ref).value <= SubStageBase ==>
              (CheckStage(c, p, ref) <==> p.stageId == Resolve(c, ref).value && p.stageId in c.byId)
  {
  }

  /** A sub-stage test does not look at the current stage, and a stage test
      does not look at the current sub-stage. */
  lemma CheckStageLooksAtOneField(c: Catalog, p: Position, q: Position, ref: StageRef)
    requires Resolve(c, ref).Some?
    requires Resolve(c, ref).value > SubStageBase ==> p.substageId == q.substageId
    requires Resolve(c, ref).value <= SubStageBase ==> p.stageId == q.stageId
    ensures CheckStage(c, p, ref) == CheckStage(c, q, ref)
  {
  }

  /** `is`: a single reference passes `checkStage`, or some element of a
      list does. */
  predicate Matches(c: Catalog, p: Position, q: Query)
    ensures q == Many([]) ==> !Matches(c, p, q)
    ensures q.Many? && |q.refs| == 1 ==> (Matches(c, p, q) <==> CheckStage(c, p, q.refs[0]))
  {
    match q
    case One(ref) => CheckStage(c, p, ref)
    case Many(refs) => exists i :: 0 <= i < |refs| && CheckStage(c, p, refs[i])
  }

  // ---------------------------------------------------------------------
  // Ordering (getPriority, before, after)

  /** The pair (current priority, target priority) `getPriority` returns, or
      `None` where it throws because the target does not resolve or is 0.
      The target's priority is `null` when its id has no entry; the current
      one is `false` when the current (sub-)stage has no entry. Both read
      the key `priority`, which holds the side column. */
  function Priorities(c: Catalog, p: Position, ref: StageRef): (r: Option<(Loose, Loose)>)
    ensures r.None? <==> Resolve(c, ref).None? || Resolve(c, ref) == Some(0)
    ensures r.Some? ==> r.value.1 == (if Resolve(c, ref).value in c.byId
                                      then Str(c.byId[Resolve(c, ref).value].priority) else Null)
    ensures r.Some? ==> r.value.0 != Null
    ensures r.Some? ==>
              var cur := if Resolve(c, ref).value > SubStageBase then p.substageId else p.stageId;
              r.value.0 == (if cur in c.byId then Str(c.byId[cur].priority) else False)
  {
    match Resolve(c, ref)
    case None => None
    case Some(v) =>
      if v == 0 then None
      else
        var target := if v in c.byId then Str(c.byId[v].priority) else Null;
        var current := if v > SubStageBase then CurrentSubStage(c, p) else CurrentStage(c, p);
        Some((if current.Some? then Str(current.value.priority) else False, target))
  }

  /** `before($stage, $equal)`: `null` when the target does not resolve,
      otherwise current `<=` (or `<`) target under PHP's loose comparison. */
  function Before(c: Catalog, p: Position, stage: string, equal: bool): (r: Option<bool>)
    ensures r.None? <==> Priorities(c, p, Name(stage)).None?
  {
    match Priorities(c, p, Name(stage))
    case None => None
    case Some((current, target)) =>
      Some(if equal then Compare(current, target) <= 0 else Compare(current, target) < 0)
  }

  /** `after($stage, $equal)`: PHP evaluates `$a >= $b` as `$b <= $a` and
      `$a > $b` as `$b < $a`. */
  function After(c: Catalog, p: Position, stage: string, equal: bool): (r: Option<bool>)
    ensures r.None? <==> Priorities(c, p, Name(stage)).None?
  {
    match Priorities(c, p, Name(stage))
    case None => None
    case Some((current, target)) =>
      Some(if equal then Compare(target, current) <= 0 else Compare(target, current) < 0)
  }

  /** The inclusive test of one direction is the negation of the strict test
      of the other, and both answer `null` together. */
  lemma OrderingDuality(c: Catalog, p: Position, stage: string)
    ensures Before(c, p, stage, true).None? <==> After(c, p, stage, false).None?
    ensures Before(c, p, stage, true).Some? ==>
              Before(c, p, stage, true).value == !After(c, p, stage, false).value
    ensures After(c, p, stage, true).Some? ==>
              After(c, p, stage, true).value == !Before(c, p, stage, false).value
  {
    var pr := Priorities(c, p, Name(stage));
    if pr.Some? {
      CompareAntisymmetric(pr.value.0, pr.value.1);
    }
  }

  /** The strict answer implies the inclusive one. */
  lemma StrictImpliesInclusive(c: Catalog, p: Position, stage: string)
    ensures Before(c, p, stage, false) == Some(true) ==> Before(c, p, stage, true) == Some(true)
    ensures After(c, p, stage, false) == Some(true) ==> After(c, p, stage, true) == Some(true)
  {
  }

  /** An ordering test against a sub-stage (id above 100) reads only the
      current sub-stage, and one against a stage only the current stage. */
  lemma OrderingLooksAtOneField(c: Catalog, p: Position, q: Position, stage: string, equal: bool)
    requires FromNameToId(c, stage).Some?
    requires FromNameToId(c, stage).value > SubStageBase ==> p.substageId == q.substageId
    requires FromNameToId(c, stage).value <= SubStageBase ==> p.stageId == q.stageId
    ensures Before(c, p, stage, equal) == Before(c, q, stage, equal)
    ensures After(c, p, stage, equal) == After(c, q, stage, equal)
  {
  }

  /** For a named stage up to id 100 and a known current stage, `before`
      compares the two side columns: by value when both are digit strings,
      byte by byte otherwise. */
  lemma BeforeComparesSides(c: Catalog, p: Position, stage: string, equal: bool)
    requires NamesFiled(c)
    requires !IsNumeric(stage) && stage in c.byName
    requires 0 < c.byName[stage].id <= SubStageBase
    requires p.stageId in c.byId
    ensures var a := c.byId[p.stageId].priority;
            var b := c.byId[c.byName[stage].id].priority;
            var cmp := if IsNumeric(a) && IsNumeric(b) then IntCompare(DigitsValue(a), DigitsValue(b))
                       else LexCompare(a, b);
            Before(c, p, stage, equal) == Some(if equal then cmp <= 0 else cmp < 0)
  {
  }

  /** A current priority of `false` (an unknown current stage or sub-stage)
      loosely equals a falsy target, so the current stage is then never
      strictly after the target and always at or before it. */
  lemma UnknownCurrentNotAfterEmptySide(c: Catalog, p: Position, stage: string)
    requires Priorities(c, p, Name(stage)).Some?
    requires Priorities(c, p, Name(stage)).value.0 == False
    requires !Truthy(Priorities(c, p, Name(stage)).value.1)
    ensures After(c, p, stage, false) == Some(false)
    ensures Before(c, p, stage, true) == Some(true)
  {
  }

  /** In particular an unknown current stage is not after a known target
      whose side column is empty. */
  lemma UnknownStageNotAfterEmptySide(c: Catalog, p: Position, stage: string)
    requires IsNumeric(stage) && 0 < DigitsValue(stage) <= SubStageBase
    requires p.stageId !in c.byId
    requires DigitsValue(stage) in c.byId && c.byId[DigitsValue(stage)].priority == ""
    ensures After(c, p, stage, false) == Some(false)
    ensures Before(c, p, stage, true) == Some(true)
  {
    UnknownCurrentNotAfterEmptySide(c, p, stage);
  }

  // ---------------------------------------------------------------------
  // Sides (on)

  /** The value `getCurrentStage('side')` yields: `false` for an unknown
      stage; for a known one the role text stored under the key `side`, if
      a role of that name exists, and otherwise `null`. */
  function CurrentSide(c: Catalog, p: Position): (r: Loose)
    ensures CurrentStage(c, p).None? ==> r == False
    ensures CurrentStage(c, p).Some? ==> r != False
  {
    match CurrentStage(c, p)
    case None => False
    case Some(e) => if "side" in e.texts then Str(e.texts["side"]) else Null
  }

  /** `on($side)`: the side asked about (the acting role by default, with
      `moder` read as `broker`) loosely equals the current stage's side. */
  predicate On(c: Catalog, p: Position, role: string, side: Option<string>)
    ensures side == Some(Moderator) ==> (On(c, p, role, side) <==> Compare(CurrentSide(c, p), Str(Broker)) == 0)
    ensures CurrentStage(c, p).None? ==> (On(c, p, role, side) <==> !Truthy(Str(if side.Some? then side.value else role)))
  {
    var s := if side.Some? then side.value else role;
    var s' := if s == Moderator then Broker else s;
    Compare(CurrentSide(c, p), Str(s')) == 0
  }

  /** No `side` key is ever filled from the side column, so for a known
      stage without a role named `side` only the empty side matches, and for
      an unknown stage only a falsy side does: a real side never matches. */
  lemma OnIgnoresSideColumn(c: Catalog, p: Position, role: string, side: Option<string>)
    requires p.stageId in c.byId ==> "side" !in c.byId[p.stageId].texts
    ensures var s := if side.Some? then side.value else role;
            var s' := if s == Moderator then Broker else s;
            On(c, p, role, side) <==> (if p.stageId in c.byId then s' == "" else !Truthy(Str(s')))
  {
    var s := if side.Some? then side.value else role;
    var s' := if s == Moderator then Broker else s;
    if p.stageId in c.byId {
      assert LexCompare("", s') == 0 <==> s' == "";
    }
  }

  // ---------------------------------------------------------------------
  // The acting role, edge filtering and reachability

  /** The role of the signed-in user, `auto` without one, and `agent` acting
      as `client`. */
  function ActingRole(user: Option<string>): (r: string)
    ensures user.None? ==> r == "auto"
    ensures user.Some? && user.value == "agent" ==> r == "client"
    ensures user.Some? && user.value != "agent" ==> r == user.value
    ensures r != "agent"
  {
    match user
    case None => "auto"
    case Some(name) => if name == "agent" then "client" else name
  }

  /** A candidate stays when its rule is not a non-empty array, or when its
      `sub` (if set) passes `checkStage` and its `role` (if set) contains
      the acting role. */
  predicate Keeps(c: Catalog, p: Position, role: string, f: Filter)
    ensures f.Unconditional? ==> Keeps(c, p, role, f)
    ensures f.Conditions? && f.role == Some(role) ==> (Keeps(c, p, role, f) <==> f.sub.None? || CheckStage(c, p, f.sub.value))
    ensures Keeps(c, p, role, f) && f.Conditions? && f.role.Some? ==> |role| <= |f.role.value|
  {
    match f
    case Unconditional => true
    case Conditions(sub, roles) =>
      (sub.None? || CheckStage(c, p, sub.value)) && (roles.None? || Contains(roles.value, role))
  }

  /** The by-id entry of a candidate, `null` (`None`) when the catalog has
      no such id. */
  function LookupId(c: Catalog, id: int): (r: Option<Entry>)
    ensures r.Some? <==> id in c.byId
    ensures r.Some? ==> r.value == c.byId[id] && (IdsFiled(c) ==> r.value.id == id)
  {
    if id in c.byId then Some(c.byId[id]) else None
  }

  /** What `filterStages` returns for a candidate map. */
  function Filtered(c: Catalog, p: Position, role: string, candidates: map<int, Filter>): (r: map<int, Option<Entry>>)
    ensures r.Keys <= candidates.Keys
    ensures forall id :: id in r ==> r[id] == LookupId(c, id)
  {
    map id | id in candidates && Keeps(c, p, role, candidates[id]) :: LookupId(c, id)
  }

  /** A candidate is dropped exactly when its rule is a non-empty array whose
      `sub` fails `checkStage` or whose `role` does not contain the acting
      role as a substring. */
  lemma FilteredDropsOnlyFailedRules(c: Catalog, p: Position, role: string, candidates: map<int, Filter>, id: int)
    requires id in candidates
    ensures id !in Filtered(c, p, role, candidates) <==>
              && candidates[id].Conditions?
              && ((candidates[id].sub.Some? && !CheckStage(c, p, candidates[id].sub.value)) ||
                  (candidates[id].role.Some? && forall i :: !OccursAt(candidates[id].role.value, role, i)))
  {
  }

  /** The outgoing edges of the current stage: the `after<Name>` table of
      its name, unchanged by `overWriteConditions`, then filtered. The
      source cannot answer for an unknown current stage (the lookup becomes
      a call of `after()` without arguments), hence the precondition. */
  function NextStages(c: Catalog, p: Position, role: string, edges: string -> map<int, Filter>): (r: map<int, Option<Entry>>)
    requires p.stageId in c.byId
    ensures r.Keys <= edges(c.byId[p.stageId].name).Keys
  {
    Filtered(c, p, role, edges(c.byId[p.stageId].name))
  }

  /** `canGoTo`: the resolved id of `stage` when it is an outgoing edge of
      the current stage other than the current stage itself. */
  function AllowedTarget(c: Catalog, p: Position, role: string, edges: string -> map<int, Filter>, stage: string): (r: Option<int>)
    requires p.stageId in c.byId || FromNameToId(c, stage).None?
    ensures r.Some? ==> FromNameToId(c, stage) == r && r.value in NextStages(c, p, role, edges) && r.value != p.stageId
  {
    match FromNameToId(c, stage)
    case None => None
    case Some(v) => if v in NextStages(c, p, role, edges) && v != p.stageId then Some(v) else None
  }

  /** Every outgoing edge other than the current stage is reachable by the
      name of its entry, when that name is not numeric and both indexes
      agree. */
  lemma AllowedTargetComplete(c: Catalog, p: Position, role: string, edges: string -> map<int, Filter>, id: int)
    requires IdsFiled(c) && Synced(c)
    requires p.stageId in c.byId
    requires id in NextStages(c, p, role, edges) && id != p.stageId
    requires id in c.byId && !IsNumeric(c.byId[id].name)
    ensures AllowedTarget(c, p, role, edges, c.byId[id].name) == Some(id)
  {
  }

  /** The current stage is never reachable from itself by its own name. */
  lemma CurrentStageNotAllowed(c: Catalog, p: Position, role: string, edges: string -> map<int, Filter>)
    requires IdsFiled(c) && Synced(c)
    requires p.stageId in c.byId && !IsNumeric(c.byId[p.stageId].name)
    ensures AllowedTarget(c, p, role, edges, c.byId[p.stageId].name).None?
  {
  }

  // ---------------------------------------------------------------------
  // Auto-scoring deferral and the sub-stage guard

  /** `autoScoring` defers a transition when the statement waits for
      scoring and the target is not one of the override stages; an id
      without an entry has no name and is deferred too. */
  predicate Defers(c: Catalog, scoringWait: bool, stage: int)
    ensures !scoringWait ==> !Defers(c, scoringWait, stage)
    ensures scoringWait && stage !in c.byId ==> Defers(c, scoringWait, stage)
    ensures stage in c.byId && c.byId[stage].name in OverrideStages ==> !Defers(c, scoringWait, stage)
    ensures scoringWait && stage in c.byId && c.byId[stage].name !in OverrideStages ==> Defers(c, scoringWait, stage)
  {
    scoringWait && !(FromIdToName(c, stage).Some? && FromIdToName(c, stage).value in OverrideStages)
  }

  /** The id `setSubStage` writes, or `None` where it refuses: the name does
      not resolve, or resolves to a nonzero id below 100. */
  function SubStageTarget(c: Catalog, sub: string): (r: Option<int>)
    ensures r.Some? ==> FromNameToId(c, sub) == r && (r.value == 0 || r.value >= SubStageBase)
    ensures r.None? ==> FromNameToId(c, sub).None? || (FromNameToId(c, sub).value != 0 && FromNameToId(c, sub).value < SubStageBase)
  {
    match FromNameToId(c, sub)
    case None => None
    case Some(v) => if v < SubStageBase && v != 0 then None else Some(v)
  }

  /** The two guards disagree at 100: `setSubStage` accepts it as a
      sub-stage, while `checkStage` treats it as a stage id, so a statement
      whose sub-stage was set to 100 does not match a test for 100 unless
      its stage is 100. */
  lemma Id100PassesBothGuards(c: Catalog, p: Position)
    requires IdsFiled(c)
    requires 100 in c.byId
    requires p.substageId == 100 && p.stageId != 100
    ensures SubStageTarget(c, "100") == Some(100)
    ensures !CheckStage(c, p, Id(100))
  {
    assert "100"[..2] == "10" && "10"[..1] == "1" && "1"[..0] == "";
    assert DigitsValue("1") == 1;
    assert DigitsValue("10") == 10;
    assert IsNumeric("100") && DigitsValue("100") == 100;
  }
}
