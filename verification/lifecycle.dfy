/** The services as one state machine over the store: every mutating call
    is a command, a run is a sequence of commands, and the invariants below
    hold in every state a run from the empty store reaches. */
module Lifecycle {
  import opened Outcomes
  import opened Records
  import Cats
  import Missions

  /** One mutating service call with its arguments. Creation commands carry
      the fresh ids the id generator hands out. */
  datatype Command =
    | CreateCatCall(breeds: seq<string>, newId: Id, cat: CatCreate)
    | UpdateCatCall(catId: Id, catPatch: CatPatch)
    | DeleteCatCall(catId: Id)
    | CreateMissionCall(missionId: Id, targetIds: seq<Id>, mission: MissionCreate)
    | UpdateMissionCall(missionId: Id, missionPatch: MissionPatch)
    | DeleteMissionCall(missionId: Id)
    | UpdateTargetCall(targetId: Id, targetPatch: TargetPatch)

  /** The ids a creation command carries are unused and pairwise distinct. */
  predicate Fresh(s: Store, c: Command)
  {
    match c
    case CreateCatCall(_, id, _) => id !in s.cats
    case CreateMissionCall(mid, tids, input) =>
      && mid !in s.missions
      && |tids| == |input.targets| && Distinct(tids)
      && (forall i :: 0 <= i < |tids| ==> tids[i] !in s.targets)
    case _ => true
  }

  /** The store after a call: the new store on success, the old one on failure. */
  function After<T>(s: Store, r: Result<Reply<T>>): Store
  {
    if r.Ok? then r.value.store else s
  }

  /** The store after command `c`. */
  function Step(s: Store, c: Command): Store
    requires Fresh(s, c)
  {
    match c
    case CreateCatCall(breeds, id, input) => After(s, Cats.CreateCat(s, breeds, id, input))
    case UpdateCatCall(id, p) => After(s, Cats.UpdateCat(s, id, p))
    case DeleteCatCall(id) => After(s, Cats.DeleteCat(s, id))
    case CreateMissionCall(mid, tids, input) => After(s, Missions.CreateMission(s, mid, tids, input))
    case UpdateMissionCall(id, p) => After(s, Missions.UpdateMission(s, id, p))
    case DeleteMissionCall(id) => After(s, Missions.DeleteMission(s, id))
    case UpdateTargetCall(id, p) => After(s, Missions.UpdateTarget(s, id, p))
  }

  /** Every creation command of `cmds` gets fresh ids in the state it runs in. */
  predicate Admissible(s: Store, cmds: seq<Command>)
    decreases |cmds|
  {
    |cmds| == 0 || (Fresh(s, cmds[0]) && Admissible(Step(s, cmds[0]), cmds[1..]))
  }

  /** The store after running `cmds` in order. */
  function Run(s: Store, cmds: seq<Command>): Store
    requires Admissible(s, cmds)
    decreases |cmds|
  {
    if |cmds| == 0 then s else Run(Step(s, cmds[0]), cmds[1..])
  }

  /** Every mission's cat reference names a stored cat. */
  predicate CatLinksResolve(s: Store)
  {
    forall m :: m in s.missions && s.missions[m].catId.Some? ==> s.missions[m].catId.value in s.cats
  }

  /** Every target's mission reference names a stored mission. */
  predicate MissionLinksResolve(s: Store)
  {
    forall t :: t in s.targets ==> s.targets[t].missionId in s.missions
  }

  /** Every target of a completed mission is completed. */
  predicate CompletionClosed(s: Store)
  {
    forall t :: t in s.targets ==>
      (s.targets[t].missionId in s.missions && s.missions[s.targets[t].missionId].isCompleted ==>
         s.targets[t].isCompleted)
  }

  /** Every mission has a cat: creation requires one and no update clears it. */
  predicate EveryMissionAssigned(s: Store)
  {
    forall m :: m in s.missions ==> s.missions[m].catId.Some?
  }

  predicate Consistent(s: Store)
  {
    && CatLinksResolve(s)
    && MissionLinksResolve(s)
    && CompletionClosed(s)
    && EveryMissionAssigned(s)
  }

  lemma EmptyStoreIsConsistent()
    ensures Consistent(EmptyStore())
  {
  }

  /** Every mutating call keeps the store consistent. */
  lemma StepPreservesConsistency(s: Store, c: Command)
    requires Consistent(s) && Fresh(s, c)
    ensures Consistent(Step(s, c))
  {
    match c
    case CreateCatCall(breeds, id, input) =>
    case UpdateCatCall(id, p) =>
    case DeleteCatCall(id) =>
      var r := Cats.DeleteCat(s, id);
      if r.Ok? {
        forall m | m in r.value.store.missions && r.value.store.missions[m].catId.Some?
          ensures r.value.store.missions[m].catId.value in r.value.store.cats
        {
          assert m !in MissionsOf(s, id);
        }
      }
    case CreateMissionCall(mid, tids, input) =>
    case UpdateMissionCall(id, p) =>
    case DeleteMissionCall(id) =>
    case UpdateTargetCall(id, p) =>
  }

  /** Every state a run reaches from a consistent store is consistent. */
  lemma {:induction false} RunPreservesConsistency(s: Store, cmds: seq<Command>)
    requires Consistent(s) && Admissible(s, cmds)
    ensures Consistent(Run(s, cmds))
    decreases |cmds|
  {
    if |cmds| > 0 {
      StepPreservesConsistency(s, cmds[0]);
      RunPreservesConsistency(Step(s, cmds[0]), cmds[1..]);
    }
  }

  /** Since every mission has a cat, no mission can ever be deleted. */
  lemma NoMissionCanBeDeleted(s: Store, id: Id)
    requires EveryMissionAssigned(s) && id in s.missions
    ensures Missions.DeleteMission(s, id) == Err(BadRequest("Mission cat already assigned"))
  {
  }

  /** Since every mission has a cat, supplying a cat in an update is always
      rejected once the completion guard has passed. */
  lemma CatAssignmentIsAlwaysRejected(s: Store, id: Id, p: MissionPatch)
    requires EveryMissionAssigned(s) && id in s.missions && p.catId.Some?
    requires !(s.missions[id].isCompleted && p.isCompleted.Some?)
    ensures Missions.UpdateMission(s, id, p) == Err(BadRequest("Mission cat already assigned"))
  {
  }

  /** One call never removes a mission, never changes the cat it is assigned
      to, and never reopens it. */
  lemma StepKeepsMission(s: Store, c: Command, mid: Id)
    requires Consistent(s) && Fresh(s, c) && mid in s.missions
    ensures mid in Step(s, c).missions
    ensures Step(s, c).missions[mid].catId == s.missions[mid].catId
    ensures s.missions[mid].isCompleted ==> Step(s, c).missions[mid].isCompleted
  {
    match c
    case CreateCatCall(breeds, id, input) =>
    case UpdateCatCall(id, p) =>
    case DeleteCatCall(id) =>
    case CreateMissionCall(m, tids, input) =>
    case UpdateMissionCall(id, p) =>
      if id == mid && Missions.UpdateMission(s, id, p).Ok? {
        assert p.catId.None?;
      }
    case DeleteMissionCall(id) =>
    case UpdateTargetCall(id, p) =>
  }

  /** One call never removes a completed target and never reopens it. */
  lemma StepKeepsCompletedTarget(s: Store, c: Command, tid: Id)
    requires Consistent(s) && Fresh(s, c) && tid in s.targets && s.targets[tid].isCompleted
    ensures tid in Step(s, c).targets && Step(s, c).targets[tid].isCompleted
  {
    match c
    case CreateCatCall(breeds, id, input) =>
    case UpdateCatCall(id, p) =>
    case DeleteCatCall(id) =>
    case CreateMissionCall(m, tids, input) =>
    case UpdateMissionCall(id, p) =>
    case DeleteMissionCall(id) =>
    case UpdateTargetCall(id, p) =>
  }

  /** Along any run, a mission stays stored, keeps its cat (which therefore
      stays stored too), and once completed stays completed. */
  lemma {:induction false} MissionIsPermanent(s: Store, cmds: seq<Command>, mid: Id)
    requires Consistent(s) && Admissible(s, cmds) && mid in s.missions
    ensures mid in Run(s, cmds).missions
    ensures Run(s, cmds).missions[mid].catId == s.missions[mid].catId
    ensures s.missions[mid].catId.value in Run(s, cmds).cats
    ensures s.missions[mid].isCompleted ==> Run(s, cmds).missions[mid].isCompleted
    decreases |cmds|
  {
    if |cmds| == 0 {
    } else {
      StepKeepsMission(s, cmds[0], mid);
      StepPreservesConsistency(s, cmds[0]);
      MissionIsPermanent(Step(s, cmds[0]), cmds[1..], mid);
    }
  }

  /** Along any run, a completed target stays stored and completed. */
  lemma {:induction false} CompletedTargetIsPermanent(s: Store, cmds: seq<Command>, tid: Id)
    requires Consistent(s) && Admissible(s, cmds) && tid in s.targets && s.targets[tid].isCompleted
    ensures tid in Run(s, cmds).targets && Run(s, cmds).targets[tid].isCompleted
    decreases |cmds|
  {
    if |cmds| > 0 {
      StepKeepsCompletedTarget(s, cmds[0], tid);
      StepPreservesConsistency(s, cmds[0]);
      CompletedTargetIsPermanent(Step(s, cmds[0]), cmds[1..], tid);
    }
  }

  /** In a consistent store a freshly created cat has no missions, so it can
      be deleted again, which restores the store. */
  lemma DeleteUndoesCreateCat(s: Store, breeds: seq<string>, id: Id, input: CatCreate)
    requires Consistent(s) && id !in s.cats && input.breed in breeds
    requires Cats.Storable(input)
    ensures Cats.DeleteCat(Cats.CreateCat(s, breeds, id, input).value.store, id) == Ok(Reply(s, ()))
  {
    var s1 := Cats.CreateCat(s, breeds, id, input).value.store;
    assert MissionsOf(s1, id) == {};
    assert s1.cats - {id} == s.cats;
  }

  /** In a consistent store a created mission reads back open, assigned to
      the requested cat, and owning exactly the targets created with it. */
  lemma CreatedMissionReadsBack(s: Store, mid: Id, tids: seq<Id>, input: MissionCreate)
    requires Consistent(s) && Fresh(s, CreateMissionCall(mid, tids, input))
    requires Missions.CreateMission(s, mid, tids, input).Ok?
    ensures var v := Missions.GetMission(Missions.CreateMission(s, mid, tids, input).value.store, mid);
            && v.Ok?
            && v.value.mission == Mission(Some(input.catId), false)
            && v.value.targets.Keys == set x | x in tids
  {
    var s1 := Missions.CreateMission(s, mid, tids, input).value.store;
    forall t | t in s1.targets
      ensures s1.targets[t].missionId == mid <==> t in tids
    {
      if t in s.targets {
        assert s.targets[t].missionId in s.missions;
      } else {
        var i :| 0 <= i < |tids| && tids[i] == t;
      }
    }
  }
}
