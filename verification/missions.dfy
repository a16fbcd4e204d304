/** The mission service: read a mission with its targets, create a mission
    together with its targets, update a mission (assignment of a cat and
    completion, which cascades onto its targets), delete an unassigned
    mission, and update a single target. */
module Missions {
  import opened Outcomes
  import opened Records
  import Base

  const TargetCountDetail := "Mission targets quantity must be from 1 to 3"

  /** The mission with id `id` and the targets it owns. The service has no
      not-found guard here, so an absent id is not a 404. */
  function GetMission(s: Store, id: Id): (r: Result<MissionView>)
    ensures r.Ok? <==> id in s.missions
    ensures r.Err? ==> r.error.Unhandled?
    ensures r.Ok? ==> r.value.mission == s.missions[id]
    ensures r.Ok? ==> forall t :: t in r.value.targets <==> t in s.targets && s.targets[t].missionId == id
    ensures r.Ok? ==> forall t :: t in r.value.targets ==> r.value.targets[t] == s.targets[t]
  {
    match Base.GetInstance(s.missions, id)
    case None => Err(Unhandled("No mission row to present"))
    case Some(m) => Ok(MissionView(m, TargetsOf(s.targets, id)))
  }

  /** The row a target creation request produces for mission `missionId`. */
  function NewTarget(input: TargetCreate, missionId: Id): (r: Target)
    ensures r.name == input.name && r.country == input.country && r.missionId == missionId
    ensures r.notes == None && !r.isCompleted
  {
    Target(input.name, input.country, None, false, missionId)
  }

  /** Inserts one target per input, in input order, each under its own fresh
      id and linked to mission `missionId`. */
  function InsertTargets(targets: map<Id, Target>, missionId: Id, ids: seq<Id>, inputs: seq<TargetCreate>)
    : (r: map<Id, Target>)
    requires |ids| == |inputs| && Distinct(ids)
    requires forall i :: 0 <= i < |ids| ==> ids[i] !in targets
    ensures r.Keys == targets.Keys + (set x | x in ids)
    ensures forall i :: 0 <= i < |ids| ==> r[ids[i]] == NewTarget(inputs[i], missionId)
    ensures forall t :: t in targets ==> r[t] == targets[t]
    decreases |ids|
  {
    if |ids| == 0 then targets
    else
      var n := |ids| - 1;
      var prefix, prefixInputs := ids[..n], inputs[..n];
      PrefixStaysFresh(targets, ids, prefix);
      var earlier := InsertTargets(targets, missionId, prefix, prefixInputs);
      InsertLastTarget(targets, earlier, missionId, ids, inputs, prefix, prefixInputs);
      Base.Insert(earlier, ids[n], NewTarget(inputs[n], missionId))
  }

  /** Dropping the last id keeps the ids distinct and unused. */
  lemma PrefixStaysFresh(targets: map<Id, Target>, ids: seq<Id>, prefix: seq<Id>)
    requires |ids| > 0 && Distinct(ids) && prefix == ids[..|ids| - 1]
    requires forall i :: 0 <= i < |ids| ==> ids[i] !in targets
    ensures Distinct(prefix)
    ensures forall i :: 0 <= i < |prefix| ==> prefix[i] !in targets
  {
    assert forall i :: 0 <= i < |prefix| ==> prefix[i] == ids[i];
  }

  /** Inserting the last target after the others completes the insertion. */
  lemma InsertLastTarget(targets: map<Id, Target>, earlier: map<Id, Target>, missionId: Id,
                         ids: seq<Id>, inputs: seq<TargetCreate>, prefix: seq<Id>, prefixInputs: seq<TargetCreate>)
    requires |ids| == |inputs| > 0 && Distinct(ids)
    requires prefix == ids[..|ids| - 1] && prefixInputs == inputs[..|ids| - 1]
    requires forall i :: 0 <= i < |ids| ==> ids[i] !in targets
    requires earlier.Keys == targets.Keys + (set x | x in prefix)
    requires forall i :: 0 <= i < |prefix| ==> earlier[prefix[i]] == NewTarget(prefixInputs[i], missionId)
    requires forall t :: t in targets ==> earlier[t] == targets[t]
    ensures ids[|ids| - 1] !in earlier
    ensures var r := earlier[ids[|ids| - 1] := NewTarget(inputs[|ids| - 1], missionId)];
            && r.Keys == targets.Keys + (set x | x in ids)
            && (forall i :: 0 <= i < |ids| ==> r[ids[i]] == NewTarget(inputs[i], missionId))
            && (forall t :: t in targets ==> r[t] == targets[t])
  {
    var n := |ids| - 1;
    assert forall i :: 0 <= i < n ==> prefix[i] == ids[i] && prefixInputs[i] == inputs[i];
    assert ids == prefix + [ids[n]];
    assert (set x | x in ids) == (set x | x in prefix) + {ids[n]};
    assert ids[n] !in earlier;
    var r := earlier[ids[n] := NewTarget(inputs[n], missionId)];
    forall i | 0 <= i < |ids| ensures r[ids[i]] == NewTarget(inputs[i], missionId) {
      if i < n {
        assert earlier[prefix[i]] == NewTarget(prefixInputs[i], missionId);
      }
    }
  }

  /** Creates a mission linked to the requested cat, then its targets. The
      only guard is an upper bound on the number of targets: an empty target
      list is accepted. A cat id naming no cat violates the foreign key of
      `missions.cat_id` and the insertion fails. */
  function CreateMission(s: Store, missionId: Id, targetIds: seq<Id>, input: MissionCreate)
    : (r: Result<Reply<()>>)
    requires missionId !in s.missions
    requires |targetIds| == |input.targets| && Distinct(targetIds)
    requires forall i :: 0 <= i < |targetIds| ==> targetIds[i] !in s.targets
    ensures |input.targets| > 3 ==> r == Err(BadRequest(TargetCountDetail))
    ensures |input.targets| <= 3 && input.catId !in s.cats ==> r.Err? && r.error.Unhandled?
    ensures r.Ok? <==> |input.targets| <= 3 && input.catId in s.cats
    ensures r.Ok? ==> r.value.store.cats == s.cats
    ensures r.Ok? ==>
              && r.value.store.missions.Keys == s.missions.Keys + {missionId}
              && r.value.store.missions[missionId] == Mission(Some(input.catId), false)
              && (forall m :: m in s.missions ==> r.value.store.missions[m] == s.missions[m])
    ensures r.Ok? ==>
              && r.value.store.targets.Keys == s.targets.Keys + (set x | x in targetIds)
              && (forall t :: t in s.targets ==> r.value.store.targets[t] == s.targets[t])
    ensures r.Ok? ==> forall i :: 0 <= i < |targetIds| ==>
              var t := r.value.store.targets[targetIds[i]];
              && t.name == input.targets[i].name && t.country == input.targets[i].country
              && t.notes.None? && !t.isCompleted && t.missionId == missionId
  {
    if |input.targets| > 3 then Err(BadRequest(TargetCountDetail))
    else if Base.GetInstance(s.cats, input.catId).None? then
      Err(Unhandled("Foreign key violation on missions.cat_id"))
    else
      var missions := Base.Insert(s.missions, missionId, Mission(Some(input.catId), false));
      var targets := InsertTargets(s.targets, missionId, targetIds, input.targets);
      Ok(Reply(Store(s.cats, missions, targets), ()))
  }

  /** The guards of a mission update, checked in the order the service checks
      them; `None` when every guard passes. */
  function UpdateMissionGuard(s: Store, id: Id, patch: MissionPatch): (r: Option<Error>)
    ensures id !in s.missions ==> r == Some(NotFound("Mission not found"))
    ensures id in s.missions && s.missions[id].isCompleted && patch.isCompleted.Some? ==>
              r == Some(BadRequest("Mission already completed"))
    ensures id in s.missions && !(s.missions[id].isCompleted && patch.isCompleted.Some?)
            && patch.catId.Some? && s.missions[id].catId.Some? ==>
              r == Some(BadRequest("Mission cat already assigned"))
    ensures id in s.missions && !(s.missions[id].isCompleted && patch.isCompleted.Some?)
            && patch.catId.Some? && s.missions[id].catId.None? && patch.catId.value !in s.cats ==>
              r == Some(NotFound("Cat not found"))
    ensures r.None? <==>
              && id in s.missions
              && !(s.missions[id].isCompleted && patch.isCompleted.Some?)
              && (patch.catId.Some? ==> s.missions[id].catId.None? && patch.catId.value in s.cats)
  {
    if id !in s.missions then Some(NotFound("Mission not found"))
    else if s.missions[id].isCompleted && patch.isCompleted.Some? then
      Some(BadRequest("Mission already completed"))
    else if patch.catId.Some? && s.missions[id].catId.Some? then
      Some(BadRequest("Mission cat already assigned"))
    else if patch.catId.Some? && Base.GetInstance(s.cats, patch.catId.value).None? then
      Some(NotFound("Cat not found"))
    else None
  }

  /** Marks every target of mission `missionId` completed, whatever its prior
      state; the other targets are left alone. */
  function CompleteTargetsOf(targets: map<Id, Target>, missionId: Id): (r: map<Id, Target>)
    ensures r.Keys == targets.Keys
    ensures forall t :: t in targets && targets[t].missionId == missionId ==>
              r[t].isCompleted && r[t] == targets[t].(isCompleted := r[t].isCompleted)
    ensures forall t :: t in targets && targets[t].missionId != missionId ==> r[t] == targets[t]
  {
    map t | t in targets :: if targets[t].missionId == missionId then targets[t].(isCompleted := true) else targets[t]
  }

  /** Updates the mission with id `id`. Every guard runs before any write, so
      a failing call writes nothing. Supplying `isCompleted = true` completes
      every target of the mission; `false` is written but triggers nothing. */
  function UpdateMission(s: Store, id: Id, patch: MissionPatch): (r: Result<Reply<MissionView>>)
    ensures id !in s.missions ==> r == Err(NotFound("Mission not found"))
    ensures id in s.missions && s.missions[id].isCompleted && patch.isCompleted.Some? ==>
              r == Err(BadRequest("Mission already completed"))
    ensures id in s.missions && !(s.missions[id].isCompleted && patch.isCompleted.Some?)
            && patch.catId.Some? && s.missions[id].catId.Some? ==>
              r == Err(BadRequest("Mission cat already assigned"))
    ensures id in s.missions && !(s.missions[id].isCompleted && patch.isCompleted.Some?)
            && patch.catId.Some? && s.missions[id].catId.None? && patch.catId.value !in s.cats ==>
              r == Err(NotFound("Cat not found"))
    ensures r.Ok? <==>
              && id in s.missions
              && !(s.missions[id].isCompleted && patch.isCompleted.Some?)
              && (patch.catId.Some? ==> s.missions[id].catId.None? && patch.catId.value in s.cats)
    ensures r.Ok? ==>
              && r.value.store.cats == s.cats
              && r.value.store.missions.Keys == s.missions.Keys
              && (forall m :: m in s.missions && m != id ==> r.value.store.missions[m] == s.missions[m])
    ensures r.Ok? ==>
              var m := r.value.store.missions[id];
              && m.isCompleted == (if patch.isCompleted.Some? then patch.isCompleted.value else s.missions[id].isCompleted)
              && m.catId == (if patch.catId.Some? then patch.catId else s.missions[id].catId)
    ensures r.Ok? ==>
              && r.value.store.targets.Keys == s.targets.Keys
              && (forall t :: t in s.targets && (s.targets[t].missionId != id || patch.isCompleted != Some(true)) ==>
                    r.value.store.targets[t] == s.targets[t])
              && (forall t :: t in s.targets && s.targets[t].missionId == id && patch.isCompleted == Some(true) ==>
                    r.value.store.targets[t] == s.targets[t].(isCompleted := true))
    ensures r.Ok? ==> r.value.out == MissionView(r.value.store.missions[id], TargetsOf(r.value.store.targets, id))
  {
    match UpdateMissionGuard(s, id, patch)
    case Some(e) => Err(e)
    case None =>
      var targets := if patch.isCompleted == Some(true) then CompleteTargetsOf(s.targets, id) else s.targets;
      var w := Base.Update(s.missions, id, m => Base.PatchMission(m, patch)).value;
      var s' := Store(s.cats, w.table, targets);
      Ok(Reply(s', MissionView(w.row, TargetsOf(s'.targets, id))))
  }

  /** Deletes a mission no cat is assigned to; the database removes its
      targets through the cascading foreign key. */
  function DeleteMission(s: Store, id: Id): (r: Result<Reply<()>>)
    ensures id !in s.missions ==> r == Err(NotFound("Mission not found"))
    ensures id in s.missions && s.missions[id].catId.Some? ==> r == Err(BadRequest("Mission cat already assigned"))
    ensures r.Ok? <==> id in s.missions && s.missions[id].catId.None?
    ensures r.Ok? ==>
              && r.value.store.cats == s.cats
              && r.value.store.missions.Keys == s.missions.Keys - {id}
              && (forall m :: m in r.value.store.missions ==> r.value.store.missions[m] == s.missions[m])
    ensures r.Ok? ==>
              && (forall t :: t in r.value.store.targets <==> t in s.targets && s.targets[t].missionId != id)
              && (forall t :: t in r.value.store.targets ==> r.value.store.targets[t] == s.targets[t])
  {
    match Base.GetInstance(s.missions, id)
    case None => Err(NotFound("Mission not found"))
    case Some(m) =>
      if m.catId.Some? then Err(BadRequest("Mission cat already assigned"))
      else
        var (missions, _) := Base.Delete(s.missions, id).value;
        var targets := map t | t in s.targets && s.targets[t].missionId != id :: s.targets[t];
        Ok(Reply(Store(s.cats, missions, targets), ()))
  }

  /** Updates one target. A completed target rejects any completion value and
      any non-empty notes; an empty notes string still passes the guard and
      is written. Notes holding U+0000 pass the guards on an open target but
      are refused by the text column, so the update statement fails. */
  function UpdateTarget(s: Store, id: Id, patch: TargetPatch): (r: Result<Reply<Target>>)
    ensures id !in s.targets ==> r == Err(NotFound("Target not found"))
    ensures id in s.targets && s.targets[id].isCompleted && (patch.isCompleted.Some? || Truthy(patch.notes)) ==>
              r == Err(BadRequest("Target already completed"))
    ensures id in s.targets && !(s.targets[id].isCompleted && (patch.isCompleted.Some? || Truthy(patch.notes)))
            && patch.notes.Some? && !NoNul(patch.notes.value) ==>
              r.Err? && r.error.Unhandled?
    ensures r.Ok? <==>
              && id in s.targets
              && !(s.targets[id].isCompleted && (patch.isCompleted.Some? || Truthy(patch.notes)))
              && (patch.notes.Some? ==> NoNul(patch.notes.value))
    ensures r.Ok? ==>
              && r.value.store.cats == s.cats && r.value.store.missions == s.missions
              && r.value.store.targets.Keys == s.targets.Keys
              && r.value.store.targets[id] == r.value.out
              && (forall t :: t in s.targets && t != id ==> r.value.store.targets[t] == s.targets[t])
    ensures r.Ok? ==>
              && r.value.out.name == s.targets[id].name && r.value.out.country == s.targets[id].country
              && r.value.out.missionId == s.targets[id].missionId
              && r.value.out.notes == (if patch.notes.Some? then patch.notes else s.targets[id].notes)
              && r.value.out.isCompleted
                 == (if patch.isCompleted.Some? then patch.isCompleted.value else s.targets[id].isCompleted)
  {
    match Base.GetInstance(s.targets, id)
    case None => Err(NotFound("Target not found"))
    case Some(t) =>
      if t.isCompleted && (patch.isCompleted.Some? || Truthy(patch.notes)) then
        Err(BadRequest("Target already completed"))
      else if patch.notes.Some? && !NoNul(patch.notes.value) then
        Err(Unhandled("Value rejected by the targets.notes column"))
      else
        var w := Base.Update(s.targets, id, t0 => Base.PatchTarget(t0, patch)).value;
        Ok(Reply(s.(targets := w.table), w.row))
  }

  /** A completed target stays completed through any accepted update, and its
      notes can change only to the empty string. */
  lemma CompletedTargetIsFrozen(s: Store, id: Id, patch: TargetPatch)
    requires id in s.targets && s.targets[id].isCompleted
    requires UpdateTarget(s, id, patch).Ok?
    ensures UpdateTarget(s, id, patch).value.out.isCompleted
    ensures UpdateTarget(s, id, patch).value.out.notes in {s.targets[id].notes, Some("")}
  {
  }

  /** Empty notes on a completed target are accepted and overwrite the notes. */
  lemma EmptyNotesReachCompletedTarget(s: Store, id: Id)
    requires id in s.targets && s.targets[id].isCompleted
    ensures UpdateTarget(s, id, TargetPatch(Some(""), None)).Ok?
    ensures UpdateTarget(s, id, TargetPatch(Some(""), None)).value.out.notes == Some("")
  {
  }

  /** Completing a mission leaves every one of its targets completed. */
  lemma CompletionCascades(s: Store, id: Id, catId: Option<Id>)
    requires UpdateMission(s, id, MissionPatch(Some(true), catId)).Ok?
    ensures var v := UpdateMission(s, id, MissionPatch(Some(true), catId)).value.out;
            v.mission.isCompleted && forall t :: t in v.targets ==> v.targets[t].isCompleted
  {
  }
}
