/** A worked run of the services on concrete data, as the code is written:
    a mission is created already assigned, so assigning a cat to it later is
    rejected, while completing it completes both of its targets and locks
    its completion flag. */
module Scenario {
  import opened Outcomes
  import opened Records
  import Cats
  import Missions

  const Tom := Cat("Tom", 3, "Bengal", 100)
  const Request := MissionCreate(1, [TargetCreate("A", "X"), TargetCreate("B", "Y")])

  /** After the cat is created. */
  function S1(): Store
  {
    Store(map[1 := Tom], map[], map[])
  }

  /** After the mission with its two targets is created. */
  function S2(): Store
  {
    Store(map[1 := Tom], map[10 := Mission(Some(1), false)],
          map[20 := Target("A", "X", None, false, 10), 21 := Target("B", "Y", None, false, 10)])
  }

  /** After the mission is completed. */
  function S3(): Store
  {
    Store(map[1 := Tom], map[10 := Mission(Some(1), true)],
          map[20 := Target("A", "X", None, true, 10), 21 := Target("B", "Y", None, true, 10)])
  }

  lemma CreateCatStep()
    ensures Cats.CreateCat(EmptyStore(), ["Bengal"], 1, CatCreate("Tom", "Bengal", 3, 100)) == Ok(Reply(S1(), Tom))
  {
  }

  lemma CreateMissionStep()
    ensures Missions.CreateMission(S1(), 10, [20, 21], Request) == Ok(Reply(S2(), ()))
  {
    var r := Missions.CreateMission(S1(), 10, [20, 21], Request);
    assert [20, 21][0] == 20 && [20, 21][1] == 21;
    assert r.value.store.targets.Keys == S2().targets.Keys;
    assert r.value.store.targets == S2().targets;
  }

  lemma AssignRejected()
    ensures Missions.UpdateMission(S2(), 10, MissionPatch(None, Some(1))) == Err(BadRequest("Mission cat already assigned"))
  {
  }

  lemma CompleteStep()
    ensures Missions.UpdateMission(S2(), 10, MissionPatch(Some(true), None)).Ok?
    ensures Missions.UpdateMission(S2(), 10, MissionPatch(Some(true), None)).value.store == S3()
  {
    var r := Missions.UpdateMission(S2(), 10, MissionPatch(Some(true), None));
    assert r.value.store.targets == S3().targets;
    assert r.value.store.missions == S3().missions;
  }

  lemma CompletedMissionLocked()
    ensures Missions.UpdateMission(S3(), 10, MissionPatch(Some(false), None)) == Err(BadRequest("Mission already completed"))
    ensures Cats.DeleteCat(S3(), 1) == Err(BadRequest("Can't delete cat with missions"))
    ensures Missions.DeleteMission(S3(), 10) == Err(BadRequest("Mission cat already assigned"))
  {
    assert 10 in MissionsOf(S3(), 1);
  }

  /** A negative experience and a zero salary pass cat creation. */
  lemma NonPositiveNumbersAccepted()
    ensures Cats.CreateCat(EmptyStore(), ["Bengal"], 1, CatCreate("Tom", "Bengal", -3, 0)).Ok?
  {
  }

  /** An empty target list passes the count guard. */
  lemma EmptyTargetListAccepted()
    ensures Missions.CreateMission(S1(), 10, [], MissionCreate(1, [])).Ok?
  {
  }
}
