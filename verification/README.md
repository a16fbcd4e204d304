# Cats and missions: a Dafny model of the service rules

The system keeps three tables: cats (agents with a name, breed, experience and
salary), missions (optionally assigned to one cat, with a completion flag) and
targets (the objectives of one mission, each with notes and its own completion
flag). Two services enforce the domain rules on top of a generic base service:
the cat service checks the breed on creation, allows salary-only updates and
refuses to delete a cat that a mission refers to; the mission service bounds
the number of targets on creation, guards mission updates in a fixed order,
cascades completion from a mission onto its targets, refuses to delete an
assigned mission and freezes completed targets.

The model is a pure state machine. `Records.Store` holds one map per table,
from ids to rows. Every service method is a total function from a store and a
request to `Result<Reply<T>>`: either `Ok` with the new store and the value
the method returns, or `Err` with `NotFound(detail)` or `BadRequest(detail)`
carrying the exact detail string the service raises. A third kind,
`Unhandled(cause)`, stands for exceptions the services do not catch. A failing
call carries no store, so a rejected call changes nothing. This is faithful
because every guard runs before the first write.

Files and modules:

- `outcomes.dfy` (`Outcomes`): `Option`, `Error`, `Result` and Python
  truthiness of optional strings.
- `records.dfy` (`Records`): the rows, the store and the request bodies. It
  also defines "missions of a cat" as the missions whose `catId` is that cat,
  and "targets of a mission" as the targets whose `missionId` is that mission.
- `base.dfy` (`Base`): the generic operations of `app/services/base.py`:
  insert, lookup by id, the partial-update merge, update and delete of one
  row, and flattening of result rows.
- `cats.dfy` (`Cats`) and `missions.dfy` (`Missions`): the two services.
- `lifecycle.dfy` (`Lifecycle`): the mutating calls as commands, runs of
  commands, and the invariants every reachable store satisfies.
- `scenario.dfy` (`Scenario`): a concrete run of create, assign, complete and
  delete attempts.

Behaviour as written. The model follows the code, including where the
code's own messages and names suggest a different intent:

- The target-count guard rejects only more than three targets. An empty target
  list is accepted, even though the message says "from 1 to 3".
- Experience and salary are never checked for positivity. They are stored in
  32-bit `Integer` columns, so a value outside that range makes the insert or
  update fail in the database. The model reports that as `Unhandled`.
- The text columns refuse the character U+0000, and no service checks for it.
  A cat name or breed, or target notes, holding it make the write fail. The
  model reports that as `Unhandled` too.
- `cat_id` is a required field of a mission creation request. So every mission
  is created already assigned, and no update can clear the assignment. From
  this the model proves three consequences. Deleting a stored mission always
  fails with "Mission cat already assigned"
  (`Lifecycle.NoMissionCanBeDeleted`). Supplying a cat in a mission update is
  always rejected (`Lifecycle.CatAssignmentIsAlwaysRejected`). A cat that has
  a mission can never be deleted (`Lifecycle.MissionIsPermanent`).
- `get_mission` has no not-found guard. An absent id is therefore an
  unhandled failure, not a 404.
- A completed target still accepts `notes = ""`, which overwrites its notes.
- A creation request naming an unknown cat violates the foreign key on
  `missions.cat_id`. The database rejects the insertion.

Ids are naturals chosen by the caller. The creation functions require them to
be unused, and to be pairwise distinct for the targets. This stands in for the
UUID generator.

## Model

| member | source | states |
|---|---|---|
| Base.Unpack | app/services/base.py:17-18 | the flattened list is as long as all rows together |
| Base.OffsetsTile | app/services/base.py:17-18 | each row starts where the previous one ends and the last ends at the total length, so the rows tile the flattened list |
| Base.UnpackKeepsOrder | app/services/base.py:17-18 | entry j of row i lands at position offset(i)+j: flattening keeps every entry in order |
| Base.UnpackAppend | app/services/base.py:17-18 | flattening a concatenation is the concatenation of the flattenings |
| Base.GetInstance | app/services/base.py:35-38 | yields nothing exactly when no row has the id, otherwise the stored row |
| Base.Insert | app/services/base.py:25-33 | adds exactly one row under the new id; every existing row is kept |
| Base.PatchCat | app/services/base.py:47-52 | a supplied salary is written; an absent one leaves the cat unchanged; other fields are kept |
| Base.PatchMission | app/services/base.py:47-52 | each supplied field (completion flag, cat) is written, each absent one keeps its stored value |
| Base.PatchTarget | app/services/base.py:47-52 | each supplied field (notes, completion flag) is written, each absent one keeps its stored value; name, country and mission are kept |
| Base.FalsyValuesAreWritten | app/services/base.py:51 | `false` and the empty string are written, since only `None` is filtered out |
| Base.EmptyPatchIsIdentity | app/services/base.py:47-52 | a patch with every field absent leaves the row unchanged |
| Base.PatchIsIdempotent | app/services/base.py:47-52 | applying the same partial update twice gives the same row as applying it once |
| Base.UpdateThenGet | app/services/base.py:54-58 | after an update, the row read back is the patched row the update returned |
| Base.Merge | app/services/base.py:48-52 | a supplied value replaces the stored one; an absent (`None`) value keeps it |
| Base.Update | app/services/base.py:40-58 | fails exactly when no row has the id; otherwise changes only that row, to the patched row, and returns it |
| Base.Delete | app/services/base.py:60-69 | fails exactly when no row has the id; otherwise removes only that row and returns its id |
| Base.DeleteUndoesInsert | app/services/base.py:60-69 | deleting a row just inserted restores the table and returns that id |
| Cats.GetCat | app/services/cats.py:27-37 | succeeds exactly when the cat exists and returns it unchanged; otherwise NotFound "Cat not found" |
| Cats.CreateCat | app/services/cats.py:39-54 | BadRequest "Invalid breed provided" exactly when the breed is not in the supplied list; then an unhandled failure when experience or salary does not fit the 32-bit columns or the name or breed holds U+0000; otherwise adds one cat equal to the input and changes nothing else |
| Cats.CreatedCatReadsBack | app/services/cats.py:53-54 | a created cat reads back with the fields it was created with |
| Cats.UpdateCat | app/services/cats.py:56-68 | NotFound when the cat is absent; then an unhandled failure when a supplied salary does not fit the 32-bit column; otherwise only that cat's salary changes, and only when a salary is supplied |
| Cats.DeleteCat | app/services/cats.py:70-87 | NotFound when absent, BadRequest "Can't delete cat with missions" when a mission refers to it, otherwise removes only that cat |
| Cats.DeletedCatIsGone | app/services/cats.py:70-87 | after a successful delete the cat reads as NotFound |
| Outcomes.Truthy | app/services/missions.py:146-148 | optional notes count as supplied for the completed-target guard exactly when they are neither `None` nor the empty string |
| Records.MissionsOf | app/services/cats.py:81-85 | the missions of a cat are exactly the stored missions whose `cat_id` is that cat |
| Records.TargetsOf | app/services/missions.py:100-104 | the targets of a mission are exactly the stored targets whose `mission_id` is that mission, with their stored rows |
| Missions.NewTarget | app/services/missions.py:60-62 | a new target has the request's name and country, no notes, is not completed and belongs to the new mission |
| Missions.UpdateMissionGuard | app/services/missions.py:73-98 | the first failing guard in order (mission not found, already completed, cat already assigned, cat not found); none exactly when all pass |
| Missions.GetMission | app/services/missions.py:38-45 | succeeds exactly when the mission exists and returns it with exactly the targets that name it |
| Missions.InsertTargets | app/services/missions.py:59-62 | inserts one target per input under the matching id, with the input's name and country, no notes, not completed and linked to the mission; keeps existing targets |
| Missions.CreateMission | app/services/missions.py:47-62 | BadRequest on more than 3 targets; otherwise, given a stored cat, adds one open mission assigned to the requested cat and one target per input in order, and changes nothing else |
| Missions.CompleteTargetsOf | app/services/missions.py:100-104 | every target of the mission becomes completed with its other fields kept; all other targets are unchanged |
| Missions.UpdateMission | app/services/missions.py:64-112 | guards in order (mission not found, already completed, cat already assigned, cat not found), success exactly when all pass, the merge on the mission, the cascade onto its targets only for `true`, nothing else changed |
| Missions.CompletionCascades | app/services/missions.py:100-104 | after completing a mission, it and every target it returns are completed |
| Missions.DeleteMission | app/services/missions.py:114-130 | NotFound when absent, BadRequest "Mission cat already assigned" when assigned, otherwise removes the mission and exactly its targets |
| Missions.UpdateTarget | app/services/missions.py:132-155 | NotFound when absent; on a completed target BadRequest "Target already completed" when a completion flag or non-empty notes are supplied; then an unhandled failure when supplied notes hold U+0000; otherwise the non-`None` merge on that target only |
| Missions.CompletedTargetIsFrozen | app/services/missions.py:145-154 | an accepted update keeps a completed target completed and changes its notes at most to the empty string |
| Missions.EmptyNotesReachCompletedTarget | app/services/missions.py:146-148 | empty notes pass the guard on a completed target and are written |
| Lifecycle.EmptyStoreIsConsistent | app/models/missions.py:9-36 | the empty store satisfies the invariants |
| Lifecycle.StepPreservesConsistency | app/models/missions.py:16-29 | every call keeps both foreign keys resolving, keeps the targets of a completed mission completed, and keeps every mission assigned |
| Lifecycle.RunPreservesConsistency | app/models/missions.py:16-29 | every state a run reaches from a consistent store is consistent |
| Lifecycle.DeleteUndoesCreateCat | app/services/cats.py:70-87 | in a consistent store a newly created cat has no missions and deleting it restores the store |
| Lifecycle.CreatedMissionReadsBack | app/services/missions.py:56-62 | in a consistent store a created mission reads back open, assigned to the requested cat, with exactly the targets created for it |
| Lifecycle.NoMissionCanBeDeleted | app/services/missions.py:124-128 | when every mission is assigned, deleting a stored mission fails with "Mission cat already assigned" |
| Lifecycle.CatAssignmentIsAlwaysRejected | app/services/missions.py:86-91 | when every mission is assigned, supplying a cat in an update is rejected with "Mission cat already assigned" |
| Lifecycle.StepKeepsMission | app/services/missions.py:79-91 | one call never removes a mission, never changes its cat and never reopens it |
| Lifecycle.StepKeepsCompletedTarget | app/services/missions.py:146-152 | one call never removes or reopens a completed target |
| Lifecycle.MissionIsPermanent | app/services/missions.py:79-91 | along any run a mission stays stored with the same cat, that cat stays stored, and a completed mission stays completed |
| Lifecycle.CompletedTargetIsPermanent | app/services/missions.py:146-152 | along any run a completed target stays stored and completed |
| Scenario.CreateCatStep | app/services/cats.py:39-54 | creating a cat of a listed breed yields the one-cat store |
| Scenario.CreateMissionStep | app/services/missions.py:47-62 | creating a mission with two targets yields an open assigned mission and two open targets |
| Scenario.AssignRejected | app/services/missions.py:86-91 | assigning a cat to that freshly created mission is rejected |
| Scenario.CompleteStep | app/services/missions.py:100-106 | completing the mission completes both of its targets |
| Scenario.CompletedMissionLocked | app/services/missions.py:79-83 | a completed mission rejects a further completion value, and neither it nor its cat can be deleted |
| Scenario.NonPositiveNumbersAccepted | app/services/cats.py:39-54 | a cat with a negative experience and a zero salary is created |
| Scenario.EmptyTargetListAccepted | app/services/missions.py:50-54 | a mission with zero targets is created |

## Left out

- HTTP routing, dependency wiring, settings, engine and session setup: framework glue. Only the error kind and the detail string are modelled.
- The request to the breed catalogue (`app/services/cats.py:44-46`) is network I/O. The fetched list of breed names is a parameter of `Cats.CreateCat`. A transport error or a non-JSON response is not modelled.
- Sessions, commits and transactions: each service call is one atomic step. `create_mission` and `update_mission` commit several times, so a crash between commits could persist part of the work. The model does not represent that.
- UUID generation and the `created_at`/`updated_at` timestamps: ids are fresh naturals supplied by the caller, and there are no clocks.
- `get_cats`, `get_missions`, `get_all` and the response schemas: read-side listing and serialisation.
- Missions.CreateMission: assigning `mission_id` to a target request body would fail, because the body schema does not declare that field (`app/services/missions.py:61`). The model takes the evident intent: each target is linked to the new mission.
- Missions.CreateMission: a target name or country holding U+0000 is refused by its text column only after the mission and the earlier targets are committed. The model treats the call as one atomic step and does not represent that partial failure.
- Cats.DeleteCat: the eager load of `Cat.missions` names a relationship that the `Cat` row does not declare. The model takes the missions whose `cat_id` is this cat.
- `MissionSchema` declares no `from_instance`, so `get_mission` and `update_mission` would raise at their return. For `update_mission` that happens after its commits. The model returns the mission row with its targets instead.
- `Mission.cat` back-populates a `Cat.missions` relationship that `Cat` never declares (`app/models/missions.py:33`). This breaks mapper configuration for the whole service, not only `delete_cat`. The model reads every relationship from its foreign-key column.
- Logging calls.
