/** The generic table operations every service builds on: insert a row built
    from a request body, look a row up by id, apply a partial update that
    writes only the supplied fields, delete a row, and flatten result rows. */
module Base {
  import opened Outcomes
  import opened Records

  /** A table after a write, with the row the write returned. */
  datatype Written<R> = Written(table: map<Id, R>, row: R)

  /** Flattens a sequence of result rows into one list. */
  function Unpack<T>(rows: seq<seq<T>>): (r: seq<T>)
    ensures |r| == TotalLength(rows)
  {
    if |rows| == 0 then [] else rows[0] + Unpack(rows[1..])
  }

  /** The number of entries in all rows together. */
  function TotalLength<T>(rows: seq<seq<T>>): nat
  {
    if |rows| == 0 then 0 else |rows[0]| + TotalLength(rows[1..])
  }

  /** Where row `i` starts in the flattened list. */
  function Offset<T>(rows: seq<seq<T>>, i: nat): nat
    requires i <= |rows|
  {
    if i == 0 then 0 else |rows[0]| + Offset(rows[1..], i - 1)
  }

  /** The rows tile the flattened list: each row starts where the previous
      one ends, and the last one ends at the total length. */
  lemma {:induction false} OffsetsTile<T>(rows: seq<seq<T>>, i: nat)
    requires i < |rows|
    ensures Offset(rows, i + 1) == Offset(rows, i) + |rows[i]|
    ensures Offset(rows, |rows|) == TotalLength(rows)
    decreases |rows|
  {
    if i > 0 {
      OffsetsTile(rows[1..], i - 1);
      assert rows[1..][i - 1] == rows[i];
    } else if |rows| > 1 {
      OffsetsTile(rows[1..], 0);
    }
  }

  /** Entry `j` of row `i` sits at position `Offset(rows, i) + j` of the
      flattened list: flattening keeps every entry and keeps the order. */
  lemma {:induction false} UnpackKeepsOrder<T>(rows: seq<seq<T>>, i: nat, j: nat)
    requires i < |rows| && j < |rows[i]|
    ensures Offset(rows, i) + j < |Unpack(rows)|
    ensures Unpack(rows)[Offset(rows, i) + j] == rows[i][j]
  {
    if i == 0 {
      assert Unpack(rows) == rows[0] + Unpack(rows[1..]);
    } else {
      UnpackKeepsOrder(rows[1..], i - 1, j);
      assert rows[1..][i - 1] == rows[i];
      assert Unpack(rows) == rows[0] + Unpack(rows[1..]);
    }
  }

  /** Flattening distributes over concatenation of the row sequences. */
  lemma {:induction false} UnpackAppend<T>(a: seq<seq<T>>, b: seq<seq<T>>)
    ensures Unpack(a + b) == Unpack(a) + Unpack(b)
  {
    if |a| == 0 {
      assert a + b == b;
    } else {
      assert (a + b)[1..] == a[1..] + b;
      UnpackAppend(a[1..], b);
    }
  }

  /** Looks up the row with id `id`; `None` when there is none. Every query
      of the services is by primary key, so at most one row can match. */
  function GetInstance<R>(table: map<Id, R>, id: Id): (r: Option<R>)
    ensures r.None? <==> id !in table
    ensures r.Some? ==> r.value == table[id]
  {
    if id in table then Some(table[id]) else None
  }

  /** Adds a new row under a fresh id. */
  function Insert<R>(table: map<Id, R>, id: Id, row: R): (r: map<Id, R>)
    requires id !in table
    ensures r.Keys == table.Keys + {id}
    ensures r[id] == row
    ensures forall k :: k in table ==> r[k] == table[k]
  {
    table[id := row]
  }

  /** The non-`None` merge of one field: a supplied value replaces the stored
      one, an absent value keeps it. `false`, `0` and `""` are supplied values. */
  function Merge<T>(stored: T, supplied: Option<T>): (r: T)
    ensures supplied.Some? ==> r == supplied.value
    ensures supplied.None? ==> r == stored
  {
    match supplied
    case Some(v) => v
    case None => stored
  }

  /** A cat row after a partial update. */
  function PatchCat(c: Cat, p: CatPatch): (r: Cat)
    ensures r.name == c.name && r.experience == c.experience && r.breed == c.breed
    ensures p.salary.Some? ==> r.salary == p.salary.value
    ensures p.salary.None? ==> r == c
  {
    c.(salary := Merge(c.salary, p.salary))
  }

  /** A mission row after a partial update. */
  function PatchMission(m: Mission, p: MissionPatch): (r: Mission)
    ensures p.isCompleted.Some? ==> r.isCompleted == p.isCompleted.value
    ensures p.isCompleted.None? ==> r.isCompleted == m.isCompleted
    ensures p.catId.Some? ==> r.catId == p.catId
    ensures p.catId.None? ==> r.catId == m.catId
  {
    m.(isCompleted := Merge(m.isCompleted, p.isCompleted),
       catId := if p.catId.Some? then p.catId else m.catId)
  }

  /** A target row after a partial update. */
  function PatchTarget(t: Target, p: TargetPatch): (r: Target)
    ensures r.name == t.name && r.country == t.country && r.missionId == t.missionId
    ensures p.notes.Some? ==> r.notes == p.notes
    ensures p.notes.None? ==> r.notes == t.notes
    ensures p.isCompleted.Some? ==> r.isCompleted == p.isCompleted.value
    ensures p.isCompleted.None? ==> r.isCompleted == t.isCompleted
  {
    t.(notes := if p.notes.Some? then p.notes else t.notes,
       isCompleted := Merge(t.isCompleted, p.isCompleted))
  }

  /** `false` and the empty string are real values: a patch carrying them
      overwrites the stored fields. */
  lemma FalsyValuesAreWritten(t: Target)
    ensures PatchTarget(t, TargetPatch(Some(""), Some(false))).notes == Some("")
    ensures !PatchTarget(t, TargetPatch(Some(""), Some(false))).isCompleted
  {
  }

  /** A patch with every field absent leaves a row as it was. */
  lemma EmptyPatchIsIdentity(c: Cat, m: Mission, t: Target)
    ensures PatchCat(c, CatPatch(None)) == c
    ensures PatchMission(m, MissionPatch(None, None)) == m
    ensures PatchTarget(t, TargetPatch(None, None)) == t
  {
  }

  /** Applying the same partial update twice writes nothing more than
      applying it once. */
  lemma PatchIsIdempotent(c: Cat, cp: CatPatch, m: Mission, mp: MissionPatch, t: Target, tp: TargetPatch)
    ensures PatchCat(PatchCat(c, cp), cp) == PatchCat(c, cp)
    ensures PatchMission(PatchMission(m, mp), mp) == PatchMission(m, mp)
    ensures PatchTarget(PatchTarget(t, tp), tp) == PatchTarget(t, tp)
  {
  }

  /** Updates the row with id `id` through `patch` and returns the updated
      row. The update is required to touch exactly one row: with no row to
      update the call fails. */
  function Update<R>(table: map<Id, R>, id: Id, patch: R -> R): (r: Result<Written<R>>)
    ensures r.Ok? <==> id in table
    ensures r.Err? ==> r.error.Unhandled?
    ensures r.Ok? ==> r.value.row == patch(table[id])
    ensures r.Ok? ==> r.value.table.Keys == table.Keys && r.value.table[id] == r.value.row
    ensures r.Ok? ==> forall k :: k in table && k != id ==> r.value.table[k] == table[k]
  {
    if id !in table then Err(Unhandled("No row was found when one was required"))
    else
      var row := patch(table[id]);
      Ok(Written(table[id := row], row))
  }

  /** Deletes the row with id `id` and returns that id. The delete is
      required to remove exactly one row: with no row to delete the call fails. */
  function Delete<R>(table: map<Id, R>, id: Id): (r: Result<(map<Id, R>, Id)>)
    ensures r.Ok? <==> id in table
    ensures r.Err? ==> r.error.Unhandled?
    ensures r.Ok? ==> r.value.1 == id && r.value.0.Keys == table.Keys - {id}
    ensures r.Ok? ==> forall k :: k in r.value.0 ==> r.value.0[k] == table[k]
  {
    if id !in table then Err(Unhandled("No row was found when one was required"))
    else Ok((table - {id}, id))
  }

  /** Deleting a row just inserted restores the table and returns the id. */
  lemma DeleteUndoesInsert<R>(table: map<Id, R>, id: Id, row: R)
    requires id !in table
    ensures Delete(Insert(table, id, row), id) == Ok((table, id))
  {
    assert Insert(table, id, row) - {id} == table;
  }

  /** After an update, looking the row up yields the row the update returned. */
  lemma UpdateThenGet<R>(table: map<Id, R>, id: Id, patch: R -> R)
    requires id in table
    ensures GetInstance(Update(table, id, patch).value.table, id) == Some(patch(table[id]))
  {
  }
}
