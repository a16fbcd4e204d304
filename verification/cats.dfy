/** The cat service: read one cat, create a cat of a known breed, update its
    salary, and delete a cat that no mission refers to. */
module Cats {
  import opened Outcomes
  import opened Records
  import Base

  /** The stored cat with id `id`. */
  function GetCat(s: Store, id: Id): (r: Result<Cat>)
    ensures r.Ok? <==> id in s.cats
    ensures r.Ok? ==> r.value == s.cats[id]
    ensures r.Err? ==> r.error == NotFound("Cat not found")
  {
    match Base.GetInstance(s.cats, id)
    case None => Err(NotFound("Cat not found"))
    case Some(c) => Ok(c)
  }

  /** Whether the database accepts every column of the new cat row. */
  predicate Storable(input: CatCreate)
  {
    && NoNul(input.name) && NoNul(input.breed)
    && FitsInt32(input.experience) && FitsInt32(input.salary)
  }

  /** Creates a cat under the fresh id `id`. `breeds` is the list of breed
      names fetched from the breed catalogue; membership in it is the only
      check the service makes, so any experience and any salary, zero or
      negative included, pass it. The columns holding them are 32-bit
      integers, so a value outside that range makes the insertion itself
      fail, after the breed check; so does a name or breed holding U+0000,
      which the text columns refuse. */
  function CreateCat(s: Store, breeds: seq<string>, id: Id, input: CatCreate): (r: Result<Reply<Cat>>)
    requires id !in s.cats
    ensures input.breed !in breeds ==> r == Err(BadRequest("Invalid breed provided"))
    ensures input.breed in breeds && !Storable(input) ==> r.Err? && r.error.Unhandled?
    ensures r.Ok? <==> input.breed in breeds && Storable(input)
    ensures r.Ok? ==>
              && r.value.out.name == input.name && r.value.out.breed == input.breed
              && r.value.out.experience == input.experience && r.value.out.salary == input.salary
    ensures r.Ok? ==>
              && r.value.store.cats.Keys == s.cats.Keys + {id}
              && r.value.store.cats[id] == r.value.out
              && (forall k :: k in s.cats ==> r.value.store.cats[k] == s.cats[k])
    ensures r.Ok? ==> r.value.store.missions == s.missions && r.value.store.targets == s.targets
  {
    if input.breed !in breeds then Err(BadRequest("Invalid breed provided"))
    else if !Storable(input) then
      Err(Unhandled("Value rejected by a cats column"))
    else
      var cat := Cat(input.name, input.experience, input.breed, input.salary);
      Ok(Reply(s.(cats := Base.Insert(s.cats, id, cat)), cat))
  }

  /** Applies a salary-only partial update to the cat with id `id`. A
      supplied salary outside the 32-bit range of its column makes the
      update statement fail. */
  function UpdateCat(s: Store, id: Id, patch: CatPatch): (r: Result<Reply<Cat>>)
    ensures id !in s.cats ==> r == Err(NotFound("Cat not found"))
    ensures id in s.cats && patch.salary.Some? && !FitsInt32(patch.salary.value) ==>
              r.Err? && r.error.Unhandled?
    ensures r.Ok? <==> id in s.cats && (patch.salary.Some? ==> FitsInt32(patch.salary.value))
    ensures r.Ok? ==>
              && r.value.out.name == s.cats[id].name && r.value.out.breed == s.cats[id].breed
              && r.value.out.experience == s.cats[id].experience
              && (patch.salary.Some? ==> r.value.out.salary == patch.salary.value)
              && (patch.salary.None? ==> r.value.out.salary == s.cats[id].salary)
    ensures r.Ok? ==>
              && r.value.store.cats.Keys == s.cats.Keys && r.value.store.cats[id] == r.value.out
              && (forall k :: k in s.cats && k != id ==> r.value.store.cats[k] == s.cats[k])
    ensures r.Ok? ==> r.value.store.missions == s.missions && r.value.store.targets == s.targets
  {
    if Base.GetInstance(s.cats, id).None? then Err(NotFound("Cat not found"))
    else if patch.salary.Some? && !FitsInt32(patch.salary.value) then
      Err(Unhandled("Integer out of range for a cats column"))
    else
      var w := Base.Update(s.cats, id, c => Base.PatchCat(c, patch)).value;
      Ok(Reply(s.(cats := w.table), w.row))
  }

  /** Deletes the cat with id `id` unless some mission refers to it. */
  function DeleteCat(s: Store, id: Id): (r: Result<Reply<()>>)
    ensures id !in s.cats ==> r == Err(NotFound("Cat not found"))
    ensures id in s.cats && MissionsOf(s, id) != {} ==> r == Err(BadRequest("Can't delete cat with missions"))
    ensures r.Ok? <==> id in s.cats && MissionsOf(s, id) == {}
    ensures r.Ok? ==>
              && r.value.store.cats.Keys == s.cats.Keys - {id}
              && (forall k :: k in r.value.store.cats ==> r.value.store.cats[k] == s.cats[k])
    ensures r.Ok? ==> r.value.store.missions == s.missions && r.value.store.targets == s.targets
  {
    if Base.GetInstance(s.cats, id).None? then Err(NotFound("Cat not found"))
    else if MissionsOf(s, id) != {} then
      Err(BadRequest("Can't delete cat with missions"))
    else
      var (cats, _) := Base.Delete(s.cats, id).value;
      Ok(Reply(s.(cats := cats), ()))
  }

  /** A cat that is deleted can no longer be read. */
  lemma DeletedCatIsGone(s: Store, id: Id)
    requires DeleteCat(s, id).Ok?
    ensures GetCat(DeleteCat(s, id).value.store, id) == Err(NotFound("Cat not found"))
  {
  }

  /** A created cat reads back with the fields it was created with. */
  lemma CreatedCatReadsBack(s: Store, breeds: seq<string>, id: Id, input: CatCreate)
    requires id !in s.cats && input.breed in breeds
    requires Storable(input)
    ensures GetCat(CreateCat(s, breeds, id, input).value.store, id)
         == Ok(Cat(input.name, input.experience, input.breed, input.salary))
  {
  }
}
