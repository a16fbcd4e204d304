/** The three tables of the store and the input shapes the services accept.
    Ids, timestamps and the ORM relationships are not fields here: a record is
    keyed by its id in its table, and a relationship is recovered from the
    foreign-key field it is declared over. */
module Records {
  import opened Outcomes

  /** A primary key. The source uses UUIDs; here ids are naturals. */
  type Id = nat

  /** Whether `x` fits a 32-bit signed `Integer` column. */
  predicate FitsInt32(x: int)
  {
    -0x8000_0000 <= x < 0x8000_0000
  }

  /** Whether `x` can be stored in a PostgreSQL text column, which refuses
      the character U+0000. */
  predicate NoNul(x: string)
  {
    '\0' !in x
  }

  /** A row of the `cats` table. */
  datatype Cat = Cat(name: string, experience: int, breed: string, salary: int)

  /** A row of the `missions` table. `catId` is the nullable foreign key into `cats`. */
  datatype Mission = Mission(catId: Option<Id>, isCompleted: bool)

  /** A row of the `targets` table. `missionId` is the non-null foreign key into
      `missions`, declared with `ON DELETE CASCADE`. */
  datatype Target = Target(
    name: string,
    country: string,
    notes: Option<string>,
    isCompleted: bool,
    missionId: Id)

  /** The whole persistent state: one map per table. */
  datatype Store = Store(
    cats: map<Id, Cat>,
    missions: map<Id, Mission>,
    targets: map<Id, Target>)

  /** A successful service call: the store after the call and what it returns. */
  datatype Reply<+T> = Reply(store: Store, out: T)

  /** Body of a cat creation request. */
  datatype CatCreate = CatCreate(name: string, breed: string, experience: int, salary: int)

  /** Body of a cat update request: only the salary may be supplied. */
  datatype CatPatch = CatPatch(salary: Option<int>)

  /** One target of a mission creation request. */
  datatype TargetCreate = TargetCreate(name: string, country: string)

  /** Body of a mission creation request; `catId` is a required field. */
  datatype MissionCreate = MissionCreate(catId: Id, targets: seq<TargetCreate>)

  /** Body of a mission update request; either field may be absent. */
  datatype MissionPatch = MissionPatch(isCompleted: Option<bool>, catId: Option<Id>)

  /** Body of a target update request; either field may be absent. */
  datatype TargetPatch = TargetPatch(notes: Option<string>, isCompleted: Option<bool>)

  /** A mission as the read side presents it: the row and the targets it owns. */
  datatype MissionView = MissionView(mission: Mission, targets: map<Id, Target>)

  /** The store before anything is created. */
  function EmptyStore(): Store
  {
    Store(map[], map[], map[])
  }

  /** The ids of the missions whose foreign key names `catId`: the cat's missions. */
  function MissionsOf(s: Store, catId: Id): (r: set<Id>)
    ensures r <= s.missions.Keys
    ensures forall m :: m in s.missions ==> (m in r <==> s.missions[m].catId == Some(catId))
  {
    set m | m in s.missions && s.missions[m].catId == Some(catId)
  }

  /** The targets whose foreign key names `missionId`: the mission's targets. */
  function TargetsOf(targets: map<Id, Target>, missionId: Id): (r: map<Id, Target>)
    ensures r.Keys <= targets.Keys
    ensures forall t :: t in r ==> r[t] == targets[t] && r[t].missionId == missionId
    ensures forall t :: t in targets && targets[t].missionId == missionId ==> t in r
  {
    map t | t in targets && targets[t].missionId == missionId :: targets[t]
  }

  /** No id occurs twice in `ids`. */
  predicate Distinct(ids: seq<Id>)
  {
    forall i, j :: 0 <= i < j < |ids| ==> ids[i] != ids[j]
  }
}
