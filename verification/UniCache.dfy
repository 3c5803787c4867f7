/**
 The university cache: departments and school lists read through Redis, and one hash that says which
 university a department belongs to. Every Redis command of a call may be preceded by any commands of other
 calls and by the expiry of any key (`Redis.Others`); what the calls rely on is that every command writes
 either nothing or all of a university.
 */
module UniCache {
  import opened Common

  /** `university` is 0 for a department without one. */
  datatype Dept = Dept(id: nat, university: nat, data: string)

  /** What the API answers, fixed for the life of the cache. */
  datatype Api = Api(departments: map<nat, Dept>, schools: map<nat, seq<nat>>) {
    ghost predicate Valid() {
      && (forall id :: id in departments ==> departments[id].id == id)
      && (forall s, i :: s in schools && 0 <= i < |schools[s]| ==> schools[s][i] in departments)
    }
  }

  /** The three kinds of keys that the cache owns. */
  datatype Store = Store(departments: map<nat, Dept>, index: map<nat, nat>, schools: map<nat, map<nat, Dept>>)

  datatype Result<T> = Ok(value: T) | DataError

  // ---------------------------------------------------------------- what the queries should answer

  function ByIds(api: Api, ids: seq<nat>): map<nat, Dept> {
    map id | id in ids && id in api.departments :: api.departments[id]
  }

  function ByUniversities(api: Api, universities: seq<nat>): map<nat, Dept> {
    map id | id in api.departments && api.departments[id].university in universities :: api.departments[id]
  }

  function IdsOf(departments: seq<Dept>): set<nat> {
    set dep | dep in departments :: dep.id
  }

  function BySchool(api: Api, school: nat): map<nat, Dept> {
    if school in api.schools then ByIds(api, api.schools[school]) else map[]
  }

  // ---------------------------------------------------------------- the invariant

  /** For each university, all of its departments or none. */
  predicate Whole(api: Api, ids: set<nat>) {
    forall d, e | d in api.departments && e in api.departments ::
      api.departments[d].university == api.departments[e].university ==> (d in ids <==> e in ids)
  }

  /** The hash tells the truth, and all of it for every university that it mentions. */
  predicate Consistent(api: Api, index: map<nat, nat>) {
    && (forall d :: d in index ==> d in api.departments && index[d] == api.departments[d].university && index[d] != 0)
    && Whole(api, index.Keys)
  }

  predicate SoundStore(api: Api, store: Store) {
    && (forall id :: id in store.departments ==> id in api.departments && store.departments[id] == api.departments[id])
    && (forall s :: s in store.schools ==> store.schools[s] == BySchool(api, s))
    && Consistent(api, store.index)
  }

  /** One atomic change of the keys: a command, or the expiry of a key. */
  datatype Command =
    | SetDepartment(id: nat, dept: Dept)
    | SetSchool(school: nat, members: map<nat, Dept>)
    | IndexDelete(ids: set<nat>)
    | IndexSet(mapping: map<nat, nat>)
    | ExpireDepartment(id: nat)
    | ExpireSchool(school: nat)
    | ExpireIndex

  function Apply(store: Store, command: Command): Store {
    match command
    case SetDepartment(id, dept) => store.(departments := store.departments[id := dept])
    case SetSchool(school, members) => store.(schools := store.schools[school := members])
    case IndexDelete(ids) => store.(index := store.index - ids)
    case IndexSet(mapping) => store.(index := store.index + mapping)
    case ExpireDepartment(id) => store.(departments := store.departments - {id})
    case ExpireSchool(school) => store.(schools := store.schools - {school})
    case ExpireIndex => store.(index := map[])
  }

  /** The commands that the calls issue, whatever the others do. */
  predicate Legal(api: Api, command: Command) {
    match command
    case SetDepartment(id, dept) => id in api.departments && dept == api.departments[id]
    case SetSchool(school, members) => members == BySchool(api, school)
    case IndexDelete(ids) => Whole(api, ids)
    case IndexSet(mapping) => Consistent(api, mapping)
    case _ => true
  }

  lemma LegalKeepsSound(api: Api, store: Store, command: Command)
    requires SoundStore(api, store) && Legal(api, command)
    ensures SoundStore(api, Apply(store, command))
  {
    var after := Apply(store, command);
    match command {
      case IndexDelete(ids) => assert after.index.Keys == store.index.Keys - ids;
      case IndexSet(mapping) => assert after.index.Keys == store.index.Keys + mapping.Keys;
      case _ =>
    }
  }

  function ApplyAll(store: Store, commands: seq<Command>): Store {
    if commands == [] then store
    else Apply(ApplyAll(store, commands[..|commands| - 1]), commands[|commands| - 1])
  }

  /** All or nothing per university, at every Redis step of every interleaving of calls and expiries. */
  lemma {:induction false} AllOrNothing(api: Api, commands: seq<Command>)
    requires forall i :: 0 <= i < |commands| ==> Legal(api, commands[i])
    ensures SoundStore(api, ApplyAll(Store(map[], map[], map[]), commands))
  {
    if commands == [] {
    } else {
      var before := commands[..|commands| - 1];
      AllOrNothing(api, before);
      LegalKeepsSound(api, ApplyAll(Store(map[], map[], map[]), before), commands[|commands| - 1]);
    }
  }

  // ---------------------------------------------------------------- the update of the hash

  function Universities(departments: seq<Dept>): set<nat> {
    set dep | dep in departments && dep.university != 0 :: dep.university
  }

  function Stale(index: map<nat, nat>, universities: set<nat>): set<nat> {
    set d | d in index && index[d] in universities
  }

  /** The dict comprehension over the departments that have a university: a later one wins. */
  function Mapping(departments: seq<Dept>): map<nat, nat> {
    if departments == [] then map[]
    else
      var last := departments[|departments| - 1];
      var rest := Mapping(departments[..|departments| - 1]);
      if last.university != 0 then rest[last.id := last.university] else rest
  }

  ghost predicate Maps(departments: seq<Dept>, id: nat, university: nat) {
    university != 0 && exists dep :: dep in departments && dep.id == id && dep.university == university
  }

  lemma {:induction false} MappingMeans(departments: seq<Dept>)
    ensures forall d :: d in Mapping(departments) ==> Maps(departments, d, Mapping(departments)[d])
    ensures forall dep :: dep in departments && dep.university != 0 ==> dep.id in Mapping(departments)
    ensures Mapping(departments) == map[] <==> Universities(departments) == {}
  {
    if departments == [] {
    } else {
      var shorter := departments[..|departments| - 1];
      var last := departments[|departments| - 1];
      MappingMeans(shorter);
      assert departments == shorter + [last];
      forall d | d in Mapping(departments)
        ensures Maps(departments, d, Mapping(departments)[d])
      {
        if last.university == 0 || d != last.id {
          assert Maps(shorter, d, Mapping(shorter)[d]);
        }
      }
      if last.university == 0 {
        assert Universities(departments) == Universities(shorter);
      } else {
        assert last.university in Universities(departments);
        assert last.id in Mapping(departments);
      }
    }
  }

  /** The hash after an update that runs alone; `DataError` when HSET would get an empty mapping. */
  function UpdatedIndex(index: map<nat, nat>, departments: seq<Dept>): Result<map<nat, nat>> {
    if departments == [] then Ok(index)
    else if Mapping(departments) == map[] then DataError
    else Ok(index - Stale(index, Universities(departments)) + Mapping(departments))
  }

  predicate DistinctIds(departments: seq<Dept>) {
    forall i, j :: 0 <= i < j < |departments| ==> departments[i].id != departments[j].id
  }

  /**
   The update is exact, also when departments have moved: it leaves the new pairs, and the old pairs whose
   department is not newly mapped and whose university is not among the new ones. It fails if and only if
   there are departments but none of them has a university.
   */
  lemma UpdateIsExact(index: map<nat, nat>, departments: seq<Dept>)
    requires DistinctIds(departments)
    ensures UpdatedIndex(index, departments).DataError? <==>
            departments != [] && forall dep :: dep in departments ==> dep.university == 0
    ensures UpdatedIndex(index, departments).Ok? ==>
              var after := UpdatedIndex(index, departments).value;
              forall d, u :: d in after && after[d] == u <==>
                || Maps(departments, d, u)
                || (d in index && index[d] == u && d !in Mapping(departments) && u !in Universities(departments))
  {
    MappingMeans(departments);
    forall d, u | Maps(departments, d, u)
      ensures d in Mapping(departments) && Mapping(departments)[d] == u
    {
      var v := Mapping(departments)[d];
      assert Maps(departments, d, v);
    }
    if exists dep :: dep in departments && dep.university != 0 {
      var dep :| dep in departments && dep.university != 0;
      assert dep.university in Universities(departments);
    }
  }

  /** Departments as the API knows them. */
  predicate FromApi(api: Api, departments: seq<Dept>) {
    forall dep :: dep in departments ==> dep.id in api.departments && api.departments[dep.id] == dep
  }

  /** The departments that the hash has to hold to answer for these universities. */
  function IndexIds(api: Api, universities: seq<nat>): set<nat> {
    set d | d in api.departments && api.departments[d].university != 0 && api.departments[d].university in universities
  }

  predicate Mentions(index: map<nat, nat>, university: nat) {
    exists d :: d in index && index[d] == university
  }

  /** There are departments to put into the hash, and none of them has a university: HSET refuses. */
  predicate NothingToSet(api: Api, universities: seq<nat>) {
    ByUniversities(api, universities) != map[] && IndexIds(api, universities) == {}
  }

  lemma MappingFromApi(api: Api, departments: seq<Dept>)
    requires FromApi(api, departments)
    ensures forall d :: d in Mapping(departments) ==>
              d in api.departments && Mapping(departments)[d] == api.departments[d].university != 0
    ensures forall d :: d in Mapping(departments) <==>
                        exists dep :: dep in departments && dep.id == d && dep.university != 0
    ensures forall d :: d in Mapping(departments) ==> api.departments[d].university in Universities(departments)
  {
    MappingMeans(departments);
    forall d | d in Mapping(departments)
      ensures d in api.departments && Mapping(departments)[d] == api.departments[d].university != 0
      ensures exists dep :: dep in departments && dep.id == d && dep.university != 0
    {
      assert Maps(departments, d, Mapping(departments)[d]);
    }
  }

  /**
   What the update asks of its caller: a consistent hash stays consistent if and only if the departments
   with a university among those given are all or none of each university.
   */
  lemma UpdateKeepsConsistent(api: Api, index: map<nat, nat>, departments: seq<Dept>)
    requires FromApi(api, departments) && Consistent(api, index) && UpdatedIndex(index, departments).Ok?
    ensures Consistent(api, UpdatedIndex(index, departments).value) <==> Whole(api, Mapping(departments).Keys)
  {
    var after := UpdatedIndex(index, departments).value;
    MappingFromApi(api, departments);
    if departments == [] {
      assert Mapping(departments) == map[];
    } else {
      UpdatedKeys(api, index, departments);
      SplitWhole(api, index.Keys, Mapping(departments).Keys, after.Keys, Universities(departments));
    }
  }

  /** The universities that the update replaces, and those that it leaves. */
  lemma UpdatedKeys(api: Api, index: map<nat, nat>, departments: seq<Dept>)
    requires FromApi(api, departments) && Consistent(api, index) && UpdatedIndex(index, departments).Ok?
    requires departments != []
    ensures var after := UpdatedIndex(index, departments).value;
            && (forall d :: d in after ==> d in api.departments && after[d] == api.departments[d].university != 0)
            && (forall d :: d in api.departments ==>
                  (d in after <==>
                   if api.departments[d].university in Universities(departments)
                   then d in Mapping(departments) else d in index))
            && (forall d :: d in Mapping(departments) ==>
                  d in api.departments && api.departments[d].university in Universities(departments))
  {
    MappingFromApi(api, departments);
  }

  lemma SplitWhole(api: Api, before: set<nat>, added: set<nat>, after: set<nat>, universities: set<nat>)
    requires Whole(api, before)
    requires forall d :: d in api.departments ==>
               (d in after <==> if api.departments[d].university in universities then d in added else d in before)
    requires forall d :: d in added ==> d in api.departments && api.departments[d].university in universities
    ensures Whole(api, after) <==> Whole(api, added)
  {
  }

  /** A university of two departments of which only one is given to the update. */
  lemma PartialUpdateBreaks() returns (api: Api, departments: seq<Dept>)
    ensures api.Valid() && FromApi(api, departments) && UpdatedIndex(map[], departments).Ok?
    ensures !Consistent(api, UpdatedIndex(map[], departments).value)
  {
    var a, b := Dept(1, 10, "A"), Dept(2, 10, "B");
    api := Api(map[1 := a, 2 := b], map[]);
    departments := [a];
    MappingMeans(departments);
    var mapping := Mapping(departments);
    assert a in departments && 1 in mapping;
    forall d | d in mapping
      ensures d == 1
    {
      assert Maps(departments, d, mapping[d]);
    }
    UpdateKeepsConsistent(api, map[], departments);
    assert 1 in api.departments && 2 in api.departments;
    assert !Whole(api, mapping.Keys);
  }

  // ---------------------------------------------------------------- the code

  class Redis {
    const api: Api
    const alone: bool   // no other call and no expiry interferes
    var store: Store

    constructor (api: Api, alone: bool)
      requires api.Valid()
      ensures this.api == api && this.alone == alone && store == Store(map[], map[], map[]) && Sound()
    {
      this.api := api;
      this.alone := alone;
      this.store := Store(map[], map[], map[]);
    }

    ghost predicate Sound()
      reads this
    {
      SoundStore(api, store)
    }

    /** Whatever happens before the next command of this call: any commands of other calls, any expiries. */
    method Others()
      modifies this`store
      ensures alone ==> store == old(store)
      ensures old(Sound()) ==> Sound()
    {
      var n: nat :| true;
      for i := 0 to n
        invariant alone ==> store == old(store)
        invariant old(Sound()) ==> Sound()
      {
        var command: Command := *;
        if !alone && Legal(api, command) {
          if SoundStore(api, store) {
            LegalKeepsSound(api, store, command);
          }
          store := Apply(store, command);
        }
      }
    }

    /** A command of this call. Unless it runs alone it owes the other calls a legal one. */
    method Execute(command: Command)
      requires alone || Legal(api, command)
      modifies this`store
      ensures alone ==> store == Apply(old(store), command)
      ensures old(Sound()) && Legal(api, command) ==> Sound()
    {
      Others();
      if SoundStore(api, store) && Legal(api, command) {
        LegalKeepsSound(api, store, command);
      }
      store := Apply(store, command);
    }

    method GetDepartment(id: nat) returns (dept: Option<Dept>)
      modifies this`store
      ensures alone ==> store == old(store)
      ensures old(Sound()) ==> Sound()
      ensures dept == if id in store.departments then Some(store.departments[id]) else None
    {
      Others();
      dept := if id in store.departments then Some(store.departments[id]) else None;
    }

    method GetSchool(school: nat) returns (members: Option<map<nat, Dept>>)
      modifies this`store
      ensures alone ==> store == old(store)
      ensures old(Sound()) ==> Sound()
      ensures members == if school in store.schools then Some(store.schools[school]) else None
    {
      Others();
      members := if school in store.schools then Some(store.schools[school]) else None;
    }

    method HGetAll() returns (index: map<nat, nat>)
      modifies this`store
      ensures alone ==> store == old(store)
      ensures old(Sound()) ==> Sound()
      ensures index == store.index
    {
      Others();
      index := store.index;
    }
  }

  /** A result that holds departments as the API knows them. */
  predicate Agrees(departments: map<nat, Dept>, api: Api) {
    forall id :: id in departments ==> id in api.departments && departments[id] == api.departments[id]
  }

  datatype Request = AskIds(ids: seq<nat>) | AskUniversities(universities: seq<nat>) | AskSchool(school: nat)

  /** Those of the ids that are not cached, in order. */
  function Missing(ids: seq<nat>, cached: set<nat>): seq<nat> {
    if ids == [] then []
    else
      var last := ids[|ids| - 1];
      Missing(ids[..|ids| - 1], cached) + (if last in cached then [] else [last])
  }

  lemma {:induction false} NoneMissing(ids: seq<nat>, cached: set<nat>)
    requires forall id :: id in ids ==> id in cached
    ensures Missing(ids, cached) == []
  {
    if ids == [] {
    } else {
      NoneMissing(ids[..|ids| - 1], cached);
    }
  }

  lemma {:induction false} MissingMeans(ids: seq<nat>, cached: set<nat>)
    ensures forall id :: id in Missing(ids, cached) <==> id in ids && id !in cached
    ensures |Missing(ids, cached)| <= |ids|
  {
    if ids == [] {
    } else {
      var shorter := ids[..|ids| - 1];
      MissingMeans(shorter, cached);
      assert forall id :: id in ids <==> id in shorter || id == ids[|ids| - 1];
    }
  }

  /** The HTTP side: it finds exactly what it is asked for, in some order, and records the requests. */
  class UniAPI {
    const api: Api
    var requests: seq<Request>

    constructor (api: Api)
      ensures this.api == api && requests == []
    {
      this.api := api;
      this.requests := [];
    }

    method GetDepartmentsBySchoolId(school: nat) returns (found: map<nat, Dept>)
      modifies this`requests
      ensures found == BySchool(api, school) && requests == old(requests) + [AskSchool(school)]
    {
      requests := requests + [AskSchool(school)];
      found := BySchool(api, school);
    }

    method GetDepartmentsByIds(ids: seq<nat>) returns (found: seq<Dept>)
      requires api.Valid()
      modifies this`requests
      ensures requests == old(requests) + [AskIds(ids)]
      ensures FromApi(api, found)
      ensures IdsOf(found) == ByIds(api, ids).Keys
    {
      requests := requests + [AskIds(ids)];
      found := [];
      for i := 0 to |ids|
        invariant requests == old(requests) + [AskIds(ids)]
        invariant FromApi(api, found)
        invariant IdsOf(found) == ByIds(api, ids[..i]).Keys
      {
        assert ids[..i + 1] == ids[..i] + [ids[i]];
        if ids[i] in api.departments {
          IdsOfMore(found, api.departments[ids[i]]);
          found := found + [api.departments[ids[i]]];
        }
      }
      assert ids[..|ids|] == ids;
    }

    method GetDepartmentsByUniversityIds(universities: seq<nat>) returns (found: seq<Dept>)
      requires api.Valid()
      modifies this`requests
      ensures requests == old(requests) + [AskUniversities(universities)]
      ensures FromApi(api, found)
      ensures IdsOf(found) == ByUniversities(api, universities).Keys
    {
      requests := requests + [AskUniversities(universities)];
      found := [];
      var left := ByUniversities(api, universities).Keys;
      while left != {}
        invariant requests == old(requests) + [AskUniversities(universities)]
        invariant left <= ByUniversities(api, universities).Keys
        invariant FromApi(api, found)
        invariant IdsOf(found) == ByUniversities(api, universities).Keys - left
        decreases left
      {
        var id :| id in left;
        IdsOfMore(found, api.departments[id]);
        found := found + [api.departments[id]];
        left := left - {id};
      }
    }
  }

  lemma IdsOfMore(found: seq<Dept>, dep: Dept)
    ensures IdsOf(found + [dep]) == IdsOf(found) + {dep.id}
  {
    assert forall d :: d in found + [dep] <==> d in found || d == dep;
  }

  /** A university that the hash mentions is there with exactly its departments. */
  lemma {:induction false} IndexAnswers(api: Api, index: map<nat, nat>, university: nat)
    requires Consistent(api, index)
    ensures var ids := set d | d in index && index[d] == university;
            ids == {} || ids == ByUniversities(api, [university]).Keys
  {
    var ids := set d | d in index && index[d] == university;
    if ids != {} {
      var d :| d in ids;
      forall e | e in ByUniversities(api, [university])
        ensures e in ids
      {
        assert d in index.Keys && e in index.Keys;
      }
    }
  }

  class UniCache {
    const redis: Redis
    const uniApi: UniAPI

    constructor (redis: Redis, uniApi: UniAPI)
      ensures this.redis == redis && this.uniApi == uniApi
    {
      this.redis := redis;
      this.uniApi := uniApi;
    }

    ghost predicate Valid()
    {
      redis.api.Valid() && uniApi.api == redis.api
    }

    /**
     `update_department_university_map`. Alone it makes exactly the update; among other calls, given all or
     none of each university, every command it issues is legal.
     */
    method UpdateDepartmentUniversityMap(departments: seq<Dept>) returns (ok: bool)
      requires redis.api.Valid()
      requires redis.alone || (redis.Sound() && FromApi(redis.api, departments)
                               && Whole(redis.api, Mapping(departments).Keys))
      modifies redis`store
      ensures redis.alone ==>
                var updated := UpdatedIndex(old(redis.store.index), departments);
                redis.store == old(redis.store).(index := if updated.Ok? then updated.value else old(redis.store.index))
      ensures ok <==> UpdatedIndex(map[], departments).Ok?
      ensures old(redis.Sound()) && FromApi(redis.api, departments) && Whole(redis.api, Mapping(departments).Keys) ==>
                redis.Sound()
    {
      if departments == [] {
        return true;
      }
      var uniIds := Universities(departments);
      DeleteStale(uniIds);
      var mapping := Mapping(departments);
      if mapping == map[] {
        MappingMeans(departments);
        assert Stale(old(redis.store.index), uniIds) == {};
        return false;
      }
      if FromApi(redis.api, departments) && Whole(redis.api, mapping.Keys) {
        MappingConsistent(redis.api, departments);
      }
      redis.Execute(IndexSet(mapping));
      ok := true;
    }

    /** The first half of the update: the old departments of the universities go. */
    method DeleteStale(universities: set<nat>)
      requires redis.alone || redis.Sound()
      modifies redis`store
      ensures redis.alone ==>
                redis.store == old(redis.store).(
                  index := old(redis.store.index) - Stale(old(redis.store.index), universities))
      ensures old(redis.Sound()) ==> redis.Sound()
    {
      var existing := redis.HGetAll();
      var toDelete := Stale(existing, universities);
      if Consistent(redis.api, existing) {
        StaleIsWhole(redis.api, existing, universities);
      }
      if toDelete != {} {
        redis.Execute(IndexDelete(toDelete));
      } else {
        assert existing - toDelete == existing;
      }
    }

    /** One `set_json` of a department. */
    method CacheDepartment(dep: Dept)
      requires redis.Sound() && FromApi(redis.api, [dep])
      modifies redis`store
      ensures redis.Sound()
      ensures redis.alone ==> OnlyDepartments(old(redis.store), redis.store, {dep.id})
    {
      assert dep in [dep];
      redis.Execute(SetDepartment(dep.id, dep));
    }

    /** Caches the departments of an API answer, and adds them to the result. */
    method CacheDepartments(found: seq<Dept>, before: map<nat, Dept>) returns (departments: map<nat, Dept>)
      requires Valid() && redis.Sound() && FromApi(redis.api, found)
      modifies redis`store
      ensures redis.Sound()
      ensures departments.Keys == before.Keys + IdsOf(found)
      ensures Agrees(before, redis.api) ==> Agrees(departments, redis.api)
      ensures redis.alone ==> OnlyDepartments(old(redis.store), redis.store, IdsOf(found))
    {
      departments := before;
      for i := 0 to |found|
        invariant redis.Sound()
        invariant departments.Keys == before.Keys + IdsOf(found[..i])
        invariant Agrees(before, redis.api) ==> Agrees(departments, redis.api)
        invariant redis.alone ==> OnlyDepartments(old(redis.store), redis.store, IdsOf(found[..i]))
      {
        var dep := found[i];
        assert found[..i + 1] == found[..i] + [dep];
        IdsOfMore(found[..i], dep);
        assert dep in found;
        departments := departments[dep.id := dep];
        CacheDepartment(dep);
      }
      assert found[..|found|] == found;
    }

    /**
     `get_departments_by_ids_cached`: what the API would answer, whatever expires meanwhile. Alone, it asks the API
     for those that are not cached, if any, and leaves all of them in the cache.
     */
    method GetDepartmentsByIdsCached(ids: seq<nat>) returns (departments: map<nat, Dept>)
      requires Valid() && redis.Sound()
      modifies redis`store, uniApi`requests
      ensures redis.Sound()
      ensures departments == ByIds(redis.api, ids)
      ensures redis.alone ==> OnlyDepartments(old(redis.store), redis.store, ByIds(redis.api, ids).Keys)
      ensures redis.alone ==>
                var missing := Missing(ids, old(redis.store.departments.Keys));
                uniApi.requests == old(uniApi.requests) + (if missing == [] then [] else [AskIds(missing)])
      ensures AsksOnlyIds(old(uniApi.requests), uniApi.requests)
    {
      var missing;
      departments, missing := AskCache(ids);
      if missing != [] {
        var found := uniApi.GetDepartmentsByIds(missing);
        departments := CacheDepartments(found, departments);
      }
      assert departments == ByIds(redis.api, ids);
    }

    /** The first half of that query: what is cached, and what is not. */
    method AskCache(ids: seq<nat>) returns (departments: map<nat, Dept>, missing: seq<nat>)
      requires Valid() && redis.Sound()
      modifies redis`store
      ensures redis.Sound() && Agrees(departments, redis.api)
      ensures forall id :: id in departments || id in missing <==> id in ids
      ensures redis.alone ==>
                && missing == Missing(ids, old(redis.store.departments.Keys))
                && redis.store == old(redis.store) && departments.Keys <= redis.store.departments.Keys
    {
      departments := map[];
      missing := [];
      for i := 0 to |ids|
        invariant redis.Sound()
        invariant Agrees(departments, redis.api)
        invariant forall id :: id in departments || id in missing <==> id in ids[..i]
        invariant redis.alone ==> missing == Missing(ids[..i], old(redis.store.departments.Keys))
        invariant redis.alone ==> redis.store == old(redis.store) && departments.Keys <= redis.store.departments.Keys
      {
        assert ids[..i + 1] == ids[..i] + [ids[i]];
        assert ids[..i + 1][..i] == ids[..i];
        var data := redis.GetDepartment(ids[i]);
        if data.Some? {
          departments := departments[ids[i] := data.value];
        } else {
          missing := missing + [ids[i]];
        }
      }
      assert ids[..|ids|] == ids;
    }

    /**
     `get_departments_by_university_ids_cached`: what the API would answer. It can fail only when 0, which
     is no university, is among the ids and some department has none. Alone, it leaves the departments in the
     cache and their universities in the hash, and fails exactly when the universities that the hash does not
     mention have departments, none of which has a university.
     */
    method GetDepartmentsByUniversityIdsCached(universities: seq<nat>) returns (result: Result<map<nat, Dept>>)
      requires Valid() && redis.Sound()
      modifies redis`store, uniApi`requests
      ensures redis.Sound()
      ensures result.Ok? ==> result.value == ByUniversities(redis.api, universities)
      ensures result.DataError? ==> 0 in universities && ByUniversities(redis.api, [0]) != map[]
      ensures redis.alone ==>
                && redis.store.schools == old(redis.store.schools)
                && redis.store.departments.Keys ==
                     old(redis.store.departments.Keys) + ByUniversities(redis.api, universities).Keys
                && redis.store.index.Keys ==
                     old(redis.store.index.Keys) + (if result.Ok? then IndexIds(redis.api, universities) else {})
      ensures redis.alone && AllCached(redis.api, old(redis.store), universities) ==>
                uniApi.requests == old(uniApi.requests)
      ensures redis.alone ==>
                AsksForUnmentioned(old(uniApi.requests), uniApi.requests, old(redis.store.index), universities)
      ensures redis.alone ==>
                (result.DataError? <==> FailsOn(redis.api, old(redis.store.index), universities))
    {
      if universities == [] {
        NothingAsked(redis.api, redis.store.index);
        return Ok(map[]);
      }
      var index := redis.HGetAll();
      var departments, missing := AskIndex(index, universities);
      KnownIsIndexed(redis.api, index, missing, universities);
      AskedForUnmentioned(old(uniApi.requests), uniApi.requests, missing, index, universities);
      if missing != [] {
        assert missing[0] in missing;
        var ok;
        departments, ok := FetchMissing(missing, departments);
        if !ok {
          return DataError;
        }
      } else {
        NothingAsked(redis.api, index);
      }
      AgreeingResult(redis.api, departments, ByUniversities(redis.api, universities));
      result := Ok(departments);
    }

    /** The first half of that query: the universities that the hash mentions are answered from the cache. */
    method AskIndex(index: map<nat, nat>, universities: seq<nat>)
      returns (departments: map<nat, Dept>, missing: seq<nat>)
      requires Valid() && redis.Sound() && Consistent(redis.api, index)
      modifies redis`store, uniApi`requests
      ensures redis.Sound() && Agrees(departments, redis.api)
      ensures forall u :: u in missing <==> u in universities && !Mentions(index, u)
      ensures Answered(redis.api, departments.Keys, missing, universities)
      ensures redis.alone ==> OnlyDepartments(old(redis.store), redis.store, departments.Keys)
      ensures redis.alone && ByUniversities(redis.api, universities).Keys <= old(redis.store.departments.Keys) ==>
                uniApi.requests == old(uniApi.requests)
      ensures AsksOnlyIds(old(uniApi.requests), uniApi.requests)
    {
      departments, missing := map[], [];
      for i := 0 to |universities|
        invariant redis.Sound()
        invariant Agrees(departments, redis.api)
        invariant forall u :: u in missing <==> u in universities[..i] && !Mentions(index, u)
        invariant Answered(redis.api, departments.Keys, missing, universities[..i])
        invariant redis.alone ==> OnlyDepartments(old(redis.store), redis.store, departments.Keys)
        invariant redis.alone && ByUniversities(redis.api, universities).Keys <= old(redis.store.departments.Keys) ==>
                    uniApi.requests == old(uniApi.requests)
        invariant AsksOnlyIds(old(uniApi.requests), uniApi.requests)
      {
        var university := universities[i];
        assert universities[..i + 1] == universities[..i] + [university];
        ghost var before := departments.Keys;
        assert ByUniversities(redis.api, [university]).Keys <= ByUniversities(redis.api, universities).Keys;
        var known;
        departments, known := FromIndex(index, university, departments);
        AnsweredMore(redis.api, before, departments.Keys, missing, universities[..i], university, known);
        if !known {
          missing := missing + [university];
        }
      }
      assert universities[..|universities|] == universities;
    }

    /** The second half of that query: the API answers for the universities that the hash does not mention. */
    method FetchMissing(missing: seq<nat>, before: map<nat, Dept>) returns (departments: map<nat, Dept>, ok: bool)
      requires Valid() && redis.Sound() && Agrees(before, redis.api)
      modifies redis`store, uniApi`requests
      ensures redis.Sound() && Agrees(departments, redis.api)
      ensures departments.Keys == before.Keys + ByUniversities(redis.api, missing).Keys
      ensures uniApi.requests == old(uniApi.requests) + [AskUniversities(missing)]
      ensures !ok ==> 0 in missing && ByUniversities(redis.api, [0]) != map[]
      ensures !ok <==> NothingToSet(redis.api, missing)
      ensures redis.alone ==>
                && redis.store.schools == old(redis.store.schools)
                && redis.store.departments.Keys ==
                     old(redis.store.departments.Keys) + ByUniversities(redis.api, missing).Keys
                && redis.store.index.Keys == old(redis.store.index.Keys) + IndexIds(redis.api, missing)
    {
      var found := uniApi.GetDepartmentsByUniversityIds(missing);
      departments := CacheDepartments(found, before);
      AnswerIsWhole(redis.api, missing, found);
      AnswerIsSet(redis.api, redis.store.index, missing, found);
      ok := UpdateDepartmentUniversityMap(found);
    }

    /** The loop body of the query by universities: one that the hash mentions is answered from the cache. */
    method FromIndex(index: map<nat, nat>, university: nat, before: map<nat, Dept>)
      returns (departments: map<nat, Dept>, known: bool)
      requires Valid() && redis.Sound() && Consistent(redis.api, index) && Agrees(before, redis.api)
      modifies redis`store, uniApi`requests
      ensures redis.Sound() && Agrees(departments, redis.api)
      ensures departments.Keys ==
              before.Keys + (if known then ByUniversities(redis.api, [university]).Keys else {})
      ensures known <==> Mentions(index, university)
      ensures redis.alone ==>
                OnlyDepartments(old(redis.store), redis.store,
                                if known then ByUniversities(redis.api, [university]).Keys else {})
      ensures redis.alone && ByUniversities(redis.api, [university]).Keys <= old(redis.store.departments.Keys) ==>
                uniApi.requests == old(uniApi.requests)
      ensures AsksOnlyIds(old(uniApi.requests), uniApi.requests)
    {
      var ids := set d | d in index && index[d] == university;
      IndexAnswers(redis.api, index, university);
      known := ids != {};
      assert known <==> Mentions(index, university) by {
        if d :| d in index && index[d] == university {
          assert d in ids;
        }
      }
      departments := before;
      if known {
        var list := ToSeq(ids);
        if ids <= redis.store.departments.Keys {
          NoneMissing(list, redis.store.departments.Keys);
        }
        var cached := GetDepartmentsByIdsCached(list);
        assert cached.Keys == ids;
        departments := departments + cached;
      }
    }

    /** `get_departments_by_school_id_cached`. An empty list in the cache is a miss. Alone, it leaves the list there. */
    method GetDepartmentsBySchoolIdCached(school: nat) returns (departments: map<nat, Dept>)
      requires Valid() && redis.Sound()
      modifies redis`store, uniApi`requests
      ensures redis.Sound()
      ensures departments == BySchool(redis.api, school)
      ensures redis.alone ==>
                && redis.store == old(redis.store).(schools := old(redis.store.schools)[school := departments])
                && uniApi.requests == old(uniApi.requests) +
                     (if school in old(redis.store.schools) && departments != map[] then [] else [AskSchool(school)])
    {
      var cached := redis.GetSchool(school);
      if cached.Some? && cached.value != map[] {
        return cached.value;
      }
      departments := uniApi.GetDepartmentsBySchoolId(school);
      redis.Execute(SetSchool(school, departments));
    }
  }

  /** The requests made in between ask for ids only. */
  ghost predicate AsksOnlyIds(before: seq<Request>, after: seq<Request>) {
    before <= after && forall i :: |before| <= i < |after| ==> after[i].AskIds?
  }

  /** At most one request asks for universities, the last: for exactly those that the hash does not mention. */
  ghost predicate AsksForUnmentioned(before: seq<Request>, after: seq<Request>, index: map<nat, nat>,
                                     universities: seq<nat>) {
    && before <= after
    && forall i :: |before| <= i < |after| && after[i].AskUniversities? ==>
         && i == |after| - 1
         && forall u :: u in after[i].universities <==> u in universities && !Mentions(index, u)
  }

  lemma NothingAsked(api: Api, index: map<nat, nat>)
    ensures ByUniversities(api, []) == map[] && IndexIds(api, []) == {}
    ensures !FailsOn(api, index, []) && !NothingToSet(api, [])
  {
  }

  lemma AskedForUnmentioned(before: seq<Request>, middle: seq<Request>, missing: seq<nat>, index: map<nat, nat>,
                            universities: seq<nat>)
    requires AsksOnlyIds(before, middle)
    requires forall u :: u in missing <==> u in universities && !Mentions(index, u)
    ensures AsksForUnmentioned(before, middle, index, universities)
    ensures AsksForUnmentioned(before, middle + [AskUniversities(missing)], index, universities)
  {
  }

  /** Only departments have been cached: these. */
  ghost predicate OnlyDepartments(before: Store, after: Store, ids: set<nat>) {
    && after.index == before.index && after.schools == before.schools
    && after.departments.Keys == before.departments.Keys + ids
  }

  /** The cache holds all that a query by these universities needs. */
  ghost predicate AllCached(api: Api, store: Store, universities: seq<nat>) {
    && (forall u :: u in universities ==> Mentions(store.index, u))
    && ByUniversities(api, universities).Keys <= store.departments.Keys
  }

  /** The query by universities fails on this hash. */
  ghost predicate FailsOn(api: Api, index: map<nat, nat>, universities: seq<nat>) {
    && 0 in universities && (exists d :: d in api.departments && api.departments[d].university == 0)
    && forall d :: d in IndexIds(api, universities) ==> Mentions(index, api.departments[d].university)
  }

  /** The universities that a consistent hash mentions are indexed already, and 0 is never mentioned. */
  lemma KnownIsIndexed(api: Api, index: map<nat, nat>, missing: seq<nat>, universities: seq<nat>)
    requires Consistent(api, index)
    requires forall u :: u in missing <==> u in universities && !Mentions(index, u)
    ensures index.Keys + IndexIds(api, missing) == index.Keys + IndexIds(api, universities)
    ensures NothingToSet(api, missing) <==> FailsOn(api, index, universities)
  {
    forall d | d in IndexIds(api, universities) && d !in IndexIds(api, missing)
      ensures d in index
    {
      var e :| e in index && index[e] == api.departments[d].university;
      assert e in index.Keys;
    }
    if NothingToSet(api, missing) {
      var d :| d in ByUniversities(api, missing);
      assert api.departments[d].university == 0;
    }
    if FailsOn(api, index, universities) {
      var d :| d in api.departments && api.departments[d].university == 0;
      assert d in ByUniversities(api, missing);
    }
  }

  /** What an update with the API's answer for unmentioned universities comes to. */
  lemma AnswerIsSet(api: Api, index: map<nat, nat>, universities: seq<nat>, found: seq<Dept>)
    requires FromApi(api, found) && Consistent(api, index)
    requires IdsOf(found) == ByUniversities(api, universities).Keys
    ensures UpdatedIndex(map[], found).DataError? <==> NothingToSet(api, universities)
    ensures UpdatedIndex(index, found).Ok? <==> UpdatedIndex(map[], found).Ok?
    ensures UpdatedIndex(index, found).Ok? ==>
              UpdatedIndex(index, found).value.Keys == index.Keys + IndexIds(api, universities)
    ensures NothingToSet(api, universities) ==> IndexIds(api, universities) == {}
  {
    MappingIsIndexIds(api, universities, found);
    NoneFound(api, universities, found);
    EmptyMap(Mapping(found));
    if found != [] && Mapping(found) != map[] {
      UpdatedKeys(api, index, found);
      AnswerKeys(api, index, universities, found);
    }
  }

  lemma NoneFound(api: Api, universities: seq<nat>, found: seq<Dept>)
    requires IdsOf(found) == ByUniversities(api, universities).Keys
    ensures found == [] <==> ByUniversities(api, universities) == map[]
  {
    if found != [] {
      assert found[0] in found && found[0].id in IdsOf(found);
    } else {
      assert IdsOf(found) == {};
      EmptyMap(ByUniversities(api, universities));
    }
  }

  lemma EmptyMap<T>(m: map<nat, T>)
    ensures m == map[] <==> m.Keys == {}
  {
    assert m.Keys == {} ==> m == map[] by {
      assert forall k :: k in m ==> k in m.Keys;
    }
  }

  lemma AnswerKeys(api: Api, index: map<nat, nat>, universities: seq<nat>, found: seq<Dept>)
    requires FromApi(api, found) && Consistent(api, index) && found != [] && UpdatedIndex(index, found).Ok?
    requires Mapping(found).Keys == IndexIds(api, universities)
    ensures UpdatedIndex(index, found).value.Keys == index.Keys + IndexIds(api, universities)
  {
    var after := UpdatedIndex(index, found).value;
    UpdatedKeys(api, index, found);
    MappingFromApi(api, found);
    forall d | d in index
      ensures d in after
    {
      if api.departments[d].university in Universities(found) {
        assert api.departments[d].university in universities by {
          var dep :| dep in found && dep.university == api.departments[d].university && dep.university != 0;
          assert dep.id in Mapping(found);
        }
        assert d in IndexIds(api, universities);
      }
    }
  }

  lemma MappingIsIndexIds(api: Api, universities: seq<nat>, found: seq<Dept>)
    requires FromApi(api, found)
    requires IdsOf(found) == ByUniversities(api, universities).Keys
    ensures Mapping(found).Keys == IndexIds(api, universities)
  {
    MappingFromApi(api, found);
    forall d | d in IndexIds(api, universities)
      ensures d in Mapping(found)
    {
      assert d in ByUniversities(api, universities).Keys && d in IdsOf(found);
    }
    forall d | d in Mapping(found)
      ensures d in IndexIds(api, universities)
    {
      assert d in IdsOf(found);
    }
  }

  lemma AgreeingResult(api: Api, departments: map<nat, Dept>, expected: map<nat, Dept>)
    requires Agrees(departments, api) && Agrees(expected, api) && departments.Keys == expected.Keys
    ensures departments == expected
  {
    assert forall id :: id in departments ==> id in expected.Keys;
    assert forall id :: id in expected ==> id in departments.Keys;
  }

  /** Half-way: what has been answered and what is missing make up what was asked. */
  ghost predicate Answered(api: Api, answered: set<nat>, missing: seq<nat>, asked: seq<nat>) {
    answered + ByUniversities(api, missing).Keys == ByUniversities(api, asked).Keys
  }

  lemma AnsweredMore(api: Api, before: set<nat>, after: set<nat>, missing: seq<nat>, asked: seq<nat>, university: nat,
                     known: bool)
    requires Answered(api, before, missing, asked)
    requires after == before + (if known then ByUniversities(api, [university]).Keys else {})
    ensures Answered(api, after, if known then missing else missing + [university], asked + [university])
  {
    KeysOfMore(api, asked, university);
    KeysOfMore(api, missing, university);
  }

  lemma KeysOfMore(api: Api, universities: seq<nat>, university: nat)
    ensures ByUniversities(api, universities + [university]).Keys ==
            ByUniversities(api, universities).Keys + ByUniversities(api, [university]).Keys
  {
    assert forall u :: u in universities + [university] <==> u in universities || u in [university];
  }

  method ToSeq(ids: set<nat>) returns (list: seq<nat>)
    ensures forall id :: id in list <==> id in ids
  {
    list := [];
    var left := ids;
    while left != {}
      invariant left <= ids
      invariant forall id :: id in list <==> id in ids && id !in left
      decreases left
    {
      var id :| id in left;
      list := list + [id];
      left := left - {id};
    }
  }

  /** The answer to a query by universities is all or none of each, and maps something unless it asked for 0 only. */
  lemma AnswerIsWhole(api: Api, universities: seq<nat>, found: seq<Dept>)
    requires FromApi(api, found)
    requires IdsOf(found) == ByUniversities(api, universities).Keys
    ensures Whole(api, Mapping(found).Keys)
    ensures UpdatedIndex(map[], found).DataError? ==> 0 in universities && ByUniversities(api, [0]) != map[]
  {
    MappingFromApi(api, found);
    forall d | d in api.departments
      ensures d in Mapping(found) <==>
              api.departments[d].university != 0 && api.departments[d].university in universities
    {
      assert d in ByUniversities(api, universities) <==> d in IdsOf(found);
    }
    if UpdatedIndex(map[], found).DataError? {
      MappingMeans(found);
      var dep := found[0];
      assert dep in found && dep.id in IdsOf(found);
      assert dep.university == 0;
      assert dep.id in ByUniversities(api, [0]);
    }
  }

  lemma MappingConsistent(api: Api, departments: seq<Dept>)
    requires FromApi(api, departments) && Whole(api, Mapping(departments).Keys)
    ensures Consistent(api, Mapping(departments))
  {
    MappingFromApi(api, departments);
  }

  lemma StaleIsWhole(api: Api, index: map<nat, nat>, universities: set<nat>)
    requires Consistent(api, index)
    ensures Whole(api, Stale(index, universities))
  {
  }
}
