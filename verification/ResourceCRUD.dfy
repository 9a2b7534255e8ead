/**
 Create-or-update and delete of one cloud resource, found by id or by name
 within its parent, over a service whose every call may fail (ResourceCRUD).
 */
module ResourceCRUD {
  import opened Wrappers

  /** Resource ids; NO_ID is the empty id of a resource not known yet. */
  type Id = nat

  const NO_ID: Id := 0

  datatype Metadata = Metadata(id: Id, parentId: string, name: string)

  datatype Resource<S> = Resource(meta: Metadata, spec: S)

  /** The resources of one kind, by id, and the id that will be given out next. */
  datatype Table<S> = Table(items: map<Id, Resource<S>>, next: Id)
  {
    ghost predicate Valid() {
      next != NO_ID && forall id :: id in items ==> NO_ID != id < next && items[id].meta.id == id
    }
  }

  datatype CloudError = NotFound | OtherError

  datatype Drift<S> = DriftError | InSync | Drifted(desired: Resource<S>)

  /** DriftTODO: no drift is ever reported. */
  function DriftTODO<S>(existing: Resource<S>, desired: Resource<S>): Drift<S> { InSync }

  // ---- Specification ----

  predicate SameName(a: Metadata, b: Metadata) {
    a.parentId == b.parentId && a.name == b.name
  }

  /** The resource at `id` is what looking up `wanted` may find. */
  ghost predicate Finds<S>(t: Table<S>, wanted: Metadata, id: Id) {
    id in t.items && if wanted.id != NO_ID then id == wanted.id else SameName(t.items[id].meta, wanted)
  }

  ghost predicate Absent<S>(t: Table<S>, wanted: Metadata) {
    forall id :: !Finds(t, wanted, id)
  }

  function Numbered<S>(t: Table<S>, desired: Resource<S>): Resource<S> {
    desired.(meta := desired.meta.(id := t.next))
  }

  function Added<S>(t: Table<S>, desired: Resource<S>): Table<S> {
    Table(t.items[t.next := Numbered(t, desired)], t.next + 1)
  }

  function Updated<S>(t: Table<S>, desired: Resource<S>): Table<S> {
    t.(items := t.items[desired.meta.id := desired])
  }

  function Removed<S>(t: Table<S>, id: Id): Table<S> {
    t.(items := t.items - {id})
  }

  /**
   One CreateOrUpdate. A missing resource is created, a drifted one updated,
   one in sync returned; an error leaves open whether the change took effect.
   */
  ghost predicate Converges<S>(detectDrift: (Resource<S>, Resource<S>) -> Drift<S>, t: Table<S>,
                                     desired: Resource<S>, t': Table<S>, r: Result<Resource<S>, CloudError>)
  {
    match r
    case Ok(res) =>
      || (Absent(t, desired.meta) && t' == Added(t, desired) && res == Numbered(t, desired))
      || (exists id :: Finds(t, desired.meta, id) && FoundAs(detectDrift, t, t.items[id], desired, t', res))
    case Err(_) =>
      || t' == t
      || (Absent(t, desired.meta) && t' == Added(t, desired))
      || (exists id :: Finds(t, desired.meta, id) && detectDrift(t.items[id], desired).Drifted?
                       && t' == Updated(t, detectDrift(t.items[id], desired).desired))
  }

  ghost predicate FoundAs<S>(detectDrift: (Resource<S>, Resource<S>) -> Drift<S>, t: Table<S>,
                                   existing: Resource<S>, desired: Resource<S>, t': Table<S>, res: Resource<S>)
  {
    match detectDrift(existing, desired)
    case DriftError => false
    case InSync => t' == t && res == existing
    case Drifted(d) => t' == Updated(t, d) && res == d
  }

  /** One Delete: what the lookup finds goes, unless an error says it may not have. */
  ghost predicate Deletes<S>(t: Table<S>, wanted: Metadata, t': Table<S>, e: Option<CloudError>) {
    || (t' == t && (e.Some? || Absent(t, wanted)))
    || (exists id :: Finds(t, wanted, id) && t' == Removed(t, id))
  }

  /** The resource has the desired spec under the desired name, whatever its id. */
  ghost predicate IsCopy<S>(created: Resource<S>, desired: Resource<S>) {
    && created.spec == desired.spec
    && created.meta.parentId == desired.meta.parentId && created.meta.name == desired.meta.name
  }

  // ---- The service and the operations on it ----

  /** Unless it is reliable any call may fail, with or without effect. */
  class Service<S> {
    var table: Table<S>
    const reliable: bool

    constructor (reliable: bool)
      ensures table == Table(map[], 1) && this.reliable == reliable
    {
      table := Table(map[], 1);
      this.reliable := reliable;
    }

    method Fails() returns (fails: bool)
      ensures reliable ==> !fails
    {
      fails := *;
      fails := fails && !reliable;
    }

    method GetByName(wanted: Metadata) returns (r: Result<Resource<S>, CloudError>)
      ensures r.Ok? ==> exists id :: id in table.items && r.value == table.items[id]
                                     && SameName(table.items[id].meta, wanted)
      ensures r == Err(NotFound) ==> forall id :: id in table.items ==> !SameName(table.items[id].meta, wanted)
      ensures reliable ==> r != Err(OtherError)
    {
      var fails := Fails();
      if fails {
        return Err(OtherError);
      }
      var todo := table.items.Keys;
      while todo != {}
        invariant todo <= table.items.Keys
        invariant forall id :: id in table.items && id !in todo ==> !SameName(table.items[id].meta, wanted)
        decreases todo
      {
        var id :| id in todo;
        if SameName(table.items[id].meta, wanted) {
          return Ok(table.items[id]);
        }
        todo := todo - {id};
      }
      return Err(NotFound);
    }

    method Get(id: Id) returns (r: Result<Resource<S>, CloudError>)
      ensures r.Ok? ==> id in table.items && r.value == table.items[id]
      ensures r == Err(NotFound) ==> id !in table.items
      ensures reliable ==> r == if id in table.items then Ok(table.items[id]) else Err(NotFound)
    {
      var fails := Fails();
      if fails {
        return Err(OtherError);
      }
      return if id in table.items then Ok(table.items[id]) else Err(NotFound);
    }

    /** Creating, waiting for the operation, and reading the new resource back. */
    method Create(desired: Resource<S>) returns (r: Result<Resource<S>, CloudError>)
      requires table.Valid()
      modifies this
      ensures table.Valid()
      ensures r.Ok? ==> table == Added(old(table), desired) && r.value == Numbered(old(table), desired)
      ensures r.Err? ==> table == old(table) || table == Added(old(table), desired)
      ensures reliable ==> r.Ok?
    {
      var fails := Fails();
      if fails {
        var error: CloudError := *;
        return Err(error);
      }
      var id := table.next;
      table := Added(table, desired);
      fails := Fails();
      if fails {
        return Err(OtherError);
      }
      r := Get(id);
    }

    method Update(desired: Resource<S>) returns (r: Result<Resource<S>, CloudError>)
      requires table.Valid()
      modifies this
      ensures table.Valid()
      ensures r.Ok? ==> table == Updated(old(table), desired) && r.value == desired
      ensures r.Ok? ==> desired.meta.id in old(table).items
      ensures r.Err? ==> table == old(table) || table == Updated(old(table), desired)
      ensures reliable && desired.meta.id in old(table).items ==> r.Ok?
    {
      if desired.meta.id !in table.items {
        return Err(NotFound);
      }
      var fails := Fails();
      if fails {
        return Err(OtherError);
      }
      table := Updated(table, desired);
      fails := Fails();
      if fails {
        return Err(OtherError);
      }
      r := Get(desired.meta.id);
    }

    /** Deleting and waiting; a resource that is not there counts as deleted. */
    method DeleteById(id: Id) returns (e: Option<CloudError>)
      requires table.Valid()
      modifies this
      ensures table.Valid()
      ensures e == None ==> table == Removed(old(table), id)
      ensures e.Some? ==> table == old(table) || table == Removed(old(table), id)
      ensures reliable ==> e == None
    {
      if id !in table.items {
        assert table.items - {id} == table.items;
        return None;
      }
      var fails := Fails();
      if fails {
        return Some(OtherError);
      }
      table := Removed(table, id);
      fails := Fails();
      if fails {
        return Some(OtherError);
      }
      return None;
    }

    method CreateOrUpdate(detectDrift: (Resource<S>, Resource<S>) -> Drift<S>, desired: Resource<S>)
      returns (r: Result<Resource<S>, CloudError>)
      requires table.Valid()
      modifies this
      ensures table.Valid()
      ensures Converges(detectDrift, old(table), desired, table, r)
      ensures r.Ok? ==> r.value.meta.id in table.items && table.items[r.value.meta.id] == r.value
      ensures r.Ok? ==>
                || (Absent(old(table), desired.meta) && r.value.meta.id !in old(table).items && IsCopy(r.value, desired))
                || (exists id :: Finds(old(table), desired.meta, id)
                                 && match detectDrift(old(table).items[id], desired)
                                    case InSync => r.value == old(table).items[id] && table == old(table)
                                    case Drifted(d) => r.value == d
                                    case DriftError => false)
      ensures reliable && (forall existing :: detectDrift(existing, desired).InSync?) ==> r.Ok?
    {
      var existing: Result<Resource<S>, CloudError>;
      if desired.meta.id != NO_ID {
        existing := Get(desired.meta.id);
      } else {
        existing := GetByName(desired.meta);
      }
      match existing
      case Err(NotFound) =>
        r := Create(desired);
      case Err(e) =>
        return Err(e);
      case Ok(found) =>
        assert exists id :: Finds(table, desired.meta, id) && table.items[id] == found;
        match detectDrift(found, desired)
        case DriftError => return Err(OtherError);
        case InSync => return Ok(found);
        case Drifted(d) => r := Update(d);
    }

    method Delete(t: Resource<S>) returns (e: Option<CloudError>)
      requires table.Valid()
      modifies this
      ensures table.Valid()
      ensures Deletes(old(table), t.meta, table, e)
      ensures e == None && (t.meta.id != NO_ID || UniqueNames(old(table))) ==> Absent(table, t.meta)
      ensures forall id :: id in old(table).items && !Finds(old(table), t.meta, id) ==>
                id in table.items && table.items[id] == old(table).items[id]
      ensures reliable ==> e == None
    {
      if t.meta.id != NO_ID {
        e := DeleteById(t.meta.id);
        return;
      }
      var existing := GetByName(t.meta);
      match existing
      case Err(NotFound) => return None;
      case Err(err) => return Some(err);
      case Ok(found) =>
        assert exists id :: Finds(table, t.meta, id) && table.items[id] == found;
        e := DeleteById(found.meta.id);
    }
  }

  // ---- Uniqueness of names ----

  /** At most one resource per parent and name. */
  ghost predicate UniqueNames<S>(t: Table<S>) {
    forall i, j :: i in t.items && j in t.items && SameName(t.items[i].meta, t.items[j].meta) ==> i == j
  }

  /**
   Creating duplicates a name exactly when the desired resource carries an id
   that is gone while its name is in use; without an id that cannot happen.
   */
  lemma ConvergesKeepsUniqueIff<S(!new)>(t: Table<S>, desired: Resource<S>)
    requires t.Valid() && UniqueNames(t)
    ensures (forall t', r :: Converges(DriftTODO, t, desired, t', r) ==> UniqueNames(t')) <==>
            !(desired.meta.id != NO_ID && desired.meta.id !in t.items
              && exists i :: i in t.items && SameName(t.items[i].meta, desired.meta))
  {
    var bad := Added(t, desired);
    if i :| i in t.items && SameName(t.items[i].meta, desired.meta)
            && desired.meta.id != NO_ID && desired.meta.id !in t.items {
      assert Absent(t, desired.meta);
      assert Converges(DriftTODO, t, desired, bad, Ok(Numbered(t, desired)));
      assert i in bad.items && t.next in bad.items;
    } else {
      forall t', r | Converges(DriftTODO, t, desired, t', r)
        ensures UniqueNames(t')
      {
        if Absent(t, desired.meta) {
          forall i | i in t.items ensures !SameName(t.items[i].meta, desired.meta) {
            assert !Finds(t, desired.meta, i);
            assert desired.meta.id != NO_ID ==> !Finds(t, desired.meta, desired.meta.id);
          }
        }
      }
    }
  }

  /** With no drift reported, a convergence adds at most one resource and touches no other. */
  lemma ConvergesAddsAtMostOne<S>(t: Table<S>, desired: Resource<S>, t': Table<S>,
                                        r: Result<Resource<S>, CloudError>)
    requires t.Valid() && Converges(DriftTODO, t, desired, t', r)
    ensures t' == t || (Absent(t, desired.meta) && t' == Added(t, desired))
    ensures r.Ok? ==> r.value.meta.id in t'.items && t'.items[r.value.meta.id] == r.value
    ensures r.Ok? && Absent(t, desired.meta) ==> t' == Added(t, desired) && r.value == Numbered(t, desired)
    ensures r.Ok? && desired.meta.id == NO_ID ==> SameName(r.value.meta, desired.meta)
  {}

  /** Without an id in the desired resource: one resource at most is added, and it was missing. */
  lemma StepAdds<S>(t: Table<S>, desired: Resource<S>, t': Table<S>, r: Result<Resource<S>, CloudError>)
    requires t.Valid() && UniqueNames(t) && desired.meta.id == NO_ID && Converges(DriftTODO, t, desired, t', r)
    ensures t'.Valid() && UniqueNames(t')
    ensures t' == t || t' == Added(t, desired)
    ensures forall id :: id in t.items ==> id in t'.items && t'.items[id] == t.items[id]
    ensures r.Ok? ==> r.value.meta.id in t'.items && t'.items[r.value.meta.id] == r.value
                      && SameName(r.value.meta, desired.meta)
  {
    ConvergesAddsAtMostOne(t, desired, t', r);
    if t' != t {
      forall i | i in t.items ensures !SameName(t.items[i].meta, desired.meta) {
        assert !Finds(t, desired.meta, i);
      }
    }
  }

  /** A successful deletion by id leaves the table without that id, whether or not it was there. */
  lemma RemovesId<S>(t: Table<S>, wanted: Metadata, t': Table<S>)
    requires wanted.id != NO_ID && Deletes(t, wanted, t', None)
    ensures t' == Removed(t, wanted.id)
  {
    if t' == t && Absent(t, wanted) {
      assert !Finds(t, wanted, wanted.id);
      assert t.items - {wanted.id} == t.items;
    }
  }
}
