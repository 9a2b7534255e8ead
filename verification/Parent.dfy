/**
 The front of the object services: dispatches to the backend registered for an
 object's type, persists what the backend returns and answers it redacted.
 */
module Parent {
  import opened Wrappers
  import opened StupidDB

  /** How a backend answers CreateOrUpdate; Undecodable is an item of unknown type. */
  datatype Reply = Failed | Undecodable | Item(value: Value)

  datatype Status = InvalidArgument | NotFound | BackendError | Malformed | Panic

  /** The backend calls made, in order. */
  datatype Call =
    | CreateCall(server: string, item: Value, ok: bool)
    | DeleteCall(server: string, id: string, ok: bool)

  datatype Event =
    | CreateOrUpdate(item: Value, reply: Reply)
    | Delete(id: string, backendOk: bool)

  datatype State = State(values: seq<Value>, calls: seq<Call>)

  /** The state after an event, for a database that does not panic. */
  function After(servers: set<string>, s: State, e: Event): State {
    match e
    case CreateOrUpdate(item, reply) =>
      if item.typeURL !in servers then s
      else State(if reply.Item? then Upsert(s.values, reply.value) else s.values,
                 s.calls + [CreateCall(item.typeURL, item, !reply.Failed?)])
    case Delete(id, backendOk) =>
      var obj := Lookup(s.values, id);
      if obj.None? || obj.value.typeURL !in servers then s
      else State(if backendOk then Without(s.values, id) else s.values,
                 s.calls + [DeleteCall(obj.value.typeURL, id, backendOk)])
  }

  class Server {
    const db: DB
    const servers: set<string>
    const redacted: Value -> Value
    var calls: seq<Call>

    constructor (db: DB, servers: set<string>, redacted: Value -> Value)
      ensures this.db == db && this.servers == servers && this.redacted == redacted && calls == []
    {
      this.db := db;
      this.servers := servers;
      this.redacted := redacted;
      calls := [];
    }

    /** Bytes that do not decode hold no objects; every access to them panics. */
    ghost function Stored(): seq<Value>
      reads db.store
    {
      if db.Contents().Some? then db.Contents().value else []
    }

    ghost function Current(): State
      reads this, db.store
    {
      State(Stored(), calls)
    }

    /** The file can be read and written, and decodes: nothing panics. */
    ghost predicate Sound()
      reads db.store
    {
      db.store.reliable && db.Contents().Some?
    }

    /** The object is persisted before it is redacted in place. */
    method CreateOrUpdate(item: Value, reply: Reply) returns (r: Result<Value, Status>)
      requires db.codec.Faithful()
      modifies this, db.store
      ensures r != Err(Panic) ==>
                Current() == After(servers, old(Current()), Event.CreateOrUpdate(item, reply))
      ensures item.typeURL !in servers ==> r == Err(InvalidArgument)
      ensures item.typeURL in servers ==>
                match reply
                case Failed => r == Err(BackendError)
                case Undecodable => r == Err(Malformed)
                case Item(v) => r == Ok(redacted(v)) || (r == Err(Panic) && !old(Sound()))
    {
      if item.typeURL !in servers {
        return Err(InvalidArgument);
      }
      calls := calls + [CreateCall(item.typeURL, item, !reply.Failed?)];
      if reply.Failed? {
        return Err(BackendError);
      }
      if reply.Undecodable? {
        return Err(Malformed);
      }
      var obj := new Object(reply.value);
      var ok := db.CreateOrUpdate(obj);
      if !ok {
        return Err(Panic);
      }
      obj.Redact(redacted);
      return Ok(obj.value);
    }

    method List() returns (r: Result<seq<Value>, Status>)
      ensures r.Ok? ==> |r.value| == |Stored()| && forall i :: 0 <= i < |Stored()| ==> r.value[i] == redacted(Stored()[i])
      ensures r.Err? ==> r.error == Panic && !Sound()
    {
      var objs := db.List();
      if objs.None? {
        return Err(Panic);
      }
      ghost var vs := ValuesOf(objs.value);
      ValuesAt(objs.value);
      var items: seq<Value> := [];
      for i := 0 to |objs.value|
        invariant |items| == i && forall k :: 0 <= k < i ==> items[k] == redacted(vs[k])
        invariant forall k :: i <= k < |objs.value| ==> objs.value[k].value == vs[k]
      {
        var obj := objs.value[i];
        obj.Redact(redacted);
        items := items + [obj.value];
      }
      return Ok(items);
    }

    method Get(id: string) returns (r: Result<Value, Status>)
      ensures r != Err(Panic) ==>
                match Lookup(Stored(), id)
                case Some(v) => r == Ok(redacted(v))
                case None => r == Err(NotFound)
      ensures Sound() ==> r != Err(Panic)
    {
      var obj := db.Get(id);
      if obj.None? {
        return Err(Panic);
      }
      if obj.value.None? {
        return Err(NotFound);
      }
      obj.value.value.Redact(redacted);
      return Ok(obj.value.value.value);
    }

    /** The record goes only after the backend has succeeded. */
    method Delete(id: string, backendOk: bool) returns (r: Result<(), Status>)
      requires db.codec.Faithful()
      modifies this, db.store
      ensures r != Err(Panic) ==>
                Current() == After(servers, old(Current()), Event.Delete(id, backendOk))
      ensures r != Err(Panic) ==>
                var v := Lookup(old(Stored()), id);
                r == if v.None? then Ok(())
                     else if v.value.typeURL !in servers then Err(InvalidArgument)
                     else if backendOk then Ok(()) else Err(BackendError)
      ensures old(Sound()) ==> r != Err(Panic)
    {
      var obj := db.Get(id);
      if obj.None? {
        return Err(Panic);
      }
      if obj.value.None? {
        return Ok(());
      }
      var typeURL := obj.value.value.value.typeURL;
      if typeURL !in servers {
        return Err(InvalidArgument);
      }
      calls := calls + [DeleteCall(typeURL, id, backendOk)];
      if !backendOk {
        return Err(BackendError);
      }
      var ok := db.Delete(id);
      return if ok then Ok(()) else Err(Panic);
    }
  }

  lemma {:induction false} ValuesAt(objs: seq<Object>)
    ensures |ValuesOf(objs)| == |objs|
    ensures forall k :: 0 <= k < |objs| ==> ValuesOf(objs)[k] == objs[k].value
  {
    if objs != [] {
      ValuesAt(objs[..|objs| - 1]);
    }
  }

  // ---- Runs ----

  function Run(servers: set<string>, s: State, events: seq<Event>): State {
    if events == [] then s
    else After(servers, Run(servers, s, events[..|events| - 1]), events[|events| - 1])
  }

  /** Backends answer with an object of the type and id they were given. */
  ghost predicate Honest(events: seq<Event>) {
    forall i :: 0 <= i < |events| && events[i].CreateOrUpdate? && events[i].reply.Item? ==>
      events[i].reply.value.typeURL == events[i].item.typeURL && events[i].reply.value.id == events[i].item.id
  }

  /** The reply last stored under an id: dropped only by a deletion its backend confirmed. */
  function LastReply(servers: set<string>, events: seq<Event>, id: string): Option<Value> {
    if events == [] then None
    else
      var earlier := LastReply(servers, events[..|events| - 1], id);
      match events[|events| - 1]
      case CreateOrUpdate(item, Item(v)) => if item.typeURL in servers && v.id == id then Some(v) else earlier
      case CreateOrUpdate(_, _) => earlier
      case Delete(id', backendOk) => if id' == id && backendOk then None else earlier
  }

  /** The backend that, going by the calls, has created the object and not deleted it. */
  function Owner(calls: seq<Call>, id: string): Option<string> {
    if calls == [] then None
    else
      match calls[|calls| - 1]
      case CreateCall(server, item, true) => if item.id == id then Some(server) else Owner(calls[..|calls| - 1], id)
      case DeleteCall(_, id', true) => if id' == id then None else Owner(calls[..|calls| - 1], id)
      case _ => Owner(calls[..|calls| - 1], id)
  }

  ghost predicate Decodable(events: seq<Event>) {
    forall i :: 0 <= i < |events| && events[i].CreateOrUpdate? ==> !events[i].reply.Undecodable?
  }

  ghost predicate DeletesReachOwner(calls: seq<Call>) {
    forall k :: 0 <= k < |calls| && calls[k].DeleteCall? ==>
      Owner(calls[..k], calls[k].id) == Some(calls[k].server)
  }

  lemma AfterLookup(servers: set<string>, s: State, e: Event, id: string)
    ensures Lookup(After(servers, s, e).values, id) ==
            match e
            case CreateOrUpdate(item, Item(v)) =>
              if item.typeURL in servers && v.id == id then Some(v) else Lookup(s.values, id)
            case CreateOrUpdate(_, _) => Lookup(s.values, id)
            case Delete(id', backendOk) =>
              if id' == id && backendOk && Lookup(s.values, id).Some? && Lookup(s.values, id).value.typeURL in servers
              then None else Lookup(s.values, id)
    ensures DistinctIds(s.values) ==> DistinctIds(After(servers, s, e).values)
  {
    match e
    case CreateOrUpdate(item, Item(v)) => ApplyLookup(s.values, Put(v), id);
    case CreateOrUpdate(_, _) =>
    case Delete(id', _) => ApplyLookup(s.values, Remove(id'), id);
  }

  /**
   Every run of honest backends from the empty service: what is stored under an
   id is exactly the last backend reply, and belongs to a registered backend.
   */
  lemma {:induction false} RunStoresLastReply(servers: set<string>, events: seq<Event>, id: string)
    requires Honest(events)
    ensures var s := Run(servers, State([], []), events);
            && DistinctIds(s.values)
            && Lookup(s.values, id) == LastReply(servers, events, id)
            && (Lookup(s.values, id).Some? ==> Lookup(s.values, id).value.typeURL in servers)
  {
    if events != [] {
      var init, e := events[..|events| - 1], events[|events| - 1];
      RunStoresLastReply(servers, init, id);
      AfterLookup(servers, Run(servers, State([], []), init), e, id);
    }
  }

  function TypeOf(v: Option<Value>): Option<string> {
    match v case Some(v') => Some(v'.typeURL) case None => None
  }

  lemma OwnerSnoc(calls: seq<Call>, c: Call, id: string)
    ensures Owner(calls + [c], id) ==
            match c
            case CreateCall(server, item, true) => if item.id == id then Some(server) else Owner(calls, id)
            case DeleteCall(_, id', true) => if id' == id then None else Owner(calls, id)
            case _ => Owner(calls, id)
    ensures DeletesReachOwner(calls) && (c.DeleteCall? ==> Owner(calls, c.id) == Some(c.server)) ==>
              DeletesReachOwner(calls + [c])
  {
    var all := calls + [c];
    assert all[..|all| - 1] == calls;
    forall k | 0 <= k < |calls| ensures all[k] == calls[k] && all[..k] == calls[..k] {}
  }

  /** One event keeps the calls and the stored types in agreement. */
  lemma AfterOwner(servers: set<string>, s: State, e: Event, id: string)
    requires Honest([e]) && Decodable([e])
    requires Owner(s.calls, id) == TypeOf(Lookup(s.values, id))
    requires Lookup(s.values, id).Some? ==> Lookup(s.values, id).value.typeURL in servers
    ensures Owner(After(servers, s, e).calls, id) == TypeOf(Lookup(After(servers, s, e).values, id))
  {
    AfterLookup(servers, s, e, id);
    var s' := After(servers, s, e);
    if |s'.calls| > |s.calls| {
      OwnerSnoc(s.calls, s'.calls[|s.calls|], id);
    }
    assert [e][0] == e;
  }

  lemma AfterReachesOwner(servers: set<string>, s: State, e: Event)
    requires DeletesReachOwner(s.calls)
    requires e.Delete? ==> Owner(s.calls, e.id) == TypeOf(Lookup(s.values, e.id))
    ensures DeletesReachOwner(After(servers, s, e).calls)
  {
    var s' := After(servers, s, e);
    if |s'.calls| > |s.calls| {
      OwnerSnoc(s.calls, s'.calls[|s.calls|], "");
    }
  }

  /**
   In the same runs every deletion reached the backend that had created the
   object, and the calls agree with the stored types.
   */
  lemma {:induction false} RunDeletesAtOwner(servers: set<string>, events: seq<Event>, id: string)
    requires Honest(events) && Decodable(events)
    ensures var s := Run(servers, State([], []), events);
            && Owner(s.calls, id) == TypeOf(Lookup(s.values, id))
            && DeletesReachOwner(s.calls)
  {
    if events != [] {
      var init, e := events[..|events| - 1], events[|events| - 1];
      var s := Run(servers, State([], []), init);
      RunDeletesAtOwner(servers, init, id);
      RunStoresLastReply(servers, init, id);
      AfterOwner(servers, s, e, id);
      if e.Delete? {
        RunDeletesAtOwner(servers, init, e.id);
      }
      AfterReachesOwner(servers, s, e);
    }
  }
}
