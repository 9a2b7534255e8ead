/**
 The object database: every operation reads the whole list of objects from a
 store, changes it and writes it back encoded (StupidDB).
 */
module StupidDB {
  import opened Wrappers
  import opened SecretTable

  /** The fields of a message that matter here; the rest is one payload. */
  datatype Value = Value(typeURL: string, id: string, payload: string)

  /** A message on the heap, which may be changed in place. */
  class Object {
    var value: Value

    constructor (value: Value)
      ensures this.value == value
    {
      this.value := value;
    }

    method Redact(redacted: Value -> Value)
      modifies this
      ensures value == redacted(old(value))
    {
      value := redacted(value);
    }
  }

  /** Protobuf encoding of a list of messages, assumed only to be invertible. */
  datatype ListCodec = ListCodec(marshal: seq<Value> -> Bytes, unmarshal: Bytes -> Option<seq<Value>>)
  {
    ghost predicate Faithful() {
      && (forall vs :: unmarshal(marshal(vs)) == Some(vs))
      && unmarshal([]) == Some([])
    }
  }

  /** A file rewritten as a whole. Unless it is reliable a write may fail and leave it cut short. */
  class FileStore {
    var content: Bytes
    const reliable: bool

    constructor (reliable: bool)
      ensures content == [] && this.reliable == reliable
    {
      content := [];
      this.reliable := reliable;
    }

    method Fails() returns (fails: bool)
      ensures reliable ==> !fails
    {
      fails := *;
      fails := fails && !reliable;
    }

    method Read() returns (r: Option<Bytes>)
      ensures r.Some? ==> r.value == content
      ensures reliable ==> r.Some?
    {
      var fails := Fails();
      return if fails then None else Some(content);
    }

    method Write(b: Bytes) returns (ok: bool)
      modifies this
      ensures ok ==> content == b
      ensures !ok ==> content == old(content) || content <= b
      ensures reliable ==> ok
    {
      var fails := Fails();
      if fails {
        return false;
      }
      content := [];
      fails := Fails();
      if fails {
        return false;
      }
      var n :| 0 <= n <= |b| && (reliable ==> n == |b|);
      content := b[..n];
      return n == |b|;
    }
  }

  // ---- Specification on lists of values ----

  function Without(vs: seq<Value>, id: string): seq<Value> {
    if vs == [] then []
    else if vs[0].id == id then Without(vs[1..], id)
    else [vs[0]] + Without(vs[1..], id)
  }

  function Upsert(vs: seq<Value>, v: Value): seq<Value> {
    Without(vs, v.id) + [v]
  }

  function Lookup(vs: seq<Value>, id: string): Option<Value> {
    if vs == [] then None
    else if vs[0].id == id then Some(vs[0])
    else Lookup(vs[1..], id)
  }

  lemma {:induction false} WithoutSnoc(vs: seq<Value>, v: Value, id: string)
    ensures Without(vs + [v], id) == Without(vs, id) + if v.id == id then [] else [v]
  {
    if vs == [] {
      assert [v][1..] == [];
    } else {
      assert (vs + [v])[1..] == vs[1..] + [v];
      WithoutSnoc(vs[1..], v, id);
    }
  }

  ghost function ValuesOf(objs: seq<Object>): seq<Value>
    reads objs
  {
    if objs == [] then [] else ValuesOf(objs[..|objs| - 1]) + [objs[|objs| - 1].value]
  }

  // ---- The database ----

  class DB {
    const store: FileStore
    const codec: ListCodec

    constructor (store: FileStore, codec: ListCodec)
      ensures this.store == store && this.codec == codec
    {
      this.store := store;
      this.codec := codec;
    }

    /** The stored list; None if the bytes do not decode. */
    ghost function Contents(): Option<seq<Value>>
      reads store
    {
      codec.unmarshal(store.content)
    }

    /** None stands for a panic, here and in the other operations. */
    method List() returns (r: Option<seq<Object>>)
      ensures r.Some? ==> Contents() == Some(ValuesOf(r.value)) && fresh(r.value)
      ensures r.Some? ==> forall i, j :: 0 <= i < j < |r.value| ==> r.value[i] != r.value[j]
      ensures store.reliable && Contents().Some? ==> r.Some?
    {
      var b := store.Read();
      if b.None? {
        return None;
      }
      var list := codec.unmarshal(b.value);
      if list.None? {
        return None;
      }
      var objs: seq<Object> := [];
      for i := 0 to |list.value|
        invariant fresh(objs) && |objs| == i
        invariant ValuesOf(objs) == list.value[..i]
        invariant forall i, j :: 0 <= i < j < |objs| ==> objs[i] != objs[j]
      {
        var obj := new Object(list.value[i]);
        assert (objs + [obj])[..i] == objs;
        objs := objs + [obj];
      }
      assert list.value[..|list.value|] == list.value;
      return Some(objs);
    }

    method Encode(objs: seq<Object>) returns (ok: bool)
      modifies store
      ensures ok ==> store.content == codec.marshal(ValuesOf(objs))
      ensures !ok ==> store.content == old(store.content) || store.content <= codec.marshal(ValuesOf(objs))
      ensures store.reliable ==> ok
    {
      var items: seq<Value> := [];
      for i := 0 to |objs|
        invariant items == ValuesOf(objs[..i])
      {
        assert objs[..i + 1][..i] == objs[..i];
        items := items + [objs[i].value];
      }
      assert objs[..|objs|] == objs;
      ok := store.Write(codec.marshal(items));
    }

    method DeleteFunc(objs: seq<Object>, id: string) returns (kept: seq<Object>)
      ensures ValuesOf(kept) == Without(ValuesOf(objs), id)
      ensures forall o :: o in kept ==> o in objs
    {
      kept := [];
      for i := 0 to |objs|
        invariant ValuesOf(kept) == Without(ValuesOf(objs[..i]), id)
        invariant forall o :: o in kept ==> o in objs
      {
        assert objs[..i + 1][..i] == objs[..i];
        WithoutSnoc(ValuesOf(objs[..i]), objs[i].value, id);
        if objs[i].value.id != id {
          assert (kept + [objs[i]])[..|kept|] == kept;
          kept := kept + [objs[i]];
        }
      }
      assert objs[..|objs|] == objs;
    }

    method CreateOrUpdate(obj: Object) returns (ok: bool)
      requires codec.Faithful()
      modifies store
      ensures ok ==> old(Contents()).Some? && Contents() == Some(Upsert(old(Contents()).value, obj.value))
      ensures !ok ==> store.content == old(store.content)
                      || (old(Contents()).Some?
                          && store.content <= codec.marshal(Upsert(old(Contents()).value, obj.value)))
      ensures store.reliable && old(Contents()).Some? ==> ok
    {
      var objs := List();
      if objs.None? {
        return false;
      }
      ghost var before := ValuesOf(objs.value);
      var kept := DeleteFunc(objs.value, obj.value.id);
      var all := kept + [obj];
      assert all[..|kept|] == kept;
      assert ValuesOf(all) == Upsert(before, obj.value);
      ok := Encode(all);
    }

    method Get(id: string) returns (r: Option<Option<Object>>)
      ensures r.Some? ==> Contents().Some?
      ensures r.Some? && r.value.None? ==> Lookup(Contents().value, id) == None
      ensures r.Some? && r.value.Some? ==>
                fresh(r.value.value) && Lookup(Contents().value, id) == Some(r.value.value.value)
      ensures store.reliable && Contents().Some? ==> r.Some?
    {
      var objs := List();
      if objs.None? {
        return None;
      }
      for i := 0 to |objs.value|
        invariant Contents() == Some(ValuesOf(objs.value))
        invariant Lookup(ValuesOf(objs.value[..i]), id) == None
      {
        assert objs.value[..i + 1][..i] == objs.value[..i];
        LookupSnoc(ValuesOf(objs.value[..i]), objs.value[i].value, id);
        if objs.value[i].value.id == id {
          assert Lookup(ValuesOf(objs.value[..i + 1]), id) == Some(objs.value[i].value);
          LookupPrefix(objs.value, i + 1, id);
          return Some(Some(objs.value[i]));
        }
      }
      assert objs.value[..|objs.value|] == objs.value;
      return Some(None);
    }

    method Delete(id: string) returns (ok: bool)
      requires codec.Faithful()
      modifies store
      ensures ok ==> old(Contents()).Some? && Contents() == Some(Without(old(Contents()).value, id))
      ensures !ok ==> store.content == old(store.content)
                      || (old(Contents()).Some?
                          && store.content <= codec.marshal(Without(old(Contents()).value, id)))
      ensures store.reliable && old(Contents()).Some? ==> ok
    {
      var objs := List();
      if objs.None? {
        return false;
      }
      var kept := DeleteFunc(objs.value, id);
      ok := Encode(kept);
    }
  }

  lemma {:induction false} LookupSnoc(vs: seq<Value>, v: Value, id: string)
    ensures Lookup(vs + [v], id) ==
            if Lookup(vs, id).Some? then Lookup(vs, id) else if v.id == id then Some(v) else None
  {
    if vs == [] {
      assert [v][1..] == [];
    } else {
      assert (vs + [v])[1..] == vs[1..] + [v];
      LookupSnoc(vs[1..], v, id);
    }
  }

  lemma {:induction false} LookupPrefix(objs: seq<Object>, i: nat, id: string)
    requires i <= |objs| && Lookup(ValuesOf(objs[..i]), id).Some?
    ensures Lookup(ValuesOf(objs), id) == Lookup(ValuesOf(objs[..i]), id)
    decreases |objs|
  {
    if i < |objs| {
      var init := objs[..|objs| - 1];
      assert init[..i] == objs[..i];
      LookupPrefix(init, i, id);
      LookupSnoc(ValuesOf(init), objs[|objs| - 1].value, id);
    } else {
      assert objs[..i] == objs;
    }
  }

  // ---- Runs ----

  datatype Op = Put(v: Value) | Remove(id: string)
  {
    function Id(): string { if Put? then v.id else id }
  }

  function Apply(vs: seq<Value>, op: Op): seq<Value> {
    match op
    case Put(v) => Upsert(vs, v)
    case Remove(id) => Without(vs, id)
  }

  function Run(vs: seq<Value>, ops: seq<Op>): seq<Value>
    decreases |ops|
  {
    if ops == [] then vs else Run(Apply(vs, ops[0]), ops[1..])
  }

  predicate Touched(ops: seq<Op>, id: string) {
    exists i :: 0 <= i < |ops| && ops[i].Id() == id
  }

  /** The put values that no later operation touches, oldest first. */
  function Surviving(ops: seq<Op>): seq<Value> {
    if ops == [] then []
    else if ops[0].Put? && !Touched(ops[1..], ops[0].v.id) then [ops[0].v] + Surviving(ops[1..])
    else Surviving(ops[1..])
  }

  function Untouched(vs: seq<Value>, ops: seq<Op>): seq<Value> {
    if vs == [] then []
    else if Touched(ops, vs[0].id) then Untouched(vs[1..], ops)
    else [vs[0]] + Untouched(vs[1..], ops)
  }

  lemma TouchedCons(ops: seq<Op>, id: string)
    requires ops != []
    ensures Touched(ops, id) <==> ops[0].Id() == id || Touched(ops[1..], id)
  {
    if Touched(ops[1..], id) {
      var i :| 0 <= i < |ops| - 1 && ops[1..][i].Id() == id;
      assert ops[i + 1].Id() == id;
    }
    if i :| 0 < i < |ops| && ops[i].Id() == id {
      assert ops[1..][i - 1].Id() == id;
    }
  }

  lemma {:induction false} UntouchedCons(vs: seq<Value>, ops: seq<Op>)
    requires ops != []
    ensures Untouched(Without(vs, ops[0].Id()), ops[1..]) == Untouched(vs, ops)
  {
    if vs != [] {
      UntouchedCons(vs[1..], ops);
      TouchedCons(ops, vs[0].id);
      if vs[0].id != ops[0].Id() {
        var w := Without(vs, ops[0].Id());
        assert w[1..] == Without(vs[1..], ops[0].Id());
      }
    }
  }

  lemma {:induction false} UntouchedSnoc(vs: seq<Value>, v: Value, ops: seq<Op>)
    ensures Untouched(vs + [v], ops) == Untouched(vs, ops) + if Touched(ops, v.id) then [] else [v]
  {
    if vs == [] {
      assert [v][1..] == [];
    } else {
      assert (vs + [v])[1..] == vs[1..] + [v];
      UntouchedSnoc(vs[1..], v, ops);
    }
  }

  /** Any run keeps what it never touches and appends what it put last, in that order. */
  lemma {:induction false} RunIsSurviving(vs: seq<Value>, ops: seq<Op>)
    ensures Run(vs, ops) == Untouched(vs, ops) + Surviving(ops)
    decreases |ops|
  {
    if ops == [] {
      NoneTouched(vs);
    } else {
      var op, rest := ops[0], ops[1..];
      RunIsSurviving(Apply(vs, op), rest);
      ApplyUntouched(vs, ops);
    }
  }

  lemma ApplyUntouched(vs: seq<Value>, ops: seq<Op>)
    requires ops != []
    ensures Untouched(Apply(vs, ops[0]), ops[1..]) + Surviving(ops[1..]) == Untouched(vs, ops) + Surviving(ops)
  {
    UntouchedCons(vs, ops);
    if ops[0].Put? {
      var v := ops[0].v;
      UntouchedSnoc(Without(vs, v.id), v, ops[1..]);
      if !Touched(ops[1..], v.id) {
        assert Surviving(ops) == [v] + Surviving(ops[1..]);
      }
    }
  }

  lemma {:induction false} NoneTouched(vs: seq<Value>)
    ensures Untouched(vs, []) == vs
  {
    if vs != [] {
      assert !Touched([], vs[0].id);
      NoneTouched(vs[1..]);
    }
  }

  lemma {:induction false} RunSnoc(vs: seq<Value>, ops: seq<Op>, op: Op)
    ensures Run(vs, ops + [op]) == Apply(Run(vs, ops), op)
    decreases |ops|
  {
    if ops == [] {
      assert [op][1..] == [];
      assert Run(vs, [op]) == Run(Apply(vs, op), []);
      assert ops + [op] == [op];
    } else {
      assert (ops + [op])[1..] == ops[1..] + [op];
      RunSnoc(Apply(vs, ops[0]), ops[1..], op);
    }
  }

  ghost predicate DistinctIds(vs: seq<Value>) {
    forall i, j :: 0 <= i < j < |vs| ==> vs[i].id != vs[j].id
  }

  lemma {:induction false} WithoutMembers(vs: seq<Value>, id: string)
    ensures forall v :: v in Without(vs, id) <==> v in vs && v.id != id
    ensures DistinctIds(vs) ==> DistinctIds(Without(vs, id))
    ensures forall id' :: Lookup(Without(vs, id), id') == if id' == id then None else Lookup(vs, id')
  {
    if vs != [] {
      WithoutMembers(vs[1..], id);
      assert vs == [vs[0]] + vs[1..];
      assert forall v :: v in vs <==> v == vs[0] || v in vs[1..];
    }
  }

  lemma ApplyLookup(vs: seq<Value>, op: Op, id: string)
    ensures Lookup(Apply(vs, op), id) ==
            if op.Id() != id then Lookup(vs, id) else if op.Put? then Some(op.v) else None
    ensures DistinctIds(vs) ==> DistinctIds(Apply(vs, op))
  {
    WithoutMembers(vs, op.Id());
    if op.Put? {
      LookupSnoc(Without(vs, op.v.id), op.v, id);
      forall v | v in Without(vs, op.v.id) ensures v.id != op.v.id {}
    }
  }

  /** The value last put under an id and not removed since. */
  function LastPut(ops: seq<Op>, id: string): Option<Value> {
    if ops == [] then None
    else
      var op := ops[|ops| - 1];
      if op.Id() != id then LastPut(ops[..|ops| - 1], id)
      else if op.Put? then Some(op.v) else None
  }

  /** A run from an empty database: unique ids, and Get answers the last value put. */
  lemma {:induction false} RunRefinesMap(ops: seq<Op>, id: string)
    ensures DistinctIds(Run([], ops))
    ensures Lookup(Run([], ops), id) == LastPut(ops, id)
  {
    if ops != [] {
      var init, op := ops[..|ops| - 1], ops[|ops| - 1];
      assert ops == init + [op];
      RunRefinesMap(init, id);
      RunSnoc([], init, op);
      ApplyLookup(Run([], init), op, id);
    }
  }

  /** Removing an id that is not stored changes nothing. */
  lemma {:induction false} RemoveAbsent(vs: seq<Value>, id: string)
    requires Lookup(vs, id) == None
    ensures Apply(vs, Remove(id)) == vs
  {
    if vs != [] {
      RemoveAbsent(vs[1..], id);
    }
  }
}
