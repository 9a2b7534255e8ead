/**
 The object database on top of the Secret-backed store: a list of objects, as
 encoded bytes, as compressed bytes, as numbered Secrets, beside other stores.
 */
module StoreStack {
  import opened Wrappers
  import opened SecretTable
  import opened SecretStore
  import opened SecretRuns
  import DB = StupidDB

  /** Where and how one database keeps its list. */
  datatype Layers = Layers(namespace: string, prefix: string, gzip: Codec, lists: DB.ListCodec)
  {
    ghost predicate Invertible() { gzip.Lossless() && lists.Faithful() }

    function Pieces(vs: seq<DB.Value>): seq<Bytes> {
      Chunks(gzip.compress(lists.marshal(vs)), MAX_CHUNK_SIZE)
    }
  }

  /** Reading and decoding the table may give this list. */
  ghost predicate Shows(l: Layers, t: Secrets, vs: seq<DB.Value>) {
    exists b :: Reads(t, l.namespace, l.prefix, l.gzip, Ok(b)) && l.lists.unmarshal(b) == Some(vs)
  }

  /** An operation of the database, or anything another store of the namespace does. */
  datatype Event = Operation(op: DB.Op) | Elsewhere(prefix: string)

  ghost predicate Step(l: Layers, t: Secrets, e: Event, t': Secrets) {
    match e
    case Operation(op) =>
      exists vs :: Shows(l, t, vs) && |l.Pieces(DB.Apply(vs, op))| <= 10
                   && t' == Written(t, l.namespace, l.prefix, l.Pieces(DB.Apply(vs, op)))
    case Elsewhere(q) => q != l.prefix && TouchesOnly(t, t', l.namespace, q)
  }

  ghost predicate StepAt(l: Layers, ts: seq<Secrets>, events: seq<Event>, i: nat)
    requires |ts| == |events| + 1 && i < |events|
  {
    Step(l, ts[i], events[i], ts[i + 1])
  }

  ghost predicate Run(l: Layers, ts: seq<Secrets>, events: seq<Event>) {
    && |ts| == |events| + 1
    && GapFree(ts[0], l.namespace, l.prefix, 0) && LabelsOwned(ts[0], l.namespace, l.prefix)
    && forall i: nat :: i < |events| ==> StepAt(l, ts, events, i)
  }

  function Operations(events: seq<Event>): seq<DB.Op> {
    if events == [] then []
    else Operations(events[..|events| - 1])
         + match events[|events| - 1] case Operation(op) => [op] case Elsewhere(_) => []
  }

  /** The Secrets hold the pieces of the list; before the first operation there are none. */
  ghost predicate Keeps(l: Layers, t: Secrets, vs: seq<DB.Value>) {
    && LabelsOwned(t, l.namespace, l.prefix)
    && ((vs == [] && Holds(t, l.namespace, l.prefix, []))
        || (|l.Pieces(vs)| <= 10 && Holds(t, l.namespace, l.prefix, l.Pieces(vs))))
  }

  lemma KeptIsShown(l: Layers, t: Secrets, vs: seq<DB.Value>, shown: seq<DB.Value>)
    requires l.Invertible() && Keeps(l, t, vs) && Shows(l, t, shown)
    ensures shown == vs
  {
    var b :| Reads(t, l.namespace, l.prefix, l.gzip, Ok(b)) && l.lists.unmarshal(b) == Some(shown);
    if Holds(t, l.namespace, l.prefix, l.Pieces(vs)) && |l.Pieces(vs)| <= 10 {
      HeldReadsIff(t, l.namespace, l.prefix, l.gzip, l.lists.marshal(vs), Ok(b));
      TenSurvive(l.prefix, l.gzip, l.lists.marshal(vs));
    } else {
      var items :| SortedListing(t, l.namespace, ChunkLabels(l.prefix), items)
                   && Ok(b) == Decoded(items, l.gzip);
      HeldReadsBack(t, l.namespace, l.prefix, [], items);
    }
  }

  /** What is kept can be read, so that there is always a next operation. */
  lemma KeptCanBeShown(l: Layers, t: Secrets, vs: seq<DB.Value>)
    requires l.Invertible() && Keeps(l, t, vs)
    ensures Shows(l, t, vs)
  {
    var ns, p := l.namespace, l.prefix;
    var b := l.lists.marshal(vs);
    if Holds(t, ns, p, l.Pieces(vs)) && |l.Pieces(vs)| <= 10 {
      ChunkNamesDistinct(p, l.Pieces(vs));
      var items := Sort(ChunkItems(p, l.Pieces(vs)));
      HeldListing(t, ns, p, l.Pieces(vs), items);
      TenSurvive(p, l.gzip, b);
      assert ChunkItems(p, l.Pieces(vs))[0] in items;
      assert Reads(t, ns, p, l.gzip, Ok(b));
    } else {
      forall item ensures !Selected(t, ns, ChunkLabels(p), item) {
        HeldIsListed(t, ns, p, [], item);
      }
      EmptyReads(t, ns, p, l.gzip, Ok([]));
      assert l.lists.unmarshal([]) == Some([]);
    }
  }

  /**
   Every run from a table without Secrets of the store can go on with any
   operation whose list fits ten chunks.
   */
  lemma RunCanContinue(l: Layers, ts: seq<Secrets>, events: seq<Event>, op: DB.Op)
    requires l.Invertible() && Run(l, ts, events)
    requires |l.Pieces(DB.Run([], Operations(events) + [op]))| <= 10
    ensures exists t :: Run(l, ts + [t], events + [Operation(op)])
  {
    var n := |events|;
    var before := Operations(events);
    var vs := DB.Run([], before);
    RunKeeps(l, ts, events, n);
    assert events[..n] == events;
    KeptCanBeShown(l, ts[n], vs);
    DB.RunSnoc([], before, op);
    var t := Written(ts[n], l.namespace, l.prefix, l.Pieces(DB.Apply(vs, op)));
    assert Step(l, ts[n], Operation(op), t);
    RunExtended(l, ts, events, Operation(op), t);
  }

  lemma RunExtended(l: Layers, ts: seq<Secrets>, events: seq<Event>, e: Event, t: Secrets)
    requires Run(l, ts, events) && Step(l, ts[|events|], e, t)
    ensures Run(l, ts + [t], events + [e])
  {
    var ts', events' := ts + [t], events + [e];
    forall i: nat | i < |events'| ensures StepAt(l, ts', events', i) {
      assert i < |events| ==> StepAt(l, ts, events, i);
    }
  }

  lemma StepKeeps(l: Layers, t: Secrets, vs: seq<DB.Value>, e: Event, t': Secrets)
    requires l.Invertible() && Keeps(l, t, vs) && Step(l, t, e, t')
    ensures Keeps(l, t', match e case Operation(op) => DB.Apply(vs, op) case Elsewhere(_) => vs)
  {
    var ns, p := l.namespace, l.prefix;
    match e
    case Operation(op) =>
      var shown :| Shows(l, t, shown) && |l.Pieces(DB.Apply(shown, op))| <= 10
                   && t' == Written(t, ns, p, l.Pieces(DB.Apply(shown, op)));
      KeptIsShown(l, t, vs, shown);
      var held := if Holds(t, ns, p, []) then [] else l.Pieces(vs);
      WriteHolds(t, ns, p, |held|, l.Pieces(DB.Apply(vs, op)));
    case Elsewhere(q) =>
      OtherStoreUnaffected(t, t', ns, q, p);
      HeldElsewhere(t, t', ns, p, []);
      HeldElsewhere(t, t', ns, p, l.Pieces(vs));
  }

  lemma HeldElsewhere(t: Secrets, t': Secrets, ns: string, p: string, chunks: seq<Bytes>)
    requires forall i: nat :: SameAt(t, t', ChunkKey(ns, p, i))
    ensures Holds(t, ns, p, chunks) ==> Holds(t', ns, p, chunks)
  {
    forall i: nat ensures Stored(t, ns, p, i) == Stored(t', ns, p, i) {
      assert SameAt(t, t', ChunkKey(ns, p, i));
    }
  }

  lemma {:induction false} RunKeeps(l: Layers, ts: seq<Secrets>, events: seq<Event>, i: nat)
    requires l.Invertible() && Run(l, ts, events) && i < |ts|
    ensures Keeps(l, ts[i], DB.Run([], Operations(events[..i])))
  {
    if i > 0 {
      RunKeeps(l, ts, events, i - 1);
      var before := Operations(events[..i - 1]);
      assert StepAt(l, ts, events, i - 1);
      StepKeeps(l, ts[i - 1], DB.Run([], before), events[i - 1], ts[i]);
      assert events[..i][..i - 1] == events[..i - 1];
      match events[i - 1]
      case Operation(op) => DB.RunSnoc([], before, op);
      case Elsewhere(_) => assert before + [] == before;
    }
  }

  /**
   Through all the layers, and whatever other stores do meanwhile: after any
   operations, each fitting ten chunks, the list read is the one the operations
   make from the empty database, with unique ids and the last value put.
   */
  lemma RunShowsOperations(l: Layers, ts: seq<Secrets>, events: seq<Event>, i: nat, shown: seq<DB.Value>, id: string)
    requires l.Invertible() && Run(l, ts, events) && i < |ts| && Shows(l, ts[i], shown)
    ensures shown == DB.Surviving(Operations(events[..i]))
    ensures DB.DistinctIds(shown) && DB.Lookup(shown, id) == DB.LastPut(Operations(events[..i]), id)
  {
    var ops := Operations(events[..i]);
    RunKeeps(l, ts, events, i);
    KeptIsShown(l, ts[i], DB.Run([], ops), shown);
    DB.RunIsSurviving([], ops);
    assert DB.Untouched([], ops) + DB.Surviving(ops) == DB.Surviving(ops);
    DB.RunRefinesMap(ops, id);
  }
}
