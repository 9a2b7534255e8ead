/** Runs of the Secret-backed stores of one namespace. */
module SecretRuns {
  import opened Wrappers
  import opened Text
  import opened Decimal
  import opened SecretTable
  import opened SecretStore

  predicate Stored(t: Secrets, ns: string, p: string, i: nat) {
    ChunkKey(ns, p, i) in t
  }

  /** The chunk indices are exactly 0 to n - 1. */
  ghost predicate GapFree(t: Secrets, ns: string, p: string, n: nat) {
    forall i: nat :: Stored(t, ns, p, i) <==> i < n
  }

  /** From index c on, the stored indices have no gap below them. */
  ghost predicate TailContiguous(t: Secrets, ns: string, p: string, c: nat) {
    forall g: nat, i: nat :: c <= g < i && Stored(t, ns, p, i) ==> Stored(t, ns, p, g)
  }

  /** Whatever carries the store's labels is one of its chunks by name. */
  ghost predicate LabelsOwned(t: Secrets, ns: string, p: string) {
    forall k :: k in t && k.namespace == ns && Matches(t[k], ChunkLabels(p)) ==> IsChunkKey(ns, p, k)
  }

  /** The store holds exactly these chunks. */
  ghost predicate Holds(t: Secrets, ns: string, p: string, chunks: seq<Bytes>) {
    && GapFree(t, ns, p, |chunks|)
    && forall i: nat :: i < |chunks| ==>
         Stored(t, ns, p, i) && t[ChunkKey(ns, p, i)] == ChunkSecret(p, chunks[i])
  }

  // ---- What one successful write does ----

  lemma OtherIndex(ns: string, p: string, i: nat, j: nat)
    ensures ChunkKey(ns, p, i) == ChunkKey(ns, p, j) <==> i == j
  {
    if ChunkKey(ns, p, i) == ChunkKey(ns, p, j) {
      ChunkNameInjective(p, i, p, j);
    }
  }

  lemma {:induction false} PutChunksIndex(t: Secrets, ns: string, p: string, chunks: seq<Bytes>, n: nat, i: nat)
    requires n <= |chunks|
    ensures var t' := PutChunks(t, ns, p, chunks, n);
            if i < n then Stored(t', ns, p, i) && t'[ChunkKey(ns, p, i)] == ChunkSecret(p, chunks[i])
            else SameAt(t, t', ChunkKey(ns, p, i))
  {
    if n > 0 {
      PutChunksIndex(t, ns, p, chunks, n - 1, i);
      OtherIndex(ns, p, i, n - 1);
    }
  }

  ghost predicate GapBelow(t: Secrets, ns: string, p: string, from: nat, i: nat) {
    exists g: nat :: from <= g < i && !Stored(t, ns, p, g)
  }

  lemma {:induction false} DropChunksIndex(t: Secrets, ns: string, p: string, from: nat, i: nat)
    ensures var t' := DropChunks(t, ns, p, from);
            if i < from || GapBelow(t, ns, p, from, i) then SameAt(t, t', ChunkKey(ns, p, i))
            else !Stored(t', ns, p, i)
    decreases |t|
  {
    if Stored(t, ns, p, from) {
      var t1 := t - {ChunkKey(ns, p, from)};
      DropOne(t, ns, p, from);
      DropChunksIndex(t1, ns, p, from + 1, i);
      OtherIndex(ns, p, i, from);
      GapShift(t, ns, p, from, i);
    }
  }

  lemma GapShift(t: Secrets, ns: string, p: string, from: nat, i: nat)
    requires Stored(t, ns, p, from)
    ensures GapBelow(t - {ChunkKey(ns, p, from)}, ns, p, from + 1, i) <==> GapBelow(t, ns, p, from, i)
  {
    var t1 := t - {ChunkKey(ns, p, from)};
    if g: nat :| from <= g < i && !Stored(t, ns, p, g) {
      assert !Stored(t1, ns, p, g);
    }
    if g: nat :| from + 1 <= g < i && !Stored(t1, ns, p, g) {
      OtherIndex(ns, p, g, from);
      assert !Stored(t, ns, p, g);
    }
  }

  /** A successful write, index by index. */
  lemma WrittenIndex(t: Secrets, ns: string, p: string, chunks: seq<Bytes>, i: nat)
    ensures var t' := Written(t, ns, p, chunks);
            if i < |chunks| then Stored(t', ns, p, i) && t'[ChunkKey(ns, p, i)] == ChunkSecret(p, chunks[i])
            else if GapBelow(t, ns, p, |chunks|, i) then SameAt(t, t', ChunkKey(ns, p, i))
            else !Stored(t', ns, p, i)
  {
    var c := |chunks|;
    var t1 := PutChunks(t, ns, p, chunks, c);
    PutChunksIndex(t, ns, p, chunks, c, i);
    DropChunksIndex(t1, ns, p, c, i);
    forall g: nat | c <= g ensures Stored(t1, ns, p, g) == Stored(t, ns, p, g) {
      PutChunksIndex(t, ns, p, chunks, c, g);
    }
    assert GapBelow(t, ns, p, c, i) == GapBelow(t1, ns, p, c, i);
  }

  /**
   A successful write leaves exactly the indices below its chunk count if and
   only if the stored indices from that count on had no gap below them.
   */
  lemma WriteLeavesOwnChunksIff(t: Secrets, ns: string, p: string, chunks: seq<Bytes>)
    ensures Holds(Written(t, ns, p, chunks), ns, p, chunks) <==> TailContiguous(t, ns, p, |chunks|)
  {
    var t', c := Written(t, ns, p, chunks), |chunks|;
    forall i: nat
      ensures Stored(t', ns, p, i) <==> i < c || (GapBelow(t, ns, p, c, i) && Stored(t, ns, p, i))
      ensures i < c ==> t'[ChunkKey(ns, p, i)] == ChunkSecret(p, chunks[i])
    {
      WrittenIndex(t, ns, p, chunks, i);
    }
    if Holds(t', ns, p, chunks) {
      forall g: nat, i: nat | c <= g < i && Stored(t, ns, p, i)
        ensures Stored(t, ns, p, g)
      {
        assert !Stored(t', ns, p, i);
        assert !GapBelow(t, ns, p, c, i);
      }
    }
  }

  /**
   A write that stored its c chunks but failed after one of several deletions
   strands the rest: no later write of up to c chunks gets rid of them.
   */
  lemma InterruptedDeletionStrands(t: Secrets, ns: string, p: string, n: nat, c: nat, chunks: seq<Bytes>)
    requires GapFree(t, ns, p, n) && c + 1 < n && |chunks| <= c
    ensures var t' := Written(t - {ChunkKey(ns, p, c)}, ns, p, chunks);
            Stored(t', ns, p, c + 1) && !Holds(t', ns, p, chunks)
  {
    var interrupted := t - {ChunkKey(ns, p, c)};
    OtherIndex(ns, p, c, c + 1);
    assert !Stored(interrupted, ns, p, c) && Stored(t, ns, p, c + 1);
    WrittenIndex(interrupted, ns, p, chunks, c + 1);
    var t' := Written(interrupted, ns, p, chunks);
    assert GapBelow(interrupted, ns, p, |chunks|, c + 1);
    assert GapFree(t', ns, p, |chunks|) ==> (Stored(t', ns, p, c + 1) <==> c + 1 < |chunks|);
  }

  lemma GapFreeIsContiguous(t: Secrets, ns: string, p: string, n: nat, c: nat)
    requires GapFree(t, ns, p, n)
    ensures TailContiguous(t, ns, p, c)
  {}

  // ---- Isolation of the stores ----

  lemma {:induction false} PutChunksTouchesOnly(t: Secrets, ns: string, p: string, chunks: seq<Bytes>, n: nat)
    requires n <= |chunks|
    ensures TouchesOnly(t, PutChunks(t, ns, p, chunks, n), ns, p)
  {
    if n > 0 {
      PutChunksTouchesOnly(t, ns, p, chunks, n - 1);
      TouchesOnlyOne(t, PutChunks(t, ns, p, chunks, n - 1), PutChunks(t, ns, p, chunks, n), ns, p, n - 1, chunks[n - 1]);
    }
  }

  lemma {:induction false} DropChunksTouchesOnly(t0: Secrets, t: Secrets, ns: string, p: string, from: nat)
    requires TouchesOnly(t0, t, ns, p)
    ensures TouchesOnly(t0, DropChunks(t, ns, p, from), ns, p)
    decreases |t|
  {
    if Stored(t, ns, p, from) {
      var t1 := t - {ChunkKey(ns, p, from)};
      TouchesOnlyOne(t0, t, t1, ns, p, from, []);
      DropOne(t, ns, p, from);
      DropChunksTouchesOnly(t0, t1, ns, p, from + 1);
    }
  }

  lemma WrittenTouchesOnly(t: Secrets, ns: string, p: string, chunks: seq<Bytes>)
    ensures TouchesOnly(t, Written(t, ns, p, chunks), ns, p)
  {
    PutChunksTouchesOnly(t, ns, p, chunks, |chunks|);
    DropChunksTouchesOnly(t, PutChunks(t, ns, p, chunks, |chunks|), ns, p, |chunks|);
  }

  lemma ChunkKeyOfOneStore(ns: string, p: string, q: string, k: Key)
    requires IsChunkKey(ns, p, k) && IsChunkKey(ns, q, k)
    ensures p == q
  {
    var i: nat :| k == ChunkKey(ns, p, i);
    var j: nat :| k == ChunkKey(ns, q, j);
    ChunkNameInjective(p, i, q, j);
  }

  /** What one store does, even a write that fails half-way, no other store can see. */
  lemma OtherStoreUnaffected(t: Secrets, t': Secrets, ns: string, p: string, q: string)
    requires TouchesOnly(t, t', ns, p) && p != q && LabelsOwned(t, ns, q)
    ensures LabelsOwned(t', ns, q)
    ensures forall i: nat :: SameAt(t, t', ChunkKey(ns, q, i))
    ensures forall items :: SortedListing(t, ns, ChunkLabels(q), items) <==>
                            SortedListing(t', ns, ChunkLabels(q), items)
  {
    forall i: nat ensures SameAt(t, t', ChunkKey(ns, q, i)) {
      var k := ChunkKey(ns, q, i);
      assert IsChunkKey(ns, q, k);
      if !SameAt(t, t', k) {
        ChunkKeyOfOneStore(ns, p, q, k);
      }
    }
    forall item ensures Selected(t, ns, ChunkLabels(q), item) <==> Selected(t', ns, ChunkLabels(q), item) {
      if Selected(t, ns, ChunkLabels(q), item) || Selected(t', ns, ChunkLabels(q), item) {
        SelectionUnaffected(t, t', ns, p, q, Key(ns, item.name));
      }
    }
    forall k | k in t' && k.namespace == ns && Matches(t'[k], ChunkLabels(q))
      ensures IsChunkKey(ns, q, k)
    {
      SelectionUnaffected(t, t', ns, p, q, k);
    }
  }

  lemma SelectionUnaffected(t: Secrets, t': Secrets, ns: string, p: string, q: string, k: Key)
    requires TouchesOnly(t, t', ns, p) && p != q && LabelsOwned(t, ns, q) && k.namespace == ns
    requires (k in t && Matches(t[k], ChunkLabels(q))) || (k in t' && Matches(t'[k], ChunkLabels(q)))
    ensures SameAt(t, t', k)
  {
    if !SameAt(t, t', k) {
      assert IsChunkKey(ns, p, k);
      if k in t && Matches(t[k], ChunkLabels(q)) {
        ChunkKeyOfOneStore(ns, p, q, k);
      } else {
        ForeignLabels(t'[k], p, q);
      }
    }
  }

  lemma ForeignLabels(secret: Secret, p: string, q: string)
    requires secret.labels == ChunkLabels(p) && p != q
    ensures !Matches(secret, ChunkLabels(q))
  {
    assert "stretch-db/store" in ChunkLabels(q);
  }

  lemma OwnWriteKeepsLabels(t: Secrets, t': Secrets, ns: string, p: string)
    requires TouchesOnly(t, t', ns, p) && LabelsOwned(t, ns, p)
    ensures LabelsOwned(t', ns, p)
  {
    forall k | k in t' && k.namespace == ns && Matches(t'[k], ChunkLabels(p))
      ensures IsChunkKey(ns, p, k)
    {
      assert SameAt(t, t', k) || IsChunkKey(ns, p, k);
    }
  }

  // ---- Reading back ----

  lemma NameOrder(p: string, i: nat, j: nat)
    ensures Less(ChunkName(p, i), ChunkName(p, j)) == Less(Dec(i), Dec(j))
  {
    assert ChunkName(p, i) == (p + "-") + Dec(i) && ChunkName(p, j) == (p + "-") + Dec(j);
    LessCommonPrefix(p + "-", Dec(i), Dec(j));
  }

  /** Sorting by name sorts by index if and only if there are at most ten chunks. */
  lemma NameOrderIffTen(p: string, n: nat)
    ensures (forall i: nat, j: nat :: i < n && j < n ==> (Less(ChunkName(p, i), ChunkName(p, j)) <==> i < j))
            <==> n <= 10
  {
    forall i: nat, j: nat | i < 10 && j < 10
      ensures Less(ChunkName(p, i), ChunkName(p, j)) <==> i < j
    {
      NameOrder(p, i, j);
      assert Dec(i) == [Digit(i)] && Dec(j) == [Digit(j)];
    }
    NameOrder(p, 10, 2);
    assert Dec(10) == Dec(1) + [Digit(0)] && Dec(1) == [Digit(1)] && Dec(2) == [Digit(2)];
  }

  function ChunkItem(p: string, chunks: seq<Bytes>, i: nat): Item
    requires i < |chunks|
  {
    Item(ChunkName(p, i), ChunkSecret(p, chunks[i]))
  }

  function ChunkItems(p: string, chunks: seq<Bytes>): (items: seq<Item>)
    ensures |items| == |chunks|
    ensures forall i :: 0 <= i < |items| ==> items[i] == ChunkItem(p, chunks, i)
  {
    seq(|chunks|, i requires 0 <= i < |chunks| => ChunkItem(p, chunks, i))
  }

  /** The Secrets listed for a store are those of its chunks. */
  lemma HeldIsListed(t: Secrets, ns: string, p: string, chunks: seq<Bytes>, item: Item)
    requires Holds(t, ns, p, chunks) && LabelsOwned(t, ns, p)
    ensures Selected(t, ns, ChunkLabels(p), item) <==> item in ChunkItems(p, chunks)
  {
    var k := Key(ns, item.name);
    if Selected(t, ns, ChunkLabels(p), item) {
      assert IsChunkKey(ns, p, k);
      var i: nat :| k == ChunkKey(ns, p, i);
      assert Stored(t, ns, p, i);
      assert item == ChunkItems(p, chunks)[i];
    }
    if item in ChunkItems(p, chunks) {
      var i :| 0 <= i < |chunks| && item == ChunkItem(p, chunks, i);
      assert Stored(t, ns, p, i);
    }
  }

  lemma {:induction false} ItemsConcat(items: seq<Item>, chunks: seq<Bytes>)
    requires |items| == |chunks|
    requires forall i :: 0 <= i < |items| ==> DataOf(items[i].secret) == chunks[i]
    ensures ItemData(items) == Concat(chunks)
  {
    if chunks != [] {
      ItemsConcat(items[1..], chunks[1..]);
    }
  }

  lemma ChunkNamesDistinct(p: string, chunks: seq<Bytes>)
    ensures DistinctNames(ChunkItems(p, chunks))
  {
    forall i, j | 0 <= i < j < |chunks|
      ensures ChunkName(p, i) != ChunkName(p, j)
    {
      OtherIndex("", p, i, j);
    }
  }

  /** The chunks joined in the order of their names. */
  ghost function NameJoined(p: string, chunks: seq<Bytes>): Bytes {
    ChunkNamesDistinct(p, chunks);
    ItemData(Sort(ChunkItems(p, chunks)))
  }

  lemma HeldListing(t: Secrets, ns: string, p: string, chunks: seq<Bytes>, items: seq<Item>)
    requires Holds(t, ns, p, chunks) && LabelsOwned(t, ns, p)
    ensures SortedListing(t, ns, ChunkLabels(p), items) <==>
            DistinctNames(ChunkItems(p, chunks)) && items == Sort(ChunkItems(p, chunks))
  {
    ChunkNamesDistinct(p, chunks);
    forall item ensures Selected(t, ns, ChunkLabels(p), item) <==> item in ChunkItems(p, chunks) {
      HeldIsListed(t, ns, p, chunks, item);
    }
    if SortedListing(t, ns, ChunkLabels(p), items) {
      SortedUnique(items, Sort(ChunkItems(p, chunks)));
    }
  }

  /** Up to ten chunks are joined in index order. */
  lemma NameJoinedIsConcat(p: string, chunks: seq<Bytes>)
    requires |chunks| <= 10
    ensures NameJoined(p, chunks) == Concat(chunks)
  {
    ChunkNamesDistinct(p, chunks);
    NameOrderIffTen(p, |chunks|);
    SortedUnique(Sort(ChunkItems(p, chunks)), ChunkItems(p, chunks));
    ItemsConcat(ChunkItems(p, chunks), chunks);
  }

  /** Up to ten chunks are listed in index order, so their bytes come back joined. */
  lemma HeldReadsBack(t: Secrets, ns: string, p: string, chunks: seq<Bytes>, items: seq<Item>)
    requires Holds(t, ns, p, chunks) && LabelsOwned(t, ns, p) && |chunks| <= 10
    requires SortedListing(t, ns, ChunkLabels(p), items)
    ensures items == ChunkItems(p, chunks) && ItemData(items) == Concat(chunks)
  {
    NameOrderIffTen(p, |chunks|);
    forall item ensures item in items <==> item in ChunkItems(p, chunks) {
      HeldIsListed(t, ns, p, chunks, item);
    }
    SortedUnique(items, ChunkItems(p, chunks));
    ItemsConcat(items, chunks);
  }

  /** What a write of some bytes stores. */
  function Pieces(codec: Codec, b: Bytes): seq<Bytes> {
    Chunks(codec.compress(b), MAX_CHUNK_SIZE)
  }

  /** Whether bytes survive: joined in the order of their names, their pieces decompress to them. */
  ghost predicate Survives(p: string, codec: Codec, b: Bytes) {
    codec.decompress(NameJoined(p, Pieces(codec, b))) == Some(b)
  }

  /** A write from a gap-free state leaves the store with exactly its pieces. */
  lemma WriteHolds(t: Secrets, ns: string, p: string, n: nat, chunks: seq<Bytes>)
    requires GapFree(t, ns, p, n) && LabelsOwned(t, ns, p)
    ensures Holds(Written(t, ns, p, chunks), ns, p, chunks) && LabelsOwned(Written(t, ns, p, chunks), ns, p)
  {
    GapFreeIsContiguous(t, ns, p, n, |chunks|);
    WriteLeavesOwnChunksIff(t, ns, p, chunks);
    WrittenTouchesOnly(t, ns, p, chunks);
    OwnWriteKeepsLabels(t, Written(t, ns, p, chunks), ns, p);
  }

  lemma HeldReadsIff(t: Secrets, ns: string, p: string, codec: Codec, b: Bytes, r: Result<Bytes, StoreError>)
    requires LabelsOwned(t, ns, p) && Holds(t, ns, p, Pieces(codec, b))
    requires Reads(t, ns, p, codec, r) && r != Err(API)
    ensures r == Ok(b) <==> Survives(p, codec, b)
    ensures r == Err(Corrupt) <==> codec.decompress(NameJoined(p, Pieces(codec, b))) == None
  {
    var chunks := Pieces(codec, b);
    var items :| SortedListing(t, ns, ChunkLabels(p), items) && r == Decoded(items, codec);
    HeldListing(t, ns, p, chunks, items);
    assert ChunkItems(p, chunks)[0] in items;
  }

  /** A store that has no Secrets answers no bytes. */
  lemma EmptyReads(t: Secrets, ns: string, p: string, codec: Codec, r: Result<Bytes, StoreError>)
    requires forall item :: !Selected(t, ns, ChunkLabels(p), item)
    ensures Reads(t, ns, p, codec, r) && r != Err(API) <==> r == Ok([])
  {
    var none: seq<Item> := [];
    assert SortedListing(t, ns, ChunkLabels(p), none);
    if Reads(t, ns, p, codec, r) && r != Err(API) {
      var items :| SortedListing(t, ns, ChunkLabels(p), items) && r == Decoded(items, codec);
      SortedUnique(items, none);
    }
  }

  /** For a lossless codec up to ten pieces do survive. */
  lemma TenSurvive(p: string, codec: Codec, b: Bytes)
    requires codec.Lossless() && |Pieces(codec, b)| <= 10
    ensures Survives(p, codec, b)
  {
    NameJoinedIsConcat(p, Pieces(codec, b));
    ChunksCut(codec.compress(b), MAX_CHUNK_SIZE);
  }

  /**
   From any gap-free state, whatever it held, a successful write followed by a
   read that the API lets through gives the bytes back exactly if they survive
   being joined in the order of the chunks' names.
   */
  lemma WriteThenReadIff(t: Secrets, ns: string, p: string, n: nat, codec: Codec, b: Bytes, r: Result<Bytes, StoreError>)
    requires GapFree(t, ns, p, n) && LabelsOwned(t, ns, p)
    requires Reads(Written(t, ns, p, Pieces(codec, b)), ns, p, codec, r) && r != Err(API)
    ensures r == Ok(b) <==> Survives(p, codec, b)
    ensures r == Err(Corrupt) <==> codec.decompress(NameJoined(p, Pieces(codec, b))) == None
  {
    WriteHolds(t, ns, p, n, Pieces(codec, b));
    HeldReadsIff(Written(t, ns, p, Pieces(codec, b)), ns, p, codec, b, r);
  }

  /** So they do if they make at most ten chunks, and the state is gap-free again. */
  lemma WriteThenRead(t: Secrets, ns: string, p: string, n: nat, codec: Codec, b: Bytes, r: Result<Bytes, StoreError>)
    requires codec.Lossless()
    requires GapFree(t, ns, p, n) && LabelsOwned(t, ns, p)
    requires |Pieces(codec, b)| <= 10
    requires Reads(Written(t, ns, p, Pieces(codec, b)), ns, p, codec, r) && r != Err(API)
    ensures r == Ok(b)
    ensures GapFree(Written(t, ns, p, Pieces(codec, b)), ns, p, |Pieces(codec, b)|)
  {
    WriteThenReadIff(t, ns, p, n, codec, b, r);
    TenSurvive(p, codec, b);
    WriteHolds(t, ns, p, n, Pieces(codec, b));
  }

  // ---- More than ten chunks ----

  lemma {:induction false} ChunkAt(data: Bytes, size: nat, i: nat, from: nat)
    requires size > 0 && i < |Chunks(data, size)| && from == size * i
    ensures from <= |data|
    ensures Chunks(data, size)[i] == if |data| <= from + size then data[from..] else data[from..from + size]
    decreases i
  {
    if i > 0 {
      var rest, before := data[size..], from - size;
      TimesPredecessor(size, i);
      ChunksRest(data, size);
      ChunkAt(rest, size, i - 1, before);
      SameSlice(data, size, before, Chunks(rest, size)[i - 1]);
    }
  }

  lemma ChunksRest(data: Bytes, size: nat)
    requires size > 0 && |Chunks(data, size)| > 1
    ensures |data| > size && Chunks(data, size) == [data[..size]] + Chunks(data[size..], size)
  {}

  lemma SameSlice(data: Bytes, size: nat, before: nat, piece: Bytes)
    requires before + size <= |data|
    requires var rest := data[size..];
             piece == if |rest| <= before + size then rest[before..] else rest[before..before + size]
    ensures var from := before + size;
            piece == if |data| <= from + size then data[from..] else data[from..from + size]
  {
    var from := before + size;
    SliceOfSlice(data, size, before, if |data| <= from + size then |data| else from + size);
  }

  lemma SliceOfSlice(data: Bytes, size: nat, before: nat, to: nat)
    requires before + size <= to <= |data|
    ensures data[size..][before..to - size] == data[before + size..to]
  {
    var inner, outer := data[size..][before..to - size], data[before + size..to];
    assert |inner| == |outer|;
    forall k | 0 <= k < |inner| ensures inner[k] == outer[k] {
      assert data[size..][before + k] == data[before + size + k];
    }
  }

  lemma TimesPredecessor(size: nat, i: nat)
    requires i > 0
    ensures size * i - size == size * (i - 1)
  {}

  /** By name, chunk 10 comes before every chunk but 0 and 1. */
  lemma TenComesThird(p: string, j: nat)
    ensures j == 0 || j == 1 ==> Less(ChunkName(p, j), ChunkName(p, 10))
    ensures j != 0 && j != 1 ==> !Less(ChunkName(p, j), ChunkName(p, 10))
  {
    NameOrder(p, j, 10);
    assert Dec(10) == [Digit(1), Digit(0)] by { assert Dec(10) == Dec(1) + [Digit(0)]; }
    if j < 10 {
      assert Dec(j) == [Digit(j)];
    } else {
      FirstDigit(j);
    }
  }

  lemma FirstDigit(j: nat)
    requires j >= 10
    ensures !Less(Dec(j), ['1', '0'])
  {
    ValueOfDec(j);
    ValueOfDec(j / 10);
    assert Dec(j) == Dec(j / 10) + [Digit(j % 10)];
    assert Dec(j)[0] in Dec(j) && Dec(j)[1] in Dec(j);
    NotBelowTen(Dec(j));
  }

  lemma NotBelowTen(s: string)
    requires |s| >= 2 && s[0] >= '1' && s[1] >= '0'
    ensures !Less(s, ['1', '0'])
  {
    assert ['1', '0'][1..] == ['0'] && ['0'][1..] == [];
    assert !Less(s[1..][1..], []);
    assert !Less(s[1..], ['0']);
  }

  lemma SortedPosition(items: seq<Item>, m: nat, k: nat)
    requires SortedByName(items) && m < |items| && k < |items|
    ensures m < k <==> Less(items[m].name, items[k].name)
    ensures m == k <==> items[m] == items[k]
  {
    LessTrichotomy(items[m].name, items[k].name);
  }

  /** In a sorted listing of more than ten chunks the first three are 0, 1 and 10. */
  lemma FirstThree(p: string, chunks: seq<Bytes>, items: seq<Item>)
    requires |chunks| > 10 && SortedByName(items)
    requires forall item :: item in items <==> item in ChunkItems(p, chunks)
    ensures |items| >= 3
    ensures items[0] == ChunkItem(p, chunks, 0)
    ensures items[1] == ChunkItem(p, chunks, 1)
    ensures items[2] == ChunkItem(p, chunks, 10)
  {
    var all := ChunkItems(p, chunks);
    assert all[0] in all && all[1] in all && all[10] in all;
    var k :| 0 <= k < |items| && items[k] == all[10];
    var k0 :| 0 <= k0 < |items| && items[k0] == all[0];
    var k1 :| 0 <= k1 < |items| && items[k1] == all[1];
    TenComesThird(p, 0);
    TenComesThird(p, 1);
    NameOrderIffTen(p, 2);
    SortedPosition(items, k0, k1);
    SortedPosition(items, k0, k);
    SortedPosition(items, k1, k);
    forall m: nat | m < k
      ensures Either(m, k0, k1)
    {
      assert items[m] in all;
      var j :| 0 <= j < |all| && items[m] == all[j];
      TenComesThird(p, j);
      SortedPosition(items, m, k);
      SortedPosition(items, m, k0);
      SortedPosition(items, m, k1);
    }
    assert Either(0, k0, k1) && Either(1, k0, k1);
    assert k > 2 ==> Either(2, k0, k1);
  }

  predicate Either(m: nat, a: nat, b: nat) { m == a || m == b }

  const GZIP_HEADER: Bytes := [0x1f, 0x8b, 8]

  /** A codec as simple as gzip's may be: behind the header the bytes as they are. */
  const STORED := Codec(b => GZIP_HEADER + b, z => if GZIP_HEADER <= z then Some(z[3..]) else None)

  /** The bytes that are zero but for the first of their chunk 2 once the header is in front. */
  function Witness(n: nat): Bytes
    requires n > 10
  {
    seq(n * MAX_CHUNK_SIZE - 3, i => if i == 2 * MAX_CHUNK_SIZE - 3 then 1 else 0)
  }

  lemma StoredIsLossless()
    ensures STORED.Lossless()
  {
    forall b ensures STORED.decompress(STORED.compress(b)) == Some(b) {
      assert (GZIP_HEADER + b)[3..] == b;
    }
  }

  lemma StoredAt(b: Bytes, i: nat)
    requires 3 <= i < |b| + 3
    ensures |STORED.compress(b)| == |b| + 3 && STORED.compress(b)[i] == b[i - 3]
  {}

  /** Only the joined bytes themselves decompress to what was written. */
  lemma StoredDetermines(z: Bytes, b: Bytes)
    requires STORED.decompress(z) == Some(b)
    ensures z == STORED.compress(b)
  {
    assert z == z[..3] + z[3..];
  }

  lemma WitnessIsLost(p: string, n: nat)
    requires n > 10
    ensures |Pieces(STORED, Witness(n))| == n && !Survives(p, STORED, Witness(n))
  {
    var b, s := Witness(n), MAX_CHUNK_SIZE;
    var z, chunks := STORED.compress(b), Pieces(STORED, b);
    ChunksCut(z, s);
    StoredAt(b, 2 * s);
    StoredAt(b, 10 * s);
    assert |z| == n * s && |chunks| == n;
    ChunkNamesDistinct(p, chunks);
    ThirdPiece(p, z, s);
    assert b[2 * s - 3] == 1 && b[10 * s - 3] == 0;
    if Survives(p, STORED, b) {
      StoredDetermines(NameJoined(p, chunks), b);
    }
  }

  /** Joined by name, what follows the first two pieces is piece 10. */
  lemma ThirdPiece(p: string, z: Bytes, s: nat)
    requires s > 0 && |z| > 10 * s
    ensures |NameJoined(p, Chunks(z, s))| > 2 * s && NameJoined(p, Chunks(z, s))[2 * s] == z[10 * s]
  {
    var chunks := Chunks(z, s);
    FullPieces(z, s);
    ChunkNamesDistinct(p, chunks);
    var items := Sort(ChunkItems(p, chunks));
    FirstThree(p, chunks, items);
    FirstOfThird(items, s);
  }

  lemma FullPieces(z: Bytes, s: nat)
    requires s > 0 && |z| > 10 * s
    ensures |Chunks(z, s)| > 10
    ensures |Chunks(z, s)[0]| == |Chunks(z, s)[1]| == s
    ensures Chunks(z, s)[10] != [] && Chunks(z, s)[10][0] == z[10 * s]
  {
    ChunksCut(z, s);
    MorePieces(|Chunks(z, s)|, s, |z|);
    ChunkAt(z, s, 0, 0);
    ChunkAt(z, s, 1, s);
    ChunkAt(z, s, 10, 10 * s);
  }

  lemma TimesMonotonic(s: nat, m: nat, n: nat)
    requires m <= n
    ensures s * m <= s * n
  {}

  lemma MorePieces(n: nat, s: nat, len: nat)
    requires 10 * s < len <= s * n
    ensures n > 10
  {
    if n <= 10 {
      TimesMonotonic(s, n, 10);
    }
  }

  lemma FirstOfThird(items: seq<Item>, s: nat)
    requires |items| >= 3
    requires |DataOf(items[0].secret)| == |DataOf(items[1].secret)| == s && DataOf(items[2].secret) != []
    ensures |ItemData(items)| > 2 * s && ItemData(items)[2 * s] == DataOf(items[2].secret)[0]
  {
    assert ItemData(items) == DataOf(items[0].secret) + ItemData(items[1..]);
    assert ItemData(items[1..]) == DataOf(items[1].secret) + ItemData(items[2..]);
    assert ItemData(items[2..]) == DataOf(items[2].secret) + ItemData(items[3..]);
  }

  /** Exactly up to ten chunks does every content of that codec survive being written and read. */
  lemma SurvivesIffTenChunks(t: Secrets, ns: string, p: string, m: nat, n: nat)
    requires GapFree(t, ns, p, m) && LabelsOwned(t, ns, p)
    ensures (forall b, r ::
               |Pieces(STORED, b)| == n && r != Err(API)
               && Reads(Written(t, ns, p, Pieces(STORED, b)), ns, p, STORED, r)
               ==> r == Ok(b))
            <==> n <= 10
  {
    if n <= 10 {
      StoredIsLossless();
      forall b, r | |Pieces(STORED, b)| == n && r != Err(API)
                    && Reads(Written(t, ns, p, Pieces(STORED, b)), ns, p, STORED, r)
        ensures r == Ok(b)
      {
        WriteThenRead(t, ns, p, m, STORED, b, r);
      }
    } else {
      var b := Witness(n);
      WitnessIsLost(p, n);
      var r := SomeRead(t, ns, p, m, STORED, b);
      WriteThenReadIff(t, ns, p, m, STORED, b, r);
    }
  }

  /** The read that the API lets through. */
  lemma SomeRead(t: Secrets, ns: string, p: string, m: nat, codec: Codec, b: Bytes) returns (r: Result<Bytes, StoreError>)
    requires GapFree(t, ns, p, m) && LabelsOwned(t, ns, p)
    ensures r != Err(API) && Reads(Written(t, ns, p, Pieces(codec, b)), ns, p, codec, r)
  {
    var chunks := Pieces(codec, b);
    var t' := Written(t, ns, p, chunks);
    WriteHolds(t, ns, p, m, chunks);
    ChunkNamesDistinct(p, chunks);
    var items := Sort(ChunkItems(p, chunks));
    HeldListing(t', ns, p, chunks, items);
    r := Decoded(items, codec);
  }

  // ---- Runs ----

  /** One write that succeeded, or one that failed somewhere on the way. */
  datatype Op = Write(prefix: string, b: Bytes) | FailedWrite(prefix: string)

  ghost predicate OpStep(ns: string, codec: Codec, t: Secrets, op: Op, t': Secrets) {
    match op
    case Write(p, b) => t' == Written(t, ns, p, Pieces(codec, b))
    case FailedWrite(p) => TouchesOnly(t, t', ns, p)
  }

  ghost predicate StepAt(ns: string, codec: Codec, ts: seq<Secrets>, ops: seq<Op>, i: nat)
    requires |ts| == |ops| + 1 && i < |ops|
  {
    OpStep(ns, codec, ts[i], ops[i], ts[i + 1])
  }

  ghost predicate OpRun(ns: string, codec: Codec, ts: seq<Secrets>, ops: seq<Op>) {
    && |ts| == |ops| + 1
    && forall i: nat :: i < |ops| ==> StepAt(ns, codec, ts, ops, i)
  }

  /** The last bytes a store wrote in the run so far. */
  function LastWritten(ops: seq<Op>, p: string): Option<Bytes> {
    if ops == [] then None
    else
      var op := ops[|ops| - 1];
      if op.Write? && op.prefix == p then Some(op.b) else LastWritten(ops[..|ops| - 1], p)
  }

  /** The store's part of the table after a run. */
  ghost predicate Reflects(t: Secrets, t0: Secrets, ns: string, p: string, codec: Codec, last: Option<Bytes>) {
    && LabelsOwned(t, ns, p)
    && match last
       case Some(b) => Holds(t, ns, p, Pieces(codec, b))
       case None =>
         && (forall i: nat :: SameAt(t0, t, ChunkKey(ns, p, i)))
         && (forall items :: SortedListing(t0, ns, ChunkLabels(p), items) ==>
                             SortedListing(t, ns, ChunkLabels(p), items))
  }

  lemma StepReflects(ns: string, codec: Codec, t0: Secrets, t: Secrets, op: Op, t': Secrets, p: string, n: nat,
                     ops: seq<Op>)
    requires OpStep(ns, codec, t, op, t')
    requires op.FailedWrite? ==> op.prefix != p
    requires GapFree(t0, ns, p, n)
    requires Reflects(t, t0, ns, p, codec, LastWritten(ops, p))
    ensures Reflects(t', t0, ns, p, codec, LastWritten(ops + [op], p))
  {
    assert (ops + [op])[..|ops + [op]| - 1] == ops;
    if op.Write? {
      WrittenTouchesOnly(t, ns, op.prefix, Pieces(codec, op.b));
    }
    if op.prefix != p {
      OtherStoreUnaffected(t, t', ns, op.prefix, p);
      forall i: nat ensures SameAt(t, t', ChunkKey(ns, p, i)) && Stored(t, ns, p, i) == Stored(t', ns, p, i) {}
    } else {
      var chunks := Pieces(codec, op.b);
      OwnWriteKeepsLabels(t, t', ns, p);
      var last := LastWritten(ops, p);
      var m := if last.None? then n else |Pieces(codec, last.value)|;
      forall i: nat ensures Stored(t, ns, p, i) <==> i < m {
        assert last.None? ==> SameAt(t0, t, ChunkKey(ns, p, i)) && (Stored(t0, ns, p, i) <==> i < n);
      }
      GapFreeIsContiguous(t, ns, p, m, |chunks|);
      WriteLeavesOwnChunksIff(t, ns, p, chunks);
    }
  }

  lemma {:induction false} RunReflects(ns: string, codec: Codec, ts: seq<Secrets>, ops: seq<Op>, p: string, n: nat,
                                       i: nat)
    requires OpRun(ns, codec, ts, ops) && i < |ts|
    requires forall k :: 0 <= k < |ops| && ops[k].FailedWrite? ==> ops[k].prefix != p
    requires GapFree(ts[0], ns, p, n) && LabelsOwned(ts[0], ns, p)
    ensures Reflects(ts[i], ts[0], ns, p, codec, LastWritten(ops[..i], p))
  {
    if i > 0 {
      var t0, t, t', op, before := ts[0], ts[i - 1], ts[i], ops[i - 1], ops[..i - 1];
      RunReflects(ns, codec, ts, ops, p, n, i - 1);
      assert StepAt(ns, codec, ts, ops, i - 1);
      assert ops[..i] == before + [op];
      StepReflects(ns, codec, t0, t, op, t', p, n, before);
    }
  }

  /**
   In every run of the namespace's stores, in which other stores' writes may
   also fail, a store stays gap-free and reads the bytes it wrote last, exactly if
   they survive; up to ten chunks they do.
   */
  lemma RunReadsLastWrite(ns: string, codec: Codec, ts: seq<Secrets>, ops: seq<Op>, p: string, n: nat, i: nat,
                          b: Bytes, r: Result<Bytes, StoreError>)
    requires codec.Lossless()
    requires OpRun(ns, codec, ts, ops) && i < |ts|
    requires forall k :: 0 <= k < |ops| && ops[k].FailedWrite? ==> ops[k].prefix != p
    requires GapFree(ts[0], ns, p, n) && LabelsOwned(ts[0], ns, p)
    requires LastWritten(ops[..i], p) == Some(b)
    ensures GapFree(ts[i], ns, p, |Pieces(codec, b)|)
    ensures Reads(ts[i], ns, p, codec, r) && r != Err(API) ==> (r == Ok(b) <==> Survives(p, codec, b))
    ensures |Pieces(codec, b)| <= 10 ==> Survives(p, codec, b)
  {
    RunReflects(ns, codec, ts, ops, p, n, i);
    if Reads(ts[i], ns, p, codec, r) && r != Err(API) {
      HeldReadsIff(ts[i], ns, p, codec, b, r);
    }
    if |Pieces(codec, b)| <= 10 {
      TenSurvive(p, codec, b);
    }
  }
}
