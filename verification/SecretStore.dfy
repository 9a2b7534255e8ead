/**
 The Secret-backed store: compressed bytes cut into chunks, one numbered Secret
 a chunk (secretStore).
 */
module SecretStore {
  import opened Wrappers
  import opened Text
  import opened Decimal
  import opened SecretTable

  const MAX_CHUNK_SIZE: nat := 1048576

  const SECRET_DATA_KEY := "data"

  /** gzip, of which only this is assumed: decompressing undoes compressing. */
  datatype Codec = Codec(compress: Bytes -> Bytes, decompress: Bytes -> Option<Bytes>)
  {
    ghost predicate Lossless() {
      forall b :: decompress(compress(b)) == Some(b)
    }
  }

  // ---- Names and labels ----

  function ChunkName(prefix: string, index: nat): string {
    prefix + "-" + Dec(index)
  }

  function ChunkKey(namespace: string, prefix: string, index: nat): Key {
    Key(namespace, ChunkName(prefix, index))
  }

  function ChunkLabels(prefix: string): map<string, string> {
    map["app.kubernetes.io/managed-by" := "stretch-db", "stretch-db/store" := prefix]
  }

  /** Even prefixes ending in "-" and digits cannot be confused with an index. */
  lemma ChunkNameInjective(p: string, i: nat, q: string, j: nat)
    requires ChunkName(p, i) == ChunkName(q, j)
    ensures p == q && i == j
  {
    var name := ChunkName(p, i);
    DashPosition(p, i, |q|);
    DashPosition(q, j, |p|);
    assert name[|p|] == '-' && name[|q|] == '-';
    assert p == name[..|p|] && q == name[..|q|];
    assert Dec(i) == name[|p| + 1..] && Dec(j) == name[|q| + 1..];
    DecInjective(i, j);
  }

  /** The last dash of a chunk name is the one before the index. */
  lemma DashPosition(p: string, i: nat, pos: nat)
    ensures |p| < pos < |ChunkName(p, i)| ==> ChunkName(p, i)[pos] != '-'
  {
    ValueOfDec(i);
    if |p| < pos < |ChunkName(p, i)| {
      assert ChunkName(p, i)[pos] == Dec(i)[pos - |p| - 1];
      assert Dec(i)[pos - |p| - 1] in Dec(i);
    }
  }

  // ---- Chunks ----

  function Concat(chunks: seq<Bytes>): Bytes {
    if chunks == [] then [] else chunks[0] + Concat(chunks[1..])
  }

  /** The pieces, each of at most `size` bytes; no data still makes one piece. */
  ghost predicate CutsInto(data: Bytes, size: nat, chunks: seq<Bytes>)
    requires size > 0
  {
    && Concat(chunks) == data
    && size * (|chunks| - 1) <= |data| <= size * |chunks| && (|chunks| == 1 || |data| > size * (|chunks| - 1))
    && forall i :: 0 <= i < |chunks| ==>
         |chunks[i]| == if i < |chunks| - 1 then size else |data| - size * (|chunks| - 1)
  }

  function Chunks(data: Bytes, size: nat): (chunks: seq<Bytes>)
    requires size > 0
    ensures chunks != []
    decreases |data|
  {
    if |data| <= size then [data] else [data[..size]] + Chunks(data[size..], size)
  }

  method Chunk(data: Bytes, size: nat) returns (chunks: seq<Bytes>)
    requires size > 0
    ensures chunks == Chunks(data, size)
  {
    if |data| == 0 {
      return [[]];
    }
    chunks := [];
    var rest := data;
    while |rest| > 0
      invariant rest == [] ==> chunks == Chunks(data, size)
      invariant rest != [] ==> chunks + Chunks(rest, size) == Chunks(data, size)
      decreases |rest|
    {
      var end := if |rest| < size then |rest| else size;
      if |rest| <= size {
        assert rest[..end] == rest && Chunks(rest, size) == [rest];
      } else {
        assert chunks + Chunks(rest, size) == chunks + [rest[..end]] + Chunks(rest[end..], size);
      }
      chunks := chunks + [rest[..end]];
      rest := rest[end..];
    }
  }

  /** The pieces joined give the data back, all full except the last. */
  lemma {:induction false} ChunksCut(data: Bytes, size: nat)
    requires size > 0
    ensures CutsInto(data, size, Chunks(data, size))
    decreases |data|
  {
    if |data| <= size {
      assert Concat([data]) == data + Concat([]);
    } else {
      ChunksCut(data[size..], size);
      OnePieceMore(data, size, Chunks(data[size..], size));
    }
  }

  lemma OnePieceMore(data: Bytes, size: nat, rest: seq<Bytes>)
    requires 0 < size < |data| && CutsInto(data[size..], size, rest)
    ensures CutsInto(data, size, [data[..size]] + rest)
  {
    var chunks := [data[..size]] + rest;
    assert chunks[1..] == rest;
    assert data == data[..size] + data[size..];
    assert size * (|chunks| - 1) == size * (|rest| - 1) + size;
    assert size * |chunks| == size * |rest| + size;
  }

  // ---- What a write and a read do to the table ----

  function ChunkSecret(prefix: string, data: Bytes): Secret {
    Secret(ChunkLabels(prefix), map[SECRET_DATA_KEY := data])
  }

  function DataOf(secret: Secret): Bytes {
    if SECRET_DATA_KEY in secret.data then secret.data[SECRET_DATA_KEY] else []
  }

  function ItemData(items: seq<Item>): Bytes {
    if items == [] then [] else DataOf(items[0].secret) + ItemData(items[1..])
  }

  /** The table with the first n chunks stored under their numbers. */
  function PutChunks(t: Secrets, namespace: string, prefix: string, chunks: seq<Bytes>, n: nat): Secrets
    requires n <= |chunks|
  {
    if n == 0 then t
    else PutChunks(t, namespace, prefix, chunks, n - 1)
         [ChunkKey(namespace, prefix, n - 1) := ChunkSecret(prefix, chunks[n - 1])]
  }

  /** The table without the chunks from an index up to the first gap. */
  function DropChunks(t: Secrets, namespace: string, prefix: string, from: nat): Secrets
    decreases |t|
  {
    var k := ChunkKey(namespace, prefix, from);
    if k in t then DropChunks(t - {k}, namespace, prefix, from + 1) else t
  }

  lemma DropOne(t: Secrets, namespace: string, prefix: string, i: nat)
    requires ChunkKey(namespace, prefix, i) in t
    ensures var t' := t - {ChunkKey(namespace, prefix, i)};
            |t'| < |t| && DropChunks(t, namespace, prefix, i) == DropChunks(t', namespace, prefix, i + 1)
  {}

  function Written(t: Secrets, namespace: string, prefix: string, chunks: seq<Bytes>): Secrets {
    DropChunks(PutChunks(t, namespace, prefix, chunks, |chunks|), namespace, prefix, |chunks|)
  }

  /** A read answers what the sorted listing of the store's Secrets decompresses to. */
  ghost predicate Reads(t: Secrets, namespace: string, prefix: string, codec: Codec, r: Result<Bytes, StoreError>) {
    r.Ok? || r.error == Corrupt ==>
      exists items :: SortedListing(t, namespace, ChunkLabels(prefix), items) && r == Decoded(items, codec)
  }

  function Decoded(items: seq<Item>, codec: Codec): Result<Bytes, StoreError> {
    if items == [] then Ok([])
    else match codec.decompress(ItemData(items))
      case Some(b) => Ok(b)
      case None => Err(Corrupt)
  }

  ghost predicate IsChunkKey(namespace: string, prefix: string, k: Key) {
    exists i: nat :: k == ChunkKey(namespace, prefix, i)
  }

  ghost predicate SameAt(t: Secrets, t': Secrets, k: Key) {
    if k in t then k in t' && t'[k] == t[k] else k !in t'
  }

  /** Only chunk names of the store are touched, and what is stored there is labelled as its chunk. */
  ghost predicate TouchesOnly(t: Secrets, t': Secrets, namespace: string, prefix: string) {
    forall k :: !SameAt(t, t', k) ==>
      IsChunkKey(namespace, prefix, k) && (k in t' ==> t'[k].labels == ChunkLabels(prefix))
  }

  lemma TouchesOnlyOne(t: Secrets, t': Secrets, t'': Secrets, namespace: string, prefix: string, i: nat, data: Bytes)
    requires TouchesOnly(t, t', namespace, prefix)
    requires var k := ChunkKey(namespace, prefix, i);
             t'' == t' || t'' == t' - {k} || t'' == t'[k := ChunkSecret(prefix, data)]
    ensures TouchesOnly(t, t'', namespace, prefix)
  {
    var k := ChunkKey(namespace, prefix, i);
    assert IsChunkKey(namespace, prefix, k);
    forall k' | !SameAt(t, t'', k')
      ensures IsChunkKey(namespace, prefix, k') && (k' in t'' ==> t''[k'].labels == ChunkLabels(prefix))
    {
      if k' != k {
        assert !SameAt(t, t', k');
      }
    }
  }

  datatype StoreError = API | Corrupt

  // ---- The store ----

  class Store {
    const cli: Cluster
    const namespace: string
    const namePrefix: string
    const codec: Codec

    constructor (cli: Cluster, namespace: string, namePrefix: string, codec: Codec)
      ensures this.cli == cli && this.namespace == namespace && this.namePrefix == namePrefix && this.codec == codec
    {
      this.cli := cli;
      this.namespace := namespace;
      this.namePrefix := namePrefix;
      this.codec := codec;
    }

    method Read() returns (r: Result<Bytes, StoreError>)
      ensures Reads(cli.secrets, namespace, namePrefix, codec, r)
      ensures cli.reliable ==> r != Err(API)
      ensures (forall item :: !Selected(cli.secrets, namespace, ChunkLabels(namePrefix), item)) ==>
                r == Ok([]) || r == Err(API)
    {
      var chunks := ListChunks();
      if chunks.Err? {
        return Err(API);
      }
      if |chunks.value| == 0 {
        return Ok([]);
      }
      assert chunks.value[0] in chunks.value;
      var compressed: Bytes := [];
      var items := chunks.value;
      for i := 0 to |items|
        invariant compressed + ItemData(items[i..]) == ItemData(items)
      {
        compressed := compressed + DataOf(items[i].secret);
        assert items[i..][1..] == items[i + 1..];
      }
      assert compressed == ItemData(items);
      match codec.decompress(compressed)
      case Some(b) => return Ok(b);
      case None => return Err(Corrupt);
    }

    method ListChunks() returns (r: Result<seq<Item>, ApiError>)
      ensures r.Ok? ==> SortedListing(cli.secrets, namespace, ChunkLabels(namePrefix), r.value)
      ensures cli.reliable ==> r.Ok?
    {
      r := cli.List(namespace, ChunkLabels(namePrefix));
      if r.Ok? {
        r := Ok(Sort(r.value));
      }
    }

    /** None is success. A failed write may have stored or deleted some of the chunks. */
    method Write(b: Bytes) returns (e: Option<StoreError>)
      modifies cli
      ensures e == None ==>
        cli.secrets == Written(old(cli.secrets), namespace, namePrefix, Chunks(codec.compress(b), MAX_CHUNK_SIZE))
      ensures TouchesOnly(old(cli.secrets), cli.secrets, namespace, namePrefix)
      ensures cli.reliable ==> e == None
    {
      var compressed := codec.compress(b);
      var chunks := Chunk(compressed, MAX_CHUNK_SIZE);
      ghost var before := cli.secrets;
      for i := 0 to |chunks|
        invariant cli.secrets == PutChunks(before, namespace, namePrefix, chunks, i)
        invariant TouchesOnly(before, cli.secrets, namespace, namePrefix)
      {
        ghost var current := cli.secrets;
        e := WriteChunk(i, chunks[i]);
        TouchesOnlyOne(before, current, cli.secrets, namespace, namePrefix, i, chunks[i]);
        if e.Some? {
          return;
        }
      }
      e := DeleteChunksFrom(|chunks|, before);
    }

    method WriteChunk(i: nat, data: Bytes) returns (e: Option<StoreError>)
      modifies cli
      ensures var k := ChunkKey(namespace, namePrefix, i);
              && (e == None ==> cli.secrets == old(cli.secrets)[k := ChunkSecret(namePrefix, data)])
              && (cli.secrets == old(cli.secrets)
                  || cli.secrets == old(cli.secrets)[k := ChunkSecret(namePrefix, data)])
      ensures cli.reliable ==> e == None
    {
      var k := ChunkKey(namespace, namePrefix, i);
      var secret := ChunkSecret(namePrefix, data);
      var existing := cli.Get(k);
      match existing
      case Err(NotFound) =>
        var err := cli.Create(k, secret);
        return if err.Some? then Some(API) else None;
      case Err(_) =>
        return Some(API);
      case Ok(found) =>
        var err := cli.Update(k, found.(labels := secret.labels, data := secret.data));
        return if err.Some? then Some(API) else None;
    }

    /** Deletes until the first index that is missing; every deletion shrinks the table. */
    method DeleteChunksFrom(fromIndex: nat, ghost before: Secrets) returns (e: Option<StoreError>)
      requires TouchesOnly(before, cli.secrets, namespace, namePrefix)
      modifies cli
      ensures e == None ==> cli.secrets == DropChunks(old(cli.secrets), namespace, namePrefix, fromIndex)
      ensures TouchesOnly(before, cli.secrets, namespace, namePrefix)
      ensures cli.reliable ==> e == None
    {
      var i := fromIndex;
      while true
        invariant i >= fromIndex
        invariant DropChunks(cli.secrets, namespace, namePrefix, i)
                  == DropChunks(old(cli.secrets), namespace, namePrefix, fromIndex)
        invariant TouchesOnly(before, cli.secrets, namespace, namePrefix)
        decreases |cli.secrets|
      {
        ghost var current := cli.secrets;
        var err := cli.Delete(ChunkKey(namespace, namePrefix, i));
        TouchesOnlyOne(before, current, cli.secrets, namespace, namePrefix, i, []);
        if err == Some(NotFound) {
          return None;
        }
        if err.Some? {
          return Some(API);
        }
        DropOne(current, namespace, namePrefix, i);
        i := i + 1;
      }
    }
  }
}
