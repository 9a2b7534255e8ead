/** The Secrets of a cluster and the API calls on them, each of which may fail. */
module SecretTable {
  import opened Wrappers
  import opened Text

  newtype byte = x: int | 0 <= x < 256

  type Bytes = seq<byte>

  datatype Key = Key(namespace: string, name: string)

  datatype Secret = Secret(labels: map<string, string>, data: map<string, Bytes>)

  datatype Item = Item(name: string, secret: Secret)

  datatype ApiError = NotFound | AlreadyExists | Failure

  type Secrets = map<Key, Secret>

  predicate Matches(secret: Secret, selector: map<string, string>) {
    forall k :: k in selector ==> k in secret.labels && secret.labels[k] == selector[k]
  }

  /** The listing of a namespace by labels, sorted by name. */
  ghost predicate SortedListing(t: Secrets, namespace: string, selector: map<string, string>, items: seq<Item>) {
    && SortedByName(items)
    && forall item :: item in items <==> Selected(t, namespace, selector, item)
  }

  ghost predicate Selected(t: Secrets, namespace: string, selector: map<string, string>, item: Item) {
    var k := Key(namespace, item.name);
    k in t && t[k] == item.secret && Matches(item.secret, selector)
  }

  ghost predicate SortedByName(items: seq<Item>) {
    forall i, j :: 0 <= i < j < |items| ==> Less(items[i].name, items[j].name)
  }

  ghost predicate DistinctNames(items: seq<Item>) {
    forall i, j :: 0 <= i < j < |items| ==> items[i].name != items[j].name
  }

  /** The sorted listing is unique: two sorted lists of the same items are equal. */
  lemma {:induction false} SortedUnique(a: seq<Item>, b: seq<Item>)
    requires SortedByName(a) && SortedByName(b)
    requires forall x :: x in a <==> x in b
    ensures a == b
  {
    if a == [] {
      assert forall i :: 0 <= i < |b| ==> b[i] in b;
    } else {
      assert a[0] in b && b != [];
      var k :| 0 <= k < |b| && b[k] == a[0];
      assert b[0] in a;
      var l :| 0 <= l < |a| && a[l] == b[0];
      LessTrichotomy(a[0].name, b[0].name);
      assert k == 0 && l == 0;
      forall x ensures x in a[1..] <==> x in b[1..] {
        TailMembers(a, x);
        TailMembers(b, x);
      }
      SortedUnique(a[1..], b[1..]);
      assert a == [a[0]] + a[1..] && b == [b[0]] + b[1..];
    }
  }

  lemma TailMembers(a: seq<Item>, x: Item)
    requires SortedByName(a) && a != []
    ensures x in a[1..] <==> x in a && x != a[0]
  {
    if x in a && x != a[0] {
      var i :| 0 <= i < |a| && a[i] == x;
      assert a[1..][i - 1] == x;
    }
    if x in a[1..] {
      var i :| 0 <= i < |a| - 1 && a[1..][i] == x;
      assert Less(a[0].name, a[i + 1].name);
      LessTrichotomy(a[0].name, a[i + 1].name);
    }
  }

  /** The result of sort.Slice by name, for items of distinct names. */
  function Sort(items: seq<Item>): (sorted: seq<Item>)
    requires DistinctNames(items)
    ensures SortedByName(sorted)
    ensures forall x :: x in sorted <==> x in items
  {
    if items == [] then []
    else
      var rest := Sort(items[1..]);
      forall x | x in rest ensures x.name != items[0].name {
        var k :| 0 <= k < |items| - 1 && items[1..][k] == x;
      }
      Insert(rest, items[0])
  }

  function Insert(items: seq<Item>, item: Item): (sorted: seq<Item>)
    requires SortedByName(items)
    requires forall x :: x in items ==> x.name != item.name
    ensures SortedByName(sorted)
    ensures forall x :: x in sorted <==> x in items || x == item
  {
    if items == [] then [item]
    else
      assert items == [items[0]] + items[1..];
      if Less(items[0].name, item.name) then
        var rest := Insert(items[1..], item);
        forall j | 0 <= j < |rest| ensures Less(items[0].name, rest[j].name) {
          assert rest[j] in rest;
          assert rest[j] in items[1..] || rest[j] == item;
        }
        [items[0]] + rest
      else
        assert items[0] in items;
        LessTrichotomy(items[0].name, item.name);
        forall j | 0 < j < |items| ensures Less(item.name, items[j].name) {
          LessTransitive(item.name, items[0].name, items[j].name);
        }
        [item] + items
  }

  /**
   The Secrets API. Unless it is reliable any call may fail, which leaves open
   whether it took effect, as when the reply is lost; NotFound and AlreadyExists
   always tell the truth.
   */
  class Cluster {
    var secrets: Secrets
    const reliable: bool

    constructor (secrets: Secrets, reliable: bool)
      ensures this.secrets == secrets && this.reliable == reliable
    {
      this.secrets := secrets;
      this.reliable := reliable;
    }

    method Fails() returns (fails: bool)
      ensures reliable ==> !fails
    {
      fails := *;
      fails := fails && !reliable;
    }

    method Get(k: Key) returns (r: Result<Secret, ApiError>)
      ensures match r
              case Ok(secret) => k in secrets && secret == secrets[k]
              case Err(e) => (e == Failure && !reliable) || (e == NotFound && k !in secrets)
    {
      var fails := Fails();
      if fails {
        return Err(Failure);
      }
      if k in secrets { return Ok(secrets[k]); } else { return Err(NotFound); }
    }

    method Create(k: Key, secret: Secret) returns (e: Option<ApiError>)
      modifies this
      ensures match e
              case None => k !in old(secrets) && secrets == old(secrets)[k := secret]
              case Some(AlreadyExists) => k in old(secrets) && secrets == old(secrets)
              case Some(Failure) => !reliable && (secrets == old(secrets) || secrets == old(secrets)[k := secret])
              case Some(NotFound) => false
    {
      if k in secrets {
        return Some(AlreadyExists);
      }
      var fails := Fails();
      if fails {
        return Some(Failure);
      }
      secrets := secrets[k := secret];
      fails := Fails();
      if fails {
        return Some(Failure);
      }
      return None;
    }

    method Update(k: Key, secret: Secret) returns (e: Option<ApiError>)
      modifies this
      ensures match e
              case None => k in old(secrets) && secrets == old(secrets)[k := secret]
              case Some(NotFound) => k !in old(secrets) && secrets == old(secrets)
              case Some(Failure) => !reliable && (secrets == old(secrets) || secrets == old(secrets)[k := secret])
              case Some(AlreadyExists) => false
    {
      if k !in secrets {
        return Some(NotFound);
      }
      var fails := Fails();
      if fails {
        return Some(Failure);
      }
      secrets := secrets[k := secret];
      fails := Fails();
      if fails {
        return Some(Failure);
      }
      return None;
    }

    method Delete(k: Key) returns (e: Option<ApiError>)
      modifies this
      ensures match e
              case None => k in old(secrets) && secrets == old(secrets) - {k}
              case Some(NotFound) => k !in old(secrets) && secrets == old(secrets)
              case Some(Failure) => !reliable && (secrets == old(secrets) || secrets == old(secrets) - {k})
              case Some(AlreadyExists) => false
    {
      if k !in secrets {
        return Some(NotFound);
      }
      var fails := Fails();
      if fails {
        return Some(Failure);
      }
      secrets := secrets - {k};
      fails := Fails();
      if fails {
        return Some(Failure);
      }
      return None;
    }

    /** The items in no particular order. */
    method List(namespace: string, selector: map<string, string>) returns (r: Result<seq<Item>, ApiError>)
      ensures r.Ok? ==> DistinctNames(r.value)
      ensures r.Ok? ==> forall item :: item in r.value <==> Selected(secrets, namespace, selector, item)
      ensures r.Err? ==> r.error == Failure && !reliable
    {
      var fails := Fails();
      if fails {
        return Err(Failure);
      }
      var items: seq<Item> := [];
      var todo := secrets.Keys;
      while todo != {}
        invariant todo <= secrets.Keys && DistinctNames(items)
        invariant forall item :: item in items <==>
          Key(namespace, item.name) !in todo && Selected(secrets, namespace, selector, item)
        decreases todo
      {
        var k :| k in todo;
        if k.namespace == namespace && Matches(secrets[k], selector) {
          items := items + [Item(k.name, secrets[k])];
        }
        todo := todo - {k};
      }
      return Ok(items);
    }
  }
}
