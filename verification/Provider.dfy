/**
 The provider of instance types: resolving a node class's types, caching them,
 refreshing the cache, and choosing the cheapest offering for a NodeClaim.
 */
module Provider {
  import opened Wrappers
  import opened Pricing

  /** The fields of a node class that its instance types depend on. */
  datatype NodeClassKey = NodeClassKey(projectID: string, region: string, osDiskSizeGiB: int, perNodePodsCount: int)

  /** The capacity types and zones are the values of the offering's requirements. */
  datatype Offering = Offering(price: real, available: bool, capacityTypes: seq<string>, zones: seq<string>)

  /** Requirements, capacity and overhead are computed from `key` and `source`. */
  datatype InstanceType = InstanceType(name: string, offerings: seq<Offering>, key: NodeClassKey, source: Preset)

  datatype Entry = Entry(instanceTypes: seq<InstanceType>, presets: seq<Preset>)

  /** What the cloud answers at some moment: the listing of a project, and the billing calculator. */
  datatype Catalogue = Catalogue(list: string -> Option<seq<Preset>>,
                                 bill: (string, int) -> Billing)

  const ON_DEMAND := "on-demand"
  const SPOT := "spot"

  /** math.MaxFloat64, the price no offering is below at the start of the search. */
  const MAX_FLOAT64: real :=
    179769313486231570814527423731704356798070567525844996598917476803157260780028538760589558632766878171540458953514382464234321326889464182768467546703537516986049910576551282076245490090389328944075868508455133942304583236903222948165808559332123347764797926204144723168738177180919299881250404026184124858368.0

  // ---- Resolving without a cache ----

  function NewOffering(capacityType: string, zone: string, price: real, available: bool): Offering {
    Offering(price, available, [capacityType], [zone])
  }

  function CreateOfferings(p: Preset, region: string, prices: Prices): seq<Offering> {
    [NewOffering(ON_DEMAND, region, prices.onDemand, !prices.failed)]
    + if p.preemptible then [NewOffering(SPOT, region, prices.preemptible, !prices.failed)] else []
  }

  function NewInstanceType(key: NodeClassKey, p: Preset, prices: Prices): InstanceType {
    InstanceType(p.InstanceTypeName(), CreateOfferings(p, key.region, prices), key, p)
  }

  function BillFor(cat: Catalogue, key: NodeClassKey): Billing {
    cat.bill(key.projectID, key.osDiskSizeGiB)
  }

  function GetPrices(cat: Catalogue, key: NodeClassKey, presets: seq<Preset>): map<PriceKey, Prices> {
    SequentialPrices(presets, key.osDiskSizeGiB, BillFor(cat, key))
  }

  function LookupPrices(prices: map<PriceKey, Prices>, key: NodeClassKey, p: Preset): Prices {
    var k := KeyOf(p, key.osDiskSizeGiB);
    if k in prices then prices[k] else Prices(DEFAULT_PRICE, DEFAULT_PRICE, false)
  }

  /** The instance type of one preset, priced on its own. */
  function DirectInstanceType(cat: Catalogue, key: NodeClassKey, p: Preset): InstanceType {
    NewInstanceType(key, p, PriceOf(p, BillFor(cat, key)))
  }

  /**
   The type of a preset as the billing replies have it: an on-demand offering, and
   for a preemptible preset a spot offering, in the region and at the price quoted,
   available unless a call failed.
   */
  ghost predicate TypeIs(cat: Catalogue, key: NodeClassKey, p: Preset, it: InstanceType) {
    exists entry ::
      && PricedBy(p, cat.bill(key.projectID, key.osDiskSizeGiB), entry)
      && it.name == p.platform + "-" + p.preset && it.key == key && it.source == p
      && it.offerings == [Offering(entry.onDemand, !entry.failed, ["on-demand"], [key.region])]
                         + if p.preemptible then [Offering(entry.preemptible, !entry.failed, ["spot"], [key.region])] else []
  }

  lemma DirectIsType(cat: Catalogue, key: NodeClassKey, p: Preset, it: InstanceType)
    ensures TypeIs(cat, key, p, it) <==> it == DirectInstanceType(cat, key, p)
  {
    var bill := cat.bill(key.projectID, key.osDiskSizeGiB);
    forall entry ensures PricedBy(p, bill, entry) <==> entry == PriceOf(p, bill) {
      PriceOfIff(p, bill, entry);
    }
  }

  /** None if listing the presets fails. */
  function Resolve(cat: Catalogue, key: NodeClassKey): (r: Option<Entry>)
    ensures r.Some? ==> cat.list(key.projectID) == Some(r.value.presets)
    ensures r.None? ==> cat.list(key.projectID) == None
    ensures r.Some? ==> Aligned(r.value)
  {
    match cat.list(key.projectID)
    case None => None
    case Some(presets) =>
      var prices := GetPrices(cat, key, presets);
      Some(Entry(seq(|presets|, i requires 0 <= i < |presets| =>
                       NewInstanceType(key, presets[i], LookupPrices(prices, key, presets[i]))),
                 presets))
  }

  /** Instance types and presets correspond index by index. */
  ghost predicate Aligned(e: Entry) {
    && |e.instanceTypes| == |e.presets|
    && forall i :: 0 <= i < |e.presets| ==>
         e.instanceTypes[i].source == e.presets[i] && e.instanceTypes[i].name == e.presets[i].InstanceTypeName()
  }

  /** The first preset that goes by the name, if any does. */
  ghost predicate FirstNamed(presets: seq<Preset>, name: string, p: Option<Preset>) {
    match p
    case None => forall i :: 0 <= i < |presets| ==> presets[i].platform + "-" + presets[i].preset != name
    case Some(q) =>
      exists i :: 0 <= i < |presets| && presets[i] == q && q.platform + "-" + q.preset == name
                  && forall j :: 0 <= j < i ==> presets[j].platform + "-" + presets[j].preset != name
  }

  /** The last preset that goes by the name. */
  ghost predicate LastNamed(presets: seq<Preset>, name: string, p: Preset) {
    exists i :: 0 <= i < |presets| && presets[i] == p && p.platform + "-" + p.preset == name
                && forall j :: i < j < |presets| ==> presets[j].platform + "-" + presets[j].preset != name
  }

  lemma {:induction false} FindsFirst(presets: seq<Preset>, name: string)
    ensures FirstNamed(presets, name, FindPreset(presets, name))
  {
    if presets != [] && presets[0].InstanceTypeName() != name {
      var rest := presets[1..];
      FindsFirst(rest, name);
      match FindPreset(rest, name)
      case None =>
        forall i | 0 <= i < |presets| ensures presets[i].platform + "-" + presets[i].preset != name {
          assert i > 0 ==> rest[i - 1] == presets[i];
        }
      case Some(q) =>
        var i :| 0 <= i < |rest| && rest[i] == q && q.platform + "-" + q.preset == name
                 && forall j :: 0 <= j < i ==> rest[j].platform + "-" + rest[j].preset != name;
        assert presets[i + 1] == q;
        forall j | 0 <= j < i + 1 ensures presets[j].platform + "-" + presets[j].preset != name {
          assert j > 0 ==> rest[j - 1] == presets[j];
        }
    }
  }

  function FindPreset(presets: seq<Preset>, name: string): Option<Preset> {
    if presets == [] then None
    else if presets[0].InstanceTypeName() == name then Some(presets[0])
    else FindPreset(presets[1..], name)
  }

  ghost predicate DistinctNames(presets: seq<Preset>) {
    forall i, j :: 0 <= i < j < |presets| ==> presets[i].InstanceTypeName() != presets[j].InstanceTypeName()
  }

  /** No other listed preset goes by the name of p. */
  ghost predicate NameIsOwn(presets: seq<Preset>, p: Preset) {
    forall i :: 0 <= i < |presets| && presets[i].InstanceTypeName() == p.InstanceTypeName() ==> presets[i] == p
  }

  /** A resolved type is the one its preset would get alone, if its name is its own. */
  lemma ResolvedIsDirect(cat: Catalogue, key: NodeClassKey, i: nat)
    requires Resolve(cat, key).Some?
    requires i < |Resolve(cat, key).value.presets|
    requires NameIsOwn(Resolve(cat, key).value.presets, Resolve(cat, key).value.presets[i])
    ensures Resolve(cat, key).value.instanceTypes[i]
            == DirectInstanceType(cat, key, Resolve(cat, key).value.presets[i])
    ensures TypeIs(cat, key, Resolve(cat, key).value.presets[i], Resolve(cat, key).value.instanceTypes[i])
  {
    DirectIsType(cat, key, Resolve(cat, key).value.presets[i], Resolve(cat, key).value.instanceTypes[i]);
    var presets := Resolve(cat, key).value.presets;
    var p, disk, bill := presets[i], key.osDiskSizeGiB, BillFor(cat, key);
    SequentialPricesAt(presets, disk, bill, p);
    forall j | 0 <= j < |presets| && KeyOf(presets[j], disk) == KeyOf(p, disk)
      ensures presets[j] == p
    {
      assert presets[j].InstanceTypeName() == p.InstanceTypeName();
    }
  }

  // ---- Selection ----

  /** What a NodeClaim asks for: type names, and compatibility as a predicate on offerings. */
  datatype Claim = Claim(names: set<string>, compatible: Offering -> bool)

  ghost predicate Candidate(e: Entry, claim: Claim, i: int, j: int) {
    && 0 <= i < |e.instanceTypes| && 0 <= j < |e.instanceTypes[i].offerings|
    && e.instanceTypes[i].name in claim.names
    && e.instanceTypes[i].offerings[j].available
    && claim.compatible(e.instanceTypes[i].offerings[j])
    && e.instanceTypes[i].offerings[j].price < MAX_FLOAT64
  }

  ghost predicate Before(i: int, j: int, i': int, j': int) {
    i < i' || (i == i' && j < j')
  }

  /** No candidate visited before (n, m) is cheaper than (i, j) or as cheap and earlier. */
  ghost predicate BestBefore(e: Entry, claim: Claim, i: int, j: int, n: int, m: int) {
    && Candidate(e, claim, i, j) && Before(i, j, n, m)
    && forall i', j' :: Candidate(e, claim, i', j') && Before(i', j', n, m) ==>
         var price, price' := e.instanceTypes[i].offerings[j].price, e.instanceTypes[i'].offerings[j'].price;
         price < price' || (price == price' && !Before(i', j', i, j))
  }

  ghost predicate NoneBefore(e: Entry, claim: Claim, n: int, m: int) {
    forall i, j :: Candidate(e, claim, i, j) ==> !Before(i, j, n, m)
  }

  /** The earliest of the cheapest candidates. */
  ghost predicate Cheapest(e: Entry, claim: Claim, i: int, j: int) {
    BestBefore(e, claim, i, j, |e.instanceTypes|, 0)
  }

  datatype LaunchSettings = LaunchSettings(preset: Preset, capacityType: string, zone: string)

  datatype SelectError = NoInstanceTypes | NotResolved | NoMatch

  function First(values: seq<string>, fallback: string): string {
    if values == [] then fallback else values[0]
  }

  lemma StillLast(presets: seq<Preset>, i: nat, name: string, p: Option<Preset>)
    requires i < |presets| && (p.Some? ==> LastNamed(presets[..i], name, p.value))
    ensures presets[i].InstanceTypeName() == name ==> LastNamed(presets[..i + 1], name, presets[i])
    ensures presets[i].InstanceTypeName() != name && p.Some? ==> LastNamed(presets[..i + 1], name, p.value)
  {
    var before, after := presets[..i], presets[..i + 1];
    assert after == before + [presets[i]];
    assert after[i] == presets[i];
    if presets[i].InstanceTypeName() != name && p.Some? {
      var k :| 0 <= k < i && before[k] == p.value && p.value.platform + "-" + p.value.preset == name
               && forall j :: k < j < i ==> before[j].platform + "-" + before[j].preset != name;
      assert after[k] == p.value;
    }
  }

  method PresetsByName(presets: seq<Preset>) returns (byName: map<string, Preset>)
    ensures forall p :: p in presets ==> p.InstanceTypeName() in byName
    ensures forall name :: name in byName ==> LastNamed(presets, name, byName[name])
  {
    byName := map[];
    for i := 0 to |presets|
      invariant forall p :: p in presets[..i] ==> p.InstanceTypeName() in byName
      invariant forall name :: name in byName ==> LastNamed(presets[..i], name, byName[name])
    {
      ghost var before := byName;
      byName := byName[presets[i].InstanceTypeName() := presets[i]];
      forall name | name in byName ensures LastNamed(presets[..i + 1], name, byName[name]) {
        StillLast(presets, i, name, if name in before then Some(before[name]) else None);
      }
    }
    assert presets[..|presets|] == presets;
  }

  /** The variables of the search: the preset, offering and price of the best so far. */
  datatype Best = Best(preset: Option<Preset>, offering: Option<Offering>, price: real)

  /** They stand for the position (i, j), the best before (n, m), or for none. */
  ghost predicate Progress(e: Entry, claim: Claim, byName: map<string, Preset>, best: Best,
                           i: int, j: int, n: int, m: int)
  {
    if best.offering.None? then best == Best(None, None, MAX_FLOAT64) && NoneBefore(e, claim, n, m)
    else BestBefore(e, claim, i, j, n, m) && best == BestAt(e, byName, i, j)
  }

  ghost function BestAt(e: Entry, byName: map<string, Preset>, i: int, j: int): Best
    requires 0 <= i < |e.instanceTypes| && 0 <= j < |e.instanceTypes[i].offerings|
  {
    var it := e.instanceTypes[i];
    Best(if it.name in byName then Some(byName[it.name]) else None, Some(it.offerings[j]), it.offerings[j].price)
  }

  lemma Passed(e: Entry, claim: Claim, byName: map<string, Preset>, best: Best, i: int, j: int, n: int, m: int)
    requires Progress(e, claim, byName, best, i, j, n, m)
    requires Candidate(e, claim, n, m) ==> e.instanceTypes[n].offerings[m].price >= best.price
    ensures Progress(e, claim, byName, best, i, j, n, m + 1)
  {}

  lemma Taken(e: Entry, claim: Claim, byName: map<string, Preset>, best: Best, i: int, j: int, n: int, m: int)
    requires Progress(e, claim, byName, best, i, j, n, m)
    requires Candidate(e, claim, n, m) && e.instanceTypes[n].offerings[m].price < best.price
    ensures Progress(e, claim, byName, BestAt(e, byName, n, m), n, m, n, m + 1)
  {}

  lemma TypeDone(e: Entry, claim: Claim, byName: map<string, Preset>, best: Best, i: int, j: int, n: int, m: int)
    requires 0 <= n < |e.instanceTypes| && Progress(e, claim, byName, best, i, j, n, m)
    requires m == |e.instanceTypes[n].offerings| || (m == 0 && e.instanceTypes[n].name !in claim.names)
    ensures Progress(e, claim, byName, best, i, j, n + 1, 0)
  {}

  /** The earliest of the cheapest candidates, or the error if there is none. */
  ghost predicate Selects(key: NodeClassKey, e: Entry, claim: Claim, r: Result<LaunchSettings, SelectError>) {
    && (r.Ok? <==> exists i, j :: Candidate(e, claim, i, j))
    && (r.Ok? ==> exists i, j :: Cheapest(e, claim, i, j) && Launches(key, e, i, j, r.value))
    && (r.Err? ==> r.error == NoMatch)
  }

  method SelectCheapest(key: NodeClassKey, e: Entry, claim: Claim) returns (r: Result<LaunchSettings, SelectError>)
    requires Aligned(e)
    ensures Selects(key, e, claim, r)
  {
    var byName := PresetsByName(e.presets);
    var best := Best(None, None, MAX_FLOAT64);
    ghost var bi, bj := 0, 0;
    for n := 0 to |e.instanceTypes|
      invariant Progress(e, claim, byName, best, bi, bj, n, 0)
    {
      var it := e.instanceTypes[n];
      if it.name in claim.names {
        for m := 0 to |it.offerings|
          invariant Progress(e, claim, byName, best, bi, bj, n, m)
        {
          var of := it.offerings[m];
          if of.available && claim.compatible(of) && of.price < best.price {
            assert best.price <= MAX_FLOAT64;
            Taken(e, claim, byName, best, bi, bj, n, m);
            best := Best(if it.name in byName then Some(byName[it.name]) else None, Some(of), of.price);
            bi, bj := n, m;
          } else {
            Passed(e, claim, byName, best, bi, bj, n, m);
          }
        }
        TypeDone(e, claim, byName, best, bi, bj, n, |it.offerings|);
      } else {
        TypeDone(e, claim, byName, best, bi, bj, n, 0);
      }
    }
    if best.preset.None? || best.offering.None? {
      NothingFound(e, claim, byName, best, bi, bj);
      return Err(NoMatch);
    }
    assert Cheapest(e, claim, bi, bj);
    r := Ok(LaunchSettings(best.preset.value, First(best.offering.value.capacityTypes, ON_DEMAND),
                           First(best.offering.value.zones, key.region)));
    assert Launches(key, e, bi, bj, r.value);
  }

  /** The settings name a preset of the type at i, and its offering j. */
  ghost predicate Launches(key: NodeClassKey, e: Entry, i: int, j: int, s: LaunchSettings)
    requires 0 <= i < |e.instanceTypes| && 0 <= j < |e.instanceTypes[i].offerings|
  {
    && LastNamed(e.presets, e.instanceTypes[i].name, s.preset)
    && s.capacityType == First(e.instanceTypes[i].offerings[j].capacityTypes, ON_DEMAND)
    && s.zone == First(e.instanceTypes[i].offerings[j].zones, key.region)
  }

  lemma AlignedName(e: Entry, i: int)
    requires Aligned(e) && 0 <= i < |e.instanceTypes|
    ensures exists p :: p in e.presets && p.InstanceTypeName() == e.instanceTypes[i].name
  {
    assert e.presets[i] in e.presets;
  }

  lemma NothingFound(e: Entry, claim: Claim, byName: map<string, Preset>, best: Best, i: int, j: int)
    requires Aligned(e) && Progress(e, claim, byName, best, i, j, |e.instanceTypes|, 0)
    requires forall p :: p in e.presets ==> p.InstanceTypeName() in byName
    requires best.preset.None? || best.offering.None?
    ensures forall i', j' :: !Candidate(e, claim, i', j')
  {
    if best.offering.Some? {
      AlignedName(e, i);
    }
    forall i', j' ensures !Candidate(e, claim, i', j') {
      if Candidate(e, claim, i', j') {
        assert Before(i', j', |e.instanceTypes|, 0);
      }
    }
  }

  // ---- The provider ----

  /** Some catalogue met so far resolved the key to this entry. */
  ghost predicate FromSeen(seen: seq<Catalogue>, k: NodeClassKey, e: Entry) {
    exists c :: c in seen && Resolve(c, k) == Some(e)
  }

  ghost predicate ValidCache(cache: map<NodeClassKey, Entry>, active: set<NodeClassKey>, seen: seq<Catalogue>) {
    cache.Keys <= active && forall k :: k in cache ==> FromSeen(seen, k, cache[k])
  }

  lemma StillFromSeen(seen: seq<Catalogue>, c: Catalogue, k: NodeClassKey, e: Entry)
    ensures FromSeen(seen, k, e) ==> FromSeen(seen + [c], k, e)
    ensures Resolve(c, k) == Some(e) ==> FromSeen(seen + [c], k, e)
    ensures FromSeen(seen, k, e) ==> Aligned(e)
  {
    if c' :| c' in seen && Resolve(c', k) == Some(e) {
      assert c' in seen + [c];
    }
    assert c in seen + [c];
  }

  lemma FromOnly(seen: seq<Catalogue>, cat: Catalogue, k: NodeClassKey, e: Entry)
    requires FromSeen(seen, k, e) && forall c :: c in seen ==> c == cat
    ensures Resolve(cat, k) == Some(e)
  {}

  lemma MeetingKeepsValid(cache: map<NodeClassKey, Entry>, active: set<NodeClassKey>, seen: seq<Catalogue>, c: Catalogue)
    requires ValidCache(cache, active, seen)
    ensures ValidCache(cache, active, seen + [c])
  {
    forall k | k in cache ensures FromSeen(seen + [c], k, cache[k]) {
      StillFromSeen(seen, c, k, cache[k]);
    }
  }

  lemma AddingKeepsValid(cache: map<NodeClassKey, Entry>, active: set<NodeClassKey>, seen: seq<Catalogue>,
                         k: NodeClassKey, e: Entry)
    requires ValidCache(cache, active, seen) && FromSeen(seen, k, e)
    ensures ValidCache(cache[k := e], active + {k}, seen)
  {}

  /** The cached entry, or else what the key resolves to now. */
  function Answer(cache: map<NodeClassKey, Entry>, cat: Catalogue, key: NodeClassKey): Option<Entry> {
    if key in cache then Some(cache[key]) else Resolve(cat, key)
  }

  lemma AnswerIsFromSeen(cache: map<NodeClassKey, Entry>, active: set<NodeClassKey>, seen: seq<Catalogue>,
                         cat: Catalogue, key: NodeClassKey)
    requires ValidCache(cache, active, seen)
    ensures Answer(cache, cat, key).Some? ==>
              FromSeen(seen + [cat], key, Answer(cache, cat, key).value) && Aligned(Answer(cache, cat, key).value)
    ensures (forall c :: c in seen ==> c == cat) ==> Answer(cache, cat, key) == Resolve(cat, key)
  {
    if key in cache {
      StillFromSeen(seen, cat, key, cache[key]);
      if forall c :: c in seen ==> c == cat {
        FromOnly(seen, cat, key, cache[key]);
      }
    } else if Resolve(cat, key).Some? {
      StillFromSeen(seen, cat, key, Resolve(cat, key).value);
    }
  }

  lemma HitChangesNothing(cache: map<NodeClassKey, Entry>, active: set<NodeClassKey>, seen: seq<Catalogue>,
                          cat: Catalogue, key: NodeClassKey)
    requires ValidCache(cache, active, seen) && key in cache
    ensures ValidCache(cache, active, seen + [cat])
    ensures cache[key := cache[key]] == cache && active + {key} == active
  {
    MeetingKeepsValid(cache, active, seen, cat);
  }

  lemma MissKeepsValid(cache: map<NodeClassKey, Entry>, active: set<NodeClassKey>, seen: seq<Catalogue>,
                       cat: Catalogue, key: NodeClassKey)
    requires ValidCache(cache, active, seen) && key !in cache
    ensures ValidCache(cache, active, seen + [cat])
    ensures Resolve(cat, key).Some? ==> ValidCache(cache[key := Resolve(cat, key).value], active + {key}, seen + [cat])
  {
    MeetingKeepsValid(cache, active, seen, cat);
    if Resolve(cat, key).Some? {
      var e := Resolve(cat, key).value;
      StillFromSeen(seen, cat, key, e);
      AddingKeepsValid(cache, active, seen + [cat], key, e);
    }
  }

  /** Searching the cached presets, or else those listed now; Err is a failed listing. */
  function PresetAnswer(cache: map<NodeClassKey, Entry>, cat: Catalogue, key: NodeClassKey, name: string):
    Result<Option<Preset>, ()>
  {
    PresetIn(if key in cache then Some(cache[key].presets) else cat.list(key.projectID), name)
  }

  function PresetIn(listed: Option<seq<Preset>>, name: string): Result<Option<Preset>, ()> {
    match listed
    case Some(presets) => Ok(FindPreset(presets, name))
    case None => Err(())
  }

  function FindType(types: seq<InstanceType>, name: string): (it: Option<InstanceType>)
    ensures it.Some? ==> it.value in types && it.value.name == name
  {
    if types == [] then None
    else if types[0].name == name then Some(types[0])
    else FindType(types[1..], name)
  }

  /** The cached type of the preset's name, or else the preset priced on its own. */
  function TypeAnswer(cache: map<NodeClassKey, Entry>, cat: Catalogue, key: NodeClassKey, p: Preset): InstanceType {
    var cached := if key in cache then FindType(cache[key].instanceTypes, p.InstanceTypeName()) else None;
    if cached.Some? then cached.value else DirectInstanceType(cat, key, p)
  }

  lemma PricedAlone(cat: Catalogue, key: NodeClassKey, p: Preset)
    ensures LookupPrices(GetPrices(cat, key, [p]), key, p) == PriceOf(p, BillFor(cat, key))
  {
    SequentialPricesAt([p], key.osDiskSizeGiB, BillFor(cat, key), p);
    assert KeyOf([p][0], key.osDiskSizeGiB) == KeyOf(p, key.osDiskSizeGiB);
  }

  /** The first of these types that goes by the preset's name, or the preset as the billing replies have it. */
  ghost predicate CachedOrPriced(types: seq<InstanceType>, cat: Catalogue, key: NodeClassKey, p: Preset, it: InstanceType) {
    || (exists i :: 0 <= i < |types| && it == types[i] && it.name == p.platform + "-" + p.preset
                    && forall j :: 0 <= j < i ==> types[j].name != it.name)
    || (TypeIs(cat, key, p, it) && forall i :: 0 <= i < |types| ==> types[i].name != it.name)
  }

  lemma {:induction false} FindsFirstType(types: seq<InstanceType>, name: string)
    ensures match FindType(types, name)
            case None => forall i :: 0 <= i < |types| ==> types[i].name != name
            case Some(it) =>
              exists i :: 0 <= i < |types| && it == types[i] && it.name == name && forall j :: 0 <= j < i ==> types[j].name != name
  {
    if types != [] && types[0].name != name {
      var rest := types[1..];
      FindsFirstType(rest, name);
      forall i | 0 < i < |types| ensures types[i] == rest[i - 1] {}
      if FindType(rest, name).Some? {
        var it := FindType(rest, name).value;
        var i :| 0 <= i < |rest| && it == rest[i] && it.name == name && forall j :: 0 <= j < i ==> rest[j].name != name;
        assert types[i + 1] == it;
      }
    }
  }

  lemma TypeAnswerIs(cache: map<NodeClassKey, Entry>, cat: Catalogue, key: NodeClassKey, p: Preset)
    ensures CachedOrPriced(if key in cache then cache[key].instanceTypes else [], cat, key, p, TypeAnswer(cache, cat, key, p))
  {
    if key in cache {
      FindsFirstType(cache[key].instanceTypes, p.InstanceTypeName());
    }
    DirectIsType(cat, key, p, DirectInstanceType(cat, key, p));
  }

  /** A name that no other listed preset has. */
  ghost predicate OwnName(cat: Catalogue, key: NodeClassKey, p: Preset) {
    cat.list(key.projectID).Some? ==> NameIsOwn(cat.list(key.projectID).value, p)
  }

  /** With an entry resolved from the same catalogue, or none, these are answered as if nothing were cached. */
  lemma OnePresetAsUncached(cache: map<NodeClassKey, Entry>, cat: Catalogue, key: NodeClassKey, name: string)
    requires key in cache ==> Resolve(cat, key) == Some(cache[key])
    ensures PresetAnswer(cache, cat, key, name) == PresetIn(cat.list(key.projectID), name)
  {}

  lemma OneTypeAsUncached(cache: map<NodeClassKey, Entry>, cat: Catalogue, key: NodeClassKey, p: Preset)
    requires key in cache ==> Resolve(cat, key) == Some(cache[key])
    ensures OwnName(cat, key, p) ==> TypeAnswer(cache, cat, key, p) == DirectInstanceType(cat, key, p)
  {
    if key in cache && OwnName(cat, key, p) {
      var e := cache[key];
      var cached := FindType(e.instanceTypes, p.InstanceTypeName());
      if cached.Some? {
        var i :| 0 <= i < |e.instanceTypes| && e.instanceTypes[i] == cached.value;
        assert e.presets[i].InstanceTypeName() == p.InstanceTypeName();
        ResolvedIsDirect(cat, key, i);
      }
    }
  }

  class Provider {
    var cache: map<NodeClassKey, Entry>
    var activeKeys: set<NodeClassKey>
    /** The catalogues that the calls so far have met. */
    ghost var seen: seq<Catalogue>

    /** Every cached entry is what some catalogue resolved that very key to, and its key is tracked. */
    ghost predicate Valid()
      reads this
    {
      ValidCache(cache, activeKeys, seen)
    }

    /** All catalogues so far were this one. */
    ghost predicate Always(cat: Catalogue)
      reads this
    {
      forall c :: c in seen ==> c == cat
    }

    constructor ()
      ensures Valid() && cache == map[] && activeKeys == {} && seen == []
    {
      cache := map[];
      activeKeys := {};
      seen := [];
    }

    /** The LRU cache may drop entries at any time. */
    method Evict(keys: set<NodeClassKey>)
      requires Valid()
      modifies this`cache
      ensures Valid() && cache == old(cache) - keys
    {
      cache := cache - keys;
    }

    method GetOrResolve(cat: Catalogue, key: NodeClassKey) returns (r: Option<Entry>)
      requires Valid()
      modifies this
      ensures Valid() && seen == old(seen) + [cat]
      ensures r == if key in old(cache) then Some(old(cache)[key]) else Resolve(cat, key)
      ensures cache == (if r.Some? then old(cache)[key := r.value] else old(cache))
      ensures activeKeys == (if r.Some? then old(activeKeys) + {key} else old(activeKeys))
    {
      if key in cache {
        HitChangesNothing(cache, activeKeys, seen, cat, key);
        seen := seen + [cat];
        return Some(cache[key]);
      }
      MissKeepsValid(cache, activeKeys, seen, cat, key);
      seen := seen + [cat];
      r := Resolve(cat, key);
      if r.Some? {
        cache := cache[key := r.value];
        activeKeys := activeKeys + {key};
      }
    }

    method GetInstanceTypes(cat: Catalogue, key: NodeClassKey) returns (r: Option<seq<InstanceType>>)
      requires Valid()
      modifies this
      ensures Valid() && seen == old(seen) + [cat]
      ensures old(Always(cat)) ==>
                r == match Resolve(cat, key) case Some(e) => Some(e.instanceTypes) case None => None
    {
      AnswerIsFromSeen(cache, activeKeys, seen, cat, key);
      var entry := GetOrResolve(cat, key);
      return if entry.Some? then Some(entry.value.instanceTypes) else None;
    }

    /** Err is a failed listing; otherwise the first preset of that name, if any. */
    method GetPlatformPreset(cat: Catalogue, key: NodeClassKey, platform: string, preset: string)
      returns (r: Result<Option<Preset>, ()>)
      requires Valid()
      ensures r == PresetAnswer(cache, cat, key, platform + "-" + preset)
      ensures key in cache ==> r.Ok? && FirstNamed(cache[key].presets, platform + "-" + preset, r.value)
      ensures Always(cat) ==>
                match cat.list(key.projectID)
                case None => r == Err(())
                case Some(presets) => r.Ok? && FirstNamed(presets, platform + "-" + preset, r.value)
    {
      var name := platform + "-" + preset;
      var presets: seq<Preset>;
      if key in cache {
        presets := cache[key].presets;
        if Always(cat) {
          FromOnly(seen, cat, key, cache[key]);
        }
      } else {
        var listed := cat.list(key.projectID);
        if listed.None? {
          return Err(());
        }
        presets := listed.value;
      }
      for i := 0 to |presets|
        invariant FindPreset(presets, name) == FindPreset(presets[i..], name)
        invariant forall j :: 0 <= j < i ==> presets[j].platform + "-" + presets[j].preset != name
      {
        if presets[i].InstanceTypeName() == name {
          return Ok(Some(presets[i]));
        }
        assert presets[i..][1..] == presets[i + 1..];
      }
      return Ok(None);
    }

    method GetInstanceTypeByPlatformPreset(cat: Catalogue, key: NodeClassKey, p: Preset) returns (it: InstanceType)
      requires Valid()
      ensures it == TypeAnswer(cache, cat, key, p) && it.name == p.platform + "-" + p.preset
      ensures CachedOrPriced(if key in cache then cache[key].instanceTypes else [], cat, key, p, it)
      ensures Always(cat) && OwnName(cat, key, p) ==> TypeIs(cat, key, p, it)
    {
      var name := p.InstanceTypeName();
      TypeAnswerIs(cache, cat, key, p);
      if Always(cat) {
        if key in cache {
          FromOnly(seen, cat, key, cache[key]);
        }
        OneTypeAsUncached(cache, cat, key, p);
        DirectIsType(cat, key, p, DirectInstanceType(cat, key, p));
      }
      if key in cache {
        var types := cache[key].instanceTypes;
        for i := 0 to |types|
          invariant FindType(types, name) == FindType(types[i..], name)
        {
          if types[i].name == name {
            return types[i];
          }
          assert types[i..][1..] == types[i + 1..];
        }
      }
      var prices := GetPrices(cat, key, [p]);
      PricedAlone(cat, key, p);
      return NewInstanceType(key, p, LookupPrices(prices, key, p));
    }

    method ResolvePlatformPresetFromNodeClaim(cat: Catalogue, key: NodeClassKey, claim: Claim)
      returns (r: Result<LaunchSettings, SelectError>, ghost entry: Option<Entry>)
      requires Valid()
      modifies this
      ensures Valid()
      ensures claim.names == {} ==> r == Err(NoInstanceTypes)
      ensures claim.names != {} ==> entry == if key in old(cache) then Some(old(cache)[key]) else Resolve(cat, key)
      ensures claim.names != {} && old(Always(cat)) ==> Always(cat) && entry == Resolve(cat, key)
      ensures claim.names != {} ==>
                match entry case None => r == Err(NotResolved) case Some(e) => Selects(key, e, claim, r)
    {
      entry := None;
      if claim.names == {} {
        return Err(NoInstanceTypes), entry;
      }
      AnswerIsFromSeen(cache, activeKeys, seen, cat, key);
      var resolved := GetOrResolve(cat, key);
      entry := resolved;
      if resolved.None? {
        return Err(NotResolved), entry;
      }
      r := SelectCheapest(key, resolved.value, claim);
    }

    /** Each tracked key is resolved anew, `cats` giving the catalogue it meets; failures keep what is cached. */
    method RefreshAll(cats: NodeClassKey -> Catalogue)
      requires Valid()
      modifies this
      ensures Valid() && activeKeys == old(activeKeys)
      ensures cache == Refreshed(old(cache), old(activeKeys), Resolver(cats))
      ensures RefreshedAs(old(cache), old(activeKeys), cats, cache)
      ensures forall cat :: old(Always(cat)) && (forall k :: k in activeKeys ==> cats(k) == cat) ==> Always(cat)
    {
      var keys := activeKeys;
      while keys != {}
        invariant keys <= activeKeys == old(activeKeys) && Valid()
        invariant cache == Refreshed(old(cache), activeKeys - keys, Resolver(cats))
        invariant forall c :: c in seen ==> c in old(seen) || Met(c, activeKeys, cats)
        decreases keys
      {
        var key :| key in keys;
        ghost var before := cache;
        RefreshOne(old(cache), activeKeys - keys, key, Resolver(cats));
        MeetingKeepsValid(cache, activeKeys, seen, cats(key));
        assert Met(cats(key), activeKeys, cats);
        assert activeKeys + {key} == activeKeys;
        assert activeKeys - (keys - {key}) == (activeKeys - keys) + {key};
        keys := keys - {key};
        seen := seen + [cats(key)];
        var entry := Resolver(cats)(key);
        if entry.Some? {
          assert cats(key) in seen;
          AddingKeepsValid(cache, activeKeys, seen, key, entry.value);
          cache := cache[key := entry.value];
        }
      }
      assert activeKeys - {} == activeKeys;
      RefreshedKeyByKey(old(cache), activeKeys, cats);
    }
  }

  ghost predicate Met(c: Catalogue, keys: set<NodeClassKey>, cats: NodeClassKey -> Catalogue) {
    exists k :: k in keys && cats(k) == c
  }

  /** What each key resolves to, in the catalogue it meets. */
  function Resolver(cats: NodeClassKey -> Catalogue): NodeClassKey -> Option<Entry> {
    k => Resolve(cats(k), k)
  }

  /** The cache with the keys that resolve replaced by what they resolve to. */
  ghost function Refreshed(cache: map<NodeClassKey, Entry>, keys: set<NodeClassKey>,
                           resolve: NodeClassKey -> Option<Entry>): map<NodeClassKey, Entry>
  {
    cache + map k | k in keys && resolve(k).Some? :: resolve(k).value
  }

  /** Key by key: what a tracked key resolves to now, or else what was there. */
  ghost predicate RefreshedAs(before: map<NodeClassKey, Entry>, keys: set<NodeClassKey>,
                              cats: NodeClassKey -> Catalogue, after: map<NodeClassKey, Entry>)
  {
    forall k ::
      if k in keys && Resolve(cats(k), k).Some? then k in after && after[k] == Resolve(cats(k), k).value
      else (k in after <==> k in before) && (k in before ==> after[k] == before[k])
  }

  lemma RefreshedKeyByKey(cache: map<NodeClassKey, Entry>, keys: set<NodeClassKey>, cats: NodeClassKey -> Catalogue)
    ensures RefreshedAs(cache, keys, cats, Refreshed(cache, keys, Resolver(cats)))
  {}

  lemma RefreshOne(cache: map<NodeClassKey, Entry>, keys: set<NodeClassKey>, key: NodeClassKey,
                   resolve: NodeClassKey -> Option<Entry>)
    ensures Refreshed(cache, keys + {key}, resolve) ==
            if resolve(key).Some? then Refreshed(cache, keys, resolve)[key := resolve(key).value]
            else Refreshed(cache, keys, resolve)
  {}

  // ---- What is launched ----

  /**
   With distinct names, the settings are those the winning offering was built
   from: its own preset, the region as zone, the capacity type it was priced for,
   at the price its own billing call quoted, no call having failed.
   */
  lemma LaunchIsOfWinner(cat: Catalogue, key: NodeClassKey, claim: Claim, i: nat, j: nat, s: LaunchSettings)
    requires Resolve(cat, key).Some?
    requires DistinctNames(Resolve(cat, key).value.presets)
    requires Cheapest(Resolve(cat, key).value, claim, i, j)
    requires Launches(key, Resolve(cat, key).value, i, j, s)
    ensures s.preset == Resolve(cat, key).value.presets[i]
    ensures s.zone == key.region && s.capacityType == if j == 0 then "on-demand" else "spot"
    ensures var bill := cat.bill(key.projectID, key.osDiskSizeGiB);
            && bill(s.preset, false).Cost? && (s.preset.preemptible ==> bill(s.preset, true).Cost?)
            && (j == 1 ==> s.preset.preemptible) && j <= 1
            && CostIs(bill(s.preset, j == 1).hourly, Resolve(cat, key).value.instanceTypes[i].offerings[j].price)
  {
    var presets := Resolve(cat, key).value.presets;
    var n :| 0 <= n < |presets| && presets[n] == s.preset;
    assert n == i;
    ResolvedIsDirect(cat, key, i);
  }

  /** What the capacity type of a listed preset costs, if every call for it is answered. */
  ghost predicate Quoted(cat: Catalogue, key: NodeClassKey, p: Preset, spot: bool, x: real) {
    var bill := cat.bill(key.projectID, key.osDiskSizeGiB);
    && cat.list(key.projectID).Some? && p in cat.list(key.projectID).value
    && (spot ==> p.preemptible)
    && bill(p, false).Cost? && (p.preemptible ==> bill(p, true).Cost?)
    && CostIs(bill(p, spot).hourly, x)
  }

  /** The claim asks for this preset and capacity type at this price. */
  ghost predicate Wanted(key: NodeClassKey, claim: Claim, p: Preset, spot: bool, x: real) {
    && p.platform + "-" + p.preset in claim.names && x < MAX_FLOAT64
    && claim.compatible(Offering(x, true, [if spot then "spot" else "on-demand"], [key.region]))
  }

  /**
   From the replies alone: with distinct names a launch is of a listed preset at
   a quoted price that is wanted, and no other that is quoted and wanted is
   cheaper; and there is no launch exactly if none is quoted and wanted.
   */
  lemma LaunchIsCheapestQuote(cat: Catalogue, key: NodeClassKey, claim: Claim, r: Result<LaunchSettings, SelectError>)
    requires Resolve(cat, key).Some?
    requires DistinctNames(Resolve(cat, key).value.presets)
    requires Selects(key, Resolve(cat, key).value, claim, r)
    ensures r.Ok? ==> exists spot, x ::
              && r.value.capacityType == (if spot then "spot" else "on-demand") && r.value.zone == key.region
              && Quoted(cat, key, r.value.preset, spot, x) && Wanted(key, claim, r.value.preset, spot, x)
              && forall q, spot', y :: Quoted(cat, key, q, spot', y) && Wanted(key, claim, q, spot', y) ==> x <= y
    ensures r.Err? ==> forall q, spot, y :: !(Quoted(cat, key, q, spot, y) && Wanted(key, claim, q, spot, y))
  {
    var e := Resolve(cat, key).value;
    if r.Ok? {
      var i, j :| Cheapest(e, claim, i, j) && Launches(key, e, i, j, r.value);
      var x := e.instanceTypes[i].offerings[j].price;
      LaunchIsOfWinner(cat, key, claim, i, j, r.value);
      CandidateIsQuoted(cat, key, claim, i, j);
      forall q, spot', y | Quoted(cat, key, q, spot', y) && Wanted(key, claim, q, spot', y)
        ensures x <= y
      {
        NoneCheaper(cat, key, claim, i, j, q, spot', y);
      }
      assert Quoted(cat, key, r.value.preset, j == 1, x) && Wanted(key, claim, r.value.preset, j == 1, x);
    } else {
      forall q, spot, y | Quoted(cat, key, q, spot, y) && Wanted(key, claim, q, spot, y)
        ensures false
      {
        var i, j := QuotedIsCandidate(cat, key, claim, q, spot, y);
      }
    }
  }

  lemma NoneCheaper(cat: Catalogue, key: NodeClassKey, claim: Claim, i: nat, j: nat, q: Preset, spot: bool, y: real)
    requires Resolve(cat, key).Some? && DistinctNames(Resolve(cat, key).value.presets)
    requires Cheapest(Resolve(cat, key).value, claim, i, j)
    requires Quoted(cat, key, q, spot, y) && Wanted(key, claim, q, spot, y)
    ensures Resolve(cat, key).value.instanceTypes[i].offerings[j].price <= y
  {
    var i', j' := QuotedIsCandidate(cat, key, claim, q, spot, y);
  }

  lemma CandidateIsQuoted(cat: Catalogue, key: NodeClassKey, claim: Claim, i: nat, j: nat)
    requires Resolve(cat, key).Some? && DistinctNames(Resolve(cat, key).value.presets)
    requires Candidate(Resolve(cat, key).value, claim, i, j)
    ensures var e := Resolve(cat, key).value;
            && Quoted(cat, key, e.presets[i], j == 1, e.instanceTypes[i].offerings[j].price)
            && Wanted(key, claim, e.presets[i], j == 1, e.instanceTypes[i].offerings[j].price)
  {
    var presets := Resolve(cat, key).value.presets;
    assert presets[i] in presets;
    ResolvedIsDirect(cat, key, i);
  }

  lemma QuotedIsCandidate(cat: Catalogue, key: NodeClassKey, claim: Claim, p: Preset, spot: bool, x: real)
    returns (i: nat, j: nat)
    requires Resolve(cat, key).Some? && DistinctNames(Resolve(cat, key).value.presets)
    requires Quoted(cat, key, p, spot, x) && Wanted(key, claim, p, spot, x)
    ensures Candidate(Resolve(cat, key).value, claim, i, j)
    ensures Resolve(cat, key).value.instanceTypes[i].offerings[j].price == x
  {
    var presets := Resolve(cat, key).value.presets;
    i :| 0 <= i < |presets| && presets[i] == p;
    j := if spot then 1 else 0;
    ResolvedIsDirect(cat, key, i);
  }
}
