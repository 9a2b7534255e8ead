/** A network as a pool, a network and a subnet, created and deleted step by step. */
module Vpc {
  import opened Wrappers
  import opened ResourceCRUD

  datatype PoolSpec = PoolSpec(cidr: string)

  datatype NetworkSpec = NetworkSpec(pools: seq<Id>)

  datatype SubnetSpec = SubnetSpec(networkId: Id)

  /** The ids are NO_ID until a creation has succeeded. */
  datatype Status = Status(poolId: Id, vnetId: Id, subnetId: Id)

  datatype Network = Network(id: string, projectId: string, cidrBlock: string, status: Status)

  function DesiredPool(n: Network): Resource<PoolSpec> {
    Resource(Metadata(n.status.poolId, n.projectId, n.id + "-pool"), PoolSpec(n.cidrBlock))
  }

  function DesiredNetwork(n: Network, pool: Id): Resource<NetworkSpec> {
    Resource(Metadata(n.status.vnetId, n.projectId, n.id), NetworkSpec(if pool != NO_ID then [pool] else []))
  }

  function DesiredSubnet(n: Network, network: Id): Resource<SubnetSpec> {
    Resource(Metadata(n.status.subnetId, n.projectId, n.id + "-subnet"), SubnetSpec(network))
  }

  /** The three tables of the cloud. */
  datatype Cloud = Cloud(pools: Table<PoolSpec>, networks: Table<NetworkSpec>, subnets: Table<SubnetSpec>)
  {
    ghost predicate Valid() { pools.Valid() && networks.Valid() && subnets.Valid() }
  }

  // ---- Specification ----

  /** One CreateOrUpdate: the steps in order, up to the first that fails. */
  ghost predicate Attempt(c: Cloud, n: Network, c': Cloud, r: Result<Network, CloudError>) {
    || (r.Err? && c'.networks == c.networks && c'.subnets == c.subnets
        && Converges(DriftTODO, c.pools, DesiredPool(n), c'.pools, Err(r.error)))
    || (exists pool :: PoolDone(c, n, c', pool) && NetworkStep(c, n, c', pool.meta.id, r))
  }

  ghost predicate PoolDone(c: Cloud, n: Network, c': Cloud, pool: Resource<PoolSpec>) {
    Converges(DriftTODO, c.pools, DesiredPool(n), c'.pools, Ok(pool))
  }

  ghost predicate NetworkStep(c: Cloud, n: Network, c': Cloud, pool: Id, r: Result<Network, CloudError>) {
    || (r.Err? && c'.subnets == c.subnets
        && Converges(DriftTODO, c.networks, DesiredNetwork(n, pool), c'.networks, Err(r.error)))
    || (exists network :: Converges(DriftTODO, c.networks, DesiredNetwork(n, pool), c'.networks, Ok(network))
                          && SubnetStep(c, n, c', pool, network.meta.id, r))
  }

  ghost predicate SubnetStep(c: Cloud, n: Network, c': Cloud, pool: Id, network: Id, r: Result<Network, CloudError>) {
    match r
    case Err(e) => Converges(DriftTODO, c.subnets, DesiredSubnet(n, network), c'.subnets, Err(e))
    case Ok(n') =>
      exists subnet :: Converges(DriftTODO, c.subnets, DesiredSubnet(n, network), c'.subnets, Ok(subnet))
                       && n' == n.(status := Status(pool, network, subnet.meta.id))
  }

  /** One Delete of a stored network: subnet, network, pool, up to the first that fails. */
  ghost predicate Removes(c: Cloud, n: Network, c': Cloud, e: Option<CloudError>) {
    var pool := DesiredPool(n).meta;
    var network := DesiredNetwork(n, n.status.poolId).meta;
    var subnet := DesiredSubnet(n, n.status.vnetId).meta;
    || (e.Some? && Deletes(c.subnets, subnet, c'.subnets, e) && c'.networks == c.networks && c'.pools == c.pools)
    || (e.Some? && Deletes(c.subnets, subnet, c'.subnets, None) && Deletes(c.networks, network, c'.networks, e)
        && c'.pools == c.pools)
    || (Deletes(c.subnets, subnet, c'.subnets, None) && Deletes(c.networks, network, c'.networks, None)
        && Deletes(c.pools, pool, c'.pools, e))
  }

  // ---- The server ----

  class Server {
    const pools: Service<PoolSpec>
    const networks: Service<NetworkSpec>
    const subnets: Service<SubnetSpec>

    constructor (pools: Service<PoolSpec>, networks: Service<NetworkSpec>, subnets: Service<SubnetSpec>)
      ensures this.pools == pools && this.networks == networks && this.subnets == subnets
    {
      this.pools := pools;
      this.networks := networks;
      this.subnets := subnets;
    }

    ghost function Current(): Cloud
      reads pools, networks, subnets
    {
      Cloud(pools.table, networks.table, subnets.table)
    }

    method CreateOrUpdate(n: Network) returns (r: Result<Network, CloudError>)
      requires Current().Valid()
      modifies pools, networks, subnets
      ensures Current().Valid()
      ensures Attempt(old(Current()), n, Current(), r)
      ensures pools.reliable && networks.reliable && subnets.reliable ==> r.Ok?
    {
      ghost var c := Current();
      var pool := pools.CreateOrUpdate(DriftTODO, DesiredPool(n));
      if pool.Err? {
        return Err(pool.error);
      }
      var poolId := pool.value.meta.id;
      var network := networks.CreateOrUpdate(DriftTODO, DesiredNetwork(n, poolId));
      if network.Err? {
        r := Err(network.error);
        assert PoolDone(c, n, Current(), pool.value) && NetworkStep(c, n, Current(), poolId, r);
        return;
      }
      var networkId := network.value.meta.id;
      var subnet := subnets.CreateOrUpdate(DriftTODO, DesiredSubnet(n, networkId));
      if subnet.Err? {
        r := Err(subnet.error);
      } else {
        r := Ok(n.(status := Status(poolId, networkId, subnet.value.meta.id)));
      }
      assert SubnetStep(c, n, Current(), poolId, networkId, r);
      assert PoolDone(c, n, Current(), pool.value) && NetworkStep(c, n, Current(), poolId, r);
    }

    /** A network that is not stored counts as deleted. */
    method Delete(stored: Option<Network>) returns (e: Option<CloudError>)
      requires Current().Valid()
      modifies pools, networks, subnets
      ensures Current().Valid()
      ensures match stored
              case None => e == None && Current() == old(Current())
              case Some(n) => Removes(old(Current()), n, Current(), e)
      ensures pools.reliable && networks.reliable && subnets.reliable ==> e == None
    {
      if stored.None? {
        return None;
      }
      var pool := DesiredPool(stored.value);
      var network := DesiredNetwork(stored.value, pool.meta.id);
      var subnet := DesiredSubnet(stored.value, network.meta.id);
      e := subnets.Delete(subnet);
      if e.Some? {
        return;
      }
      e := networks.Delete(network);
      if e.Some? {
        return;
      }
      e := pools.Delete(pool);
    }
  }

  // ---- Retries ----

  /** At most one pool, network and subnet per project and name. */
  ghost predicate Unique(c: Cloud) {
    c.Valid() && UniqueNames(c.pools) && UniqueNames(c.networks) && UniqueNames(c.subnets)
  }

  /** References are to ids given out already; their resources may be gone. */
  ghost predicate IdsIssued(c: Cloud) {
    && (forall i, p :: i in c.networks.items && p in c.networks.items[i].spec.pools ==> p < c.pools.next)
    && (forall i :: i in c.subnets.items ==> c.subnets.items[i].spec.networkId < c.networks.next)
  }

  ghost predicate IsPoolOf(c: Cloud, n: Network, id: Id) {
    id in c.pools.items && SameName(c.pools.items[id].meta, DesiredPool(n).meta)
  }

  ghost predicate IsNetworkOf(c: Cloud, n: Network, id: Id) {
    id in c.networks.items && SameName(c.networks.items[id].meta, DesiredNetwork(n, NO_ID).meta)
  }

  ghost predicate IsSubnetOf(c: Cloud, n: Network, id: Id) {
    id in c.subnets.items && SameName(c.subnets.items[id].meta, DesiredSubnet(n, NO_ID).meta)
  }

  /** What exists of the network's names refers to what exists of its names. */
  ghost predicate Linked(c: Cloud, n: Network) {
    && (forall i :: IsNetworkOf(c, n, i) ==> exists p: Id :: IsPoolOf(c, n, p) && c.networks.items[i].spec.pools == [p])
    && (forall i :: IsSubnetOf(c, n, i) ==> IsNetworkOf(c, n, c.subnets.items[i].spec.networkId))
  }

  ghost predicate NoIds(n: Network) { n.status == Status(NO_ID, NO_ID, NO_ID) }

  /** What every step keeps, whichever network it is for: unique names, issued ids, and who is linked. */
  ghost predicate Keeps(c: Cloud, c': Cloud) {
    && Unique(c')
    && (IdsIssued(c) ==> IdsIssued(c') && forall m :: Linked(c', m) <==> Linked(c, m))
  }

  lemma PoolAddedKeeps(c: Cloud, n: Network, c': Cloud)
    requires Unique(c) && IdsIssued(c) && Unique(c')
    requires c' == c.(pools := Added(c.pools, DesiredPool(n)))
    ensures Keeps(c, c')
  {
    forall m ensures Linked(c', m) <==> Linked(c, m) {
      assert forall i :: IsNetworkOf(c', m, i) <==> IsNetworkOf(c, m, i);
      assert forall i :: IsSubnetOf(c', m, i) <==> IsSubnetOf(c, m, i);
      assert forall p :: p != c.pools.next ==> (IsPoolOf(c', m, p) <==> IsPoolOf(c, m, p));
      forall i | IsNetworkOf(c, m, i)
        ensures (exists p: Id :: IsPoolOf(c', m, p) && c'.networks.items[i].spec.pools == [p]) <==>
                (exists p: Id :: IsPoolOf(c, m, p) && c.networks.items[i].spec.pools == [p])
      {
        assert forall p :: c.networks.items[i].spec.pools == [p] ==> p in c.networks.items[i].spec.pools;
      }
    }
  }

  lemma NetworkAddedKeeps(c: Cloud, n: Network, pool: Id, c': Cloud)
    requires Unique(c) && IdsIssued(c) && IsPoolOf(c, n, pool) && Unique(c')
    requires c' == c.(networks := Added(c.networks, DesiredNetwork(n, pool)))
    ensures Keeps(c, c')
  {
    forall m ensures Linked(c', m) <==> Linked(c, m) {
      assert forall i :: IsSubnetOf(c', m, i) <==> IsSubnetOf(c, m, i);
      assert forall p :: IsPoolOf(c', m, p) <==> IsPoolOf(c, m, p);
      assert forall i :: i != c.networks.next ==> (IsNetworkOf(c', m, i) <==> IsNetworkOf(c, m, i));
      assert IsNetworkOf(c', m, c.networks.next) ==> IsPoolOf(c', m, pool);
    }
  }

  lemma SubnetAddedKeeps(c: Cloud, n: Network, network: Id, c': Cloud)
    requires Unique(c) && IdsIssued(c) && IsNetworkOf(c, n, network) && Unique(c')
    requires c' == c.(subnets := Added(c.subnets, DesiredSubnet(n, network)))
    ensures Keeps(c, c')
  {
    forall m ensures Linked(c', m) <==> Linked(c, m) {
      assert forall p :: IsPoolOf(c', m, p) <==> IsPoolOf(c, m, p);
      assert forall i :: IsNetworkOf(c', m, i) <==> IsNetworkOf(c, m, i);
      assert forall i :: i != c.subnets.next ==> (IsSubnetOf(c', m, i) <==> IsSubnetOf(c, m, i));
      if IsSubnetOf(c', m, c.subnets.next) {
        SuffixInjective(n.id, m.id, "-subnet");
        assert IsNetworkOf(c', m, network);
      }
    }
  }

  lemma SuffixInjective(a: string, b: string, suffix: string)
    requires a + suffix == b + suffix
    ensures a == b
  {
    assert |a| == |b|;
    assert a == (a + suffix)[..|a|] && b == (b + suffix)[..|b|];
  }

  /** The resources a success reports exist under the network's names. */
  ghost predicate Reported(c: Cloud, n: Network, n': Network) {
    && n' == n.(status := n'.status)
    && IsPoolOf(c, n, n'.status.poolId) && IsNetworkOf(c, n, n'.status.vnetId) && IsSubnetOf(c, n, n'.status.subnetId)
  }

  lemma NetworkStepKeeps(c: Cloud, n: Network, c': Cloud, pool: Id, r: Result<Network, CloudError>)
    requires Unique(c) && NoIds(n) && c'.pools == c.pools && NetworkStep(c, n, c', pool, r)
    requires IsPoolOf(c, n, pool)
    ensures Keeps(c, c') && (r.Ok? ==> Reported(c', n, r.value))
  {
    var c1 := c.(networks := c'.networks);
    var desired := DesiredNetwork(n, pool);
    if c'.subnets == c.subnets && r.Err? && Converges(DriftTODO, c.networks, desired, c'.networks, Err(r.error)) {
      StepAdds(c.networks, desired, c'.networks, Err(r.error));
      assert c' == c1;
      if c1 != c && IdsIssued(c) { NetworkAddedKeeps(c, n, pool, c1); }
    } else {
      var network :| Converges(DriftTODO, c.networks, desired, c'.networks, Ok(network))
                     && SubnetStep(c, n, c', pool, network.meta.id, r);
      StepAdds(c.networks, desired, c'.networks, Ok(network));
      if c1 != c && IdsIssued(c) { NetworkAddedKeeps(c, n, pool, c1); }
      SubnetStepKeeps(c1, n, c', pool, network.meta.id, r);
    }
  }

  lemma SubnetStepKeeps(c: Cloud, n: Network, c': Cloud, pool: Id, network: Id, r: Result<Network, CloudError>)
    requires Unique(c) && NoIds(n) && c'.pools == c.pools && c'.networks == c.networks
    requires SubnetStep(c, n, c', pool, network, r)
    requires IsPoolOf(c, n, pool) && IsNetworkOf(c, n, network)
    ensures Keeps(c, c') && (r.Ok? ==> Reported(c', n, r.value))
  {
    var desired := DesiredSubnet(n, network);
    if r.Err? {
      StepAdds(c.subnets, desired, c'.subnets, Err(r.error));
    } else {
      var subnet :| Converges(DriftTODO, c.subnets, desired, c'.subnets, Ok(subnet))
                    && r.value == n.(status := Status(pool, network, subnet.meta.id));
      StepAdds(c.subnets, desired, c'.subnets, Ok(subnet));
    }
    assert c' == c || c' == c.(subnets := Added(c.subnets, desired));
    if c' != c && IdsIssued(c) { SubnetAddedKeeps(c, n, network, c'); }
  }

  /** One attempt, failed at whatever step or not. */
  lemma AttemptKeeps(c: Cloud, n: Network, c': Cloud, r: Result<Network, CloudError>)
    requires Unique(c) && NoIds(n) && Attempt(c, n, c', r)
    ensures Keeps(c, c') && (r.Ok? ==> Reported(c', n, r.value))
  {
    var c1 := c.(pools := c'.pools);
    if pool :| PoolDone(c, n, c', pool) && NetworkStep(c, n, c', pool.meta.id, r) {
      StepAdds(c.pools, DesiredPool(n), c'.pools, Ok(pool));
      if c1 != c && IdsIssued(c) { PoolAddedKeeps(c, n, c1); }
      NetworkStepKeeps(c1, n, c', pool.meta.id, r);
    } else {
      StepAdds(c.pools, DesiredPool(n), c'.pools, Err(r.error));
      assert c' == c1;
      if c1 != c && IdsIssued(c) { PoolAddedKeeps(c, n, c1); }
    }
  }

  /** Attempts one after the other, for any networks, none carrying ids. */
  ghost predicate Attempts(cs: seq<Cloud>, ns: seq<Network>, rs: seq<Result<Network, CloudError>>) {
    && |cs| == |ns| + 1 == |rs| + 1
    && forall i {:trigger ns[i]} :: 0 <= i < |ns| ==> NoIds(ns[i]) && Attempt(cs[i], ns[i], cs[i + 1], rs[i])
  }

  /**
   No number of attempts, for whichever networks and failing anywhere, duplicates
   a resource, and a network m is linked afterwards exactly if it was before.
   */
  lemma {:induction false} AttemptsKeep(cs: seq<Cloud>, ns: seq<Network>, rs: seq<Result<Network, CloudError>>,
                                        m: Network, k: nat)
    requires Attempts(cs, ns, rs) && k < |cs| && Unique(cs[0])
    ensures Unique(cs[k])
    ensures IdsIssued(cs[0]) ==> IdsIssued(cs[k]) && (Linked(cs[k], m) <==> Linked(cs[0], m))
  {
    if k > 0 {
      AttemptsKeep(cs, ns, rs, m, k - 1);
      AttemptKeeps(cs[k - 1], ns[k - 1], cs[k], rs[k - 1]);
    }
  }

  /** The reported network draws on the reported pool, and the subnet is of the network. */
  ghost predicate Refers(c: Cloud, s: Status) {
    && s.vnetId in c.networks.items && c.networks.items[s.vnetId].spec.pools == [s.poolId]
    && s.subnetId in c.subnets.items && c.subnets.items[s.subnetId].spec.networkId == s.vnetId
  }

  /**
   A success after any attempts reports the one pool, network and subnet of its
   names; and these refer to each other exactly if what existed of its names
   before the first attempt did.
   */
  lemma SuccessConverges(cs: seq<Cloud>, ns: seq<Network>, rs: seq<Result<Network, CloudError>>, k: nat)
    requires Attempts(cs, ns, rs) && k < |ns| && Unique(cs[0]) && rs[k].Ok?
    ensures var c, n, s := cs[k + 1], ns[k], rs[k].value.status;
            && (forall id :: IsPoolOf(c, n, id) <==> id == s.poolId)
            && (forall id :: IsNetworkOf(c, n, id) <==> id == s.vnetId)
            && (forall id :: IsSubnetOf(c, n, id) <==> id == s.subnetId)
            && (IdsIssued(cs[0]) ==> (Refers(c, s) <==> Linked(cs[0], n)))
  {
    AttemptsKeep(cs, ns, rs, ns[k], k);
    AttemptsKeep(cs, ns, rs, ns[k], k + 1);
    AttemptKeeps(cs[k], ns[k], cs[k + 1], rs[k]);
    ReportedAreTheOnes(cs[k + 1], ns[k], rs[k].value);
    ReportedRefer(cs[k + 1], ns[k], rs[k].value);
  }

  lemma ReportedAreTheOnes(c: Cloud, n: Network, n': Network)
    requires Unique(c) && Reported(c, n, n')
    ensures forall id :: IsPoolOf(c, n, id) <==> id == n'.status.poolId
    ensures forall id :: IsNetworkOf(c, n, id) <==> id == n'.status.vnetId
    ensures forall id :: IsSubnetOf(c, n, id) <==> id == n'.status.subnetId
  {}

  lemma ReportedRefer(c: Cloud, n: Network, n': Network)
    requires Unique(c) && Reported(c, n, n')
    ensures Refers(c, n'.status) <==> Linked(c, n)
  {
    ReportedAreTheOnes(c, n, n');
    var s := n'.status;
    if Linked(c, n) {
      var p: Id :| IsPoolOf(c, n, p) && c.networks.items[s.vnetId].spec.pools == [p];
      assert IsNetworkOf(c, n, c.subnets.items[s.subnetId].spec.networkId);
    }
  }

  // ---- Deleting ----

  /** A network goes only once its subnet has gone, and a pool only once its network has. */
  lemma DeletesInOrder(c: Cloud, n: Network, c': Cloud, e: Option<CloudError>)
    requires Unique(c) && Removes(c, n, c', e)
    ensures c'.networks == c.networks || Absent(c'.subnets, DesiredSubnet(n, NO_ID).meta)
    ensures c'.pools == c.pools || (Absent(c'.subnets, DesiredSubnet(n, NO_ID).meta)
                                    && Absent(c'.networks, DesiredNetwork(n, NO_ID).meta))
  {
    assert DesiredSubnet(n, n.status.vnetId).meta == DesiredSubnet(n, NO_ID).meta;
    assert DesiredNetwork(n, n.status.poolId).meta == DesiredNetwork(n, NO_ID).meta;
    DeletedIsAbsent(c.subnets, DesiredSubnet(n, NO_ID).meta, c'.subnets);
    DeletedIsAbsent(c.networks, DesiredNetwork(n, NO_ID).meta, c'.networks);
  }

  lemma DeletedIsAbsent<S>(t: Table<S>, wanted: Metadata, t': Table<S>)
    requires t.Valid() && UniqueNames(t)
    ensures Deletes(t, wanted, t', None) ==> Absent(t', wanted)
  {
    if id :| Finds(t, wanted, id) && t' == Removed(t, id) {
      assert forall j :: Finds(t, wanted, j) ==> j == id;
    }
  }

  /** What a success under unused names has put into the cloud, field by field. */
  lemma CreatedFieldByField(c: Cloud, n: Network, c': Cloud, n': Network)
    requires c.Valid() && Attempt(c, n, c', Ok(n'))
    requires Absent(c.pools, DesiredPool(n).meta) && Absent(c.networks, DesiredNetwork(n, NO_ID).meta)
    requires Absent(c.subnets, DesiredSubnet(n, NO_ID).meta)
    ensures n'.id == n.id && n'.projectId == n.projectId && n'.cidrBlock == n.cidrBlock
    ensures var id := n'.status.poolId;
            && id in c'.pools.items && c'.pools.items[id].meta.parentId == n.projectId
            && c'.pools.items[id].meta.name == n.id + "-pool" && c'.pools.items[id].spec.cidr == n.cidrBlock
    ensures var id := n'.status.vnetId;
            && id in c'.networks.items && c'.networks.items[id].meta.parentId == n.projectId
            && c'.networks.items[id].meta.name == n.id && c'.networks.items[id].spec.pools == [n'.status.poolId]
    ensures var id := n'.status.subnetId;
            && id in c'.subnets.items && c'.subnets.items[id].meta.parentId == n.projectId
            && c'.subnets.items[id].meta.name == n.id + "-subnet" && c'.subnets.items[id].spec.networkId == n'.status.vnetId
  {
    var pool :| PoolDone(c, n, c', pool) && NetworkStep(c, n, c', pool.meta.id, Ok(n'));
    var network :| Converges(DriftTODO, c.networks, DesiredNetwork(n, pool.meta.id), c'.networks, Ok(network))
                   && SubnetStep(c, n, c', pool.meta.id, network.meta.id, Ok(n'));
    var subnet :| Converges(DriftTODO, c.subnets, DesiredSubnet(n, network.meta.id), c'.subnets, Ok(subnet))
                  && n' == n.(status := Status(pool.meta.id, network.meta.id, subnet.meta.id));
    assert DesiredNetwork(n, pool.meta.id).meta == DesiredNetwork(n, NO_ID).meta;
    assert DesiredSubnet(n, network.meta.id).meta == DesiredSubnet(n, NO_ID).meta;
    CreatedIfAbsent(c.pools, DesiredPool(n), c'.pools, pool);
    CreatedIfAbsent(c.networks, DesiredNetwork(n, pool.meta.id), c'.networks, network);
    CreatedIfAbsent(c.subnets, DesiredSubnet(n, network.meta.id), c'.subnets, subnet);
  }

  lemma CreatedIfAbsent<S>(t: Table<S>, desired: Resource<S>, t': Table<S>, created: Resource<S>)
    requires t.Valid() && Absent(t, desired.meta) && Converges(DriftTODO, t, desired, t', Ok(created))
    ensures created.meta.id in t'.items && t'.items[created.meta.id] == created && created.meta.id != NO_ID
    ensures IsCopy(created, desired)
  {
    ConvergesAddsAtMostOne(t, desired, t', Ok(created));
  }

  /** Deleting by recorded ids removes exactly those resources, whether or not they are still there. */
  lemma DeleteById(c: Cloud, n: Network, c': Cloud)
    requires n.status.poolId != NO_ID && n.status.vnetId != NO_ID && n.status.subnetId != NO_ID
    requires Removes(c, n, c', None)
    ensures c' == Cloud(Removed(c.pools, n.status.poolId), Removed(c.networks, n.status.vnetId),
                        Removed(c.subnets, n.status.subnetId))
  {
    RemovesId(c.subnets, DesiredSubnet(n, n.status.vnetId).meta, c'.subnets);
    RemovesId(c.networks, DesiredNetwork(n, n.status.poolId).meta, c'.networks);
    RemovesId(c.pools, DesiredPool(n).meta, c'.pools);
  }

  /** After a success and a deletion of what it reported, nothing of the network's names is left. */
  lemma SuccessThenDeleteLeavesNone(c: Cloud, n: Network, c1: Cloud, n': Network, c2: Cloud)
    requires Unique(c) && NoIds(n) && Attempt(c, n, c1, Ok(n')) && Removes(c1, n', c2, None)
    ensures Absent(c2.pools, DesiredPool(n).meta)
    ensures Absent(c2.networks, DesiredNetwork(n, NO_ID).meta)
    ensures Absent(c2.subnets, DesiredSubnet(n, NO_ID).meta)
    ensures c2.pools.items == c1.pools.items - {n'.status.poolId}
    ensures c2.networks.items == c1.networks.items - {n'.status.vnetId}
    ensures c2.subnets.items == c1.subnets.items - {n'.status.subnetId}
  {
    AttemptKeeps(c, n, c1, Ok(n'));
    ReportedAreTheOnes(c1, n, n');
    DeleteById(c1, n', c2);
  }
}
