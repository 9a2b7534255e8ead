/** Runs of attempts to create agent pools, each failing at any step or succeeding. */
module AgentPoolRuns {
  import opened Wrappers
  import opened ResourceCRUD
  import opened AgentPools

  ghost predicate NoIds(ap: AgentPool) { ap.status == Status(NO_ID, NO_ID) }

  ghost predicate IsDiskOf(c: Cloud, ap: AgentPool, id: Id) {
    id in c.disks.items && SameName(c.disks.items[id].meta, DesiredBootDisk(ap).meta)
  }

  ghost predicate IsInstanceOf(c: Cloud, ap: AgentPool, id: Id) {
    id in c.instances.items && SameName(c.instances.items[id].meta, DesiredInstance(ap, NO_ID, "").meta)
  }

  ghost predicate HasInstance(c: Cloud, ap: AgentPool) { exists i :: IsInstanceOf(c, ap, i) }

  ghost predicate HasDisk(c: Cloud, ap: AgentPool) { exists d :: IsDiskOf(c, ap, d) }

  /** What exists as the pool's instance boots from what exists as its disk. */
  ghost predicate Attached(c: Cloud, ap: AgentPool) {
    forall i :: IsInstanceOf(c, ap, i) ==> IsDiskOf(c, ap, c.instances.items[i].spec.bootDisk)
  }

  ghost predicate SamePool(a: AgentPool, b: AgentPool) {
    a.spec.projectId == b.spec.projectId && a.id == b.id
  }

  /** The way to lose the connection: a failed attempt that leaves the pool's instance without its disk. */
  ghost predicate Detaches(ap: AgentPool, c': Cloud, r: CreateResult, m: AgentPool) {
    r.InstanceFailed? && SamePool(ap, m) && HasInstance(c', m) && !HasDisk(c', m)
  }

  // ---- The three things a step may do ----

  lemma BootNameInjective(a: AgentPool, b: AgentPool)
    ensures SameName(DesiredBootDisk(a).meta, DesiredBootDisk(b).meta) <==> SamePool(a, b)
  {
    if a.id + "-boot" == b.id + "-boot" {
      assert |a.id| == |b.id|;
      assert a.id == (a.id + "-boot")[..|a.id|] && b.id == (b.id + "-boot")[..|b.id|];
    }
  }

  lemma DiskAdded(c: Cloud, ap: AgentPool, c': Cloud, m: AgentPool)
    requires Sound(c) && c' == c.(disks := Added(c.disks, DesiredBootDisk(ap))) && UniqueNames(c'.disks)
    ensures Sound(c') && (Attached(c', m) <==> Attached(c, m))
  {
    assert forall i :: IsInstanceOf(c', m, i) <==> IsInstanceOf(c, m, i);
    assert forall d :: d != c.disks.next ==> (IsDiskOf(c', m, d) <==> IsDiskOf(c, m, d));
  }

  lemma InstanceAdded(c: Cloud, ap: AgentPool, disk: Id, userData: string, c': Cloud, m: AgentPool)
    requires Sound(c) && IsDiskOf(c, ap, disk)
    requires c' == c.(instances := Added(c.instances, DesiredInstance(ap, disk, userData))) && UniqueNames(c'.instances)
    ensures Sound(c') && (Attached(c', m) <==> Attached(c, m))
  {
    assert forall d :: IsDiskOf(c', m, d) <==> IsDiskOf(c, m, d);
    assert forall i :: i != c.instances.next ==> (IsInstanceOf(c', m, i) <==> IsInstanceOf(c, m, i));
    BootNameInjective(ap, m);
  }

  /** Taking the disk away is what may detach, and only the pool itself. */
  lemma DiskRemoved(c: Cloud, ap: AgentPool, disk: Id, c': Cloud, m: AgentPool)
    requires Sound(c) && IsDiskOf(c, ap, disk)
    requires c' == c.(disks := Removed(c.disks, disk))
    ensures Sound(c')
    ensures Attached(c', m) <==> Attached(c, m) && !(SamePool(ap, m) && HasInstance(c', m) && !HasDisk(c', m))
  {
    BootNameInjective(ap, m);
    assert forall i :: IsInstanceOf(c', m, i) <==> IsInstanceOf(c, m, i);
    assert forall d :: IsDiskOf(c', m, d) <==> IsDiskOf(c, m, d) && d != disk;
    if SamePool(ap, m) {
      assert forall d :: IsDiskOf(c, m, d) ==> d == disk;
      assert !HasDisk(c', m);
    }
  }

  // ---- One attempt ----

  lemma DiskStep(c: Cloud, ap: AgentPool, disks': Table<DiskSpec>, r: Result<Resource<DiskSpec>, CloudError>, m: AgentPool)
    requires Sound(c) && NoIds(ap) && Converges(DriftTODO, c.disks, DesiredBootDisk(ap), disks', r)
    ensures var c' := c.(disks := disks');
            && Sound(c') && (Attached(c', m) <==> Attached(c, m))
            && (r.Ok? ==> IsDiskOf(c', ap, r.value.meta.id))
  {
    StepAdds(c.disks, DesiredBootDisk(ap), disks', r);
    if disks' != c.disks {
      DiskAdded(c, ap, c.(disks := disks'), m);
    }
  }

  lemma InstanceStep(c: Cloud, ap: AgentPool, disk: Id, userData: string, instances': Table<InstanceSpec>,
                     r: Result<Resource<InstanceSpec>, CloudError>, m: AgentPool)
    requires Sound(c) && NoIds(ap) && IsDiskOf(c, ap, disk)
    requires Converges(DriftTODO, c.instances, DesiredInstance(ap, disk, userData), instances', r)
    ensures var c' := c.(instances := instances'); Sound(c') && (Attached(c', m) <==> Attached(c, m))
  {
    StepAdds(c.instances, DesiredInstance(ap, disk, userData), instances', r);
    if instances' != c.instances {
      InstanceAdded(c, ap, disk, userData, c.(instances := instances'), m);
    }
  }

  lemma NothingDetached(c: Cloud, ap: AgentPool, m: AgentPool)
    ensures Attached(c, m) ==> !(HasInstance(c, m) && !HasDisk(c, m))
  {}

  /** An attempt detaches a pool in one way only, and attaches none that was detached. */
  lemma AttemptAttachesIff(c: Cloud, ap: AgentPool, userData: Option<string>, c': Cloud, r: CreateResult, m: AgentPool)
    requires Sound(c) && NoIds(ap) && Creates(c, ap, userData, c', r)
    ensures Sound(c')
    ensures Attached(c', m) <==> Attached(c, m) && !Detaches(ap, c', r, m)
  {
    match r
    case Rejected =>
    case DiskFailed =>
      var e :| Converges(DriftTODO, c.disks, DesiredBootDisk(ap), c'.disks, Err(e));
      DiskStep(c, ap, c'.disks, Err(e), m);
      assert c' == c.(disks := c'.disks);
    case InstanceFailed(cleanedUp) =>
      var disks1, disk :| FailsAfterDisk(c, ap, userData.value, disks1, disk, c', cleanedUp);
      var e :| Converges(DriftTODO, c.instances, DesiredInstance(ap, disk.meta.id, userData.value), c'.instances, Err(e));
      var c1 := c.(disks := disks1);
      var c2 := c1.(instances := c'.instances);
      DiskStep(c, ap, disks1, Ok(disk), m);
      InstanceStep(c1, ap, disk.meta.id, userData.value, c'.instances, Err(e), m);
      assert c'.disks == disks1 || c'.disks == Removed(disks1, disk.meta.id);
      if c'.disks == disks1 {
        assert c' == c2;
        NothingDetached(c', ap, m);
      } else {
        assert IsDiskOf(c2, ap, disk.meta.id);
        DiskRemoved(c2, ap, disk.meta.id, c', m);
      }
    case Created(ap') =>
      var disk, instance :| Succeeds(c, ap, userData.value, disk, instance, c', ap');
      var c1 := c.(disks := c'.disks);
      DiskStep(c, ap, c'.disks, Ok(disk), m);
      InstanceStep(c1, ap, disk.meta.id, userData.value, c'.instances, Ok(instance), m);
      assert c' == c1.(instances := c'.instances);
  }

  lemma LookupsAgreeIff(c: Cloud, ap: AgentPool)
    requires Sound(c) && NoIds(ap)
    ensures LookupsAgree(c, ap) <==> Attached(c, ap)
  {
    var disk, instance := DesiredBootDisk(ap).meta, DesiredInstance(ap, NO_ID, "").meta;
    assert forall i :: IsInstanceOf(c, ap, i) <==> Finds(c.instances, instance, i);
    assert forall d :: IsDiskOf(c, ap, d) <==> Finds(c.disks, disk, d);
  }

  // ---- Runs ----

  /** One attempt after the other, for any pools, none carrying ids. */
  ghost predicate Attempts(cs: seq<Cloud>, aps: seq<AgentPool>, data: seq<Option<string>>, rs: seq<CreateResult>) {
    && |cs| == |aps| + 1 && |data| == |rs| == |aps|
    && forall i {:trigger aps[i]} :: 0 <= i < |aps| ==> NoIds(aps[i]) && Creates(cs[i], aps[i], data[i], cs[i + 1], rs[i])
  }

  /** Some of the first k attempts detached m. */
  ghost predicate Detached(cs: seq<Cloud>, aps: seq<AgentPool>, rs: seq<CreateResult>, m: AgentPool, k: nat)
    requires k <= |aps| && |cs| == |aps| + 1 && |rs| == |aps|
  {
    exists i :: 0 <= i < k && Detaches(aps[i], cs[i + 1], rs[i], m)
  }

  lemma DetachedNext(cs: seq<Cloud>, aps: seq<AgentPool>, rs: seq<CreateResult>, m: AgentPool, k: nat)
    requires k < |aps| && |cs| == |aps| + 1 && |rs| == |aps|
    ensures Detached(cs, aps, rs, m, k + 1) <==>
            Detached(cs, aps, rs, m, k) || Detaches(aps[k], cs[k + 1], rs[k], m)
  {}

  /**
   After any attempts for any pools, a pool's instance boots from its disk
   exactly if it did at the start and no failed attempt for that pool has left
   an instance without its disk. Names stay unique throughout.
   */
  lemma {:induction false} AttachedIff(cs: seq<Cloud>, aps: seq<AgentPool>, data: seq<Option<string>>,
                                       rs: seq<CreateResult>, m: AgentPool, k: nat)
    requires Attempts(cs, aps, data, rs) && k < |cs| && Sound(cs[0])
    ensures Sound(cs[k])
    ensures Attached(cs[k], m) <==> Attached(cs[0], m) && !Detached(cs, aps, rs, m, k)
  {
    if k > 0 {
      var last := k - 1;
      AttachedIff(cs, aps, data, rs, m, last);
      AttemptAttachesIff(cs[last], aps[last], data[last], cs[last + 1], rs[last], m);
      DetachedNext(cs, aps, rs, m, last);
    }
  }

  /** So exactly then does a success after any attempts report the disk its instance boots from. */
  lemma RunReportsBootDiskIff(cs: seq<Cloud>, aps: seq<AgentPool>, data: seq<Option<string>>, rs: seq<CreateResult>,
                              k: nat)
    requires Attempts(cs, aps, data, rs) && k < |aps| && Sound(cs[0]) && rs[k].Created?
    ensures ReportsBootDisk(cs[k + 1], rs[k].ap) <==>
            Attached(cs[0], aps[k]) && !Detached(cs, aps, rs, aps[k], k)
  {
    AttachedIff(cs, aps, data, rs, aps[k], k);
    ReportsBootDiskIff(cs[k], aps[k], data[k], cs[k + 1], rs[k].ap);
    LookupsAgreeIff(cs[k], aps[k]);
  }
}
