/** An agent pool as a boot disk and an instance, created and deleted step by step. */
module AgentPools {
  import opened Wrappers
  import opened ResourceCRUD

  datatype DiskSpec = DiskSpec(sizeGibibytes: int, imageFamily: string)

  datatype InstanceSpec = InstanceSpec(platform: string, preset: string, bootDisk: Id, subnetId: string,
                                       userData: string, spot: bool)

  /** The ids are NO_ID until a creation has succeeded. */
  datatype Status = Status(instanceId: Id, osDiskId: Id)

  datatype PoolSpec = PoolSpec(projectId: string, kubernetesVersion: string, osDiskSizeGibibytes: int,
                               imageFamily: string, subnetId: string, platform: string, preset: string, spot: bool)

  datatype AgentPool = AgentPool(id: string, spec: PoolSpec, status: Status)

  function DesiredBootDisk(ap: AgentPool): Resource<DiskSpec> {
    Resource(Metadata(ap.status.osDiskId, ap.spec.projectId, ap.id + "-boot"),
             DiskSpec(ap.spec.osDiskSizeGibibytes, ap.spec.imageFamily))
  }

  function DesiredInstance(ap: AgentPool, osDisk: Id, userData: string): Resource<InstanceSpec> {
    Resource(Metadata(ap.status.instanceId, ap.spec.projectId, ap.id),
             InstanceSpec(ap.spec.platform, ap.spec.preset, osDisk, ap.spec.subnetId, userData, ap.spec.spot))
  }

  /** Rejected is an invalid request; CleanedUp tells whether the disk was deleted after the instance failed. */
  datatype CreateResult =
    | Created(ap: AgentPool)
    | Rejected
    | DiskFailed
    | InstanceFailed(cleanedUp: bool)

  /** The two tables of the cloud. */
  datatype Cloud = Cloud(disks: Table<DiskSpec>, instances: Table<InstanceSpec>)
  {
    ghost predicate Valid() { disks.Valid() && instances.Valid() }
  }

  // ---- Specification ----

  /** One CreateOrUpdate; `userData` is None if generating it fails. */
  ghost predicate Creates(c: Cloud, ap: AgentPool, userData: Option<string>, c': Cloud, r: CreateResult) {
    match r
    case Rejected => (ap.spec.kubernetesVersion == "" || userData.None?) && c' == c
    case DiskFailed =>
      c'.instances == c.instances && exists e :: Converges(DriftTODO, c.disks, DesiredBootDisk(ap), c'.disks, Err(e))
    case InstanceFailed(cleanedUp) =>
      userData.Some? && exists disks1, disk :: FailsAfterDisk(c, ap, userData.value, disks1, disk, c', cleanedUp)
    case Created(ap') =>
      userData.Some? && exists disk, instance :: Succeeds(c, ap, userData.value, disk, instance, c', ap')
  }

  ghost predicate FailsAfterDisk(c: Cloud, ap: AgentPool, userData: string, disks1: Table<DiskSpec>,
                                 disk: Resource<DiskSpec>, c': Cloud, cleanedUp: bool)
  {
    && Converges(DriftTODO, c.disks, DesiredBootDisk(ap), disks1, Ok(disk))
    && (exists e :: Converges(DriftTODO, c.instances, DesiredInstance(ap, disk.meta.id, userData), c'.instances, Err(e)))
    && (if cleanedUp then Deletes(disks1, disk.meta, c'.disks, None)
        else exists e :: Deletes(disks1, disk.meta, c'.disks, Some(e)))
  }

  ghost predicate Succeeds(c: Cloud, ap: AgentPool, userData: string, disk: Resource<DiskSpec>,
                           instance: Resource<InstanceSpec>, c': Cloud, ap': AgentPool)
  {
    && Converges(DriftTODO, c.disks, DesiredBootDisk(ap), c'.disks, Ok(disk))
    && Converges(DriftTODO, c.instances, DesiredInstance(ap, disk.meta.id, userData), c'.instances, Ok(instance))
    && ap' == ap.(status := Status(instance.meta.id, disk.meta.id))
  }

  /** One Delete of a stored pool: the instance first, then its disk. */
  ghost predicate Removes(c: Cloud, ap: AgentPool, c': Cloud, e: Option<CloudError>) {
    var disk, instance := DesiredBootDisk(ap).meta, DesiredInstance(ap, ap.status.osDiskId, "").meta;
    || (e.Some? && Deletes(c.instances, instance, c'.instances, e) && c'.disks == c.disks)
    || (Deletes(c.instances, instance, c'.instances, None) && Deletes(c.disks, disk, c'.disks, e))
  }

  // ---- The server ----

  class Server {
    const disks: Service<DiskSpec>
    const instances: Service<InstanceSpec>

    constructor (disks: Service<DiskSpec>, instances: Service<InstanceSpec>)
      ensures this.disks == disks && this.instances == instances
    {
      this.disks := disks;
      this.instances := instances;
    }

    ghost function Current(): Cloud
      reads disks, instances
    {
      Cloud(disks.table, instances.table)
    }

    method CreateOrUpdate(ap: AgentPool, userData: Option<string>) returns (r: CreateResult)
      requires Current().Valid()
      modifies disks, instances
      ensures Current().Valid()
      ensures Creates(old(Current()), ap, userData, Current(), r)
      ensures r == Rejected <==> ap.spec.kubernetesVersion == "" || userData.None?
      ensures r == Rejected ==> Current() == old(Current())
      ensures disks.reliable ==> r != DiskFailed && r != InstanceFailed(false)
      ensures instances.reliable ==> !r.InstanceFailed?
    {
      if ap.spec.kubernetesVersion == "" {
        return Rejected;
      }
      if userData.None? {
        return Rejected;
      }
      ghost var c := Current();
      var bootDisk := disks.CreateOrUpdate(DriftTODO, DesiredBootDisk(ap));
      if bootDisk.Err? {
        return DiskFailed;
      }
      ghost var disks1 := disks.table;
      var desired := DesiredInstance(ap, bootDisk.value.meta.id, userData.value);
      var instance := instances.CreateOrUpdate(DriftTODO, desired);
      if instance.Err? {
        var e := disks.Delete(bootDisk.value);
        assert FailsAfterDisk(c, ap, userData.value, disks1, bootDisk.value, Current(), e.None?);
        return InstanceFailed(e.None?);
      }
      var ap' := ap.(status := Status(instance.value.meta.id, bootDisk.value.meta.id));
      assert Succeeds(c, ap, userData.value, bootDisk.value, instance.value, Current(), ap');
      return Created(ap');
    }

    /** A pool that is not stored counts as deleted. */
    method Delete(stored: Option<AgentPool>) returns (e: Option<CloudError>)
      requires Current().Valid()
      modifies disks, instances
      ensures Current().Valid()
      ensures match stored
              case None => e == None && Current() == old(Current())
              case Some(ap) => Removes(old(Current()), ap, Current(), e)
      ensures disks.reliable && instances.reliable ==> e == None
    {
      if stored.None? {
        return None;
      }
      var osDisk := DesiredBootDisk(stored.value);
      var instance := DesiredInstance(stored.value, osDisk.meta.id, "");
      e := instances.Delete(instance);
      if e.Some? {
        return;
      }
      e := disks.Delete(osDisk);
    }
  }

  // ---- Create then delete ----

  /** Neither name is in use and no ids are recorded. */
  ghost predicate Unused(c: Cloud, ap: AgentPool) {
    && ap.status == Status(NO_ID, NO_ID)
    && Absent(c.disks, DesiredBootDisk(ap).meta)
    && Absent(c.instances, DesiredInstance(ap, NO_ID, "").meta)
  }

  lemma AbsentIgnoresSpec(c: Cloud, ap: AgentPool, disk: Id, userData: string)
    ensures DesiredInstance(ap, disk, userData).meta == DesiredInstance(ap, NO_ID, "").meta
  {}

  /**
   What success means under unused names, a corollary of ConvergesAddsAtMostOne:
   one disk and one instance booting from it, recorded in the status.
   */
  lemma CreateAddsExactlyTwo(c: Cloud, ap: AgentPool, userData: Option<string>, c': Cloud, ap': AgentPool)
    requires c.Valid() && Unused(c, ap) && Creates(c, ap, userData, c', Created(ap'))
    ensures ap' == ap.(status := Status(c.instances.next, c.disks.next))
    ensures c'.disks == Added(c.disks, DesiredBootDisk(ap))
    ensures c'.instances == Added(c.instances, DesiredInstance(ap, ap'.status.osDiskId, userData.value))
  {
    var disk, instance :| Succeeds(c, ap, userData.value, disk, instance, c', ap');
    ConvergesAddsAtMostOne(c.disks, DesiredBootDisk(ap), c'.disks, Ok(disk));
    AbsentIgnoresSpec(c, ap, disk.meta.id, userData.value);
    ConvergesAddsAtMostOne(c.instances, DesiredInstance(ap, disk.meta.id, userData.value), c'.instances, Ok(instance));
  }

  /** What a creation under unused names has put into the cloud, field by field. */
  lemma CreatedFieldByField(c: Cloud, ap: AgentPool, userData: Option<string>, c': Cloud, ap': AgentPool)
    requires c.Valid() && Unused(c, ap) && Creates(c, ap, userData, c', Created(ap'))
    ensures ap'.id == ap.id && ap'.spec == ap.spec && userData.Some?
    ensures var id, disk := ap'.status.instanceId, ap'.status.osDiskId;
            && id !in c.instances.items && id in c'.instances.items
            && var instance := c'.instances.items[id];
               && instance.meta.id == id && instance.meta.parentId == ap.spec.projectId && instance.meta.name == ap.id
               && instance.spec.platform == ap.spec.platform && instance.spec.preset == ap.spec.preset
               && instance.spec.bootDisk == disk && instance.spec.subnetId == ap.spec.subnetId
               && instance.spec.userData == userData.value && instance.spec.spot == ap.spec.spot
    ensures var disk := ap'.status.osDiskId;
            && disk !in c.disks.items && disk in c'.disks.items
            && var bootDisk := c'.disks.items[disk];
               && bootDisk.meta.id == disk && bootDisk.meta.parentId == ap.spec.projectId
               && bootDisk.meta.name == ap.id + "-boot"
               && bootDisk.spec.sizeGibibytes == ap.spec.osDiskSizeGibibytes
               && bootDisk.spec.imageFamily == ap.spec.imageFamily
  {
    CreateAddsExactlyTwo(c, ap, userData, c', ap');
  }

  /** A disk goes only once the pool's instance has gone: an instance that is still found keeps its disk. */
  lemma DiskGoesLast(c: Cloud, ap: AgentPool, c': Cloud, e: Option<CloudError>)
    requires c.Valid() && Removes(c, ap, c', e)
    requires ap.status.instanceId != NO_ID || UniqueNames(c.instances)
    ensures c'.disks == c.disks || Absent(c'.instances, DesiredInstance(ap, NO_ID, "").meta)
  {
    var instance := DesiredInstance(ap, ap.status.osDiskId, "").meta;
    assert instance == DesiredInstance(ap, NO_ID, "").meta;
    if c'.disks != c.disks {
      assert Deletes(c.instances, instance, c'.instances, None);
      if id :| Finds(c.instances, instance, id) && c'.instances == Removed(c.instances, id) {
        assert forall j :: Finds(c.instances, instance, j) ==> j == id;
      }
    }
  }

  /** Deleting by recorded ids removes exactly those resources, whether or not they are still there. */
  lemma DeleteById(c: Cloud, ap: AgentPool, c': Cloud)
    requires c.Valid() && ap.status.instanceId != NO_ID && ap.status.osDiskId != NO_ID
    requires Removes(c, ap, c', None)
    ensures c' == Cloud(Removed(c.disks, ap.status.osDiskId), Removed(c.instances, ap.status.instanceId))
  {
    RemovesId(c.disks, DesiredBootDisk(ap).meta, c'.disks);
    RemovesId(c.instances, DesiredInstance(ap, ap.status.osDiskId, "").meta, c'.instances);
  }

  /** Create, then delete the pool as stored: every resource is as before, and deleting again changes nothing. */
  lemma CreateThenDeleteRestores(c: Cloud, ap: AgentPool, userData: Option<string>, c1: Cloud, ap': AgentPool,
                                 c2: Cloud, c3: Cloud)
    requires c.Valid() && Unused(c, ap) && Creates(c, ap, userData, c1, Created(ap'))
    requires Removes(c1, ap', c2, None) && Removes(c2, ap', c3, None)
    ensures c2.disks.items == c.disks.items && c2.instances.items == c.instances.items
    ensures c3 == c2
  {
    CreateAddsExactlyTwo(c, ap, userData, c1, ap');
    DeleteById(c1, ap', c2);
    DeleteById(c2, ap', c3);
    assert c2.disks.items - {ap'.status.osDiskId} == c2.disks.items;
    assert c2.instances.items - {ap'.status.instanceId} == c2.instances.items;
  }

  /** A deletion that fails has at most removed resources of the pool; trying again finishes it. */
  lemma DeleteRetryFinishes(c: Cloud, ap: AgentPool, c1: Cloud, e: Option<CloudError>, c2: Cloud)
    requires c.Valid() && ap.status.instanceId != NO_ID && ap.status.osDiskId != NO_ID
    requires Removes(c, ap, c1, e) && Removes(c1, ap, c2, None)
    ensures c2 == Cloud(Removed(c.disks, ap.status.osDiskId), Removed(c.instances, ap.status.instanceId))
  {
    DeletesValid(c.disks, DesiredBootDisk(ap).meta, c1.disks, e);
    var instance := DesiredInstance(ap, ap.status.osDiskId, "").meta;
    DeletesValid(c.instances, instance, c1.instances, if e.Some? && c1.disks == c.disks then e else None);
    DeleteById(c1, ap, c2);
    assert c.disks.items - {ap.status.osDiskId} - {ap.status.osDiskId} == c.disks.items - {ap.status.osDiskId};
    assert c.instances.items - {ap.status.instanceId} - {ap.status.instanceId}
           == c.instances.items - {ap.status.instanceId};
  }

  lemma DeletesValid<S>(t: Table<S>, wanted: Metadata, t': Table<S>, e: Option<CloudError>)
    requires t.Valid()
    ensures Deletes(t, wanted, t', e) ==> t'.Valid()
    ensures Deletes(t, wanted, t', e) && wanted.id != NO_ID ==> t' == t || t' == Removed(t, wanted.id)
  {}

  // ---- The disk an instance boots from ----

  /** Disks that instances boot from were given out ids; they may be gone. */
  ghost predicate BootDisksIssued(c: Cloud) {
    forall i :: i in c.instances.items ==> c.instances.items[i].spec.bootDisk < c.disks.next
  }

  ghost predicate Sound(c: Cloud) {
    c.Valid() && UniqueNames(c.disks) && UniqueNames(c.instances) && BootDisksIssued(c)
  }

  /** What the pool's lookups find: an instance that boots from the disk they find, or no instance. */
  ghost predicate LookupsAgree(c: Cloud, ap: AgentPool) {
    var disk, instance := DesiredBootDisk(ap).meta, DesiredInstance(ap, NO_ID, "").meta;
    || Absent(c.instances, instance)
    || exists i, d :: Finds(c.instances, instance, i) && Finds(c.disks, disk, d) && c.instances.items[i].spec.bootDisk == d
  }

  /** The disk a success reports is the one the reported instance boots from. */
  ghost predicate ReportsBootDisk(c': Cloud, ap': AgentPool) {
    && ap'.status.instanceId in c'.instances.items
    && c'.instances.items[ap'.status.instanceId].spec.bootDisk == ap'.status.osDiskId
  }

  /** A success, with or without recorded ids, reports the disk its instance boots from exactly if the lookups agree. */
  lemma ReportsBootDiskIff(c: Cloud, ap: AgentPool, userData: Option<string>, c': Cloud, ap': AgentPool)
    requires Sound(c) && Creates(c, ap, userData, c', Created(ap'))
    ensures ReportsBootDisk(c', ap') <==> LookupsAgree(c, ap)
  {
    var disk, instance :| Succeeds(c, ap, userData.value, disk, instance, c', ap');
    var wantedDisk, wanted := DesiredBootDisk(ap), DesiredInstance(ap, disk.meta.id, userData.value);
    AbsentIgnoresSpec(c, ap, disk.meta.id, userData.value);
    ConvergesAddsAtMostOne(c.disks, wantedDisk, c'.disks, Ok(disk));
    ConvergesAddsAtMostOne(c.instances, wanted, c'.instances, Ok(instance));
    if !Absent(c.instances, wanted.meta) {
      var i :| Finds(c.instances, wanted.meta, i) && FoundAs(DriftTODO, c.instances, c.instances.items[i], wanted, c'.instances, instance);
      assert forall j :: Finds(c.instances, wanted.meta, j) ==> j == i;
      assert forall d :: Finds(c.disks, wantedDisk.meta, d) ==> d == disk.meta.id;
    }
  }

  // ---- Failures ----

  /**
   After the instance failed and the clean-up succeeded the disks are as before
   if and only if the boot disk had not existed: one that had is deleted.
   */
  lemma CleanUpRestoresIff(c: Cloud, ap: AgentPool, userData: Option<string>, c': Cloud)
    requires c.Valid() && Creates(c, ap, userData, c', InstanceFailed(true))
    ensures c'.disks.items == c.disks.items <==> Absent(c.disks, DesiredBootDisk(ap).meta)
  {
    var disks1, disk :| FailsAfterDisk(c, ap, userData.value, disks1, disk, c', true);
    ConvergesAddsAtMostOne(c.disks, DesiredBootDisk(ap), disks1, Ok(disk));
    assert disk.meta.id in disks1.items && disk.meta.id != NO_ID;
    RemovesId(disks1, disk.meta, c'.disks);
    if Absent(c.disks, DesiredBootDisk(ap).meta) {
      assert c'.disks.items == c.disks.items;
    }
  }

  /**
   Whatever the outcome, a resource that is not the pool's own by id or name is
   left alone, as each of its convergences and deletions leaves it.
   */
  lemma OthersUntouched(c: Cloud, ap: AgentPool, userData: Option<string>, c': Cloud, r: CreateResult, id: Id)
    requires c.Valid() && Creates(c, ap, userData, c', r)
    ensures id in c.disks.items && !Finds(c.disks, DesiredBootDisk(ap).meta, id) ==>
              id in c'.disks.items && c'.disks.items[id] == c.disks.items[id]
    ensures id in c.instances.items ==>
              id in c'.instances.items && c'.instances.items[id] == c.instances.items[id]
  {
    match r
    case Rejected =>
    case DiskFailed =>
    case InstanceFailed(cleanedUp) =>
      var disks1, disk :| FailsAfterDisk(c, ap, userData.value, disks1, disk, c', cleanedUp);
      ConvergesAddsAtMostOne(c.disks, DesiredBootDisk(ap), disks1, Ok(disk));
      assert disk.meta.id != NO_ID;
    case Created(ap') =>
      var disk, instance :| Succeeds(c, ap, userData.value, disk, instance, c', ap');
  }

  /**
   If the reply to creating the instance was lost, the clean-up takes the disk
   away under it, and the next success reports a disk the instance does not boot
   from.
   */
  lemma LostReplyLeavesWrongDisk(c: Cloud, ap: AgentPool, userData: Option<string>, c1: Cloud, c2: Cloud, ap': AgentPool)
    requires c.Valid() && Unused(c, ap)
    requires Creates(c, ap, userData, c1, InstanceFailed(true)) && c1.instances != c.instances
    requires c1.Valid() && Creates(c1, ap, userData, c2, Created(ap'))
    ensures ap'.status.instanceId in c2.instances.items
    ensures c2.instances.items[ap'.status.instanceId].spec.bootDisk !in c2.disks.items
    ensures ap'.status.osDiskId in c2.disks.items
  {
    var u := userData.value;
    var disks1, disk :| FailsAfterDisk(c, ap, u, disks1, disk, c1, true);
    ConvergesAddsAtMostOne(c.disks, DesiredBootDisk(ap), disks1, Ok(disk));
    RemovesId(disks1, disk.meta, c1.disks);
    AbsentIgnoresSpec(c, ap, disk.meta.id, u);
    var lost := DesiredInstance(ap, disk.meta.id, u);
    assert c1.instances == Added(c.instances, lost);
    var disk2, instance :| Succeeds(c1, ap, u, disk2, instance, c2, ap');
    ConvergesAddsAtMostOne(c1.disks, DesiredBootDisk(ap), c2.disks, Ok(disk2));
    ConvergesAddsAtMostOne(c1.instances, DesiredInstance(ap, disk2.meta.id, u), c2.instances, Ok(instance));
    OnlyOneFound(c, ap, lost, disk2.meta.id, u, instance.meta.id);
  }

  /** In a table where the pool's instance had been absent, only the added one is found. */
  lemma OnlyOneFound(c: Cloud, ap: AgentPool, lost: Resource<InstanceSpec>, disk: Id, userData: string, id: Id)
    requires c.Valid() && Unused(c, ap) && lost.meta == DesiredInstance(ap, disk, userData).meta
    ensures var t := Added(c.instances, lost);
            && Finds(t, DesiredInstance(ap, disk, userData).meta, c.instances.next)
            && (Finds(t, DesiredInstance(ap, disk, userData).meta, id) ==> id == c.instances.next)
  {
    assert !Finds(c.instances, DesiredInstance(ap, NO_ID, "").meta, id);
  }
}
