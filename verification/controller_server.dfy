/** The controller RPC handlers on the in-memory cloud, and the proof that any serial run of them is
    a run of the abstract machine. */
module ControllerServer {
  import opened Wrappers
  import opened Capacity
  import opened Compute
  import opened DiskValidation
  import opened VolumeId
  import opened Parameters
  import opened Attachments
  import opened ControllerMachine
  import opened FakeCloud

  method DiskIsAttached(volume: Disk, instance: Instance) returns (attached: bool)
    ensures attached <==> Holds(instance.disks, volume.name)
  {
    for i := 0 to |instance.disks|
      invariant forall k :: 0 <= k < i ==> instance.disks[k].deviceName != volume.name
    {
      if instance.disks[i].deviceName == volume.name {
        return true;
      }
    }
    return false;
  }

  /** `incompatible`: attached, but in the other mode. */
  method DiskIsAttachedAndCompatible(volume: Disk, instance: Instance, readWrite: Mode)
    returns (attached: bool, incompatible: bool)
    ensures attached <==> volume.name in AsMap(instance.disks)
    ensures incompatible <==> attached && AsMap(instance.disks)[volume.name] != readWrite
  {
    for i := 0 to |instance.disks|
      invariant forall k :: 0 <= k < i ==> instance.disks[k].deviceName != volume.name
    {
      if instance.disks[i].deviceName == volume.name {
        if instance.disks[i].mode != readWrite {
          return true, true;
        }
        return true, false;
      }
    }
    return false, false;
  }

  type Lists = map<string, Attachments.Attached>

  /** A publish that attaches adds one entry at the end of the node's list. */
  function ListsAfterPublish(m: Machine, lists: Lists, id: string, node: string, hasCapability: bool, readOnly: bool)
    : Lists
  {
    match Addressed(m, id, node, hasCapability)
    case Err(_) => lists
    case Ok(volume) =>
      if volume in m.attached[node] || node !in lists then lists
      else lists[node := lists[node] + [EntryFor(m.disks[volume], ModeOf(readOnly))]]
  }

  function EntryFor(disk: Disk, mode: Mode): AttachedDisk {
    AttachedDisk(disk.name, disk.kind, mode, "", disk.diskType)
  }

  /** The entry a publish adds: under the disk's name, with its kind and type, and read-only exactly
      when asked. All other lists stay as they are. */
  lemma PublishAddsEntry(m: Machine, lists: Lists, id: string, node: string, readOnly: bool)
    requires Addressed(m, id, node, true).Ok? && node in lists
    requires Addressed(m, id, node, true).value !in m.attached[node]
    ensures var lists', volume := ListsAfterPublish(m, lists, id, node, true, readOnly), SplitZoneNameId(id).value.name;
            && lists'.Keys == lists.Keys && (forall n :: n in lists && n != node ==> lists'[n] == lists[n])
            && exists e: AttachedDisk ::
                 && lists'[node] == lists[node] + [e] && volume in m.disks && e.deviceName == m.disks[volume].name
                 && e.kind == m.disks[volume].kind && e.diskType == m.disks[volume].diskType
                 && e.source == "" && (e.mode == READ_ONLY <==> readOnly)
  {
  }

  /** An unpublish that detaches swap-deletes the first entry of that name in the node's list. */
  ghost function ListsAfterUnpublish(m: Machine, lists: Lists, id: string, node: string): Lists {
    match Addressed(m, id, node, true)
    case Err(_) => lists
    case Ok(volume) =>
      if node !in lists || !Holds(lists[node], volume) then lists
      else lists[node := SwapDelete(lists[node], First(lists[node], volume))]
  }

  class GCEControllerServer {
    const cloudProvider: FakeCloudProvider

    constructor (cloudProvider: FakeCloudProvider)
      ensures this.cloudProvider == cloudProvider
    {
      this.cloudProvider := cloudProvider;
    }

    /** On the fake neither the insert nor the wait can fail, so the branches that handle
        `alreadyExists` are in the interleaved model instead. */
    method CreateVolume(req: CreateRequest, order: seq<string>) returns (reply: Reply)
      requires cloudProvider.Valid() && Enumerates(order, req.parameters)
      modifies cloudProvider`disks
      ensures cloudProvider.Valid()
      ensures Outcome(cloudProvider.Abstract(), reply) ==
              CreateStep(cloudProvider.zone, old(cloudProvider.Abstract()), req, order)
      ensures reply.Failed? ==> cloudProvider.disks == old(cloudProvider.disks)
    {
      hide AsMap;
      if |req.name| == 0 {
        return Failed(InvalidArgument);
      }
      if req.capabilities == 0 {
        return Failed(InvalidArgument);
      }
      var capBytes := GetRequestCapacity(req.capacityRange);
      var settings := ApplyParameters(req.parameters, order, cloudProvider.zone);
      if settings.Err? {
        return Failed(settings.code);
      }
      var diskType, configuredZone := settings.value.diskType, settings.value.zone;
      var createResp := Created(capBytes, CombineVolumeId(configuredZone, req.name));
      var existing := cloudProvider.GetAndValidateExistingDisk(
        req.name, diskType, RequiredBytes(req.capacityRange), LimitBytes(req.capacityRange));
      if existing.err.Some? {
        return Failed(existing.err.value);
      }
      if existing.found {
        return createResp;
      }
      var sizeGb := BytesToGb(capBytes);
      if sizeGb < MINIMUM_DISK_SIZE_IN_GB {
        sizeGb := MINIMUM_DISK_SIZE_IN_GB;
      }
      var diskToCreate := Disk(req.name, sizeGb, DESCRIPTION, "", FakeTypeURI(configuredZone, diskType));
      cloudProvider.InsertDisk(diskToCreate);
      return createResp;
    }

    method DeleteVolume(volumeID: string) returns (reply: Reply)
      requires cloudProvider.Valid()
      modifies cloudProvider`disks
      ensures cloudProvider.Valid()
      ensures Outcome(cloudProvider.Abstract(), reply) == DeleteStep(old(cloudProvider.Abstract()), volumeID)
      ensures reply.Failed? ==> cloudProvider.disks == old(cloudProvider.disks)
    {
      hide AsMap;
      if |volumeID| == 0 {
        return Failed(InvalidArgument);
      }
      var id := SplitZoneNameId(volumeID);
      if id.None? {
        // No disk can carry such an identifier, so there is nothing to delete.
        return Deleted;
      }
      cloudProvider.DeleteDisk(id.value.name);
      return Deleted;
    }

    /** Besides refining the abstract step: the node's own list grows by one entry at its end
        exactly when the volume was not attached, and no other list changes. */
    method ControllerPublishVolume(volumeID: string, nodeID: string, hasCapability: bool, readOnly: bool)
      returns (reply: Reply)
      requires cloudProvider.Valid()
      modifies cloudProvider.instances.Values
      ensures cloudProvider.Valid()
      ensures Outcome(cloudProvider.Abstract(), reply) ==
              PublishStep(old(cloudProvider.Abstract()), volumeID, nodeID, hasCapability, readOnly)
      ensures cloudProvider.Lists() == ListsAfterPublish(
                old(cloudProvider.Abstract()), old(cloudProvider.Lists()), volumeID, nodeID, hasCapability, readOnly)
    {
      hide AsMap, SplitZoneNameId, First, SwapDelete, NoDup, Holds,
           FakeCloudProvider.Abstract, FakeCloudProvider.Lists, FakeCloudProvider.Valid;
      if |volumeID| == 0 {
        return Failed(InvalidArgument);
      }
      if |nodeID| == 0 {
        return Failed(InvalidArgument);
      }
      if !hasCapability {
        return Failed(InvalidArgument);
      }
      var id := SplitZoneNameId(volumeID);
      if id.None? {
        return Failed(Unknown);
      }
      var volumeName := id.value.name;
      cloudProvider.Lookup(volumeName, nodeID);
      var disk, diskErr := cloudProvider.GetDiskOrError(volumeName);
      if diskErr {
        return Failed(Unknown);
      }
      var instance, instanceErr := cloudProvider.GetInstanceOrError(nodeID);
      if instanceErr {
        return Failed(Unknown);
      }
      var readWrite := READ_WRITE;
      if readOnly {
        readWrite := READ_ONLY;
      }
      var attached, incompatible := DiskIsAttachedAndCompatible(disk.value, instance, readWrite);
      if incompatible {
        return Failed(AlreadyExists);
      }
      if attached {
        return Published;
      }
      var attachedDisk := AttachedDisk(disk.value.name, disk.value.kind, readWrite, "", disk.value.diskType);
      var err := cloudProvider.AttachDisk(nodeID, attachedDisk);
      reply := if err then Failed(Internal) else Published;
    }

    /** Besides refining the abstract step: the node's own list loses exactly the first entry of that
        name, by swap-delete, and no other list changes. */
    method ControllerUnpublishVolume(volumeID: string, nodeID: string) returns (reply: Reply)
      requires cloudProvider.Valid()
      modifies cloudProvider.instances.Values
      ensures cloudProvider.Valid()
      ensures Outcome(cloudProvider.Abstract(), reply) ==
              UnpublishStep(old(cloudProvider.Abstract()), volumeID, nodeID)
      ensures cloudProvider.Lists() == ListsAfterUnpublish(
                old(cloudProvider.Abstract()), old(cloudProvider.Lists()), volumeID, nodeID)
    {
      hide AsMap, SplitZoneNameId, First, SwapDelete, NoDup, Holds,
           FakeCloudProvider.Abstract, FakeCloudProvider.Lists, FakeCloudProvider.Valid;
      if |volumeID| == 0 {
        return Failed(InvalidArgument);
      }
      if |nodeID| == 0 {
        return Failed(InvalidArgument);
      }
      var id := SplitZoneNameId(volumeID);
      if id.None? {
        return Failed(Unknown);
      }
      var volumeName := id.value.name;
      cloudProvider.Lookup(volumeName, nodeID);
      var disk, diskErr := cloudProvider.GetDiskOrError(volumeName);
      if diskErr {
        return Failed(Unknown);
      }
      var instance, instanceErr := cloudProvider.GetInstanceOrError(nodeID);
      if instanceErr {
        return Failed(Unknown);
      }
      var attached := DiskIsAttached(disk.value, instance);
      if !attached {
        assert AsMap(instance.disks) - {volumeName} == AsMap(instance.disks);
        return Unpublished;
      }
      var err := cloudProvider.DetachDisk(nodeID, volumeName);
      reply := if err then Failed(Internal) else Unpublished;
    }

    /** A publish that attaches, followed directly by its unpublish, gives every list back in its
        original order. */
    method PublishThenUnpublish(volumeID: string, nodeID: string, hasCapability: bool, readOnly: bool)
      returns (published: Reply, unpublished: Reply)
      requires cloudProvider.Valid()
      requires Addressed(cloudProvider.Abstract(), volumeID, nodeID, hasCapability).Ok?
      requires SplitZoneNameId(volumeID).value.name !in cloudProvider.Abstract().attached[nodeID]
      modifies cloudProvider.instances.Values
      ensures cloudProvider.Valid()
      ensures published == Published && unpublished == Unpublished
      ensures cloudProvider.Lists() == old(cloudProvider.Lists())
    {
      hide AsMap, SplitZoneNameId, First, SwapDelete, NoDup, Holds,
           FakeCloudProvider.Abstract, FakeCloudProvider.Lists, FakeCloudProvider.Valid;
      ghost var volume := SplitZoneNameId(volumeID).value.name;
      cloudProvider.Lookup(volume, nodeID);
      ghost var disk := cloudProvider.Abstract().disks[volume];
      ghost var list := cloudProvider.Lists()[nodeID];
      AppendThenDetach(list, EntryFor(disk, ModeOf(readOnly)));
      published := ControllerPublishVolume(volumeID, nodeID, hasCapability, readOnly);
      unpublished := ControllerUnpublishVolume(volumeID, nodeID);
    }

    method Handle(c: Call) returns (reply: Reply)
      requires cloudProvider.Valid() && WellFormed(c)
      modifies cloudProvider`disks, cloudProvider.instances.Values
      ensures cloudProvider.Valid() && Outcome(cloudProvider.Abstract(), reply) ==
              Step(cloudProvider.zone, old(cloudProvider.Abstract()), c)
      ensures reply.Failed? ==>
              cloudProvider.Lists() == old(cloudProvider.Lists()) && cloudProvider.disks == old(cloudProvider.disks)
    {
      match c
      case Create(req, order) => reply := CreateVolume(req, order);
      case Delete(id) => reply := DeleteVolume(id);
      case Publish(id, node, hasCapability, readOnly) =>
        reply := ControllerPublishVolume(id, node, hasCapability, readOnly);
      case Unpublish(id, node) => reply := ControllerUnpublishVolume(id, node);
    }

    /** Whole-run refinement: any serial sequence of RPCs leaves the heap standing for the abstract
        machine's state, answers call by call as that machine does, and keeps the heap invariant. */
    method Serve(calls: seq<Call>) returns (replies: seq<Reply>)
      requires cloudProvider.Valid() && AllWellFormed(calls)
      modifies cloudProvider`disks, cloudProvider.instances.Values
      ensures cloudProvider.Valid()
      ensures cloudProvider.Abstract() == After(cloudProvider.zone, old(cloudProvider.Abstract()), calls)
      ensures |replies| == |calls|
      ensures forall i :: 0 <= i < |calls| ==>
                replies[i] == ReplyTo(cloudProvider.zone, old(cloudProvider.Abstract()), calls, i)
    {
      replies := [];
      ghost var start := cloudProvider.Abstract();
      for k := 0 to |calls|
        invariant cloudProvider.Valid() && |replies| == k
        invariant cloudProvider.instances == old(cloudProvider.instances)
        invariant cloudProvider.Abstract() == After(cloudProvider.zone, start, calls[..k])
        invariant forall i :: 0 <= i < k ==> replies[i] == ReplyTo(cloudProvider.zone, start, calls, i)
      {
        assert calls[..k + 1][..k] == calls[..k];
        var reply := Handle(calls[k]);
        replies := replies + [reply];
      }
      assert calls[..|calls|] == calls;
    }
  }

  /** The whole story from the start: a new cloud, instances registered up front as distinct objects
      with nothing attached, and then any serial run. */
  method ServeFresh(project: string, zone: string, nodes: seq<string>, calls: seq<Call>)
    returns (cloud: FakeCloudProvider, replies: seq<Reply>)
    requires AllWellFormed(calls)
    ensures cloud.Valid() && cloud.zone == zone
    ensures cloud.Abstract() == After(zone, Registered(nodes), calls)
    ensures |replies| == |calls| && forall i :: 0 <= i < |calls| ==>
            replies[i] == ReplyTo(zone, Registered(nodes), calls, i)
  {
    hide AsMap, After, ReplyTo, FakeCloudProvider.Valid, FakeCloudProvider.Abstract;
    cloud := new FakeCloudProvider(project, zone);
    for i := 0 to |nodes|
      invariant fresh(cloud) && cloud.zone == zone
      invariant forall n :: n in cloud.instances ==> fresh(cloud.instances[n])
      invariant cloud.Valid() && cloud.Abstract() == Registered(nodes[..i])
    {
      var instance := new Instance(nodes[i]);
      cloud.InsertInstance(instance, nodes[i]);
      assert nodes[..i + 1] == nodes[..i] + [nodes[i]];
    }
    assert nodes[..|nodes|] == nodes;
    var server := new GCEControllerServer(cloud);
    replies := server.Serve(calls);
  }

  /** No disks, and every node named present with nothing attached. */
  ghost function Registered(nodes: seq<string>): Machine {
    Machine(map[], map n | n in nodes :: map[])
  }
}
