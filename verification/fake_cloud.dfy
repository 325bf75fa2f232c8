/** The in-memory cloud: a map of disks, and instances holding a slice of attached disks each. */
module FakeCloud {
  import opened Wrappers
  import opened Capacity
  import opened Compute
  import opened DiskValidation
  import opened Attachments
  import opened ControllerMachine

  class Instance {
    const name: string
    var disks: Attachments.Attached

    constructor (name: string)
      ensures this.name == name && disks == []
    {
      this.name := name;
      disks := [];
    }
  }

  /** What GetAndValidateExistingDisk answers. */
  datatype Existing = Existing(found: bool, err: Option<Code>)

  class FakeCloudProvider {
    const project: string
    const zone: string
    // A Go map of pointers: an entry may hold nil.
    var disks: map<string, Option<Disk>>
    var instances: map<string, Instance>

    /** No nil disk, every disk under its own name, one instance object per name, and no instance
        with two attached disks of one device name. */
    ghost predicate Valid()
      reads this, instances.Values
    {
      && (forall k :: k in disks ==> disks[k].Some? && disks[k].value.name == k)
      && (forall m, n :: m in instances && n in instances && m != n ==> instances[m] != instances[n])
      && (forall n :: n in instances ==> NoDup(instances[n].disks))
    }

    ghost function StoredDisks(): map<string, Disk>
      reads this
    {
      map k | k in disks && disks[k].Some? :: disks[k].value
    }

    /** The attached-disk slice of every instance, entry by entry. */
    ghost function Lists(): map<string, Attachments.Attached>
      reads this, instances.Values
    {
      map n | n in instances :: instances[n].disks
    }

    /** The abstract machine this heap stands for. */
    ghost function Abstract(): Machine
      reads this, instances.Values
    {
      Machine(StoredDisks(), map n | n in instances :: AsMap(instances[n].disks))
    }

    /** The abstract machine with the modes of one instance replaced. */
    ghost function WithModes(node: string, modes: map<string, Mode>): Machine
      reads this, instances.Values
    {
      Abstract().(attached := Abstract().attached[node := modes])
    }

    ghost function WithDisks(stored: map<string, Disk>): Machine
      reads this, instances.Values
    {
      Abstract().(disks := stored)
    }

    /** What the abstract machine and the lists show of one volume and one node. */
    lemma Lookup(volume: string, node: string)
      requires Valid()
      ensures volume in disks <==> volume in Abstract().disks
      ensures volume in disks ==>
              disks[volume] == Some(Abstract().disks[volume]) && Abstract().disks[volume].name == volume
      ensures node in instances <==> node in Abstract().attached
      ensures node in instances <==> node in Lists()
      ensures node in instances ==>
                && Lists()[node] == instances[node].disks
                && Abstract().attached[node] == AsMap(instances[node].disks)
                && (Holds(instances[node].disks, volume) <==> volume in Abstract().attached[node])
    {
    }

    /** Only the slice of the instance registered as `node` differs from before. */
    twostate predicate OnlyListOf(node: string)
      reads this, instances.Values
    {
      && disks == old(disks) && instances == old(instances) && node in instances
      && forall n :: n in instances && n != node ==> instances[n].disks == old(instances[n].disks)
    }

    twostate lemma OneListChanged(node: string)
      requires OnlyListOf(node)
      ensures Lists() == old(Lists())[node := instances[node].disks]
      ensures Abstract() == old(Abstract()).(attached := old(Abstract()).attached[node := AsMap(instances[node].disks)])
    {
      hide AsMap;
    }

    twostate lemma OneListValid(node: string)
      requires old(Valid()) && OnlyListOf(node) && NoDup(instances[node].disks)
      ensures Valid()
    {
      hide NoDup;
    }

    constructor (project: string, zone: string)
      ensures Valid() && Abstract() == Machine(map[], map[])
      ensures this.project == project && this.zone == zone && instances == map[]
    {
      this.project := project;
      this.zone := zone;
      disks := map[];
      instances := map[];
    }

    /** Registering a new object with nothing attached keeps the invariant. */
    method InsertInstance(instance: Instance, instanceName: string)
      modifies this`instances
      ensures instances == old(instances)[instanceName := instance]
      ensures old(Valid()) && instance !in old(instances.Values) && instance.disks == [] ==>
                Valid() && Abstract() == old(Abstract()).(attached := old(Abstract()).attached[instanceName := map[]])
    {
      assert AsMap([]) == map[];
      hide AsMap;
      instances := instances[instanceName := instance];
    }

    method GetDiskOrError(volumeName: string) returns (disk: Option<Disk>, err: bool)
      ensures err <==> volumeName !in disks
      ensures !err ==> disk == disks[volumeName]
    {
      if volumeName !in disks {
        return None, true;
      }
      return disks[volumeName], false;
    }

    method GetAndValidateExistingDisk(name: string, diskType: string, reqBytes: int64, limBytes: int64)
      returns (r: Existing)
      ensures r == if name !in StoredDisks() then Existing(false, None)
                   else if FakeAccepts(StoredDisks()[name], diskType, reqBytes, limBytes) then Existing(true, None)
                   else Existing(true, Some(AlreadyExists))
    {
      if name !in disks {
        return Existing(false, None);
      }
      if disks[name].Some? {
        var disk := disks[name].value;
        var requestValid := GbToBytes(disk.sizeGb) >= reqBytes || reqBytes == 0;
        var responseValid := GbToBytes(disk.sizeGb) <= limBytes || limBytes == 0;
        if !requestValid || !responseValid {
          return Existing(true, Some(AlreadyExists));
        }
        if !TypeAccepted(disk, diskType) {
          return Existing(true, Some(AlreadyExists));
        }
        return Existing(true, None);
      }
      return Existing(false, None);
    }

    method InsertDisk(diskToCreate: Disk)
      modifies this`disks
      ensures disks == old(disks)[diskToCreate.name := Some(diskToCreate)]
      ensures old(Valid()) ==> Valid()
      ensures old(Valid()) ==> Abstract() == old(WithDisks(StoredDisks()[diskToCreate.name := diskToCreate]))
    {
      hide AsMap;
      disks := disks[diskToCreate.name := Some(diskToCreate)];
    }

    method DeleteDisk(name: string)
      modifies this`disks
      ensures disks == old(disks) - {name}
      ensures old(Valid()) ==> Valid() && Abstract() == old(WithDisks(StoredDisks() - {name}))
    {
      hide AsMap;
      disks := disks - {name};
    }

    method AttachDisk(instanceName: string, attachedDisk: AttachedDisk) returns (err: bool)
      modifies if instanceName in instances then {instances[instanceName]} else {}
      ensures err <==> instanceName !in instances
      ensures !err ==> instances[instanceName].disks == old(instances[instanceName].disks) + [attachedDisk]
      ensures !err && old(Valid()) ==> Lists() == old(Lists())[instanceName := instances[instanceName].disks]
      ensures !err && old(Valid() && !Holds(instances[instanceName].disks, attachedDisk.deviceName)) ==> Valid()
      ensures !err && old(Valid() && !Holds(instances[instanceName].disks, attachedDisk.deviceName)) ==>
                Abstract() == old(WithModes(instanceName,
                  AsMap(instances[instanceName].disks)[attachedDisk.deviceName := attachedDisk.mode]))
    {
      if instanceName !in instances {
        return true;
      }
      var instance := instances[instanceName];
      ghost var list := instance.disks;
      instance.disks := instance.disks + [attachedDisk];
      if old(Valid()) {
        OneListChanged(instanceName);
        if !Holds(list, attachedDisk.deviceName) {
          AppendIsInsert(list, attachedDisk);
          OneListValid(instanceName);
        }
      }
      return false;
    }

    /** Panics on an instance that does not hold the device: the slice is indexed at -1. */
    method DetachDisk(instanceName: string, volumeName: string) returns (err: bool)
      requires instanceName in instances ==> Holds(instances[instanceName].disks, volumeName)
      modifies if instanceName in instances then {instances[instanceName]} else {}
      ensures err <==> instanceName !in instances
      ensures !err ==> instances[instanceName].disks ==
                       old(SwapDelete(instances[instanceName].disks, First(instances[instanceName].disks, volumeName)))
      ensures !err && old(Valid()) ==> Lists() == old(Lists())[instanceName := instances[instanceName].disks]
      ensures !err && old(Valid()) ==>
                Valid() &&
                Abstract() == old(WithModes(instanceName, AsMap(instances[instanceName].disks) - {volumeName}))
    {
      hide AsMap;
      if instanceName !in instances {
        return true;
      }
      var instance := instances[instanceName];
      var found := -1;
      for i := 0 to |instance.disks|
        invariant found == -1
        invariant forall k :: 0 <= k < i ==> instance.disks[k].deviceName != volumeName
      {
        if instance.disks[i].deviceName == volumeName {
          found := i;
          break;
        }
      }
      ghost var list := instance.disks;
      assert found == First(list, volumeName);
      instance.disks := instance.disks[found := instance.disks[|instance.disks| - 1]];
      instance.disks := instance.disks[..|instance.disks| - 1];
      if old(Valid()) {
        OneListChanged(instanceName);
        SwapDeleteIsRemove(list, First(list, volumeName));
        OneListValid(instanceName);
      }
      return false;
    }

    method GetInstanceOrError(instanceName: string) returns (instance: Instance?, err: bool)
      ensures err <==> instanceName !in instances
      ensures !err ==> instance == instances[instanceName]
    {
      if instanceName !in instances {
        return null, true;
      }
      return instances[instanceName], false;
    }
  }
}
