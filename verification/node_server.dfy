/** The node RPC handlers, and the proof that any serial run of them is a run of their specification. */
module NodeServer {
  import opened Wrappers
  import opened VolumeId
  import opened DevicePaths
  import opened Host
  import opened NodeSpec
  import opened GceMounter

  class GCENodeServer {
    const mounter: GCEMounter

    constructor (mounter: GCEMounter)
      ensures this.mounter == mounter
    {
      this.mounter := mounter;
    }

    method NodePublishVolume(volumeID: string, stagingTargetPath: Path, targetPath: Path, volumeCapability: Capability,
                             readOnly: bool)
      returns (reply: Reply)
      modifies mounter.os
      ensures (mounter.os.State(), reply) ==
              PublishStep(mounter.os.world, old(mounter.os.State()),
                          volumeID, stagingTargetPath, targetPath, volumeCapability, readOnly)
    {
      hide Check, MkdirAll, Mount, Umount, Remove;
      if |volumeID| == 0 {
        return Failed(InvalidArgument);
      }
      if |stagingTargetPath| == 0 {
        return Failed(InvalidArgument);
      }
      if |targetPath| == 0 {
        return Failed(InvalidArgument);
      }
      if volumeCapability.NoCapability? {
        return Failed(InvalidArgument);
      }
      var notMnt, err := mounter.IsLikelyNotMountPoint(targetPath);
      if !err.NoError? && !err.NotExist? {
        return Failed(Unknown);
      }
      if !notMnt {
        return Empty;
      }
      var made := mounter.os.MkdirAll(targetPath);
      if !made {
        return Failed(Unknown);
      }
      var options := ["bind"];
      if readOnly {
        options := options + ["ro"];
      }
      assert options == BindOptions(readOnly);
      var mounted := mounter.os.Mount(Directory(stagingTargetPath), targetPath, "ext4", options);
      if !mounted {
        var mntErr, ok;
        notMnt, mntErr := mounter.IsLikelyNotMountPoint(targetPath);
        if !mntErr.NoError? {
          return Failed(Internal);
        }
        if !notMnt {
          ok := mounter.os.Umount(targetPath);
          if !ok {
            return Failed(Internal);
          }
          notMnt, mntErr := mounter.IsLikelyNotMountPoint(targetPath);
          if !mntErr.NoError? {
            return Failed(Internal);
          }
          if !notMnt {
            return Failed(Internal);
          }
        }
        ok := mounter.os.Remove(targetPath);
        return Failed(Internal);
      }
      return Response;
    }

    method NodeUnpublishVolume(volumeID: string, targetPath: Path) returns (reply: Reply)
      modifies mounter.os
      ensures (mounter.os.State(), reply) ==
              UnmountStep(mounter.os.world, old(mounter.os.State()), volumeID, targetPath)
    {
      if |volumeID| == 0 {
        return Failed(InvalidArgument);
      }
      if |targetPath| == 0 {
        return Failed(InvalidArgument);
      }
      var ok := mounter.os.Umount(targetPath);
      if !ok {
        return Failed(Internal);
      }
      return Response;
    }

    method NodeStageVolume(volumeID: string, stagingTargetPath: Path, volumeCapability: Capability)
      returns (reply: Reply)
      modifies mounter.os
      ensures (mounter.os.State(), reply) ==
              StageStep(mounter.os.world, old(mounter.os.State()), volumeID, stagingTargetPath, volumeCapability)
    {
      hide Check, MkdirAll, SplitZoneNameId, NodeSpec.VerifyDevicePath, NodeSpec.FormatAndMount;
      if |volumeID| == 0 {
        return Failed(InvalidArgument);
      }
      if |stagingTargetPath| == 0 {
        return Failed(InvalidArgument);
      }
      if volumeCapability.NoCapability? {
        return Failed(InvalidArgument);
      }
      var id := SplitZoneNameId(volumeID);
      if id.None? {
        return Failed(Unknown);
      }
      var devicePaths := GetDiskByIdPaths(id.value.name, "");
      var devicePath := mounter.VerifyDevicePath(devicePaths);
      if devicePath.None? {
        return Failed(Internal);
      }
      if devicePath.value == "" {
        return Failed(Internal);
      }
      var notMnt, err := mounter.IsLikelyNotMountPoint(stagingTargetPath);
      if !err.NoError? {
        if err.NotExist? {
          var made := mounter.os.MkdirAll(stagingTargetPath);
          if !made {
            return Failed(Internal);
          }
          notMnt := true;
        } else {
          return Failed(Internal);
        }
      }
      if !notMnt {
        return Failed(Unknown);
      }
      var fstype := DEFAULT_FSTYPE;
      var options := [];
      if volumeCapability.MountCapability? {
        if volumeCapability.fsType != "" {
          fstype := volumeCapability.fsType;
        }
        for i := 0 to |volumeCapability.mountFlags|
          invariant options == volumeCapability.mountFlags[..i]
        {
          options := options + [volumeCapability.mountFlags[i]];
        }
        assert options == volumeCapability.mountFlags;
      } else if volumeCapability.BlockCapability? {
        return Failed(Unimplemented);
      }
      var ok := mounter.FormatAndMount(devicePath.value, stagingTargetPath, fstype, options);
      if !ok {
        return Failed(Internal);
      }
      return Response;
    }

    method NodeUnstageVolume(volumeID: string, stagingTargetPath: Path) returns (reply: Reply)
      modifies mounter.os
      ensures (mounter.os.State(), reply) ==
              UnmountStep(mounter.os.world, old(mounter.os.State()), volumeID, stagingTargetPath)
    {
      if |volumeID| == 0 {
        return Failed(InvalidArgument);
      }
      if |stagingTargetPath| == 0 {
        return Failed(InvalidArgument);
      }
      var ok := mounter.os.Umount(stagingTargetPath);
      if !ok {
        return Failed(Internal);
      }
      return Response;
    }

    method Handle(c: Call) returns (reply: Reply)
      modifies mounter.os
      ensures (mounter.os.State(), reply) == Step(mounter.os.world, old(mounter.os.State()), c)
    {
      match c
      case Stage(id, staging, capability) => reply := NodeStageVolume(id, staging, capability);
      case Publish(id, staging, target, capability, readOnly) =>
        reply := NodePublishVolume(id, staging, target, capability, readOnly);
      case Unpublish(id, target) => reply := NodeUnpublishVolume(id, target);
      case Unstage(id, staging) => reply := NodeUnstageVolume(id, staging);
      case Relink(links) =>
        mounter.os.Relink(links);
        reply := Empty;
    }

    /** Whole-run refinement: the object's state after any serial sequence of calls, in any world, is
        the one the run lemmas speak of, and so is every reply. */
    method Serve(calls: seq<Call>) returns (replies: seq<Reply>)
      modifies mounter.os
      ensures mounter.os.State() == After(mounter.os.world, old(mounter.os.State()), calls)
      ensures |replies| == |calls|
      ensures forall i :: 0 <= i < |calls| ==>
                var before := After(mounter.os.world, old(mounter.os.State()), calls[..i]);
                replies[i] == Step(mounter.os.world, before, calls[i]).1
    {
      hide Step;
      replies := [];
      ghost var start := mounter.os.State();
      for k := 0 to |calls|
        invariant |replies| == k
        invariant mounter.os.State() == After(mounter.os.world, start, calls[..k])
        invariant forall i :: 0 <= i < k ==>
          replies[i] == Step(mounter.os.world, After(mounter.os.world, start, calls[..i]), calls[i]).1
      {
        assert calls[..k + 1][..k] == calls[..k];
        var reply := Handle(calls[k]);
        replies := replies + [reply];
      }
      assert calls[..|calls|] == calls;
    }
  }
}
