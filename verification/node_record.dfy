/** Every command on record was asked for: by a call of the run, with the arguments that call gave. */
module NodeRecord {
  import opened VolumeId
  import opened DevicePaths
  import opened Host
  import opened NodeSpec
  import opened NodeAnswers

  /** A Stage of this target and filesystem, whose volume has the link among its candidates. */
  predicate Stages(c: Call, link: string, target: Path, fstype: string, flags: seq<string>) {
    && c.Stage? && c.staging == target && Asks(c.capability, fstype, flags)
    && SplitZoneNameId(c.volumeID).Some? && link in ByIdPaths(SplitZoneNameId(c.volumeID).value.name, "")
  }

  /** What each call may run. A bind mount is a Publish's own, from its staging path onto its target and
      read-only exactly when it asked for that; a device mount is a Stage's own, with its filesystem and
      its flags; mkfs makes that filesystem, and is forced for ext3 and ext4 only. */
  ghost predicate AskedBy(c: Call, e: Entry) {
    match e
    case Mounted(source, target, fstype, options, _) =>
      if source.Directory? then
        && c.Publish? && source.dir == c.staging && target == c.target && fstype == "ext4"
        && options == if c.readOnly then ["bind", "ro"] else ["bind"]
      else exists flags :: Stages(c, source.link, target, fstype, flags) && options == flags + ["defaults"]
    case Formatted(_, _, fstype, force, _) =>
      c.Stage? && Asks(c.capability, fstype, FlagsOf(c.capability)) && (force <==> fstype in {"ext3", "ext4"})
    case Checked(path, _, _) => (c.Stage? && path == c.staging) || (c.Publish? && path == c.target)
    case MadeDir(path, _) => (c.Stage? && path == c.staging) || (c.Publish? && path == c.target)
    case Removed(path, _) => c.Publish? && path == c.target
    case Unmounted(path, _) =>
      (c.Publish? && path == c.target) || (c.Unpublish? && path == c.target) || (c.Unstage? && path == c.staging)
    case _ => c.Stage?
  }

  /** The record goes on, with commands the call asked for. */
  ghost predicate GoesOn(s: State, s': State, c: Call) {
    s.trace <= s'.trace && forall k :: |s.trace| <= k < |s'.trace| ==> AskedBy(c, s'.trace[k])
  }

  lemma GoesOnTransitive(a: State, b: State, c: State, call: Call)
    requires GoesOn(a, b, call) && GoesOn(b, c, call)
    ensures GoesOn(a, c, call)
  {
  }

  lemma OneMore(s: State, s': State, c: Call, e: Entry)
    requires s'.trace == s.trace + [e] && AskedBy(c, e)
    ensures GoesOn(s, s', c)
  {
  }

  lemma {:induction false} VerifyGoesOn(world: World, s: State, paths: seq<string>, c: Call)
    requires c.Stage?
    ensures GoesOn(s, VerifyDevicePath(world, s, paths).0, c)
    decreases |paths|
  {
    if paths != [] {
      VerifyGoesOn(world, StatLink(world, s, paths[0]).0, paths[1..], c);
    }
  }

  lemma MountGoesOn(world: World, s: State, link: string, target: Path, fstype: string, flags: seq<string>, c: Call)
    requires Stages(c, link, target, fstype, flags)
    ensures GoesOn(s, Mount(world, s, ByIdLink(link), target, fstype, flags + ["defaults"]).0, c)
  {
    hide Stages;
    var (s', ok) := Mount(world, s, ByIdLink(link), target, fstype, flags + ["defaults"]);
    OneMore(s, s', c, Mounted(ByIdLink(link), target, fstype, flags + ["defaults"], ok));
  }

  lemma FormatAndMountGoesOn(world: World, s: State, link: string, target: Path, fstype: string, flags: seq<string>,
                             c: Call)
    requires Stages(c, link, target, fstype, flags) && fstype != ""
    ensures GoesOn(s, FormatAndMount(world, s, link, target, fstype, flags).0, c)
  {
    AsksExactly(c.capability, fstype, flags);
    hide Mount, Stages, Asks;
    var opts := flags + ["defaults"];
    var s1 := Fsck(world, s, link).0;
    OneMore(s, s1, c, Fscked(link));
    var s2 := Mount(world, s1, ByIdLink(link), target, fstype, opts).0;
    MountGoesOn(world, s1, link, target, fstype, flags, c);
    GoesOnTransitive(s, s1, s2, c);
    var (s3, output) := RunLsblk(world, s2, link);
    OneMore(s2, s3, c, Listed(link, output.Some?));
    GoesOnTransitive(s, s2, s3, c);
    var s4 := Mkfs(world, s3, link, fstype, fstype == "ext4" || fstype == "ext3").0;
    OneMore(s3, s4, c, s4.trace[|s3.trace|]);
    GoesOnTransitive(s, s3, s4, c);
    MountGoesOn(world, s4, link, target, fstype, flags, c);
    GoesOnTransitive(s, s4, Mount(world, s4, ByIdLink(link), target, fstype, opts).0, c);
  }

  lemma StageDeviceGoesOn(world: World, s: State, link: string, c: Call)
    requires c.Stage? && c.staging != [] && SplitZoneNameId(c.volumeID).Some?
    requires link in ByIdPaths(SplitZoneNameId(c.volumeID).value.name, "")
    ensures GoesOn(s, StageDevice(world, s, link, c.staging, c.capability).0, c)
  {
    var fstype, flags := FsTypeOf(c.capability), FlagsOf(c.capability);
    AsksExactly(c.capability, fstype, flags);
    assert Stages(c, link, c.staging, fstype, flags);
    hide SplitZoneNameId, ByIdPaths, FormatAndMount, Answer, Stages;
    var (s1, a) := Check(world, s, c.staging);
    OneMore(s, s1, c, Checked(c.staging, a.notMnt, a.err));
    var (s2, made) := MkdirAll(world, s1, c.staging);
    OneMore(s1, s2, c, MadeDir(c.staging, made));
    GoesOnTransitive(s, s1, s2, c);
    var s3 := if a.err.NotExist? then s2 else s1;
    FormatAndMountGoesOn(world, s3, link, c.staging, fstype, flags, c);
    GoesOnTransitive(s, s3, FormatAndMount(world, s3, link, c.staging, fstype, flags).0, c);
  }

  lemma StageGoesOn(world: World, s: State, c: Call)
    requires c.Stage?
    ensures GoesOn(s, StageStep(world, s, c.volumeID, c.staging, c.capability).0, c)
  {
    hide SplitZoneNameId, VerifyDevicePath, StageDevice, AskedBy, ByIdPath;
    if c.staging != [] && SplitZoneNameId(c.volumeID).Some? {
      var paths := ByIdPaths(SplitZoneNameId(c.volumeID).value.name, "");
      var (s1, device) := VerifyDevicePath(world, s, paths);
      VerifyGoesOn(world, s, paths, c);
      VerifyMeans(world, s, paths);
      if device.Some? && device.value != "" {
        StageDeviceGoesOn(world, s1, device.value, c);
        GoesOnTransitive(s, s1, StageDevice(world, s1, device.value, c.staging, c.capability).0, c);
      }
    }
  }

  lemma RecoverGoesOn(world: World, s: State, c: Call)
    requires c.Publish? && c.target != []
    ensures GoesOn(s, Recover(world, s, c.target), c)
  {
    hide Answer;
    var (s1, a) := Check(world, s, c.target);
    OneMore(s, s1, c, Checked(c.target, a.notMnt, a.err));
    var (r1, gone1) := Remove(world, s1, c.target);
    OneMore(s1, r1, c, Removed(c.target, gone1));
    GoesOnTransitive(s, s1, r1, c);
    var (s2, ok) := Umount(world, s1, c.target);
    OneMore(s1, s2, c, Unmounted(c.target, ok));
    GoesOnTransitive(s, s1, s2, c);
    var (s3, b) := Check(world, s2, c.target);
    OneMore(s2, s3, c, Checked(c.target, b.notMnt, b.err));
    GoesOnTransitive(s, s2, s3, c);
    var (r3, gone3) := Remove(world, s3, c.target);
    OneMore(s3, r3, c, Removed(c.target, gone3));
    GoesOnTransitive(s, s3, r3, c);
  }

  lemma PublishGoesOn(world: World, s: State, c: Call)
    requires c.Publish?
    ensures GoesOn(s, PublishStep(world, s, c.volumeID, c.staging, c.target, c.capability, c.readOnly).0, c)
  {
    hide Answer, Recover;
    if c.target != [] {
      var (s1, a) := Check(world, s, c.target);
      OneMore(s, s1, c, Checked(c.target, a.notMnt, a.err));
      var (s2, made) := MkdirAll(world, s1, c.target);
      OneMore(s1, s2, c, MadeDir(c.target, made));
      GoesOnTransitive(s, s1, s2, c);
      var options := BindOptions(c.readOnly);
      var (s3, ok) := Mount(world, s2, Directory(c.staging), c.target, "ext4", options);
      OneMore(s2, s3, c, Mounted(Directory(c.staging), c.target, "ext4", options, ok));
      GoesOnTransitive(s, s2, s3, c);
      RecoverGoesOn(world, s3, c);
      GoesOnTransitive(s, s3, Recover(world, s3, c.target), c);
    }
  }

  lemma StepGoesOn(world: World, s: State, c: Call)
    ensures GoesOn(s, Step(world, s, c).0, c)
  {
    hide StageStep, PublishStep;
    match c
    case Stage(_, _, _) => StageGoesOn(world, s, c);
    case Publish(_, _, _, _, _) => PublishGoesOn(world, s, c);
    case Unpublish(_, _) =>
    case Unstage(_, _) =>
    case Relink(_) =>
  }

  /** Command `k` of the run was run by call `i`. */
  ghost predicate RunBy(world: World, s: State, calls: seq<Call>, i: int, k: int) {
    0 <= i < |calls| && |After(world, s, calls[..i]).trace| <= k < |After(world, s, calls[..i + 1]).trace|
  }

  /** Over every run and world, every command on record was run by some call, which asked for it. In
      particular every bind mount on record carries "ro" exactly when its Publish asked for that, and
      every disk was formatted and mounted as its Stage asked. */
  lemma {:induction false} EveryCommandWasAsked(world: World, s: State, calls: seq<Call>, k: nat)
    requires s.trace == [] && k < |After(world, s, calls).trace|
    ensures exists i :: RunBy(world, s, calls, i, k) && AskedBy(calls[i], After(world, s, calls).trace[k])
  {
    hide Step, AskedBy;
    var last := |calls| - 1;
    var front := calls[..last];
    var before := After(world, s, front);
    StepGoesOn(world, before, calls[last]);
    if k < |before.trace| {
      EveryCommandWasAsked(world, s, front, k);
      var i :| RunBy(world, s, front, i, k) && AskedBy(front[i], before.trace[k]);
      assert front[..i] == calls[..i] && front[..i + 1] == calls[..i + 1];
      assert RunBy(world, s, calls, i, k);
    } else {
      assert calls[..last + 1] == calls;
      assert RunBy(world, s, calls, last, k);
    }
  }
}
