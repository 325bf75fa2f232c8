/** The node RPCs as functions of the host state and the world's outcomes. */
module NodeSpec {
  import opened Wrappers
  import opened VolumeId
  import opened DiskFormat
  import opened DevicePaths
  import opened Host

  const DEFAULT_FSTYPE := "ext4"
  const FSCK_ERRORS_CORRECTED := 1
  const FSCK_ERRORS_UNCORRECTED := 4

  datatype Capability =
    | NoCapability
    | MountCapability(fsType: string, mountFlags: seq<string>)
    | BlockCapability
    | OtherCapability

  /** `Empty` is the nil response with a nil error. */
  datatype Reply = Empty | Response | Failed(code: Code)

  datatype Call =
    | Stage(volumeID: string, staging: Path, capability: Capability)
    | Publish(volumeID: string, staging: Path, target: Path, capability: Capability, readOnly: bool)
    | Unpublish(volumeID: string, target: Path)
    | Unstage(volumeID: string, staging: Path)
    | Relink(links: map<string, nat>) // not an RPC: disks come and go under their by-id links

  /** The first candidate that exists, "" when none does, None when a stat fails first. */
  function VerifyDevicePath(world: World, s: State, paths: seq<string>): (State, Option<string>)
    decreases |paths|
  {
    if paths == [] then (s, Some(""))
    else
      var (s1, found) := StatLink(world, s, paths[0]);
      match found
      case None => (s1, None)
      case Some(yes) => if yes then (s1, Some(paths[0])) else VerifyDevicePath(world, s1, paths[1..])
  }

  /** fsck, mount; on a failed mount ask lsblk; on a blank disk mkfs and mount again. */
  function FormatAndMount(world: World, s: State, source: string, target: Path, fstype: string, options: seq<string>)
    : (State, bool)
  {
    var opts := options + ["defaults"];
    var (s1, fsck) := Fsck(world, s, source);
    if fsck.Fails? && fsck.failure == ExitStatus(FSCK_ERRORS_UNCORRECTED) then (s1, false)
    else
      var (s2, mounted) := Mount(world, s1, ByIdLink(source), target, fstype, opts);
      if mounted then (s2, true)
      else FormatThenMount(world, s2, source, target, fstype, opts)
  }

  function FormatThenMount(world: World, s: State, source: string, target: Path, fstype: string, options: seq<string>)
    : (State, bool)
  {
    var (s1, output) := RunLsblk(world, s, source);
    if output.None? || ParseFormat(output.value) != "" then (s1, false)
    else
      var fs := if fstype == "" then DEFAULT_FSTYPE else fstype;
      var (s2, made) := Mkfs(world, s1, source, fs, fs == "ext4" || fs == "ext3");
      if made then Mount(world, s2, ByIdLink(source), target, fs, options) else (s2, false)
  }

  function StageStep(world: World, s: State, volumeID: string, staging: Path, capability: Capability): (State, Reply) {
    if volumeID == "" || staging == [] || capability.NoCapability? then (s, Failed(InvalidArgument))
    else
      match SplitZoneNameId(volumeID)
      case None => (s, Failed(Unknown))
      case Some(id) =>
        var (s1, device) := VerifyDevicePath(world, s, ByIdPaths(id.name, ""));
        if device.None? || device.value == "" then (s1, Failed(Internal))
        else StageDevice(world, s1, device.value, staging, capability)
  }

  function StageDevice(world: World, s: State, device: string, staging: Path, capability: Capability): (State, Reply)
    requires staging != []
  {
    var (s1, a) := Check(world, s, staging);
    match a.err
    case OtherError => (s1, Failed(Internal))
    case NotExist =>
      var (s2, made) := MkdirAll(world, s1, staging);
      if made then MountStaging(world, s2, device, staging, capability) else (s2, Failed(Internal))
    case NoError =>
      if a.notMnt then MountStaging(world, s1, device, staging, capability) else (s1, Failed(Unknown))
  }

  /** The filesystem a capability asks for. */
  function FsTypeOf(capability: Capability): string {
    if capability.MountCapability? && capability.fsType != "" then capability.fsType else DEFAULT_FSTYPE
  }

  function FlagsOf(capability: Capability): seq<string> {
    if capability.MountCapability? then capability.mountFlags else []
  }

  function MountStaging(world: World, s: State, device: string, staging: Path, capability: Capability): (State, Reply) {
    if capability.BlockCapability? then (s, Failed(Unimplemented))
    else
      var (s1, ok) := FormatAndMount(world, s, device, staging, FsTypeOf(capability), FlagsOf(capability));
      (s1, if ok then Response else Failed(Internal))
  }

  function BindOptions(readOnly: bool): seq<string> {
    if readOnly then ["bind", "ro"] else ["bind"]
  }

  function PublishStep(world: World, s: State, volumeID: string, staging: Path, target: Path, capability: Capability,
                       readOnly: bool)
    : (State, Reply)
  {
    if volumeID == "" || staging == [] || target == [] || capability.NoCapability? then (s, Failed(InvalidArgument))
    else
      var (s1, a) := Check(world, s, target);
      if a.err.OtherError? then (s1, Failed(Unknown))
      else if !a.notMnt then (s1, Empty)
      else
        var (s2, made) := MkdirAll(world, s1, target);
        if !made then (s2, Failed(Unknown))
        else
          var (s3, ok) := Mount(world, s2, Directory(staging), target, "ext4", BindOptions(readOnly));
          if ok then (s3, Response) else (Recover(world, s3, target), Failed(Internal))
  }

  /** After a failed bind mount: check; if something is mounted, unmount and check again; remove the
      directory only when the last check found no mount. */
  function Recover(world: World, s: State, target: Path): State
    requires target != []
  {
    var (s1, a) := Check(world, s, target);
    if !a.err.NoError? then s1
    else if a.notMnt then Remove(world, s1, target).0
    else
      var (s2, ok) := Umount(world, s1, target);
      if !ok then s2
      else
        var (s3, b) := Check(world, s2, target);
        if b.err.NoError? && b.notMnt then Remove(world, s3, target).0 else s3
  }

  function UnmountStep(world: World, s: State, volumeID: string, path: Path): (State, Reply) {
    if volumeID == "" || path == [] then (s, Failed(InvalidArgument))
    else
      var (s1, ok) := Umount(world, s, path);
      (s1, if ok then Response else Failed(Internal))
  }

  function Step(world: World, s: State, c: Call): (State, Reply) {
    match c
    case Stage(id, staging, capability) => StageStep(world, s, id, staging, capability)
    case Publish(id, staging, target, capability, readOnly) =>
      PublishStep(world, s, id, staging, target, capability, readOnly)
    case Unpublish(id, target) => UnmountStep(world, s, id, target)
    case Unstage(id, staging) => UnmountStep(world, s, id, staging)
    case Relink(links) => (s.(links := links), Empty)
  }

  /** The host after a serial run of calls. */
  function After(world: World, s: State, calls: seq<Call>): State {
    if calls == [] then s
    else Step(world, After(world, s, calls[..|calls| - 1]), calls[|calls| - 1]).0
  }
}
