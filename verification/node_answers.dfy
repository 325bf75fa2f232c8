/** What the node RPCs' answers mean, and exactly when each is given. */
module NodeAnswers {
  import opened Wrappers
  import opened VolumeId
  import opened DiskFormat
  import opened DevicePaths
  import opened Host
  import opened NodeSpec

  // ---- What an answer means: FormatAndMount and NodeStageVolume ----

  /** The record ends with this successful mount. */
  predicate EndsMounted(trace: seq<Entry>, source: Source, target: Path, fstype: string, options: seq<string>) {
    |trace| > 0 && trace[|trace| - 1] == Mounted(source, target, fstype, options, true)
  }

  /** What a device mount leaves behind: nothing when it fails, and otherwise its disk on top of the
      target, the disk holding the requested filesystem. */
  ghost predicate DeviceMounted(s: State, s': State, ok: bool, source: string, target: Path, fstype: string,
                                options: seq<string>)
  {
    && s'.dirs == s.dirs && s'.links == s.links
    && (!ok ==> s'.layers == s.layers)
    && (ok ==>
          && (exists used :: (used == fstype || (fstype == "" && used == "ext4"))
                             && EndsMounted(s'.trace, ByIdLink(source), target, used, options))
          && target in s.dirs && source in s.links
          && Mountable(s'.ContentOf(s.links[source]), fstype)
          && s'.layers == s.layers + [Layer(target, Disk(s.links[source]))])
  }

  lemma MountMeans(world: World, s: State, source: string, target: Path, fstype: string, options: seq<string>)
    ensures var (s', ok) := Mount(world, s, ByIdLink(source), target, fstype, options);
            DeviceMounted(s, s', ok, source, target, fstype, options)
  {
    var (s', ok) := Mount(world, s, ByIdLink(source), target, fstype, options);
    assert ok ==> EndsMounted(s'.trace, ByIdLink(source), target, fstype, options);
  }

  lemma FormatThenMountMeans(world: World, s: State, source: string, target: Path, fstype: string, options: seq<string>)
    ensures var (s', ok) := FormatThenMount(world, s, source, target, fstype, options);
            DeviceMounted(s, s', ok, source, target, fstype, options)
  {
    hide Mount;
    var fs := if fstype == "" then DEFAULT_FSTYPE else fstype;
    var s1 := RunLsblk(world, s, source).0;
    var s2 := Mkfs(world, s1, source, fs, fs == "ext4" || fs == "ext3").0;
    MountMeans(world, s2, source, target, fs, options);
  }

  /** A nil result of FormatAndMount means that the last command was a successful mount of the device,
      which now holds the requested filesystem (any, if none was requested) and shows at the target.
      Otherwise the mount table is as it was. The directories and links are untouched either way. */
  lemma FormatAndMountMeans(world: World, s: State, source: string, target: Path, fstype: string, options: seq<string>)
    ensures var (s', ok) := FormatAndMount(world, s, source, target, fstype, options);
            DeviceMounted(s, s', ok, source, target, fstype, options + ["defaults"])
  {
    hide Mount, FormatThenMount;
    var opts := options + ["defaults"];
    var s1 := Fsck(world, s, source).0;
    MountMeans(world, s1, source, target, fstype, opts);
    var s2 := Mount(world, s1, ByIdLink(source), target, fstype, opts).0;
    FormatThenMountMeans(world, s2, source, target, fstype, opts);
  }

  /** A link exists and every candidate before it does not. */
  ghost predicate FirstExisting(links: map<string, nat>, paths: seq<string>, link: string) {
    exists i :: 0 <= i < |paths| && paths[i] == link && link in links && forall j :: 0 <= j < i ==> paths[j] !in links
  }

  /** The path scan: without stat errors it returns the first candidate that exists, or "" exactly
      when none does. */
  lemma {:induction false} VerifyMeans(world: World, s: State, paths: seq<string>)
    requires forall i :: 0 <= i < |paths| ==> paths[i] != ""
    ensures var (s', device) := VerifyDevicePath(world, s, paths);
            && s'.(trace := s.trace) == s
            && (device.Some? && device.value != "" ==> FirstExisting(s.links, paths, device.value))
            && (device == Some("") ==> forall i :: 0 <= i < |paths| ==> paths[i] !in s.links)
            && (device.None? ==> exists n :: |s.trace| <= n < |s.trace| + |paths| && world(n).Fails?)
    decreases |paths|
  {
    if paths != [] {
      var (s1, found) := StatLink(world, s, paths[0]);
      VerifyMeans(world, s1, paths[1..]);
      var device := VerifyDevicePath(world, s, paths).1;
      if found == Some(true) {
        assert FirstExisting(s.links, paths, paths[0]);
      } else if found == Some(false) {
        if device.Some? && device.value != "" {
          var i :| 0 <= i < |paths[1..]| && paths[1..][i] == device.value && device.value in s.links
                   && forall j :: 0 <= j < i ==> paths[1..][j] !in s.links;
          assert paths[i + 1] == device.value;
          assert forall j :: 0 < j < i + 1 ==> paths[j] == paths[1..][j - 1];
          assert FirstExisting(s.links, paths, device.value);
        } else if device.Some? {
          assert forall i :: 0 < i < |paths| ==> paths[i] == paths[1..][i - 1];
        }
      } else {
        assert world(|s.trace|).Fails?;
      }
    }
  }

  /** The by-id link NodeStageVolume looks up for a volume identifier: None when the look-up fails. */
  function LinkOf(world: World, s: State, volumeID: string): Option<string>
    requires SplitZoneNameId(volumeID).Some?
  {
    VerifyDevicePath(world, s, ByIdPaths(SplitZoneNameId(volumeID).value.name, "")).1
  }

  /** Whatever the links and outcomes at the two times, identifiers of different volume names never
      resolve to the same by-id link. */
  lemma VolumesResolveApart(w1: World, s1: State, v1: string, w2: World, s2: State, v2: string)
    requires SplitZoneNameId(v1).Some? && SplitZoneNameId(v2).Some?
    requires SplitZoneNameId(v1).value.name != SplitZoneNameId(v2).value.name
    ensures var d1, d2 := LinkOf(w1, s1, v1), LinkOf(w2, s2, v2);
            d1.Some? && d2.Some? && d1.value != "" ==> d1 != d2
  {
    var n1, n2 := SplitZoneNameId(v1).value.name, SplitZoneNameId(v2).value.name;
    ParsedNamesArePlain(v1);
    ParsedNamesArePlain(v2);
    hide SplitZoneNameId, ByIdPaths, Plain;
    VerifyMeans(w1, s1, ByIdPaths(n1, ""));
    VerifyMeans(w2, s2, ByIdPaths(n2, ""));
    SamePartitionDisjoint(n1, n2, "");
    var d1, d2 := LinkOf(w1, s1, v1), LinkOf(w2, s2, v2);
    assert d1.Some? && d1.value != "" ==> d1.value in ByIdPaths(n1, "");
    assert d2.Some? && d2.value != "" ==> d2.value in ByIdPaths(n2, "");
  }

  /** Stage answered OK: the volume's first existing link was mounted last, its disk holds the
      requested filesystem, and the staging path gained exactly that disk as its top layer. Any other
      answer leaves the mount table alone. */
  lemma StageMeans(world: World, s: State, volumeID: string, staging: Path, capability: Capability)
    ensures var (s', reply) := StageStep(world, s, volumeID, staging, capability);
            && s'.links == s.links && reply != Empty && s.dirs <= s'.dirs
            && (reply != Response ==> s'.layers == s.layers)
            && (reply == Response ==>
                  SplitZoneNameId(volumeID).Some? &&
                  exists link :: link in s.links
                    && FirstExisting(s.links, ByIdPaths(SplitZoneNameId(volumeID).value.name, ""), link)
                    && EndsMounted(s'.trace, ByIdLink(link), staging, FsTypeOf(capability),
                                   FlagsOf(capability) + ["defaults"])
                    && s'.ContentOf(s.links[link]).fstype == FsTypeOf(capability)
                    && s'.layers == s.layers + [Layer(staging, Disk(s.links[link]))])
  {
    hide SplitZoneNameId, VerifyDevicePath, StageDevice, FirstExisting;
    if staging != [] && SplitZoneNameId(volumeID).Some? {
      var paths := ByIdPaths(SplitZoneNameId(volumeID).value.name, "");
      var (s1, device) := VerifyDevicePath(world, s, paths);
      VerifyMeans(world, s, paths);
      if device.Some? && device.value != "" {
        StageDeviceMeans(world, s1, device.value, staging, capability);
      }
    }
  }

  lemma StageDeviceMeans(world: World, s: State, link: string, staging: Path, capability: Capability)
    requires staging != []
    ensures var (s', reply) := StageDevice(world, s, link, staging, capability);
            && s'.links == s.links && reply != Empty && s.dirs <= s'.dirs
            && (reply != Response ==> s'.layers == s.layers)
            && (reply == Response ==>
                  && link in s.links
                  && EndsMounted(s'.trace, ByIdLink(link), staging, FsTypeOf(capability),
                                 FlagsOf(capability) + ["defaults"])
                  && s'.ContentOf(s.links[link]).fstype == FsTypeOf(capability)
                  && s'.layers == s.layers + [Layer(staging, Disk(s.links[link]))])
  {
    hide FormatAndMount, EndsMounted;
    var (s1, a) := Check(world, s, staging);
    var s2 := if a.err.NotExist? then MkdirAll(world, s1, staging).0 else s1;
    FormatAndMountMeans(world, s2, link, staging, FsTypeOf(capability), FlagsOf(capability));
  }

  // ---- What an answer means: NodePublishVolume ----

  /** Publish answers without an error only if its bind mount succeeded, as the last command run, or
      the target already was a mount point, in which case nothing is mounted. */
  lemma PublishMeans(world: World, s: State, volumeID: string, staging: Path, target: Path, capability: Capability,
                     readOnly: bool)
    ensures var (s', reply) := PublishStep(world, s, volumeID, staging, target, capability, readOnly);
            && (reply == Response ==>
                  && EndsMounted(s'.trace, Directory(staging), target, "ext4",
                                 if readOnly then ["bind", "ro"] else ["bind"])
                  && s'.layers == s.layers + [Layer(target, DeviceAt(s.layers, staging))])
            && (reply == Empty ==> Top(s.layers, target).Some? && s'.layers == s.layers)
  {
  }

  // ---- The exact answers, in every world ----

  /** Nothing of the environment fails. */
  ghost predicate Calm(world: World) {
    forall n :: world(n).Success?
  }

  /** What the check can see of a mount: the path exists and shows another device than its parent. */
  predicate SeenMounted(s: State, p: Path)
    requires p != []
  {
    p in s.dirs && Parent(p) in s.dirs && DeviceAt(s.layers, p) != DeviceAt(s.layers, Parent(p))
  }

  predicate Usable(c: Content, fstype: string) {
    c.Blank() || c.fstype == fstype
  }

  predicate ExitsWith(o: Outcome, status: int) {
    o.Fails? && o.failure == ExitStatus(status)
  }

  /** FormatAndMount in every world, its first command being number `n`, on a disk with content `c`:
      fsck does not exit with 4; then the mount succeeds, or lsblk, mkfs and a second mount do, on a
      blank disk. */
  predicate Mounts(world: World, n: nat, c: Content, fstype: string) {
    && !ExitsWith(world(n), 4)
    && ((world(n + 1).Success? && c.fstype != "" && (fstype == "" || fstype == c.fstype))
        || (world(n + 2).Success? && c.Blank() && world(n + 3).Success? && world(n + 4).Success?))
  }

  /** What FormatAndMount answers, in every world. It formats a blank disk only, and then as asked, or
      as ext4. If fsck exits with 4, which says that errors were left uncorrected, nothing else is run. */
  lemma FormatAndMountInEveryWorld(world: World, s: State, source: string, target: Path, fstype: string,
                                   options: seq<string>)
    ensures var (s', ok) := FormatAndMount(world, s, source, target, fstype, options);
            && (ok <==> target in s.dirs && source in s.links
                        && Mounts(world, |s.trace|, s.ContentOf(s.links[source]), fstype))
            && (ok && s.ContentOf(s.links[source]).Blank() ==>
                  s'.ContentOf(s.links[source]) == Content(if fstype == "" then "ext4" else fstype, []))
            && (ExitsWith(world(|s.trace|), 4) ==> (s', ok) == (s.Log(Fscked(source)), false))
  {
    hide Lsblk, ParseFormat;
    if source in s.links {
      ReadsBlankExactly(s.ContentOf(s.links[source]));
    }
  }

  /** When at most fsck fails, a disk gets mounted exactly when fsck did not leave errors uncorrected,
      and the disk is blank or already holds the requested filesystem: what holds another filesystem,
      or only partitions, is refused. */
  lemma FormatAndMountExactly(world: World, s: State, source: string, target: Path, fstype: string,
                              options: seq<string>)
    requires (forall n :: n > |s.trace| ==> world(n).Success?) && target in s.dirs && source in s.links && fstype != ""
    ensures FormatAndMount(world, s, source, target, fstype, options).1 <==>
            !ExitsWith(world(|s.trace|), 4) && Usable(s.ContentOf(s.links[source]), fstype)
  {
    FormatAndMountInEveryWorld(world, s, source, target, fstype, options);
  }

  ghost predicate AllSucceed(world: World, from: nat, to: nat) {
    forall n :: from <= n < to ==> world(n).Success?
  }

  /** How many candidates come before the first that exists: all of them when none does. */
  function FirstIndex(links: map<string, nat>, paths: seq<string>): (first: nat)
    ensures first <= |paths| && (first < |paths| ==> paths[first] in links)
    ensures forall j :: 0 <= j < first ==> paths[j] !in links
  {
    if paths == [] || paths[0] in links then 0 else 1 + FirstIndex(links, paths[1..])
  }

  /** The path scan in every world: it stats the candidates up to the first that exists, and finds that
      one unless a stat fails. */
  lemma {:induction false} VerifyInEveryWorld(world: World, s: State, paths: seq<string>)
    ensures var first := FirstIndex(s.links, paths);
            var stats := if first < |paths| then first + 1 else first;
            var (s', device) := VerifyDevicePath(world, s, paths);
            && s'.(trace := s.trace) == s
            && if AllSucceed(world, |s.trace|, |s.trace| + stats)
               then device == Some(if first < |paths| then paths[first] else "") && |s'.trace| == |s.trace| + stats
               else device.None?
    decreases |paths|
  {
    if paths != [] {
      var s1 := StatLink(world, s, paths[0]).0;
      VerifyInEveryWorld(world, s1, paths[1..]);
    }
  }

  /** The number of the fsck command of a Stage, when it gets that far: after the stats of the candidates,
      the check of the staging path, and its making where it does not exist. */
  function FsckAt(s: State, paths: seq<string>, staging: Path): nat
    requires staging != []
  {
    |s.trace| + FirstIndex(s.links, paths) + if staging in s.dirs && Parent(staging) in s.dirs then 2 else 3
  }

  /** The filesystem and flags a capability asks for. */
  predicate Asks(c: Capability, fstype: string, flags: seq<string>) {
    match c
    case MountCapability(fsType, mountFlags) =>
      fstype == (if fsType == "" then "ext4" else fsType) && flags == mountFlags
    case _ => fstype == "ext4" && flags == []
  }

  lemma AsksExactly(c: Capability, fstype: string, flags: seq<string>)
    ensures Asks(c, fstype, flags) <==> fstype == FsTypeOf(c) && flags == FlagsOf(c)
  {
  }

  lemma StageDeviceInEveryWorld(world: World, s: State, link: string, staging: Path, capability: Capability,
                                fstype: string)
    requires staging != [] && link in s.links && Asks(capability, fstype, FlagsOf(capability))
    ensures var n, exists_ := |s.trace|, staging in s.dirs && Parent(staging) in s.dirs;
            StageDevice(world, s, link, staging, capability).1 ==
              if world(n).Fails? then Failed(Internal)
              else if SeenMounted(s, staging) then Failed(Unknown)
              else if !exists_ && world(n + 1).Fails? then Failed(Internal)
              else if capability.BlockCapability? then Failed(Unimplemented)
              else if Mounts(world, n + (if exists_ then 1 else 2), s.ContentOf(s.links[link]), fstype) then Response
              else Failed(Internal)
  {
    hide FormatAndMount, Mounts;
    AsksExactly(capability, fstype, FlagsOf(capability));
    assert staging == staging[..|staging|];
    var (s1, a) := Check(world, s, staging);
    var s2 := if a.err.NotExist? then MkdirAll(world, s1, staging).0 else s1;
    FormatAndMountInEveryWorld(world, s2, link, staging, fstype, FlagsOf(capability));
  }

  /** What Stage answers, in every world. */
  lemma StageInEveryWorld(world: World, s: State, volumeID: string, staging: Path, capability: Capability,
                          fstype: string)
    requires Asks(capability, fstype, FlagsOf(capability))
    ensures StageStep(world, s, volumeID, staging, capability).1 ==
            if volumeID == "" || staging == [] || capability.NoCapability? then Failed(InvalidArgument)
            else if SplitZoneNameId(volumeID).None? then Failed(Unknown)
            else
              var paths := ByIdPaths(SplitZoneNameId(volumeID).value.name, "");
              var n, first, fsck := |s.trace|, FirstIndex(s.links, paths), FsckAt(s, paths, staging);
              if first == |paths| || !AllSucceed(world, n, n + first + 2) then Failed(Internal)
              else if SeenMounted(s, staging) then Failed(Unknown)
              else if !AllSucceed(world, n + first + 2, fsck) then Failed(Internal)
              else if capability.BlockCapability? then Failed(Unimplemented)
              else if Mounts(world, fsck, s.ContentOf(s.links[paths[first]]), fstype) then Response
              else Failed(Internal)
  {
    hide SplitZoneNameId, VerifyDevicePath, StageDevice, Mounts, DeviceAt, ByIdPath;
    if staging != [] && SplitZoneNameId(volumeID).Some? {
      var paths := ByIdPaths(SplitZoneNameId(volumeID).value.name, "");
      var n, first := |s.trace|, FirstIndex(s.links, paths);
      var (s1, device) := VerifyDevicePath(world, s, paths);
      VerifyInEveryWorld(world, s, paths);
      if first < |paths| {
        assert AllSucceed(world, n, n + first + 2) <==>
               AllSucceed(world, n, n + first + 1) && world(n + first + 1).Success?;
        assert AllSucceed(world, n + first + 2, FsckAt(s, paths, staging)) <==>
               (staging in s.dirs && Parent(staging) in s.dirs) || world(n + first + 2).Success?;
        StageDeviceInEveryWorld(world, s1, paths[first], staging, capability, fstype);
      }
    }
  }

  lemma FirstExistingUnique(links: map<string, nat>, paths: seq<string>, a: string, b: string)
    requires FirstExisting(links, paths, a) && FirstExisting(links, paths, b)
    ensures a == b
  {
    var i :| 0 <= i < |paths| && paths[i] == a && a in links && forall j :: 0 <= j < i ==> paths[j] !in links;
    var j :| 0 <= j < |paths| && paths[j] == b && b in links && forall k :: 0 <= k < j ==> paths[k] !in links;
    assert !(i < j) && !(j < i);
  }

  /** The fsck of a Stage, when it gets that far. */
  function FsckOf(s: State, volumeID: string, staging: Path): nat
    requires SplitZoneNameId(volumeID).Some? && staging != []
  {
    FsckAt(s, ByIdPaths(SplitZoneNameId(volumeID).value.name, ""), staging)
  }

  /** When Stage is answered OK and at most its fsck fails: exactly for a well-formed request, not for
      block access, of a volume one of whose links exists, at a path not seen as mounted, when fsck does
      not exit with 4 and the disk of the first existing link is blank or already holds the requested
      filesystem. */
  lemma StageExactly(world: World, s: State, volumeID: string, staging: Path, capability: Capability)
    requires forall n :: world(n).Fails? ==>
               SplitZoneNameId(volumeID).Some? && staging != [] && n == FsckOf(s, volumeID, staging)
    ensures StageStep(world, s, volumeID, staging, capability).1 == Response <==>
            && volumeID != "" && staging != [] && !capability.NoCapability? && !capability.BlockCapability?
            && SplitZoneNameId(volumeID).Some? && !SeenMounted(s, staging)
            && !ExitsWith(world(FsckOf(s, volumeID, staging)), 4)
            && exists link, fstype :: link in s.links && Asks(capability, fstype, FlagsOf(capability))
                 && FirstExisting(s.links, ByIdPaths(SplitZoneNameId(volumeID).value.name, ""), link)
                 && Usable(s.ContentOf(s.links[link]), fstype)
  {
    hide SplitZoneNameId, StageStep, ByIdPaths, SeenMounted;
    var fstype := FsTypeOf(capability);
    AsksExactly(capability, fstype, FlagsOf(capability));
    StageInEveryWorld(world, s, volumeID, staging, capability, fstype);
    if SplitZoneNameId(volumeID).Some? && staging != [] {
      var paths := ByIdPaths(SplitZoneNameId(volumeID).value.name, "");
      var first := FirstIndex(s.links, paths);
      if first < |paths| {
        assert FirstExisting(s.links, paths, paths[first]);
      }
      forall link, other | FirstExisting(s.links, paths, link) && Asks(capability, other, FlagsOf(capability))
        ensures first < |paths| && link == paths[first] && other == fstype
      {
        AsksExactly(capability, other, FlagsOf(capability));
        FirstExistingUnique(s.links, paths, link, paths[first]);
      }
    }
  }

  /** What Publish answers, in every world. */
  lemma PublishInEveryWorld(world: World, s: State, volumeID: string, staging: Path, target: Path,
                            capability: Capability, readOnly: bool)
    ensures var n := |s.trace|;
            PublishStep(world, s, volumeID, staging, target, capability, readOnly).1 ==
              if volumeID == "" || staging == [] || target == [] || capability.NoCapability?
              then Failed(InvalidArgument)
              else if world(n).Fails? then Failed(Unknown)
              else if SeenMounted(s, target) then Empty
              else if world(n + 1).Fails? then Failed(Unknown)
              else if world(n + 2).Success? && (staging in s.dirs || staging <= target) then Response
              else Failed(Internal)
  {
    hide Recover;
    assert target == target[..|target|];
    assert staging <= target <==> exists k :: 0 <= k <= |target| && target[..k] == staging by {
      if staging <= target {
        assert target[..|staging|] == staging;
      }
    }
  }

  /** What Unpublish and Unstage answer, in every world, and what they leave: OK when umount succeeds
      and something is mounted at the path, whose last mount then goes; otherwise nothing changes. */
  lemma UnmountInEveryWorld(world: World, s: State, c: Call)
    requires c.Unpublish? || c.Unstage?
    ensures var path := if c.Unpublish? then c.target else c.staging;
            var (s', reply) := Step(world, s, c);
            var layers, n := s.layers, |s.layers|;
            && s'.(trace := s.trace, layers := s.layers) == s
            && reply == (if c.volumeID == "" || path == [] then Failed(InvalidArgument)
                         else if world(|s.trace|).Success? && exists i :: 0 <= i < n && layers[i].at == path
                         then Response
                         else Failed(Internal))
            && if reply == Response
               then exists i :: WithoutLast(layers, s'.layers, path, i) else s'.layers == layers
  {
    var path := if c.Unpublish? then c.target else c.staging;
    TopIsLast(s.layers, path);
    if Top(s.layers, path).Some? {
      PopTakesLast(s.layers, path);
    }
  }

  /** `layers'` is `layers` without layer `i`, the last one at the path. */
  ghost predicate WithoutLast(layers: seq<Layer>, layers': seq<Layer>, p: Path, i: int) {
    && 0 <= i < |layers| && layers[i].at == p && layers' == layers[..i] + layers[i + 1..]
    && forall j :: i < j < |layers| ==> layers[j].at != p
  }

  lemma {:induction false} PopTakesLast(layers: seq<Layer>, p: Path)
    requires Top(layers, p).Some?
    ensures exists i :: WithoutLast(layers, Pop(layers, p), p, i)
  {
    var last := |layers| - 1;
    var front := layers[..last];
    if layers[last].at == p {
      assert Pop(layers, p) == front && front + layers[last + 1..] == front;
      assert WithoutLast(layers, Pop(layers, p), p, last);
    } else {
      PopTakesLast(front, p);
      assert Pop(layers, p) == Pop(front, p) + [layers[last]];
      var i :| WithoutLast(front, Pop(front, p), p, i);
      WithoutLastExtended(front, Pop(front, p), p, i, layers[last]);
      assert front + [layers[last]] == layers;
    }
  }

  lemma WithoutLastExtended(layers: seq<Layer>, layers': seq<Layer>, p: Path, i: int, l: Layer)
    requires WithoutLast(layers, layers', p, i) && l.at != p
    ensures WithoutLast(layers + [l], layers' + [l], p, i)
  {
    assert (layers + [l])[..i] == layers[..i] && (layers + [l])[i + 1..] == layers[i + 1..] + [l];
  }

  /** With nothing failing, Publish from an existing directory mounts exactly when the target is not
      seen as mounted, whatever is mounted there. */
  lemma PublishExactly(world: World, s: State, volumeID: string, staging: Path, target: Path, capability: Capability,
                       readOnly: bool)
    requires volumeID != "" && staging != [] && target != [] && !capability.NoCapability?
    requires staging in s.dirs && Calm(world)
    ensures var (s', reply) := PublishStep(world, s, volumeID, staging, target, capability, readOnly);
            if SeenMounted(s, target)
            then reply == Empty && s'.layers == s.layers && s'.dirs == s.dirs
            else
              && reply == Response && s'.layers == s.layers + [Layer(target, DeviceAt(s.layers, staging))]
              && s.dirs <= s'.dirs && target in s'.dirs && Parent(target) in s'.dirs
  {
    assert target == target[..|target|];
  }
}
