/** When mounts stack, and what undoes them. */
module NodeMounts {
  import opened Wrappers
  import opened VolumeId
  import opened DevicePaths
  import opened Host
  import opened NodeSpec
  import opened NodeAnswers

  // ---- Stacking ----

  /** No path of play is the root or lies below another. */
  ghost predicate Apart(paths: set<Path>) {
    forall p, q :: p in paths && q in paths ==> p != [] && !(p < q)
  }

  ghost predicate Closed(dirs: set<Path>) {
    forall d :: d in dirs && d != [] ==> Parent(d) in dirs
  }

  /** Only paths of play are mounted on, each at most once, always with a disk, on a directory that
      exists. */
  ghost predicate Tidy(paths: set<Path>, s: State) {
    && Closed(s.dirs)
    && (forall i :: 0 <= i < |s.layers| ==>
          s.layers[i].at in paths && s.layers[i].at in s.dirs && s.layers[i].dev.Disk?)
    && (forall p :: Depth(s.layers, p) <= 1)
  }

  /** Calls stay on the paths of play, and Publish is called only while its staging path is staged. */
  predicate InPlay(paths: set<Path>, s: State, c: Call) {
    match c
    case Stage(_, staging, _) => staging in paths
    case Publish(_, staging, target, _, _) => target in paths && Top(s.layers, staging).Some?
    case Unpublish(_, _) => true
    case Unstage(_, _) => true
    case Relink(_) => true
  }

  lemma {:induction false} DepthIsTop(layers: seq<Layer>, p: Path)
    ensures Depth(layers, p) > 0 <==> Top(layers, p).Some?
    ensures Top(layers, p).Some? ==> exists i :: 0 <= i < |layers| && layers[i] == Layer(p, Top(layers, p).value)
    ensures Top(layers, p).None? ==> forall i :: 0 <= i < |layers| ==> layers[i].at != p
  {
    TopIsLast(layers, p);
    if layers != [] {
      DepthIsTop(layers[..|layers| - 1], p);
    }
  }

  lemma DepthOfPush(layers: seq<Layer>, l: Layer)
    ensures forall p :: Depth(layers + [l], p) == Depth(layers, p) + if l.at == p then 1 else 0
  {
  }

  lemma {:induction false} DepthOfPop(layers: seq<Layer>, p: Path, q: Path)
    requires Top(layers, p).Some?
    ensures Depth(Pop(layers, p), q) == Depth(layers, q) - if p == q then 1 else 0
    ensures forall l :: l in Pop(layers, p) ==> l in layers
  {
    var last := |layers| - 1;
    if layers[last].at != p {
      DepthOfPop(layers[..last], p, q);
      DepthOfPush(Pop(layers[..last], p), layers[last]);
    }
  }

  /** Among paths that do not nest, the parent of every path of play lies on the root filesystem. */
  lemma ParentOnRoot(paths: set<Path>, s: State, p: Path)
    requires Apart(paths) && Tidy(paths, s) && p in paths
    ensures DeviceAt(s.layers, Parent(p)) == RootFs
  {
    DeviceAtIsLongestPrefix(s.layers, Parent(p));
    forall i | 0 <= i < |s.layers| ensures !(s.layers[i].at <= Parent(p)) {
      assert !(s.layers[i].at < p);
    }
  }

  /** On a tidy host the check, when it can be made at all, is right about every path of play. */
  lemma CheckIsRight(world: World, s: State, paths: set<Path>, p: Path)
    requires Apart(paths) && Tidy(paths, s) && p in paths
    ensures var a := Answer(world, s, p);
            !a.err.OtherError? ==> (a.notMnt <==> Depth(s.layers, p) == 0)
  {
    ParentOnRoot(paths, s, p);
    CheckExactly(world, s, p);
    DepthIsTop(s.layers, p);
  }

  /** On a tidy host exactly the mounts are seen. */
  lemma SeenExactly(s: State, paths: set<Path>, p: Path)
    requires Apart(paths) && Tidy(paths, s) && p in paths
    ensures SeenMounted(s, p) <==> Depth(s.layers, p) > 0
  {
    CheckIsRight((n: nat) => Outcome.Success, s, paths, p);
  }

  lemma PushStaysTidy(paths: set<Path>, s: State, s': State, l: Layer)
    requires Tidy(paths, s) && s'.layers == s.layers + [l] && Closed(s'.dirs) && s.dirs <= s'.dirs
    requires l.at in paths && l.at in s'.dirs && l.dev.Disk? && Depth(s.layers, l.at) == 0
    ensures Tidy(paths, s')
  {
    DepthOfPush(s.layers, l);
    hide Depth;
  }

  lemma PopStaysTidy(paths: set<Path>, s: State, s': State, p: Path)
    requires Tidy(paths, s) && Top(s.layers, p).Some? && s'.layers == Pop(s.layers, p) && s'.dirs == s.dirs
    ensures Tidy(paths, s')
  {
    forall q { DepthOfPop(s.layers, p, q); }
    forall i | 0 <= i < |s'.layers| ensures s'.layers[i] in s.layers {
      DepthOfPop(s.layers, p, p);
    }
  }

  lemma MkdirStaysClosed(world: World, s: State, p: Path)
    requires Closed(s.dirs)
    ensures var (s', ok) := MkdirAll(world, s, p);
            Closed(s'.dirs) && s.dirs <= s'.dirs && (ok ==> p in s'.dirs) && s'.layers == s.layers
  {
    var s' := MkdirAll(world, s, p).0;
    forall d | d in s'.dirs && d != [] && d !in s.dirs ensures Parent(d) in s'.dirs {
      var k :| 0 <= k <= |p| && d == p[..k];
      assert Parent(d) == p[..k - 1];
    }
    assert p == p[..|p|];
  }

  lemma RemoveStaysTidy(world: World, s: State, paths: set<Path>, p: Path)
    requires Tidy(paths, s)
    ensures Tidy(paths, Remove(world, s, p).0)
  {
    var s' := Remove(world, s, p).0;
    DepthIsTop(s.layers, p);
    forall d | d in s'.dirs && d != [] ensures Parent(d) in s'.dirs {
      assert Parent(d) < d;
    }
  }

  lemma UmountStaysTidy(world: World, s: State, paths: set<Path>, p: Path)
    requires Tidy(paths, s)
    ensures Tidy(paths, Umount(world, s, p).0)
  {
    if Umount(world, s, p).1 {
      PopStaysTidy(paths, s, Umount(world, s, p).0, p);
    }
  }

  lemma RecoverStaysTidy(world: World, s: State, paths: set<Path>, target: Path)
    requires Tidy(paths, s) && target != []
    ensures Tidy(paths, Recover(world, s, target))
  {
    hide Tidy, Remove, Umount;
    var (s1, a) := Check(world, s, target);
    SameMounts(paths, s, s1);
    RemoveStaysTidy(world, s1, paths, target);
    UmountStaysTidy(world, s1, paths, target);
    var s2 := Umount(world, s1, target).0;
    var s3 := Check(world, s2, target).0;
    SameMounts(paths, s2, s3);
    RemoveStaysTidy(world, s3, paths, target);
  }

  lemma SameMounts(paths: set<Path>, s: State, s': State)
    requires Tidy(paths, s) && s'.layers == s.layers && s'.dirs == s.dirs
    ensures Tidy(paths, s')
  {
  }

  lemma StageStaysTidy(world: World, s: State, paths: set<Path>, volumeID: string, staging: Path,
                       capability: Capability)
    requires Apart(paths) && Tidy(paths, s) && staging in paths
    ensures var (s', reply) := StageStep(world, s, volumeID, staging, capability);
            Tidy(paths, s') && (Depth(s.layers, staging) > 0 ==> reply.Failed? && s'.layers == s.layers)
  {
    hide Tidy, SplitZoneNameId, VerifyDevicePath, StageDevice;
    StageMeans(world, s, volumeID, staging, capability);
    if SplitZoneNameId(volumeID).Some? {
      var paths' := ByIdPaths(SplitZoneNameId(volumeID).value.name, "");
      var (s1, device) := VerifyDevicePath(world, s, paths');
      VerifyMeans(world, s, paths');
      SameMounts(paths, s, s1);
      if device.Some? {
        StageDeviceStaysTidy(world, s1, paths, device.value, staging, capability);
      }
    }
  }

  lemma StageDeviceStaysTidy(world: World, s: State, paths: set<Path>, link: string, staging: Path,
                             capability: Capability)
    requires Apart(paths) && Tidy(paths, s) && staging in paths
    ensures var (s', reply) := StageDevice(world, s, link, staging, capability);
            Tidy(paths, s') && (Depth(s.layers, staging) > 0 ==> reply.Failed?)
  {
    assert staging != [];
    hide FormatAndMount, Depth, Apart, Answer;
    var (s1, a) := Check(world, s, staging);
    CheckIsRight(world, s, paths, staging);
    var (s2, made) := if a.err.NotExist? then MkdirAll(world, s1, staging) else (s1, true);
    MkdirStaysClosed(world, s1, staging);
    var (s3, ok) := FormatAndMount(world, s2, link, staging, FsTypeOf(capability), FlagsOf(capability));
    FormatAndMountMeans(world, s2, link, staging, FsTypeOf(capability), FlagsOf(capability));
    if ok && Depth(s.layers, staging) == 0 {
      PushStaysTidy(paths, s2, s3, Layer(staging, Disk(s2.links[link])));
    }
  }

  lemma PublishStaysTidy(world: World, s: State, paths: set<Path>, volumeID: string, staging: Path, target: Path,
                         capability: Capability, readOnly: bool)
    requires Apart(paths) && Tidy(paths, s) && target in paths && Top(s.layers, staging).Some?
    ensures var (s', reply) := PublishStep(world, s, volumeID, staging, target, capability, readOnly);
            Tidy(paths, s') && (Depth(s.layers, target) > 0 ==> s'.layers == s.layers && reply != Response)
  {
    assert target != [];
    hide Depth, Apart, Recover, Answer;
    var (s1, a) := Check(world, s, target);
    CheckIsRight(world, s, paths, target);
    var (s2, made) := MkdirAll(world, s1, target);
    MkdirStaysClosed(world, s1, target);
    var (s3, ok) := Mount(world, s2, Directory(staging), target, "ext4", BindOptions(readOnly));
    if a.notMnt && !a.err.OtherError? && made {
      DepthIsTop(s.layers, staging);
      if s3.layers != s2.layers {
        PushStaysTidy(paths, s2, s3, Layer(target, DeviceAt(s2.layers, staging)));
      }
      RecoverStaysTidy(world, s3, paths, target);
    }
  }

  lemma StepStaysTidy(world: World, s: State, paths: set<Path>, c: Call)
    requires Apart(paths) && Tidy(paths, s) && InPlay(paths, s, c)
    ensures Tidy(paths, Step(world, s, c).0)
  {
    hide Tidy, Umount, Apart, PublishStep, StageStep;
    match c
    case Stage(id, staging, capability) => StageStaysTidy(world, s, paths, id, staging, capability);
    case Publish(id, staging, target, capability, readOnly) =>
      PublishStaysTidy(world, s, paths, id, staging, target, capability, readOnly);
    case Unpublish(id, target) => UmountStaysTidy(world, s, paths, target);
    case Unstage(id, staging) => UmountStaysTidy(world, s, paths, staging);
    case Relink(links) => SameMounts(paths, s, s.(links := links));
  }

  ghost predicate RunInPlay(world: World, s: State, paths: set<Path>, calls: seq<Call>) {
    forall i :: 0 <= i < |calls| ==> InPlay(paths, After(world, s, calls[..i]), calls[i])
  }

  /** At most one layer: in every run in which Publish is called only while its staging path is
      staged, on paths that do not nest, no staging or target path ever carries two mount layers. */
  lemma {:induction false} NeverTwoLayers(world: World, s: State, paths: set<Path>, calls: seq<Call>)
    requires Apart(paths) && Tidy(paths, s) && RunInPlay(world, s, paths, calls)
    ensures Tidy(paths, After(world, s, calls))
    ensures forall p :: Depth(After(world, s, calls).layers, p) <= 1
  {
    if calls != [] {
      var last := |calls| - 1;
      assert forall i :: 0 <= i < last ==> calls[..last][..i] == calls[..i];
      NeverTwoLayers(world, s, paths, calls[..last]);
      StepStaysTidy(world, After(world, s, calls[..last]), paths, calls[last]);
    }
  }

  lemma {:induction false} DeviceBesideLayer(layers: seq<Layer>, l: Layer, p: Path)
    requires !(l.at <= p)
    ensures DeviceAt(layers + [l], p) == DeviceAt(layers, p)
    decreases |p|
  {
    if p != [] {
      assert Parent(p) <= p;
      DeviceBesideLayer(layers, l, Parent(p));
    }
  }

  /** A new layer changes what a path shows to the new layer's device, or not at all. */
  lemma {:induction false} DeviceAfterPush(layers: seq<Layer>, l: Layer, p: Path)
    ensures DeviceAt(layers + [l], p) in {DeviceAt(layers, p), l.dev}
    decreases |p|
  {
    assert (layers + [l])[..|layers|] == layers;
    if p != [] {
      DeviceAfterPush(layers, l, Parent(p));
    }
  }

  /** What a Publish that mounts changes for the next one: the target is now seen as mounted exactly
      when the staging directory and the target's parent show different devices, which stay as they
      were. */
  lemma PublishThenSeen(s: State, s': State, staging: Path, target: Path)
    requires target != [] && target in s'.dirs && Parent(target) in s'.dirs
    requires s'.layers == s.layers + [Layer(target, DeviceAt(s.layers, staging))]
    ensures DeviceAt(s'.layers, staging) == DeviceAt(s.layers, staging)
    ensures DeviceAt(s'.layers, Parent(target)) == DeviceAt(s.layers, Parent(target))
    ensures SeenMounted(s', target) <==> DeviceAt(s.layers, staging) != DeviceAt(s.layers, Parent(target))
  {
    var layer := Layer(target, DeviceAt(s.layers, staging));
    DeviceAfterPush(s.layers, layer, staging);
    DeviceBesideLayer(s.layers, layer, Parent(target));
    assert Top(s'.layers, target) == Some(layer.dev);
  }

  /** When repeated Publishes stack, on any host: with nothing failing, n in a row from an existing
      directory mount nothing on a target seen as mounted; otherwise they mount n times when the
      directory shows the device of the target's parent, and once when it shows another. */
  lemma {:induction false} PublishRepeatedly(world: World, s: State, volumeID: string, staging: Path, target: Path,
                                             capability: Capability, readOnly: bool, n: nat)
    requires volumeID != "" && staging != [] && target != [] && !capability.NoCapability?
    requires staging in s.dirs && Calm(world)
    ensures var s' := After(world, s, seq(n, _ => Publish(volumeID, staging, target, capability, readOnly)));
            var blind := DeviceAt(s.layers, staging) == DeviceAt(s.layers, Parent(target));
            && s.dirs <= s'.dirs
            && DeviceAt(s'.layers, staging) == DeviceAt(s.layers, staging)
            && DeviceAt(s'.layers, Parent(target)) == DeviceAt(s.layers, Parent(target))
            && (SeenMounted(s', target) <==> SeenMounted(s, target) || (n > 0 && !blind))
            && Depth(s'.layers, target) == Depth(s.layers, target) +
                 if SeenMounted(s, target) || n == 0 then 0 else if blind then n else 1
  {
    hide PublishStep, DeviceAt, Depth;
    var call := Publish(volumeID, staging, target, capability, readOnly);
    if n > 0 {
      var t := After(world, s, seq(n - 1, _ => call));
      assert seq(n, _ => call)[..n - 1] == seq(n - 1, _ => call);
      PublishRepeatedly(world, s, volumeID, staging, target, capability, readOnly, n - 1);
      PublishExactly(world, t, volumeID, staging, target, capability, readOnly);
      var s' := Step(world, t, call).0;
      if !SeenMounted(t, target) {
        PublishThenSeen(t, s', staging, target);
        DepthOfPush(t.layers, Layer(target, DeviceAt(t.layers, staging)));
      }
    }
  }

  /** On a tidy host, where a free target and an unstaged directory are the only way: any number of
      Publishes leaves one layer on the target, except that from an unstaged directory each of them
      adds one to a target that was free. */
  lemma PublishRepeatedlyTidy(world: World, s: State, paths: set<Path>, volumeID: string, staging: Path, target: Path,
                              capability: Capability, readOnly: bool, n: nat)
    requires Apart(paths) && Tidy(paths, s) && staging in paths && target in paths
    requires volumeID != "" && !capability.NoCapability? && staging in s.dirs && Calm(world) && n > 0
    ensures var s' := After(world, s, seq(n, _ => Publish(volumeID, staging, target, capability, readOnly)));
            Depth(s'.layers, target) ==
            if Depth(s.layers, target) == 0 && Top(s.layers, staging).None? then n else 1
  {
    assert staging != [] && target != [] && Depth(s.layers, target) <= 1;
    PublishRepeatedly(world, s, volumeID, staging, target, capability, readOnly, n);
    SeenExactly(s, paths, target);
    ParentOnRoot(paths, s, target);
    ParentOnRoot(paths, s, staging);
    DepthIsTop(s.layers, staging);
  }

  /** Stacking occurs: the bind mount of an unstaged directory shows the root filesystem, which the
      check cannot tell from no mount. */
  lemma PublishUnstagedStacks(n: nat)
    requires n > 0
    ensures var s := State([], {[], ["s"], ["t"]}, map[], map[], []);
            var call := Publish("z/v", ["s"], ["t"], OtherCapability, false);
            var world: World := (k: nat) => Outcome.Success;
            && Tidy({["s"], ["t"]}, s) && Apart({["s"], ["t"]})
            && Depth(After(world, s, seq(n, _ => call)).layers, ["t"]) == n
  {
    hide After;
    var s := State([], {[], ["s"], ["t"]}, map[], map[], []);
    var world: World := (k: nat) => Outcome.Success;
    assert Parent(["t"]) == [] && Parent(["s"]) == [];
    PublishRepeatedlyTidy(world, s, {["s"], ["t"]}, "z/v", ["s"], ["t"], OtherCapability, false, n);
  }

  lemma StageMakesPath(world: World, s: State, volumeID: string, staging: Path, capability: Capability)
    requires StageStep(world, s, volumeID, staging, capability).1 == Response
    ensures var s' := StageStep(world, s, volumeID, staging, capability).0;
            staging != [] && staging in s'.dirs && Parent(staging) in s'.dirs
  {
    hide SplitZoneNameId, VerifyDevicePath, FormatAndMount;
    var paths := ByIdPaths(SplitZoneNameId(volumeID).value.name, "");
    var (s1, device) := VerifyDevicePath(world, s, paths);
    VerifyMeans(world, s, paths);
    var (s2, a) := Check(world, s1, staging);
    var s3 := if a.err.NotExist? then MkdirAll(world, s2, staging).0 else s2;
    assert staging == staging[..|staging|];
    FormatAndMountMeans(world, s3, device.value, staging, FsTypeOf(capability), FlagsOf(capability));
  }

  /** When a second Stage succeeds, on any host: with nothing failing, after one answered OK the same
      call is answered OK again, and mounts the disk a second time, exactly when the parent of the
      staging path already showed that disk. */
  lemma StageTwiceExactly(world: World, s: State, volumeID: string, staging: Path, capability: Capability)
    requires Calm(world) && StageStep(world, s, volumeID, staging, capability).1 == Response
    ensures var s' := StageStep(world, s, volumeID, staging, capability).0;
            && staging != [] && s'.layers != []
            && (StageStep(world, s', volumeID, staging, capability).1 == Response <==>
                  DeviceAt(s.layers, Parent(staging)) == s'.layers[|s'.layers| - 1].dev)
  {
    hide SplitZoneNameId, StageStep, FirstExisting;
    var s' := StageStep(world, s, volumeID, staging, capability).0;
    StageMeans(world, s, volumeID, staging, capability);
    StageMakesPath(world, s, volumeID, staging, capability);
    StageExactly(world, s, volumeID, staging, capability);
    StageExactly(world, s', volumeID, staging, capability);
    DeviceBesideLayer(s.layers, s'.layers[|s'.layers| - 1], Parent(staging));
  }

  // ---- Undoing ----

  /** Nothing but this command fails. */
  ghost predicate CalmBut(world: World, at: nat) {
    forall n :: n != at ==> world(n).Success?
  }

  /** What is left of a Publish whose bind mount, and nothing else, fails. A layer the mount left behind
      is taken away again, unless it shows the device of the target's parent and so goes unseen; and the
      target directory is removed unless something is mounted there or it has directories below it. */
  lemma FailedPublishUndone(world: World, s: State, volumeID: string, staging: Path, target: Path,
                            capability: Capability, readOnly: bool)
    requires volumeID != "" && staging != [] && target != [] && !capability.NoCapability? && staging in s.dirs
    requires DeviceAt(s.layers, target) == DeviceAt(s.layers, Parent(target))
    requires CalmBut(world, |s.trace| + 2) && world(|s.trace| + 2).Fails?
    ensures var (s', reply) := PublishStep(world, s, volumeID, staging, target, capability, readOnly);
            var left := Layer(target, DeviceAt(s.layers, staging));
            && reply == Failed(Internal)
            && s'.layers == (if world(|s.trace| + 2).leaks && left.dev == DeviceAt(s.layers, Parent(target))
                             then s.layers + [left] else s.layers)
            && (target in s'.dirs <==> Top(s'.layers, target).Some? || exists d :: d in s.dirs && target < d)
  {
    hide DeviceAt, Top;
    assert target == target[..|target|];
    var s1 := Check(world, s, target).0;
    var s2 := MkdirAll(world, s1, target).0;
    var s3 := Mount(world, s2, Directory(staging), target, "ext4", BindOptions(readOnly)).0;
    assert target in s2.dirs && Parent(target) in s2.dirs by {
      assert Parent(target) == target[..|target| - 1];
    }
    assert forall d :: d in s2.dirs && target < d ==> d in s.dirs;
    if s3.layers != s2.layers {
      PublishThenSeen(s2, s3, staging, target);
      assert Top(s3.layers, target).Some? && Pop(s3.layers, target) == s.layers by {
        TopIsLast(s3.layers, target);
        assert s3.layers[|s.layers|].at == target;
        assert s3.layers[..|s.layers|] == s.layers;
      }
    }
  }

  /** Unmounting what was mounted last gives the mount table back in its original order: an OK
      Unstage right after an OK Stage, and an OK Unpublish right after a Publish that mounted. */
  lemma UnmountUndoes(world: World, s: State, mounting: Call, id: string)
    requires mounting.Stage? || mounting.Publish?
    requires Step(world, s, mounting).1 == Response
    ensures var path := if mounting.Stage? then mounting.staging else mounting.target;
            var s1 := Step(world, s, mounting).0;
            var (s2, reply) := UnmountStep(world, s1, id, path);
            && s1.layers != s.layers
            && (reply == Response ==> s2.layers == s.layers)
  {
    hide StageStep, PublishStep;
    match mounting {
      case Stage(volumeID, staging, capability) => StageMeans(world, s, volumeID, staging, capability);
      case Publish(volumeID, staging, target, capability, readOnly) =>
        PublishMeans(world, s, volumeID, staging, target, capability, readOnly);
    }
    var s1 := Step(world, s, mounting).0;
    assert s1.layers[..|s.layers|] == s.layers;
  }

  /** The unmounting RPCs are not idempotent. After an OK Unpublish or Unstage, a second one of the
      path is answered OK exactly when another layer was mounted below and its own unmount succeeds;
      where at most one layer was mounted it fails in every world. */
  lemma SecondUnmountExactly(world: World, s: State, id: string, path: Path, again: World)
    requires UnmountStep(world, s, id, path).1 == Response
    ensures var s1 := UnmountStep(world, s, id, path).0;
            UnmountStep(again, s1, id, path).1 ==
              if Depth(s.layers, path) >= 2 && Next(again, s1).Success? then Response else Failed(Internal)
  {
    DepthIsTop(s.layers, path);
    DepthOfPop(s.layers, path, path);
    DepthIsTop(Pop(s.layers, path), path);
  }
}
