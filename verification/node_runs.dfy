/** What every serial run of the node RPCs does to disks and directories, whatever the outcomes of
    the commands it runs. */
module NodeRuns {
  import opened Wrappers
  import opened VolumeId
  import opened DiskFormat
  import opened DevicePaths
  import opened Host
  import opened NodeSpec

  // ---- The claims, on the record of commands ----

  /** No mkfs of the record ran on a disk that held a filesystem or partitions. */
  ghost predicate OnlyBlankFormatted(trace: seq<Entry>) {
    forall i :: 0 <= i < |trace| && trace[i].Formatted? ==> trace[i].before.Blank()
  }

  predicate FormattedOk(e: Entry, serial: nat) {
    e.Formatted? && e.ok && e.serial == Some(serial)
  }

  /** mkfs succeeded at most once on every disk. */
  ghost predicate FormattedAtMostOnce(trace: seq<Entry>) {
    forall i, j, serial :: 0 <= i < j < |trace| && FormattedOk(trace[i], serial) ==> !FormattedOk(trace[j], serial)
  }

  /** Every disk mkfs succeeded on still holds something. */
  ghost predicate FormattedHold(s: State) {
    forall i, serial :: 0 <= i < |s.trace| && FormattedOk(s.trace[i], serial) ==> !s.ContentOf(serial).Blank()
  }

  /** The record may go on with `e`: a directory is removed only directly after a check of it that
      answered, without an error, that it is not a mount point. */
  predicate Justified(before: seq<Entry>, e: Entry) {
    e.Removed? ==> before != [] && before[|before| - 1] == Checked(e.path, true, NoError)
  }

  ghost predicate RemovesJustified(trace: seq<Entry>) {
    forall i :: 0 <= i < |trace| ==> Justified(trace[..i], trace[i])
  }

  ghost predicate Safe(s: State) {
    && OnlyBlankFormatted(s.trace) && FormattedAtMostOnce(s.trace) && FormattedHold(s)
    && RemovesJustified(s.trace)
  }

  /** Every disk that held something still holds the same. */
  ghost predicate Preserves(s: State, s': State) {
    forall serial: nat :: !s.ContentOf(serial).Blank() ==> s'.ContentOf(serial) == s.ContentOf(serial)
  }

  // ---- One command ----

  /** One more command on record, which wrote to no disk. */
  ghost predicate Plain(s: State, s': State) {
    && s'.contents == s.contents
    && exists e: Entry :: s'.trace == s.trace + [e] && !e.Formatted? && Justified(s.trace, e)
  }

  lemma AppendJustified(trace: seq<Entry>, e: Entry)
    requires RemovesJustified(trace) && Justified(trace, e)
    ensures RemovesJustified(trace + [e])
  {
    var trace' := trace + [e];
    forall i | 0 <= i < |trace'| ensures Justified(trace'[..i], trace'[i]) {
      assert trace'[..i] == if i == |trace| then trace else trace[..i];
    }
  }

  lemma PlainIsSafe(s: State, s': State)
    requires Safe(s) && Plain(s, s')
    ensures Safe(s') && Preserves(s, s')
  {
    var e: Entry :| s'.trace == s.trace + [e] && !e.Formatted? && Justified(s.trace, e);
    AppendJustified(s.trace, e);
    forall i, serial: nat | 0 <= i < |s'.trace| && FormattedOk(s'.trace[i], serial)
      ensures !s'.ContentOf(serial).Blank()
    {
      assert FormattedOk(s.trace[i], serial);
      assert s'.ContentOf(serial) == s.ContentOf(serial);
    }
  }

  /** mkfs under a real filesystem name, on a disk that is blank, is safe. */
  lemma MkfsIsSafe(world: World, s: State, link: string, fstype: string, force: bool)
    requires Safe(s) && fstype != ""
    requires link in s.links ==> s.ContentOf(s.links[link]).Blank()
    ensures var s' := Mkfs(world, s, link, fstype, force).0;
            Safe(s') && Preserves(s, s')
  {
    var s' := Mkfs(world, s, link, fstype, force).0;
    AppendJustified(s.trace, s'.trace[|s.trace|]);
    assert s'.trace == s.trace + [s'.trace[|s.trace|]];
    forall i, serial: nat | 0 <= i < |s'.trace| && FormattedOk(s'.trace[i], serial)
      ensures !s'.ContentOf(serial).Blank()
    {
      if i < |s.trace| {
        assert FormattedOk(s.trace[i], serial);
        assert !s.ContentOf(serial).Blank();
        assert s'.ContentOf(serial) == s.ContentOf(serial);
      } else {
        assert s'.ContentOf(serial) == Content(fstype, []);
      }
    }
  }

  lemma PreservesTransitive(a: State, b: State, c: State)
    requires Preserves(a, b) && Preserves(b, c)
    ensures Preserves(a, c)
  {
  }

  lemma ThenPlain(a: State, b: State, c: State)
    requires Safe(b) && Preserves(a, b) && Plain(b, c)
    ensures Safe(c) && Preserves(a, c)
  {
    PlainIsSafe(b, c);
    PreservesTransitive(a, b, c);
  }

  lemma CommandsArePlain(world: World, s: State)
    ensures forall p :: p != [] ==> Plain(s, Check(world, s, p).0)
    ensures forall link :: Plain(s, StatLink(world, s, link).0)
    ensures forall link :: Plain(s, Fsck(world, s, link).0)
    ensures forall source, target, fstype, options :: Plain(s, Mount(world, s, source, target, fstype, options).0)
    ensures forall link :: Plain(s, RunLsblk(world, s, link).0)
    ensures forall p :: Plain(s, Umount(world, s, p).0)
    ensures forall p :: Plain(s, MkdirAll(world, s, p).0)
  {
  }

  // ---- The RPCs ----

  lemma {:induction false} VerifyIsSafe(world: World, s: State, paths: seq<string>)
    requires Safe(s)
    ensures var s' := VerifyDevicePath(world, s, paths).0;
            Safe(s') && Preserves(s, s')
    decreases |paths|
  {
    hide Safe, Preserves, Plain, StatLink;
    CommandsArePlain(world, s);
    if paths == [] {
      Reflexive(s);
    } else {
      var s1 := StatLink(world, s, paths[0]).0;
      PlainIsSafe(s, s1);
      VerifyIsSafe(world, s1, paths[1..]);
      PreservesTransitive(s, s1, VerifyDevicePath(world, s1, paths[1..]).0);
    }
  }

  lemma Reflexive(s: State)
    ensures Preserves(s, s)
  {
  }

  lemma FormatThenMountIsSafe(world: World, s: State, source: string, target: Path, fstype: string,
                              options: seq<string>)
    requires Safe(s)
    ensures var s' := FormatThenMount(world, s, source, target, fstype, options).0;
            Safe(s') && Preserves(s, s')
  {
    hide Safe, Preserves, Plain, Mount, Mkfs;
    var (s1, output) := RunLsblk(world, s, source);
    CommandsArePlain(world, s);
    PlainIsSafe(s, s1);
    if output.Some? && ParseFormat(output.value) == "" {
      ReadsBlankExactly(s.ContentOf(s.links[source]));
      var fs := if fstype == "" then DEFAULT_FSTYPE else fstype;
      var force := fs == "ext4" || fs == "ext3";
      var s2 := Mkfs(world, s1, source, fs, force).0;
      assert s1.ContentOf(s.links[source]) == s.ContentOf(s.links[source]);
      MkfsIsSafe(world, s1, source, fs, force);
      PreservesTransitive(s, s1, s2);
      CommandsArePlain(world, s2);
      ThenPlain(s, s2, Mount(world, s2, ByIdLink(source), target, fs, options).0);
    }
  }

  lemma FormatAndMountIsSafe(world: World, s: State, source: string, target: Path, fstype: string, options: seq<string>)
    requires Safe(s)
    ensures var s' := FormatAndMount(world, s, source, target, fstype, options).0;
            Safe(s') && Preserves(s, s')
  {
    hide Safe, Preserves, Plain, Mount, Fsck, FormatThenMount;
    var opts := options + ["defaults"];
    var s1 := Fsck(world, s, source).0;
    CommandsArePlain(world, s);
    PlainIsSafe(s, s1);
    var s2 := Mount(world, s1, ByIdLink(source), target, fstype, opts).0;
    CommandsArePlain(world, s1);
    ThenPlain(s, s1, s2);
    FormatThenMountIsSafe(world, s2, source, target, fstype, opts);
    PreservesTransitive(s, s2, FormatThenMount(world, s2, source, target, fstype, opts).0);
  }

  lemma StageIsSafe(world: World, s: State, volumeID: string, staging: Path, capability: Capability)
    requires Safe(s)
    ensures var s' := StageStep(world, s, volumeID, staging, capability).0;
            Safe(s') && Preserves(s, s')
  {
    hide Safe, Preserves, Plain, SplitZoneNameId, VerifyDevicePath, StageDevice;
    Reflexive(s);
    if staging != [] && SplitZoneNameId(volumeID).Some? {
      var (s1, device) := VerifyDevicePath(world, s, ByIdPaths(SplitZoneNameId(volumeID).value.name, ""));
      VerifyIsSafe(world, s, ByIdPaths(SplitZoneNameId(volumeID).value.name, ""));
      if device.Some? {
        StageDeviceIsSafe(world, s1, device.value, staging, capability);
        PreservesTransitive(s, s1, StageDevice(world, s1, device.value, staging, capability).0);
      }
    }
  }

  lemma StageDeviceIsSafe(world: World, s: State, device: string, staging: Path, capability: Capability)
    requires Safe(s) && staging != []
    ensures var s' := StageDevice(world, s, device, staging, capability).0;
            Safe(s') && Preserves(s, s')
  {
    hide Safe, Preserves, Plain, Check, MkdirAll, FormatAndMount;
    var (s1, a) := Check(world, s, staging);
    CommandsArePlain(world, s);
    PlainIsSafe(s, s1);
    var s2 := if a.err.NotExist? then MkdirAll(world, s1, staging).0 else s1;
    if a.err.NotExist? {
      CommandsArePlain(world, s1);
      ThenPlain(s, s1, s2);
    }
    var fstype, flags := FsTypeOf(capability), FlagsOf(capability);
    FormatAndMountIsSafe(world, s2, device, staging, fstype, flags);
    PreservesTransitive(s, s2, FormatAndMount(world, s2, device, staging, fstype, flags).0);
  }

  /** Right after a clean check that found no mount, removing the directory is justified. */
  lemma RemoveAfterCheck(world: World, s: State, p: Path)
    requires p != [] && Answer(world, s, p) == CheckAnswer(true, NoError)
    ensures var s' := Check(world, s, p).0;
            Plain(s', Remove(world, s', p).0)
  {
  }

  lemma RecoverIsSafe(world: World, s: State, target: Path)
    requires Safe(s) && target != []
    ensures var s' := Recover(world, s, target);
            Safe(s') && Preserves(s, s')
  {
    hide Safe, Preserves, Plain, Check, Umount, Remove, Answer;
    var (s1, a) := Check(world, s, target);
    CheckIsAnswer(world, s, target);
    CommandsArePlain(world, s);
    PlainIsSafe(s, s1);
    if a == CheckAnswer(true, NoError) {
      RemoveAfterCheck(world, s, target);
      ThenPlain(s, s1, Remove(world, s1, target).0);
    } else if a.err.NoError? {
      var (s2, ok) := Umount(world, s1, target);
      CommandsArePlain(world, s1);
      ThenPlain(s, s1, s2);
      var (s3, b) := Check(world, s2, target);
      CheckIsAnswer(world, s2, target);
      CommandsArePlain(world, s2);
      ThenPlain(s, s2, s3);
      if b == CheckAnswer(true, NoError) {
        RemoveAfterCheck(world, s2, target);
        ThenPlain(s, s3, Remove(world, s3, target).0);
      }
    }
  }

  lemma CheckIsAnswer(world: World, s: State, p: Path)
    requires p != []
    ensures Check(world, s, p).1 == Answer(world, s, p)
  {
  }

  lemma PublishIsSafe(world: World, s: State, volumeID: string, staging: Path, target: Path, capability: Capability,
                      readOnly: bool)
    requires Safe(s)
    ensures var s' := PublishStep(world, s, volumeID, staging, target, capability, readOnly).0;
            Safe(s') && Preserves(s, s')
  {
    hide Safe, Preserves, Plain, Check, MkdirAll, Mount, Recover;
    Reflexive(s);
    if target != [] {
      var s1 := Check(world, s, target).0;
      CommandsArePlain(world, s);
      PlainIsSafe(s, s1);
      var s2 := MkdirAll(world, s1, target).0;
      CommandsArePlain(world, s1);
      ThenPlain(s, s1, s2);
      var s3 := Mount(world, s2, Directory(staging), target, "ext4", BindOptions(readOnly)).0;
      CommandsArePlain(world, s2);
      ThenPlain(s, s2, s3);
      RecoverIsSafe(world, s3, target);
      PreservesTransitive(s, s3, Recover(world, s3, target));
    }
  }

  lemma StepIsSafe(world: World, s: State, c: Call)
    requires Safe(s)
    ensures var s' := Step(world, s, c).0;
            Safe(s') && Preserves(s, s')
  {
    hide Plain, StageStep, PublishStep, Umount;
    match c
    case Stage(id, staging, capability) => StageIsSafe(world, s, id, staging, capability);
    case Publish(id, staging, target, capability, readOnly) =>
      PublishIsSafe(world, s, id, staging, target, capability, readOnly);
    case Unpublish(id, target) =>
      CommandsArePlain(world, s);
      PlainIsSafe(s, Umount(world, s, target).0);
    case Unstage(id, staging) =>
      CommandsArePlain(world, s);
      PlainIsSafe(s, Umount(world, s, staging).0);
    case Relink(links) =>
      var s' := s.(links := links);
      assert forall serial: nat :: s'.ContentOf(serial) == s.ContentOf(serial);
  }

  /** Data safety over every run and every world, from any initial contents and mount table: mkfs
      never runs on a disk that holds a filesystem or partitions, it succeeds at most once per disk,
      no disk that holds something is ever changed, and no directory is removed except directly after
      a clean check of it that found no mount. */
  lemma {:induction false} RunsAreSafe(world: World, s: State, calls: seq<Call>)
    requires s.trace == []
    ensures Safe(After(world, s, calls)) && Preserves(s, After(world, s, calls))
  {
    if calls != [] {
      hide Safe, Preserves, Step;
      var before := After(world, s, calls[..|calls| - 1]);
      RunsAreSafe(world, s, calls[..|calls| - 1]);
      StepIsSafe(world, before, calls[|calls| - 1]);
      PreservesTransitive(s, before, Step(world, before, calls[|calls| - 1]).0);
    }
  }
}
