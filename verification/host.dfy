/** The node's operating system as the driver sees it: a mount table, directories, by-id device
    links, what each disk holds, and the record of every command run. Each command is a law of its
    outcome; the outcomes themselves are an arbitrary `World`. */
module Host {
  import opened Wrappers
  import opened DiskFormat

  /** An absolute path, as its components. [] is the root; as an RPC argument it is the empty string. */
  type Path = seq<string>

  function Parent(p: Path): Path
    requires p != []
  {
    p[..|p| - 1]
  }

  datatype Device = RootFs | Disk(serial: nat)

  datatype Layer = Layer(at: Path, dev: Device)

  datatype Failure = ExitStatus(status: int) | ExecutableNotFound | OtherFailure

  /** What the environment has in store for one command. A failed bind mount may leave its layer
      behind (`leaks`); a failed mkfs leaves `residue` on the disk. */
  datatype Outcome = Success | Fails(failure: Failure, leaks: bool, residue: Content)

  /** The outcome of the n-th command of a run. */
  type World = nat -> Outcome

  datatype CheckError = NoError | NotExist | OtherError

  datatype Source = ByIdLink(link: string) | Directory(dir: Path)

  datatype Entry =
    | Checked(path: Path, notMnt: bool, err: CheckError)
    | Statted(link: string, found: bool, failed: bool)
    | Fscked(link: string)
    | Mounted(source: Source, target: Path, fstype: string, options: seq<string>, ok: bool)
    | Listed(link: string, ok: bool)
    | Formatted(serial: Option<nat>, before: Content, fstype: string, force: bool, ok: bool)
    | Unmounted(path: Path, ok: bool)
    | MadeDir(path: Path, ok: bool)
    | Removed(path: Path, ok: bool)

  datatype State = State(
    layers: seq<Layer>,
    dirs: set<Path>,
    links: map<string, nat>,
    contents: map<nat, Content>,
    trace: seq<Entry>)
  {
    /** A disk nobody ever wrote to is blank. */
    function ContentOf(serial: nat): Content {
      if serial in contents then contents[serial] else Content("", [])
    }

    function Log(e: Entry): State {
      this.(trace := trace + [e])
    }
  }

  function Next(world: World, s: State): Outcome {
    world(|s.trace|)
  }

  /** The topmost layer mounted at exactly `p`. */
  function Top(layers: seq<Layer>, p: Path): Option<Device> {
    if layers == [] then None
    else if layers[|layers| - 1].at == p then Some(layers[|layers| - 1].dev)
    else Top(layers[..|layers| - 1], p)
  }

  /** The device `stat` reports for a path: that of the layer on the longest mounted prefix. */
  function DeviceAt(layers: seq<Layer>, p: Path): Device
    decreases |p|
  {
    match Top(layers, p)
    case Some(dev) => dev
    case None => if p == [] then RootFs else DeviceAt(layers, Parent(p))
  }

  /** The mount table without the topmost layer at `p`. */
  function Pop(layers: seq<Layer>, p: Path): seq<Layer> {
    if layers == [] then []
    else
      var last := |layers| - 1;
      if layers[last].at == p then layers[..last] else Pop(layers[..last], p) + [layers[last]]
  }

  /** How many layers are mounted at exactly `p`. */
  function Depth(layers: seq<Layer>, p: Path): nat {
    if layers == [] then 0
    else Depth(layers[..|layers| - 1], p) + if layers[|layers| - 1].at == p then 1 else 0
  }

  // ---- The laws ----

  datatype CheckAnswer = CheckAnswer(notMnt: bool, err: CheckError)

  /** What IsLikelyNotMountPoint answers: stat the path, lstat its parent, compare devices. */
  function Answer(world: World, s: State, p: Path): CheckAnswer
    requires p != []
  {
    if Next(world, s).Fails? then CheckAnswer(true, OtherError)
    else if p !in s.dirs || Parent(p) !in s.dirs then CheckAnswer(true, NotExist)
    else CheckAnswer(DeviceAt(s.layers, p) == DeviceAt(s.layers, Parent(p)), NoError)
  }

  function Check(world: World, s: State, p: Path): (State, CheckAnswer)
    requires p != []
  {
    var a := Answer(world, s, p);
    (s.Log(Checked(p, a.notMnt, a.err)), a)
  }

  /** Whether a by-id path exists; None when the stat itself fails. */
  function StatLink(world: World, s: State, link: string): (State, Option<bool>) {
    if Next(world, s).Fails? then (s.Log(Statted(link, false, true)), None)
    else (s.Log(Statted(link, link in s.links, false)), Some(link in s.links))
  }

  function Fsck(world: World, s: State, link: string): (State, Outcome) {
    (s.Log(Fscked(link)), Next(world, s))
  }

  /** `mount -t` succeeds only on a matching filesystem, and a mount without a type on any. */
  predicate Mountable(c: Content, fstype: string) {
    c.fstype != "" && (fstype == "" || fstype == c.fstype)
  }

  /** A device mount that fails adds no layer. A bind mount shows the device of its source, and one
      that fails may leave its layer behind. */
  function Mount(world: World, s: State, source: Source, target: Path, fstype: string, options: seq<string>)
    : (State, bool)
  {
    var o := Next(world, s);
    match source
    case ByIdLink(link) =>
      var ok := o.Success? && target in s.dirs && link in s.links && Mountable(s.ContentOf(s.links[link]), fstype);
      var s' := s.Log(Mounted(source, target, fstype, options, ok));
      (if ok then s'.(layers := s.layers + [Layer(target, Disk(s.links[link]))]) else s', ok)
    case Directory(dir) =>
      var possible := target in s.dirs && dir in s.dirs;
      var ok := o.Success? && possible;
      var s' := s.Log(Mounted(source, target, fstype, options, ok));
      var shown := s'.(layers := s.layers + [Layer(target, DeviceAt(s.layers, dir))]);
      (if possible && (o.Success? || o.leaks) then shown else s', ok)
  }

  /** lsblk is truthful when it answers at all. */
  function RunLsblk(world: World, s: State, link: string): (State, Option<string>) {
    var ok := Next(world, s).Success? && link in s.links;
    (s.Log(Listed(link, ok)), if ok then Some(Lsblk(s.ContentOf(s.links[link]))) else None)
  }

  function Mkfs(world: World, s: State, link: string, fstype: string, force: bool): (State, bool) {
    if link !in s.links then (s.Log(Formatted(None, Content("", []), fstype, force, false)), false)
    else
      var serial := s.links[link];
      var o := Next(world, s);
      var s' := s.Log(Formatted(Some(serial), s.ContentOf(serial), fstype, force, o.Success?));
      (s'.(contents := s.contents[serial := if o.Success? then Content(fstype, []) else o.residue]), o.Success?)
  }

  function Umount(world: World, s: State, p: Path): (State, bool) {
    var ok := Next(world, s).Success? && Top(s.layers, p).Some?;
    var s' := s.Log(Unmounted(p, ok));
    (if ok then s'.(layers := Pop(s.layers, p)) else s', ok)
  }

  function MkdirAll(world: World, s: State, p: Path): (State, bool) {
    var ok := Next(world, s).Success?;
    var s' := s.Log(MadeDir(p, ok));
    (if ok then s'.(dirs := s.dirs + set k | 0 <= k <= |p| :: p[..k]) else s', ok)
  }

  /** Removing a directory needs it empty and not a mount point. */
  function Remove(world: World, s: State, p: Path): (State, bool) {
    var ok := Next(world, s).Success? && p in s.dirs && Top(s.layers, p).None? && forall d :: d in s.dirs ==> !(p < d);
    var s' := s.Log(Removed(p, ok));
    (if ok then s'.(dirs := s.dirs - {p}) else s', ok)
  }

  // ---- The mount-point check ----

  predicate Covers(layers: seq<Layer>, i: int, p: Path) {
    0 <= i < |layers| && layers[i].at <= p
  }

  /** Layer `i` is the one that answers for `p`: on the longest mounted prefix, and topmost there. */
  ghost predicate Answers(layers: seq<Layer>, i: int, p: Path) {
    && Covers(layers, i, p)
    && forall j :: Covers(layers, j, p) ==>
         |layers[j].at| < |layers[i].at| || (|layers[j].at| == |layers[i].at| && j <= i)
  }

  lemma {:induction false} TopIsLast(layers: seq<Layer>, p: Path)
    ensures match Top(layers, p)
            case Some(dev) =>
              exists i :: 0 <= i < |layers| && layers[i] == Layer(p, dev)
                && forall j :: i < j < |layers| ==> layers[j].at != p
            case None => forall j :: 0 <= j < |layers| ==> layers[j].at != p
  {
    if layers != [] {
      var last := |layers| - 1;
      if layers[last].at == p {
        assert layers[last] == Layer(p, layers[last].dev);
      } else {
        TopIsLast(layers[..last], p);
        if Top(layers, p).Some? {
          var i :| 0 <= i < last && layers[..last][i] == Layer(p, Top(layers, p).value)
                   && forall j :: i < j < last ==> layers[..last][j].at != p;
          assert layers[i] == layers[..last][i];
          assert forall j :: i < j < last ==> layers[j].at == layers[..last][j].at;
        } else {
          assert forall j :: 0 <= j < last ==> layers[j].at == layers[..last][j].at;
        }
      }
    }
  }

  /** The recursive look-up finds the layer of the longest mounted prefix, topmost among equals, and
      the root filesystem exactly when no layer covers the path. */
  lemma {:induction false} DeviceAtIsLongestPrefix(layers: seq<Layer>, p: Path)
    ensures (exists i :: Answers(layers, i, p) && DeviceAt(layers, p) == layers[i].dev)
            || (DeviceAt(layers, p) == RootFs && forall i :: !Covers(layers, i, p))
    decreases |p|
  {
    TopIsLast(layers, p);
    match Top(layers, p)
    case Some(dev) =>
      var i :| 0 <= i < |layers| && layers[i] == Layer(p, dev) && forall j :: i < j < |layers| ==> layers[j].at != p;
      forall j | Covers(layers, j, p)
        ensures |layers[j].at| < |p| || (|layers[j].at| == |p| && j <= i)
      {
        assert |layers[j].at| == |p| ==> layers[j].at == p;
      }
      assert Answers(layers, i, p);
    case None =>
      if p == [] {
        assert forall j :: Covers(layers, j, p) ==> layers[j].at == p;
      } else {
        forall j ensures Covers(layers, j, p) <==> Covers(layers, j, Parent(p)) {
          if Covers(layers, j, p) {
            assert layers[j].at == p[..|layers[j].at|] && layers[j].at != p;
          }
        }
        DeviceAtIsLongestPrefix(layers, Parent(p));
        if i :| Answers(layers, i, Parent(p)) && DeviceAt(layers, Parent(p)) == layers[i].dev {
          assert Answers(layers, i, p);
        }
      }
  }

  /** "Not a mount point" is denied only where something is mounted at that exact path. For a real
      mount on an existing path the answer is wrong exactly when the mounted device is also the
      parent's, which is what a bind mount within one device looks like. */
  lemma CheckExactly(world: World, s: State, p: Path)
    requires p != []
    ensures var a := Answer(world, s, p);
            && (!a.notMnt ==> a.err.NoError? && Top(s.layers, p).Some?)
            && (a.err.NoError? && Top(s.layers, p).Some? ==>
                  (a.notMnt <==> Top(s.layers, p).value == DeviceAt(s.layers, Parent(p))))
  {
  }
}
