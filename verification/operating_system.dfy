/** The operating system of a node as one mutable object: each command the driver runs, and what it
    leaves behind. */
module OperatingSystem {
  import opened Wrappers
  import opened DiskFormat
  import opened Host

  class Os {
    const world: World
    var layers: seq<Layer>
    var dirs: set<Path>
    var links: map<string, nat>
    var contents: map<nat, Content>
    var trace: seq<Entry>

    ghost function State(): Host.State
      reads this
    {
      Host.State.State(layers, dirs, links, contents, trace)
    }

    constructor (world: World, dirs: set<Path>, links: map<string, nat>, contents: map<nat, Content>)
      ensures this.world == world && State() == Host.State.State([], dirs, links, contents, [])
    {
      this.world := world;
      this.layers, this.dirs, this.links, this.contents, this.trace := [], dirs, links, contents, [];
    }

    function ContentOf(serial: nat): Content
      reads this
    {
      if serial in contents then contents[serial] else Content("", [])
    }

    method Relink(links: map<string, nat>)
      modifies this
      ensures State() == old(State()).(links := links)
    {
      this.links := links;
    }

    /** `stat` of a path and `lstat` of its parent, both failing with one outcome. */
    method StatBoth(p: Path) returns (err: CheckError, dev: Device, parentDev: Device)
      requires p != []
      ensures var a := Answer(world, State(), p);
              err == a.err && (err.NoError? ==> a.notMnt == (dev == parentDev))
    {
      dev, parentDev := DeviceAt(layers, p), DeviceAt(layers, Parent(p));
      err := if world(|trace|).Fails? then OtherError
             else if p !in dirs || Parent(p) !in dirs then NotExist
             else NoError;
    }

    method NoteCheck(p: Path, notMnt: bool, err: CheckError)
      modifies this`trace
      ensures State() == old(State()).Log(Checked(p, notMnt, err))
    {
      trace := trace + [Checked(p, notMnt, err)];
    }

    method StatLink(link: string) returns (found: Option<bool>)
      modifies this`trace
      ensures (State(), found) == Host.StatLink(world, old(State()), link)
    {
      var failed := world(|trace|).Fails?;
      found := if failed then None else Some(link in links);
      trace := trace + [Statted(link, !failed && link in links, failed)];
    }

    method Fsck(link: string) returns (o: Outcome)
      modifies this`trace
      ensures (State(), o) == Host.Fsck(world, old(State()), link)
    {
      o := world(|trace|);
      trace := trace + [Fscked(link)];
    }

    method Mount(source: Source, target: Path, fstype: string, options: seq<string>) returns (ok: bool)
      modifies this
      ensures (State(), ok) == Host.Mount(world, old(State()), source, target, fstype, options)
    {
      var o := world(|trace|);
      match source {
        case ByIdLink(link) =>
          ok := o.Success? && target in dirs && link in links && Mountable(ContentOf(links[link]), fstype);
          if ok {
            layers := layers + [Layer(target, Disk(links[link]))];
          }
        case Directory(dir) =>
          var possible := target in dirs && dir in dirs;
          ok := o.Success? && possible;
          if possible && (o.Success? || o.leaks) {
            layers := layers + [Layer(target, DeviceAt(layers, dir))];
          }
      }
      trace := trace + [Mounted(source, target, fstype, options, ok)];
    }

    method Lsblk(link: string) returns (output: Option<string>)
      modifies this`trace
      ensures (State(), output) == RunLsblk(world, old(State()), link)
    {
      var ok := world(|trace|).Success? && link in links;
      output := if ok then Some(DiskFormat.Lsblk(ContentOf(links[link]))) else None;
      trace := trace + [Listed(link, ok)];
    }

    method Mkfs(link: string, fstype: string, force: bool) returns (ok: bool)
      modifies this
      ensures (State(), ok) == Host.Mkfs(world, old(State()), link, fstype, force)
    {
      var o := world(|trace|);
      if link !in links {
        trace := trace + [Formatted(None, Content("", []), fstype, force, false)];
        return false;
      }
      var serial := links[link];
      trace := trace + [Formatted(Some(serial), ContentOf(serial), fstype, force, o.Success?)];
      contents := contents[serial := if o.Success? then Content(fstype, []) else o.residue];
      return o.Success?;
    }

    method Umount(p: Path) returns (ok: bool)
      modifies this
      ensures (State(), ok) == Host.Umount(world, old(State()), p)
    {
      ok := world(|trace|).Success? && Top(layers, p).Some?;
      if ok {
        layers := Pop(layers, p);
      }
      trace := trace + [Unmounted(p, ok)];
    }

    method MkdirAll(p: Path) returns (ok: bool)
      modifies this
      ensures (State(), ok) == Host.MkdirAll(world, old(State()), p)
    {
      ok := world(|trace|).Success?;
      if ok {
        dirs := dirs + set k | 0 <= k <= |p| :: p[..k];
      }
      trace := trace + [MadeDir(p, ok)];
    }

    method Remove(p: Path) returns (ok: bool)
      modifies this
      ensures (State(), ok) == Host.Remove(world, old(State()), p)
    {
      ok := world(|trace|).Success? && p in dirs && Top(layers, p).None? && forall d :: d in dirs ==> !(p < d);
      if ok {
        dirs := dirs - {p};
      }
      trace := trace + [Removed(p, ok)];
    }
  }
}
