/** Go's `path.Join`, for rooted slash-separated paths. */
module GoPath {
  import opened GoStrings

  /** An element that cleaning keeps as it is. */
  predicate Ordinary(element: string) {
    element != "" && element != "." && element != ".."
  }

  ghost predicate AllOrdinary(elements: seq<string>) {
    forall i :: 0 <= i < |elements| ==> Ordinary(elements[i])
  }

  /** Drops empty elements and ".", and lets ".." take back the element before it, if there is one. */
  function Resolve(elements: seq<string>): seq<string> {
    if elements == [] then []
    else
      var front, last := Resolve(elements[..|elements| - 1]), elements[|elements| - 1];
      if Ordinary(last) then front + [last]
      else if last == ".." && front != [] then front[..|front| - 1]
      else front
  }

  /** `path.Clean` of a path that starts with a slash. */
  function CleanRooted(p: string): (r: string)
    ensures r != ""
  {
    "/" + Join(Resolve(Split(p, '/')), '/')
  }

  /** `path.Join` of two arguments that are not empty, the first rooted. */
  function PathJoin(dir: string, name: string): (r: string)
    ensures r != ""
  {
    CleanRooted(dir + "/" + name)
  }

  /** The directory with these elements, with its trailing slash. */
  function Directory(elements: seq<string>): string {
    "/" + Join(elements, '/') + "/"
  }

  lemma {:induction false} ResolveOrdinary(a: seq<string>, b: seq<string>)
    requires AllOrdinary(b)
    ensures Resolve(a + b) == Resolve(a) + b
  {
    if b == [] {
      assert a + b == a;
    } else {
      var last := |b| - 1;
      assert (a + b)[..|a + b| - 1] == a + b[..last];
      ResolveOrdinary(a, b[..last]);
    }
  }

  /** Cleaning adds no element, keeps only ordinary ones, and drops one where there is another kind. */
  lemma {:induction false} ResolveShrinks(a: seq<string>, b: seq<string>)
    ensures |Resolve(a + b)| <= |Resolve(a)| + |b|
    ensures !AllOrdinary(b) ==> |Resolve(a + b)| < |Resolve(a)| + |b|
  {
    if b == [] {
      assert a + b == a;
    } else {
      var last := |b| - 1;
      assert (a + b)[..|a + b| - 1] == a + b[..last];
      ResolveShrinks(a, b[..last]);
    }
  }

  lemma {:induction false} ResolveSelects(elements: seq<string>)
    ensures forall e :: e in Resolve(elements) ==> e in elements
  {
    if elements != [] {
      ResolveSelects(elements[..|elements| - 1]);
    }
  }

  /** An ordinary element and the ".." after it cancel. */
  lemma {:induction false} ResolveCancels(a: seq<string>, e: string, b: seq<string>)
    requires Ordinary(e)
    ensures Resolve(a + [e, ".."] + b) == Resolve(a + b)
  {
    if b == [] {
      assert (a + [e, ".."] + b)[..|a| + 1] == a + [e] && (a + [e])[..|a|] == a;
      assert a + b == a;
    } else {
      var last := |b| - 1;
      assert (a + [e, ".."] + b)[..|a| + 2 + last] == a + [e, ".."] + b[..last];
      assert (a + b)[..|a| + last] == a + b[..last];
      ResolveCancels(a, e, b[..last]);
    }
  }

  ghost predicate Elements(elements: seq<string>) {
    elements != [] && AllOrdinary(elements) && forall i :: 0 <= i < |elements| ==> Free(elements[i], '/')
  }

  lemma {:induction false} ResolveSkips(a: seq<string>, b: seq<string>)
    ensures Resolve(a + [""] + b) == Resolve(a + b)
  {
    if b == [] {
      assert (a + [""] + b)[..|a|] == a && a + b == a;
    } else {
      var last := |b| - 1;
      assert (a + [""] + b)[..|a| + 1 + last] == a + [""] + b[..last];
      assert (a + b)[..|a| + last] == a + b[..last];
      ResolveSkips(a, b[..last]);
    }
  }

  lemma SplitJoined(dir: seq<string>, name: string)
    requires Elements(dir)
    ensures Split(Directory(dir) + "/" + name, '/') == [""] + dir + [""] + Split(name, '/')
  {
    SplitSingle("", '/');
    SplitJoin(dir, '/');
    hide Split, Join;
    SplitConcat("", Join(dir, '/'), '/');
    SplitConcat("" + "/" + Join(dir, '/'), "", '/');
    SplitConcat("" + "/" + Join(dir, '/') + "/" + "", name, '/');
    assert "" + "/" + Join(dir, '/') + "/" + "" == Directory(dir);
  }

  /** A join is the resolved elements of both sides. */
  lemma PathJoinResolves(dir: seq<string>, name: string)
    requires Elements(dir)
    ensures PathJoin(Directory(dir), name) == "/" + Join(Resolve(dir + Split(name, '/')), '/')
  {
    hide Split, Join, Resolve, Directory, Elements;
    var names := Split(name, '/');
    SplitJoined(dir, name);
    var rest := dir + [""] + names;
    ResolveSkips([], rest);
    assert [] + [""] + rest == [""] + dir + [""] + names;
    assert [] + rest == rest;
    ResolveSkips(dir, names);
  }

  /** Slash-free elements joined give one path only. */
  lemma JoinInjective(a: seq<string>, b: seq<string>)
    requires |b| >= 2 && forall e :: e in a + b ==> Free(e, '/')
    ensures Join(a, '/') == Join(b, '/') <==> a == b
  {
    SplitJoin(b, '/');
    if a != [] {
      SplitJoin(a, '/');
    }
  }

  lemma ResolveKeepsExactly(dir: seq<string>, names: seq<string>)
    requires AllOrdinary(dir)
    ensures Resolve(dir + names) == dir + names <==> AllOrdinary(names)
  {
    assert Resolve([]) == [];
    hide Resolve, Ordinary;
    assert [] + dir == dir;
    ResolveOrdinary([], dir);
    if AllOrdinary(names) {
      ResolveOrdinary(dir, names);
    } else {
      ResolveShrinks(dir, names);
    }
  }

  /** Joining is plain concatenation exactly when every element of the name is ordinary. */
  lemma PathJoinKeepsExactly(dir: seq<string>, name: string)
    requires Elements(dir)
    ensures PathJoin(Directory(dir), name) == Directory(dir) + name <==> AllOrdinary(Split(name, '/'))
  {
    hide Split, Join, Resolve, PathJoin, Ordinary;
    var names := Split(name, '/');
    var resolved, plain := Resolve(dir + names), dir + names;
    PathJoinResolves(dir, name);
    ResolveKeepsExactly(dir, names);
    ResolveSelects(plain);
    JoinSplit(name, '/');
    forall e | e in resolved + plain ensures Free(e, '/') {
      assert e in dir || e in names;
    }
    JoinInjective(resolved, plain);
    JoinConcat(dir, names, '/');
    var a, b := Join(resolved, '/'), Join(plain, '/');
    assert Directory(dir) + name == "/" + b;
    assert ("/" + a)[1..] == a && ("/" + b)[1..] == b;
  }

  /** A name that climbs out of its own first element is joined as if it started behind it. */
  lemma PathJoinClimbs(dir: seq<string>, element: string, name: string)
    requires Elements(dir) && Ordinary(element) && Free(element, '/')
    ensures PathJoin(Directory(dir), element + "/../" + name) == PathJoin(Directory(dir), name)
  {
    SplitSingle(element, '/');
    SplitSingle("..", '/');
    hide Split, Resolve, Join, PathJoin, Directory, Elements, Ordinary;
    assert element + "/../" + name == element + "/" + (".." + "/" + name);
    SplitConcat(element, ".." + "/" + name, '/');
    SplitConcat("..", name, '/');
    var climbing, names := Split(element + "/../" + name, '/'), Split(name, '/');
    assert dir + climbing == dir + [element, ".."] + names;
    ResolveCancels(dir, element, names);
    PathJoinResolves(dir, name);
    PathJoinResolves(dir, element + "/../" + name);
  }
}
