/** What path resolution means (src/kernel/fs/vfs/path.c, vfs.c and ramfs.c): a fold of
    lookup-then-mount over the components of a path, on a growing forest of named nodes. */
module Paths {
  import opened Machine

  /** A node as resolution sees it. */
  datatype Entry<N> = Entry(name: string, children: seq<N>, searchable: bool)

  datatype Mount<N> = Mount(point: N, root: N)

  /** All nodes and all mounts. */
  datatype Forest<N> = Forest(nodes: map<N, Entry<N>>, mounts: seq<Mount<N>>)

  /** Children and mounted roots are nodes too. */
  ghost predicate Closed<N>(f: Forest<N>) {
    && (forall n, c :: n in f.nodes && c in f.nodes[n].children ==> c in f.nodes)
    && (forall m :: m in f.mounts ==> m.point in f.nodes && m.root in f.nodes)
  }

  /** ramfs_lookup: the oldest child with the name. */
  function FirstNamed<N(==)>(f: Forest<N>, children: seq<N>, name: string): Option<N> {
    if children == [] then None
    else if children[0] in f.nodes && f.nodes[children[0]].name == name then Some(children[0])
    else FirstNamed(f, children[1..], name)
  }

  /** vfs_check_mount: the oldest mount on the node, if any. */
  function Mounted<N(==)>(mounts: seq<Mount<N>>, node: N): N {
    if mounts == [] then node
    else if mounts[0].point == node then mounts[0].root
    else Mounted(mounts[1..], node)
  }

  /** The lookup of one component. */
  function LookedUp<N(==)>(f: Forest<N>, node: N, name: string): Option<N> {
    if node in f.nodes && f.nodes[node].searchable then FirstNamed(f, f.nodes[node].children, name) else None
  }

  /** One component: lookup, then mount. */
  function Step<N(==)>(f: Forest<N>, node: N, name: string): Option<N> {
    match LookedUp(f, node, name)
    case None => None
    case Some(child) => Some(Mounted(f.mounts, child))
  }

  function Resolve<N(==)>(f: Forest<N>, node: N, names: seq<string>): Option<N> {
    if names == [] then Some(node) else
    match Step(f, node, names[0])
    case None => None
    case Some(next) => Resolve(f, next, names[1..])
  }

  lemma ResolveFirst<N>(f: Forest<N>, node: N, name: string, names: seq<string>)
    ensures Resolve(f, node, [name] + names) ==
            match Step(f, node, name) case None => None case Some(next) => Resolve(f, next, names)
  {
    assert ([name] + names)[1..] == names;
  }

  /** The part of a path before its first slash. */
  function Word(path: string): (w: string)
    ensures |w| <= |path|
    ensures path != "" && path[0] != '/' ==> w != ""
  {
    if path == "" || path[0] == '/' then "" else [path[0]] + Word(path[1..])
  }

  /** The non-empty components of a path. */
  function Components(path: string): seq<string>
    decreases |path|
  {
    if path == "" then []
    else if path[0] == '/' then Components(path[1..])
    else [Word(path)] + Components(path[|Word(path)|..])
  }

  lemma {:induction false} WordPrefix(path: string)
    ensures Word(path) == path[..|Word(path)|] && '/' !in Word(path)
    ensures |Word(path)| < |path| ==> path[|Word(path)|] == '/'
  {
    if path != "" && path[0] != '/' {
      WordPrefix(path[1..]);
      var w := Word(path[1..]);
      assert path[..|w| + 1] == [path[0]] + path[1..][..|w|];
    }
  }

  lemma {:induction false} WordThenSlash(path: string, rest: string)
    requires rest == "" || rest[0] == '/'
    ensures Word(path + rest) == Word(path)
  {
    if path == "" {
      assert path + rest == rest;
    } else {
      assert (path + rest)[0] == path[0];
      if path[0] != '/' {
        WordThenSlash(path[1..], rest);
        assert (path + rest)[1..] == path[1..] + rest;
      }
    }
  }

  /** Components split at any slash, so repeated, leading and trailing slashes do not matter. */
  lemma {:induction false} ComponentsAppend(p: string, q: string)
    ensures Components(p + "/" + q) == Components(p) + Components(q)
    decreases |p|
  {
    hide Word;
    var whole := p + "/" + q;
    if p == "" {
      assert whole == "/" + q && ("/" + q)[1..] == q;
    } else if p[0] == '/' {
      assert whole[1..] == p[1..] + "/" + q;
      ComponentsAppend(p[1..], q);
    } else {
      var w := Word(p);
      assert whole == p + ("/" + q);
      WordThenSlash(p, "/" + q);
      assert whole[|w|..] == p[|w|..] + "/" + q;
      ComponentsAppend(p[|w|..], q);
    }
  }

  /** A path written with one slash before each name. */
  function Joined(names: seq<string>): string {
    if names == [] then "" else "/" + names[0] + Joined(names[1..])
  }

  /** Splitting undoes joining. */
  lemma {:induction false} ComponentsOfJoined(names: seq<string>)
    requires forall n :: n in names ==> n != "" && '/' !in n
    ensures Components(Joined(names)) == names
  {
    if names != [] {
      var path, rest := Joined(names), Joined(names[1..]);
      assert path[1..] == names[0] + rest;
      assert names[0] in names;
      WordThenSlash(names[0], rest);
      WordOfName(names[0]);
      assert (names[0] + rest)[|names[0]|..] == rest;
      ComponentsOfJoined(names[1..]);
    }
  }

  lemma {:induction false} WordOfName(name: string)
    requires '/' !in name
    ensures Word(name) == name
  {
    if name != "" {
      WordOfName(name[1..]);
    }
  }

  lemma {:induction false} ResolveAppend<N>(f: Forest<N>, node: N, first: seq<string>, second: seq<string>)
    ensures Resolve(f, node, first + second) ==
            match Resolve(f, node, first) case None => None case Some(mid) => Resolve(f, mid, second)
  {
    if first == [] {
      assert first + second == second;
    } else {
      assert (first + second)[1..] == first[1..] + second;
      var next := Step(f, node, first[0]);
      if next.Some? {
        ResolveAppend(f, next.value, first[1..], second);
      }
    }
  }

  /** Resolving p/q is resolving q from where p leads. */
  lemma ResolveJoined<N>(f: Forest<N>, node: N, p: string, q: string)
    ensures Resolve(f, node, Components(p + "/" + q)) ==
            match Resolve(f, node, Components(p))
            case None => None
            case Some(mid) => Resolve(f, mid, Components(q))
  {
    ComponentsAppend(p, q);
    ResolveAppend(f, node, Components(p), Components(q));
  }

  /** ramfs_create: a new, last child. */
  function Grown<N(==)>(f: Forest<N>, parent: N, child: N, name: string): Forest<N>
    requires parent in f.nodes
  {
    var p := f.nodes[parent];
    f.(nodes := f.nodes[parent := p.(children := p.children + [child])][child := Entry(name, [], p.searchable)])
  }

  lemma {:induction false} FirstNamedAppend<N>(f: Forest<N>, g: Forest<N>, children: seq<N>, child: N, name: string)
    requires child in g.nodes
    requires forall c :: c in children ==> c in f.nodes && c in g.nodes && g.nodes[c].name == f.nodes[c].name
    ensures FirstNamed(g, children, name) == FirstNamed(f, children, name)
    ensures FirstNamed(g, children + [child], name) ==
            match FirstNamed(f, children, name)
            case Some(c) => Some(c)
            case None => if g.nodes[child].name == name then Some(child) else None
  {
    if children == [] {
      assert children + [child] == [child];
    } else {
      assert children[0] in children && (children + [child])[1..] == children[1..] + [child];
      FirstNamedAppend(f, g, children[1..], child, name);
    }
  }

  /** Growth keeps every step that succeeded before. */
  lemma GrowthKeepsStep<N>(f: Forest<N>, parent: N, child: N, name: string, node: N, step: string)
    requires Closed(f) && parent in f.nodes && child !in f.nodes
    requires node in f.nodes && Step(f, node, step).Some?
    ensures Step(Grown(f, parent, child, name), node, step) == Step(f, node, step)
    ensures Step(f, node, step).value in f.nodes
  {
    var g, children := Grown(f, parent, child, name), f.nodes[node].children;
    assert forall c :: c in children ==> c in f.nodes && c in g.nodes && g.nodes[c].name == f.nodes[c].name;
    FirstNamedAppend(f, g, children, child, step);
    FirstNamedIsChild(f, children, step);
    MountedIsNode(f.mounts, f.nodes.Keys, FirstNamed(f, children, step).value);
  }

  lemma {:induction false} FirstNamedIsChild<N>(f: Forest<N>, children: seq<N>, name: string)
    ensures FirstNamed(f, children, name).Some? ==>
              var c := FirstNamed(f, children, name).value;
              c in children && c in f.nodes && f.nodes[c].name == name
    ensures FirstNamed(f, children, name).None? ==>
              forall c :: c in children && c in f.nodes ==> f.nodes[c].name != name
  {
    if children != [] {
      FirstNamedIsChild(f, children[1..], name);
      assert forall c :: c in children ==> c == children[0] || c in children[1..];
    }
  }

  lemma {:induction false} MountedIsNode<N>(mounts: seq<Mount<N>>, nodes: set<N>, node: N)
    requires node in nodes && forall m :: m in mounts ==> m.root in nodes
    ensures Mounted(mounts, node) in nodes
  {
    if mounts != [] {
      assert mounts[0] in mounts;
      MountedIsNode(mounts[1..], nodes, node);
    }
  }

  /** Resolution is stable under growth, across mounts: a path that resolved still resolves to
      the same node, whichever directory got a new child. */
  lemma {:induction false} GrowthKeepsPaths<N>(f: Forest<N>, parent: N, child: N, name: string,
                                               node: N, names: seq<string>)
    requires Closed(f) && parent in f.nodes && child !in f.nodes && node in f.nodes
    requires Resolve(f, node, names).Some?
    ensures Resolve(Grown(f, parent, child, name), node, names) == Resolve(f, node, names)
  {
    if names != [] {
      GrowthKeepsStep(f, parent, child, name, node, names[0]);
      GrowthKeepsPaths(f, parent, child, name, Step(f, node, names[0]).value, names[1..]);
    }
  }

  lemma {:induction false} NotAMountpoint<N>(mounts: seq<Mount<N>>, node: N)
    requires forall m :: m in mounts ==> m.point != node
    ensures Mounted(mounts, node) == node
  {
    if mounts != [] {
      assert mounts[0] in mounts;
      NotAMountpoint(mounts[1..], node);
    }
  }

  /** The new node is what its name leads to exactly when the directory can be searched and no
      older sibling has the name. */
  lemma NewChildFound<N>(f: Forest<N>, parent: N, child: N, name: string)
    requires Closed(f) && parent in f.nodes && child !in f.nodes
    ensures Resolve(Grown(f, parent, child, name), parent, [name]) == Some(child)
       <==> f.nodes[parent].searchable && forall c :: c in f.nodes[parent].children ==> f.nodes[c].name != name
  {
    var g, children := Grown(f, parent, child, name), f.nodes[parent].children;
    assert forall c :: c in children ==> c in f.nodes && c in g.nodes && g.nodes[c].name == f.nodes[c].name;
    FirstNamedAppend(f, g, children, child, name);
    FirstNamedIsChild(f, children, name);
    NotAMountpoint(f.mounts, child);
    var older := FirstNamed(f, children, name);
    if older.Some? {
      MountedIsNode(f.mounts, f.nodes.Keys, older.value);
    }
    assert [name][1..] == [];
  }

  lemma GrowthKeepsClosed<N>(f: Forest<N>, parent: N, child: N, name: string)
    requires Closed(f) && parent in f.nodes && child !in f.nodes
    ensures Closed(Grown(f, parent, child, name))
  {
  }

  lemma IsolatedKeepsClosed<N>(f: Forest<N>, node: N, name: string)
    requires Closed(f) && node !in f.nodes
    ensures Closed(f.(nodes := f.nodes[node := Entry(name, [], true)]))
  {
  }

  /** A mount redirects exactly its own mountpoint, and only if that was not one already. */
  lemma {:induction false} MountRedirects<N>(mounts: seq<Mount<N>>, m: Mount<N>, node: N)
    ensures Mounted(mounts + [m], node) ==
            if node == m.point && !(exists k :: k in mounts && k.point == node) then m.root
            else Mounted(mounts, node)
  {
    if mounts == [] {
      assert mounts + [m] == [m];
    } else {
      assert (mounts + [m])[1..] == mounts[1..] + [m];
      MountRedirects(mounts[1..], m, node);
      assert forall k :: k in mounts <==> k == mounts[0] || k in mounts[1..];
    }
  }

  // ---- Mounts and resolution -----------------------------------------------------------------

  function WithMount<N>(f: Forest<N>, point: N, root: N): Forest<N> {
    f.(mounts := f.mounts + [Mount(point, root)])
  }

  ghost predicate IsMountpoint<N>(mounts: seq<Mount<N>>, node: N) {
    exists m :: m in mounts && m.point == node
  }

  lemma {:induction false} MountKeepsNames<N>(f: Forest<N>, point: N, root: N, children: seq<N>, name: string)
    ensures FirstNamed(WithMount(f, point, root), children, name) == FirstNamed(f, children, name)
  {
    if children != [] { MountKeepsNames(f, point, root, children[1..], name); }
  }

  /** A step is redirected by a new mount exactly when its lookup finds the mountpoint and no older mount
      is on it. */
  lemma MountStep<N>(f: Forest<N>, point: N, root: N, node: N, name: string)
    ensures LookedUp(WithMount(f, point, root), node, name) == LookedUp(f, node, name)
    ensures Step(WithMount(f, point, root), node, name) ==
            if LookedUp(f, node, name) == Some(point) && !IsMountpoint(f.mounts, point) then Some(root)
            else Step(f, node, name)
  {
    if node in f.nodes { MountKeepsNames(f, point, root, f.nodes[node].children, name); }
    if LookedUp(f, node, name).Some? {
      MountRedirects(f.mounts, Mount(point, root), LookedUp(f, node, name).value);
    }
  }

  /** Whether resolving names looks up n on the way. */
  predicate Passes<N(==)>(f: Forest<N>, node: N, names: seq<string>, n: N) {
    names != [] &&
    (LookedUp(f, node, names[0]) == Some(n) ||
     match Step(f, node, names[0]) case None => false case Some(next) => Passes(f, next, names[1..], n))
  }

  /** A path that does not pass the mountpoint resolves as before the mount. */
  lemma {:induction false} MountKeepsPaths<N>(f: Forest<N>, point: N, root: N, node: N, names: seq<string>)
    requires IsMountpoint(f.mounts, point) || !Passes(f, node, names, point)
    ensures Resolve(WithMount(f, point, root), node, names) == Resolve(f, node, names)
  {
    if names != [] {
      MountStep(f, point, root, node, names[0]);
      var next := Step(f, node, names[0]);
      if next.Some? { MountKeepsPaths(f, point, root, next.value, names[1..]); }
    }
  }

  /** The last lookup of a path finds the mountpoint itself: no older mount redirects it. */
  ghost predicate EndsAt<N>(f: Forest<N>, node: N, names: seq<string>, point: N) {
    && names != [] && !IsMountpoint(f.mounts, point)
    && var above := Resolve(f, node, names[..|names| - 1]);
    above.Some? && LookedUp(f, above.value, names[|names| - 1]) == Some(point)
  }

  /** After a mount on what a path leads to, unless it passes that on the way, the path leads to the
      mounted root exactly when its last lookup finds the mountpoint itself, and otherwise where it led
      before. */
  lemma MountedPath<N>(f: Forest<N>, point: N, root: N, node: N, names: seq<string>)
    requires names != [] && Resolve(f, node, names) == Some(point) && !Passes(f, node, names[..|names| - 1], point)
    ensures Resolve(WithMount(f, point, root), node, names) == Some(if EndsAt(f, node, names, point) then root else point)
  {
    hide LookedUp, IsMountpoint;
    var g, above, last := WithMount(f, point, root), names[..|names| - 1], names[|names| - 1];
    assert names == above + [last];
    MountKeepsPaths(f, point, root, node, above);
    ResolveAppend(f, node, above, [last]);
    ResolveAppend(g, node, above, [last]);
    var d := Resolve(f, node, above).value;
    ResolveOne(f, d, last);
    ResolveOne(g, d, last);
    MountStep(f, point, root, d, last);
  }

  lemma ResolveOne<N>(f: Forest<N>, node: N, name: string)
    ensures Resolve(f, node, [name]) == Step(f, node, name)
  {
    assert [name][1..] == [];
  }

  /** Everything below such a path is then resolved in the mounted tree. */
  lemma MountedBelow<N>(f: Forest<N>, point: N, root: N, node: N, names: seq<string>, rest: seq<string>)
    requires EndsAt(f, node, names, point) && !Passes(f, node, names[..|names| - 1], point)
    ensures Resolve(WithMount(f, point, root), node, names) == Some(root)
    ensures Resolve(WithMount(f, point, root), node, names + rest) == Resolve(WithMount(f, point, root), root, rest)
  {
    var above, last := names[..|names| - 1], names[|names| - 1];
    assert names == above + [last];
    ResolveAppend(f, node, above, [last]);
    var d := Resolve(f, node, above).value;
    ResolveOne(f, d, last);
    NotAMountpoint(f.mounts, point);
    MountedPath(f, point, root, node, names);
    ResolveAppend(WithMount(f, point, root), node, names, rest);
  }

  /** A path that passes its own end does not lead there any more: with / mounted on /a/b, the path /a/b/a
      ends at /a, and a mount there hides /a/b. */
  lemma MountOnOwnPath()
    ensures var f := Forest(map[0 := Entry("/", [1], true), 1 := Entry("a", [2], true),
                                2 := Entry("b", [], true), 3 := Entry("/", [], true)], [Mount(2, 0)]);
            && Closed(f) && Resolve(f, 0, ["a", "b", "a"]) == Some(1) && EndsAt(f, 0, ["a", "b", "a"], 1)
            && Resolve(WithMount(f, 1, 3), 0, ["a", "b", "a"]) == None
  {
    var f := Forest(map[0 := Entry("/", [1], true), 1 := Entry("a", [2], true),
                        2 := Entry("b", [], true), 3 := Entry("/", [], true)], [Mount(2, 0)]);
    var g := WithMount(f, 1, 3);
    assert Step(f, 0, "a") == Some(1) && Step(f, 1, "b") == Some(0);
    assert ["a", "b", "a"] == ["a"] + ["b", "a"] && ["b", "a"] == ["b"] + ["a"];
    ResolveFirst(f, 0, "a", ["b", "a"]);
    ResolveFirst(f, 1, "b", ["a"]);
    ResolveOne(f, 0, "a");
    assert ["a", "b", "a"][..2] == ["a"] + ["b"];
    ResolveFirst(f, 0, "a", ["b"]);
    ResolveOne(f, 1, "b");
    MountStep(f, 1, 3, 0, "a");
    assert Step(g, 0, "a") == Some(3) && Step(g, 3, "b") == None;
    ResolveFirst(g, 0, "a", ["b", "a"]);
    ResolveFirst(g, 3, "b", ["a"]);
  }

  /** What boot does: a new directory, found at its name, and a root mounted on it.  The name then leads to
      that root, and every longer path into its tree. */
  lemma CreatedThenMounted<N>(f: Forest<N>, parent: N, child: N, name: string, root: N, rest: seq<string>)
    requires Closed(f) && parent in f.nodes && child !in f.nodes && f.nodes[parent].searchable
    requires forall c :: c in f.nodes[parent].children ==> f.nodes[c].name != name
    ensures var g := WithMount(Grown(f, parent, child, name), child, root);
            Resolve(g, parent, [name]) == Some(root) && Resolve(g, parent, [name] + rest) == Resolve(g, root, rest)
  {
    var grown := Grown(f, parent, child, name);
    NewChildFound(f, parent, child, name);
    ResolveOne(grown, parent, name);
    NewChildLookedUp(f, parent, child, name);
    assert [name][..0] == [];
    MountedBelow(grown, child, root, parent, [name], rest);
  }

  lemma NewChildLookedUp<N>(f: Forest<N>, parent: N, child: N, name: string)
    requires Closed(f) && parent in f.nodes && child !in f.nodes && f.nodes[parent].searchable
    requires forall c :: c in f.nodes[parent].children ==> f.nodes[c].name != name
    ensures LookedUp(Grown(f, parent, child, name), parent, name) == Some(child)
  {
    var g, children := Grown(f, parent, child, name), f.nodes[parent].children;
    assert forall c :: c in children ==> c in f.nodes && c in g.nodes && g.nodes[c].name == f.nodes[c].name;
    FirstNamedAppend(f, g, children, child, name);
    FirstNamedIsChild(f, children, name);
  }

  /** A new directory can be searched like its parent: what is created in it is found below it. */
  lemma NestedChildFound<N>(f: Forest<N>, parent: N, child: N, name: string, inner: N, innerName: string)
    requires Closed(f) && parent in f.nodes && child !in f.nodes && f.nodes[parent].searchable
    requires forall c :: c in f.nodes[parent].children ==> f.nodes[c].name != name
    requires inner != child && inner !in f.nodes
    ensures Resolve(Grown(Grown(f, parent, child, name), child, inner, innerName), parent, [name, innerName]) == Some(inner)
  {
    var g := Grown(f, parent, child, name);
    var h := Grown(g, child, inner, innerName);
    GrowthKeepsClosed(f, parent, child, name);
    NewChildFound(f, parent, child, name);
    ResolveOne(g, parent, name);
    GrowthKeepsStep(g, child, inner, innerName, parent, name);
    NewChildFound(g, child, inner, innerName);
    assert [name, innerName] == [name] + [innerName];
    ResolveFirst(h, parent, name, [innerName]);
  }
}
