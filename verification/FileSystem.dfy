/** The RAM file system and its mounts (src/kernel/fs/ramfs/ramfs.c, vfs/vfs.c, vfs/path.c).

    A file refines a byte sequence.  kmalloc is taken to succeed, names have at most 63
    characters, and offset + size stays in the range of int. */
module FileSystem {
  import opened Machine
  import opened Paths

  type byte = bv8

  const INT32_LIMIT := 0x8000_0000
  const VFS_FILE: bv32 := 0x1
  const VFS_DIR: bv32 := 0x2
  const MAX_CHILDREN := 32
  const MAX_MOUNTS := 8
  const MAX_NAME := 63

  /** What writing bytes at an offset makes of a file: exactly the range is replaced, all other
      old bytes stay; the bytes of a hole past the old end are not determined. */
  ghost predicate Wrote(before: seq<byte>, offset: nat, bytes: seq<byte>, after: seq<byte>) {
    && |after| == Larger(|before|, offset + |bytes|)
    && after[offset..offset + |bytes|] == bytes
    && (forall i :: 0 <= i < |before| && !(offset <= i < offset + |bytes|) ==> after[i] == before[i])
  }

  function Larger(m: nat, n: nat): nat {
    if m < n then n else m
  }

  /** What reading yields: the slice, clipped to the size. */
  function Slice(content: seq<byte>, offset: nat, size: nat): seq<byte> {
    if |content| <= offset then []
    else if |content| < offset + size then content[offset..]
    else content[offset..offset + size]
  }

  /** Bytes copied into an enlarged file. */
  lemma WroteInto(before: seq<byte>, grown: seq<byte>, offset: nat, bytes: seq<byte>, after: seq<byte>)
    requires before <= grown && |grown| == Larger(|before|, offset + |bytes|)
    requires after == grown[..offset] + bytes + grown[offset + |bytes|..]
    ensures Wrote(before, offset, bytes, after)
  {
  }

  /** A write that leaves no hole determines the file: its bytes in the midst of the old ones, and no more
      behind them. */
  lemma WroteExactly(before: seq<byte>, offset: nat, bytes: seq<byte>, after: seq<byte>)
    requires offset <= |before|
    ensures Wrote(before, offset, bytes, after) <==>
            after == before[..offset] + bytes + if offset + |bytes| < |before| then before[offset + |bytes|..] else []
  {
    var expected := before[..offset] + bytes + if offset + |bytes| < |before| then before[offset + |bytes|..] else [];
    assert expected[offset..offset + |bytes|] == bytes;
    if Wrote(before, offset, bytes, after) {
      forall i | 0 <= i < |after| ensures after[i] == expected[i] {
        if offset <= i < offset + |bytes| { assert after[i] == after[offset..offset + |bytes|][i - offset]; }
      }
    }
  }

  /** As many bytes as there are from the offset on, up to the number asked for, each from its place. */
  lemma SliceIsClipped(content: seq<byte>, offset: nat, size: nat)
    ensures |Slice(content, offset, size)| ==
            if |content| <= offset then 0 else if |content| - offset < size then |content| - offset else size
    ensures forall i :: 0 <= i < |Slice(content, offset, size)| ==> Slice(content, offset, size)[i] == content[offset + i]
  {
  }

  /** Two adjacent reads are one read of both. */
  lemma SliceTwice(content: seq<byte>, offset: nat, size1: nat, size2: nat)
    ensures Slice(content, offset, size1) + Slice(content, offset + |Slice(content, offset, size1)|, size2)
         == Slice(content, offset, size1 + size2)
  {
    var first := Slice(content, offset, size1);
    SliceIsClipped(content, offset, size1);
    SliceIsClipped(content, offset + |first|, size2);
    SliceIsClipped(content, offset, size1 + size2);
  }

  /** A read from the start of at least the size of the file is the file. */
  lemma SliceWhole(content: seq<byte>, size: nat)
    requires |content| <= size
    ensures Slice(content, 0, size) == content
  {
  }

  lemma ReadBack(before: seq<byte>, offset: nat, bytes: seq<byte>, after: seq<byte>)
    requires Wrote(before, offset, bytes, after)
    ensures Slice(after, offset, |bytes|) == bytes
  {
  }

  /** Two adjacent writes are one write of the concatenation. */
  lemma WroteTwice(c0: seq<byte>, offset: nat, b1: seq<byte>, c1: seq<byte>, b2: seq<byte>, c2: seq<byte>)
    requires Wrote(c0, offset, b1, c1) && Wrote(c1, offset + |b1|, b2, c2)
    ensures Wrote(c0, offset, b1 + b2, c2)
  {
    var e := offset + |b1 + b2|;
    forall i | 0 <= i < |b1 + b2|
      ensures c2[offset..e][i] == (b1 + b2)[i]
    {
      if i < |b1| {
        assert c2[offset + i] == c1[offset + i] == c1[offset..offset + |b1|][i];
      } else {
        assert c2[offset + i] == c2[offset + |b1|..offset + |b1| + |b2|][i - |b1|];
      }
    }
  }

  class Node {
    const name: string
    const flags: bv32
    const searchable: bool             // whether ops has a lookup
    var children: seq<Node>
    var data: array?<byte>
    var size: nat
    var capacity: nat

    constructor (name: string, flags: bv32, searchable: bool)
      ensures this.name == name && this.flags == flags && this.searchable == searchable
      ensures children == [] && data == null && FileValid() && Content() == []
    {
      this.name, this.flags, this.searchable := name, flags, searchable;
      children, data, size, capacity := [], null, 0, 0;
    }

    /** Size always equals capacity. */
    ghost predicate FileValid()
      reads this
    {
      size == capacity == (if data == null then 0 else data.Length) < INT32_LIMIT
    }

    ghost function Content(): seq<byte>
      requires FileValid()
      reads this, data
    {
      if data == null then [] else data[..]
    }

    /** ramfs_write. */
    method Write(offset: nat, size: nat, buffer: array<byte>) returns (written: int)
      requires FileValid() && size <= buffer.Length && buffer != data && offset + size < INT32_LIMIT
      modifies this`data, this`size, this`capacity, data
      ensures FileValid() && (data == old(data) || fresh(data))
      ensures if flags & VFS_DIR != 0
              then written == -1 && unchanged(this) && Content() == old(Content())
              else written == size && Wrote(old(Content()), offset, old(buffer[..size]), Content())
    {
      if flags & VFS_DIR != 0 {
        return -1;
      }
      ghost var before, bytes := Content(), buffer[..size];
      if offset + size > capacity {
        Enlarge(offset + size);
      }
      ghost var grown := if data == null then [] else data[..];
      if data != null {
        CopyBytes(data, offset, buffer, 0, size);
      }
      if offset + size > this.size {
        this.size := offset + size;
      }
      WroteInto(before, grown, offset, bytes, Content());
      return size;
    }

    /** A new buffer with the old bytes, lines 118 to 125. */
    method Enlarge(newCapacity: nat)
      requires FileValid() && capacity < newCapacity
      modifies this`data, this`capacity
      ensures data != null && fresh(data) && data.Length == capacity == newCapacity
      ensures old(Content()) <= data[..]
    {
      var newData := new byte[newCapacity];
      if data != null {
        CopyBytes(newData, 0, data, 0, size);
      }
      data := newData;
      capacity := newCapacity;
    }

    /** ramfs_read. */
    method Read(offset: nat, size: nat, buffer: array<byte>) returns (count: nat)
      requires FileValid() && size <= buffer.Length && buffer != data && offset < 2 * INT32_LIMIT - size
      modifies buffer
      ensures count == |Slice(Content(), offset, size)|
      ensures buffer[..] == Slice(Content(), offset, size) + old(buffer[count..])
      ensures count == if |Content()| <= offset then 0 else if |Content()| - offset < size then |Content()| - offset else size
      ensures forall i :: 0 <= i < count ==> buffer[i] == Content()[offset + i]
    {
      SliceIsClipped(Content(), offset, size);
      if offset >= this.size {
        return 0;
      }
      count := size;
      if offset + size > this.size {
        count := this.size - offset;
      }
      assert Slice(Content(), offset, size) == data[offset..offset + count];
      CopyBytes(buffer, 0, data, offset, count);
    }
  }

  /** memcpy between two buffers. */
  method CopyBytes(dest: array<byte>, to: nat, src: array<byte>, from: nat, n: nat)
    requires dest != src && to + n <= dest.Length && from + n <= src.Length
    modifies dest
    ensures dest[..] == old(dest[..to]) + src[from..from + n] + old(dest[to + n..])
  {
    var i := 0;
    while i < n
      invariant i <= n
      invariant dest[..to] == old(dest[..to]) && dest[to..to + i] == src[from..from + i]
      invariant dest[to + i..] == old(dest[to + i..])
    {
      dest[to + i] := src[from + i];
      i := i + 1;
    }
    assert dest[..] == dest[..to] + dest[to..to + n] + dest[to + n..];
  }

  /** What a mount does to the paths of a file tree. */
  lemma MountSeen(f: Forest<Node>, point: Node, fsRoot: Node, root: Node, path: string)
    requires Resolve(f, root, Components(path)) == Some(point)
    ensures var g, names := WithMount(f, point, fsRoot), Components(path);
            && (names != [] && !Passes(f, root, names[..|names| - 1], point) ==>
                  && Resolve(g, root, names) == Some(if EndsAt(f, root, names, point) then fsRoot else point)
                  && (EndsAt(f, root, names, point) ==>
                        forall q: string :: Resolve(g, root, Components(path + "/" + q)) == Resolve(g, fsRoot, Components(q))))
            && (forall p: string :: !Passes(f, root, Components(p), point) ==>
                  Resolve(g, root, Components(p)) == Resolve(f, root, Components(p)))
  {
    hide Resolve, Components, EndsAt, Passes;
    var g, names := WithMount(f, point, fsRoot), Components(path);
    if names != [] && !Passes(f, root, names[..|names| - 1], point) {
      MountedPath(f, point, fsRoot, root, names);
      if EndsAt(f, root, names, point) {
        forall q: string
          ensures Resolve(g, root, Components(path + "/" + q)) == Resolve(g, fsRoot, Components(q))
        {
          ComponentsAppend(path, q);
          MountedBelow(f, point, fsRoot, root, names, Components(q));
        }
      }
    }
    forall p: string | !Passes(f, root, Components(p), point)
      ensures Resolve(g, root, Components(p)) == Resolve(f, root, Components(p))
    {
      MountKeepsPaths(f, point, fsRoot, root, Components(p));
    }
  }

  /** The mount table, the root and every node there is. */
  class Vfs {
    var root: Node?
    var mounts: seq<Mount<Node>>
    ghost var nodes: set<Node>

    constructor ()
      ensures Valid() && root == null && mounts == [] && nodes == {}
    {
      root, mounts, nodes := null, [], {};
    }

    ghost function View(): Forest<Node>
      reads this, nodes
    {
      Forest(map n | n in nodes :: Entry(n.name, n.children, n.searchable), mounts)
    }

    /** The arrays of the source are large enough. */
    static ghost predicate Bounded(f: Forest<Node>) {
      && |f.mounts| <= MAX_MOUNTS
      && (forall n :: n in f.nodes ==> |f.nodes[n].children| <= MAX_CHILDREN && |f.nodes[n].name| <= MAX_NAME)
    }

    ghost predicate Valid()
      reads this, nodes
    {
      && Closed(View()) && Bounded(View())
      && (root != null ==> root in nodes)
    }

    /** ramfs_lookup: the first child whose name strcmp finds equal. */
    method Lookup(node: Node, name: string) returns (found: Node?)
      requires Closed(View()) && node in nodes
      ensures FirstNamed(View(), View().nodes[node].children, name) ==
              if found == null then None else Some(found as Node)
      ensures found != null ==> found in nodes
    {
      var i := 0;
      assert View().nodes[node].children == node.children;
      while i < |node.children|
        invariant i <= |node.children|
        invariant FirstNamed(View(), node.children, name) == FirstNamed(View(), node.children[i..], name)
      {
        assert node.children[i] in node.children;
        if node.children[i].name == name {
          return node.children[i];
        }
        i := i + 1;
      }
      return null;
    }

    /** vfs_check_mount. */
    method CheckMount(node: Node) returns (r: Node)
      requires Closed(View()) && node in nodes
      ensures r == Mounted(mounts, node) && r in nodes
    {
      var i := 0;
      while i < |mounts|
        invariant i <= |mounts|
        invariant Mounted(mounts, node) == Mounted(mounts[i..], node)
      {
        if node == mounts[i].point {
          assert mounts[i] in mounts;
          return mounts[i].root;
        }
        i := i + 1;
      }
      return node;
    }

    /** The first inner loop of path_resolve. */
    static method SkipSlashes(path: string) returns (p: string)
      ensures Components(p) == Components(path) && |p| <= |path|
      ensures p == "" || p[0] != '/'
    {
      p := path;
      while p != "" && p[0] == '/'
        invariant Components(p) == Components(path) && |p| <= |path|
        decreases |p|
      {
        p := p[1..];
      }
    }

    /** The second inner loop of path_resolve: the next component goes to part. */
    static method CopyPart(path: string, part: array<char>) returns (j: nat, p: string)
      requires |Word(path)| < part.Length
      modifies part
      ensures j == |Word(path)| && part[..j] == Word(path) && p == path[j..]
    {
      ghost var word := Word(path);
      WordPrefix(path);
      p, j := path, 0;
      while p != "" && p[0] != '/'
        invariant j <= |word| && p == path[j..] && part[..j] == word[..j]
        decreases |p|
      {
        part[j] := p[0];
        p := p[1..];
        j := j + 1;
      }
      part[j] := '\0';
    }

    /** The rest of the loop body of path_resolve: lookup, then mount. */
    method StepInto(node: Node, name: string, ghost f: Forest<Node>) returns (next: Node?)
      requires View() == f && Closed(f) && node in nodes
      ensures View() == f && Step(f, node, name) == if next == null then None else Some(next as Node)
      ensures next != null ==> next in nodes
    {
      if !node.searchable {
        return null;
      }
      var child := Lookup(node, name);
      if child == null {
        return null;
      }
      next := CheckMount(child);
    }

    /** path_resolve: a C string is the suffix that its pointer has reached. */
    method PathResolve(start: Node, path: string) returns (r: Node?)
      requires Valid() && start in nodes
      requires forall w :: w in Components(path) ==> |w| <= MAX_NAME
      ensures Resolve(View(), start, Components(path)) == if r == null then None else Some(r as Node)
      ensures r != null ==> r in nodes
    {
      hide Mounted, Step, Word;
      var current, p := start, path;
      var part := new char[MAX_NAME + 1];
      ghost var f, names, target := View(), Components(path), Resolve(View(), start, Components(path));
      while p != ""
        invariant current in nodes && View() == f && names == Components(p)
        invariant target == Resolve(f, current, names)
        invariant forall w :: w in names ==> |w| <= MAX_NAME
        decreases |p|
        modifies part
      {
        p := SkipSlashes(p);
        if p == "" {
          break;
        }
        ghost var word, rest := Word(p), Components(p[|Word(p)|..]);
        assert names == [word] + rest && word in names;
        ResolveFirst(f, current, word, rest);
        var j;
        j, p := CopyPart(p, part);
        names := rest;
        var next := StepInto(current, part[..j], f);
        if next == null {
          return null;
        }
        current := next;
      }
      return current;
    }

    /** Where a path leads from the root. */
    ghost function Target(path: string): Option<Node>
      reads this, nodes
    {
      if root == null then None else Resolve(View(), root, Components(path))
    }

    /** vfs_lookup. */
    method LookupPath(path: string) returns (r: Node?)
      requires Valid()
      requires forall w :: w in Components(path) ==> |w| <= MAX_NAME
      ensures (if r == null then None else Some(r as Node)) == Target(path)
      ensures r != null ==> r in nodes
    {
      if root == null {
        return null;
      }
      r := PathResolve(root, path);
    }

    /** vfs_mount; false stands for the panic when the path does not resolve.  Afterwards the path leads to
        the mounted root exactly when its last lookup found the mountpoint itself, and so does every longer
        path into the mounted tree; paths that do not pass the mountpoint are resolved as before. */
    method MountAt(path: string, fsRoot: Node) returns (ok: bool)
      requires Valid() && fsRoot in nodes && |mounts| < MAX_MOUNTS
      requires forall w :: w in Components(path) ==> |w| <= MAX_NAME
      modifies this`mounts
      ensures Valid()
      ensures var point := old(Target(path));
              && ok == point.Some?
              && mounts == old(mounts) + if ok then [Mount(point.value, fsRoot)] else []
      ensures ok ==>
                var f, names, point := old(View()), Components(path), old(Target(path)).value;
                && root != null
                && (names != [] && !Passes(f, root, names[..|names| - 1], point) ==>
                      && Target(path) == Some(if EndsAt(f, root, names, point) then fsRoot else point)
                      && (EndsAt(f, root, names, point) ==>
                            forall q: string :: Target(path + "/" + q) == Resolve(View(), fsRoot, Components(q))))
                && (forall p: string :: !Passes(f, root, Components(p), point) ==> Target(p) == old(Target(p)))
    {
      hide Resolve, Components, EndsAt, Passes, Mounted, Step, LookedUp;
      var mp := LookupPath(path);
      if mp == null {
        return false;
      }
      ghost var f := View();
      mounts := mounts + [Mount(mp, fsRoot)];
      assert View() == WithMount(f, mp, fsRoot);
      MountSeen(f, mp, fsRoot, root, path);
      return true;
    }

    /** ramfs_create. */
    method Create(parent: Node, name: string, flags: bv32) returns (status: int)
      requires Valid() && parent in nodes && |name| <= MAX_NAME
      modifies this`nodes, parent`children
      ensures Valid()
      ensures if old(|parent.children|) >= MAX_CHILDREN
              then status == -1 && View() == old(View()) && nodes == old(nodes)
              else status == 0 && |parent.children| > 0
      ensures status == 0 ==>
                var child := parent.children[|parent.children| - 1];
                && fresh(child) && nodes == old(nodes) + {child}
                && child.flags == flags && child.data == null && child.FileValid()
                && View() == Grown(old(View()), parent, child, name)
    {
      hide Closed;
      if |parent.children| >= MAX_CHILDREN {
        return -1;
      }
      var child := new Node(name, flags, parent.searchable);
      ghost var before := View();
      GrowthKeepsClosed(before, parent, child, name);
      parent.children := parent.children + [child];
      nodes := nodes + {child};
      assert View() == Grown(before, parent, child, name);
      return 0;
    }

    /** ramfs_create_instance. */
    method CreateInstance() returns (r: Node)
      requires Valid()
      modifies this`nodes
      ensures Valid() && fresh(r) && nodes == old(nodes) + {r} && mounts == old(mounts)
      ensures r.children == [] && r.name == "/" && r.flags == VFS_DIR && r.FileValid() && r.data == null
      ensures View().nodes == old(View()).nodes[r := Entry("/", [], true)]
    {
      r := new Node("/", VFS_DIR, true);
      ghost var before := View();
      IsolatedKeepsClosed(before, r, "/");
      nodes := nodes + {r};
      assert View() == before.(nodes := before.nodes[r := Entry("/", [], true)]);
    }
  }
}
