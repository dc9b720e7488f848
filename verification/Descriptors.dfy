/** File descriptors (src/kernel/fs/fd/fd.c) over the RAM file system.

    `Store` is the abstract file store: byte sequences and a table of offsets into them.  Every
    system call of the class answers as `Answers` says, and the lemmas are about any run of
    answers, over any number of descriptors and files. */
module Descriptors {
  import opened Machine
  import opened Paths
  import opened FileSystem

  const MAX_FDS := 32

  datatype Descriptor<F> = Descriptor(file: F, offset: nat)

  /** The files, which of them are directories, and the descriptors in use. */
  datatype Store<F> = Store(files: map<F, seq<byte>>, dirs: set<F>, table: map<int, Descriptor<F>>)

  datatype Call<F> =
    | Open(file: Option<F>)            // what the path resolved to
    | Close(fd: int)
    | Seek(fd: int, offset: nat)
    | Read(fd: int, size: nat)
    | Write(fd: int, bytes: seq<byte>)

  datatype Reply = Reply(code: int, data: seq<byte>)

  /** fd_alloc: the first descriptor from i on that is not in use. */
  function FirstUnused<F>(table: map<int, Descriptor<F>>, i: nat): nat
    requires i <= MAX_FDS
    decreases MAX_FDS - i
  {
    if i < MAX_FDS && i in table then FirstUnused(table, i + 1) else i
  }

  /** What a call may answer, and the store it leaves. */
  ghost predicate Answers<F>(s: Store<F>, call: Call<F>, reply: Reply, s': Store<F>) {
    match call
    case Open(file) =>
      var fd := FirstUnused(s.table, 0);
      if file.None? || fd == MAX_FDS then reply == Reply(-1, []) && s' == s
      else reply == Reply(fd, []) && s' == s.(table := s.table[fd := Descriptor(file.value, 0)])
    case Close(fd) =>
      reply == Reply(0, []) && s' == s.(table := s.table - {fd})
    case Seek(fd, offset) =>
      if fd !in s.table then reply == Reply(-1, []) && s' == s
      else reply == Reply(0, []) && s' == s.(table := s.table[fd := s.table[fd].(offset := offset)])
    case Read(fd, size) =>
      if fd !in s.table then reply == Reply(-1, []) && s' == s
      else
        var d := s.table[fd];
        d.file in s.files &&
        var data := Slice(s.files[d.file], d.offset, size);
        reply == Reply(|data|, data) && s' == s.(table := s.table[fd := d.(offset := d.offset + |data|)])
    case Write(fd, bytes) =>
      if fd !in s.table || s.table[fd].file in s.dirs then reply == Reply(-1, []) && s' == s
      else
        var d := s.table[fd];
        && d.file in s.files && d.file in s'.files
        && Wrote(s.files[d.file], d.offset, bytes, s'.files[d.file])
        && reply == Reply(|bytes|, [])
        && s' == s.(files := s.files[d.file := s'.files[d.file]],
                    table := s.table[fd := d.(offset := d.offset + |bytes|)])
  }

  /** One call of a run with its answer. */
  datatype Event<F> = Event(call: Call<F>, reply: Reply)

  ghost predicate Run<F>(states: seq<Store<F>>, events: seq<Event<F>>) {
    && |states| == |events| + 1
    && forall i :: 0 <= i < |events| ==> Answers(states[i], events[i].call, events[i].reply, states[i + 1])
  }

  /** The calls that name a descriptor; Open names the one it returns. */
  function DescriptorOf<F>(e: Event<F>): int {
    match e.call
    case Open(_) => e.reply.code
    case Close(fd) => fd
    case Seek(fd, _) => fd
    case Read(fd, _) => fd
    case Write(fd, _) => fd
  }

  /** The offset that fd's own events alone account for, seen from event n. */
  function OwnOffset<F>(start: nat, events: seq<Event<F>>, fd: int, n: nat): int
    requires n <= |events|
  {
    if n == 0 then start else NextOffset(OwnOffset(start, events, fd, n - 1), events[n - 1], fd)
  }

  function NextOffset<F>(before: int, e: Event<F>, fd: int): int {
    if DescriptorOf(e) != fd || e.reply.code < 0 then before else
    match e.call
    case Open(_) => 0
    case Close(_) => before
    case Seek(_, offset) => offset
    case Read(_, _) => before + e.reply.code
    case Write(_, _) => before + e.reply.code
  }

  /** Descriptors are independent: however the calls on others interleave, a descriptor that is
      not closed keeps its file, and its offset is the one its own calls account for. */
  lemma {:induction false} OwnCallsDecide<F>(states: seq<Store<F>>, events: seq<Event<F>>, fd: int, n: nat)
    requires Run(states, events) && n <= |events| && 0 <= fd && fd in states[0].table
    requires forall i :: 0 <= i < n ==> events[i].call != Close(fd)
    ensures fd in states[n].table && states[n].table[fd].file == states[0].table[fd].file
    ensures states[n].table[fd].offset == OwnOffset(states[0].table[fd].offset, events, fd, n)
  {
    if n != 0 {
      OwnCallsDecide(states, events, fd, n - 1);
      assert Answers(states[n - 1], events[n - 1].call, events[n - 1].reply, states[n - 1 + 1]);
      OneCallDecides(states[n - 1], events[n - 1], states[n], fd);
    }
  }

  lemma OneCallDecides<F>(s: Store<F>, e: Event<F>, s': Store<F>, fd: int)
    requires Answers(s, e.call, e.reply, s') && 0 <= fd && fd in s.table && e.call != Close(fd)
    ensures fd in s'.table && s'.table[fd].file == s.table[fd].file
    ensures s'.table[fd].offset == NextOffset(s.table[fd].offset, e, fd)
  {
    FirstUnusedIsUnused(s.table, 0);
  }

  lemma {:induction false} FirstUnusedIsUnused<F>(table: map<int, Descriptor<F>>, i: nat)
    requires i <= MAX_FDS
    ensures i <= FirstUnused(table, i) <= MAX_FDS
    ensures FirstUnused(table, i) < MAX_FDS ==> FirstUnused(table, i) !in table
    ensures forall k :: i <= k < FirstUnused(table, i) ==> k in table
    decreases MAX_FDS - i
  {
    if i < MAX_FDS && i in table {
      FirstUnusedIsUnused(table, i + 1);
    }
  }

  /** Whether event e, answered in state s, stored to byte p of file f. */
  ghost predicate Stores<F>(s: Store<F>, e: Event<F>, f: F, p: nat) {
    && e.call.Write? && e.reply.code >= 0 && e.call.fd in s.table
    && s.table[e.call.fd].file == f
    && s.table[e.call.fd].offset <= p < s.table[e.call.fd].offset + |e.call.bytes|
  }

  /** The byte that the last of the first n events to store there put at p. */
  ghost function LastStored<F>(states: seq<Store<F>>, events: seq<Event<F>>, f: F, p: nat, n: nat): Option<byte>
    requires n <= |events| < |states|
  {
    if n == 0 then None
    else if Stores(states[n - 1], events[n - 1], f, p) then
      Some(events[n - 1].call.bytes[p - states[n - 1].table[events[n - 1].call.fd].offset])
    else LastStored(states, events, f, p, n - 1)
  }

  lemma AnswerOnByte<F>(s: Store<F>, e: Event<F>, s': Store<F>, f: F, p: nat)
    requires Answers(s, e.call, e.reply, s') && f in s.files
    ensures f in s'.files && |s.files[f]| <= |s'.files[f]|
    ensures Stores(s, e, f, p) ==>
              p < |s'.files[f]| && s'.files[f][p] == e.call.bytes[p - s.table[e.call.fd].offset]
    ensures !Stores(s, e, f, p) && p < |s.files[f]| ==> s'.files[f][p] == s.files[f][p]
  {
    if Stores(s, e, f, p) {
      var offset := s.table[e.call.fd].offset;
      assert s'.files[f][offset..offset + |e.call.bytes|][p - offset] == s'.files[f][p];
    }
  }

  /** Last writer wins: over any run, through any descriptors, every byte of a file is the one
      most recently stored there, or the original one where nothing was stored. */
  lemma {:induction false} LastWriterWins<F>(states: seq<Store<F>>, events: seq<Event<F>>, f: F, p: nat, n: nat)
    requires Run(states, events) && n <= |events| && f in states[0].files
    ensures f in states[n].files && |states[0].files[f]| <= |states[n].files[f]|
    ensures match LastStored(states, events, f, p, n)
            case Some(b) => p < |states[n].files[f]| && states[n].files[f][p] == b
            case None => p < |states[0].files[f]| ==> states[n].files[f][p] == states[0].files[f][p]
  {
    if n != 0 {
      LastWriterWins(states, events, f, p, n - 1);
      assert Answers(states[n - 1], events[n - 1].call, events[n - 1].reply, states[n - 1 + 1]);
      AnswerOnByte(states[n - 1], events[n - 1], states[n], f, p);
    }
  }

  function Concat(parts: seq<seq<byte>>): seq<byte> {
    if parts == [] then [] else Concat(parts[..|parts| - 1]) + parts[|parts| - 1]
  }

  /** A run that only writes the given parts through fd. */
  ghost predicate WritesOnly<F>(events: seq<Event<F>>, fd: int, parts: seq<seq<byte>>) {
    |events| == |parts| && forall i :: 0 <= i < |parts| ==> events[i].call == Write(fd, parts[i])
  }

  /** Any sequence of writes through one descriptor is one write of their concatenation. */
  lemma {:induction false} WritesConcatenate<F>(states: seq<Store<F>>, events: seq<Event<F>>, fd: int,
                                                parts: seq<seq<byte>>, n: nat)
    requires Run(states, events) && WritesOnly(events, fd, parts) && 0 < n <= |parts|
    requires fd in states[0].table && states[0].table[fd].file in states[0].files
    requires states[0].table[fd].file !in states[0].dirs
    ensures var d := states[0].table[fd];
            && states[n].dirs == states[0].dirs && d.file in states[n].files
            && Wrote(states[0].files[d.file], d.offset, Concat(parts[..n]), states[n].files[d.file])
            && states[n].table == states[0].table[fd := d.(offset := d.offset + |Concat(parts[..n])|)]
  {
    hide Wrote;
    var d := states[0].table[fd];
    assert Answers(states[n - 1], events[n - 1].call, events[n - 1].reply, states[n - 1 + 1]);
    assert parts[..n][..n - 1] == parts[..n - 1] && parts[..n][n - 1] == parts[n - 1];
    if n == 1 {
      assert Concat(parts[..1]) == Concat(parts[..0]) + parts[0] == parts[0];
    } else {
      WritesConcatenate(states, events, fd, parts, n - 1);
      WroteTwice(states[0].files[d.file], d.offset, Concat(parts[..n - 1]), states[n - 1].files[d.file],
                 parts[n - 1], states[n].files[d.file]);
    }
  }

  /** Seek, write any parts, seek back and read as much: the parts come back joined. */
  lemma WrittenIsRead<F>(s: Store<F>, states: seq<Store<F>>, events: seq<Event<F>>, fd: int, offset: nat,
                         parts: seq<seq<byte>>, back: Store<F>, last: Store<F>, r1: Reply, r2: Reply, r3: Reply)
    requires fd in s.table && s.table[fd].file in s.files && s.table[fd].file !in s.dirs
    requires Run(states, events) && WritesOnly(events, fd, parts) && parts != []
    requires Answers(s, Seek(fd, offset), r1, states[0])
    requires Answers(states[|parts|], Seek(fd, offset), r2, back)
    requires Answers(back, Read(fd, |Concat(parts)|), r3, last)
    ensures r3 == Reply(|Concat(parts)|, Concat(parts))
  {
    var n, f := |parts|, s.table[fd].file;
    WritesConcatenate(states, events, fd, parts, n);
    assert parts[..n] == parts;
    ReadBack(states[0].files[f], offset, Concat(parts), states[n].files[f]);
  }

  /** A run that only reads the given numbers of bytes through fd. */
  ghost predicate ReadsOnly<F>(events: seq<Event<F>>, fd: int, sizes: seq<nat>) {
    |events| == |sizes| && forall i :: 0 <= i < |sizes| ==> events[i].call == Read(fd, sizes[i])
  }

  /** What the first n answers delivered, joined. */
  function Delivered<F>(events: seq<Event<F>>, n: nat): seq<byte>
    requires n <= |events|
  {
    if n == 0 then [] else Delivered(events, n - 1) + events[n - 1].reply.data
  }

  function Total(sizes: seq<nat>, n: nat): nat
    requires n <= |sizes|
  {
    if n == 0 then 0 else Total(sizes, n - 1) + sizes[n - 1]
  }

  /** Any sequence of reads through one descriptor is one read of their total; it changes no file. */
  lemma {:induction false} ReadsConcatenate<F>(states: seq<Store<F>>, events: seq<Event<F>>, fd: int, sizes: seq<nat>, n: nat)
    requires Run(states, events) && ReadsOnly(events, fd, sizes) && n <= |sizes|
    requires fd in states[0].table && states[0].table[fd].file in states[0].files
    ensures var d := states[0].table[fd];
            && Delivered(events, n) == Slice(states[0].files[d.file], d.offset, Total(sizes, n))
            && states[n] == states[0].(table := states[0].table[fd := d.(offset := d.offset + |Delivered(events, n)|)])
  {
    hide Slice, Answers;
    var d := states[0].table[fd];
    if n == 0 {
      SliceIsClipped(states[0].files[d.file], d.offset, 0);
      assert states[0].table[fd := d.(offset := d.offset + 0)] == states[0].table;
    } else {
      ReadsConcatenate(states, events, fd, sizes, n - 1);
      assert Answers(states[n - 1], events[n - 1].call, events[n - 1].reply, states[n - 1 + 1]);
      ReadMoves(states[n - 1], events[n - 1], states[n], fd, sizes[n - 1]);
      SliceTwice(states[0].files[d.file], d.offset, Total(sizes, n - 1), sizes[n - 1]);
      MovedTwice(states[0], fd, |Delivered(events, n - 1)|, |events[n - 1].reply.data|);
    }
  }

  lemma ReadMoves<F>(s: Store<F>, e: Event<F>, s': Store<F>, fd: int, size: nat)
    requires e.call == Read(fd, size) && fd in s.table && Answers(s, e.call, e.reply, s')
    ensures var d := s.table[fd];
            && d.file in s.files && e.reply.data == Slice(s.files[d.file], d.offset, size)
            && s' == s.(table := s.table[fd := d.(offset := d.offset + |e.reply.data|)])
  {
  }

  lemma MovedTwice<F>(s: Store<F>, fd: int, n: nat, k: nat)
    requires fd in s.table
    ensures var d, t := s.table[fd], s.table;
            t[fd := d.(offset := d.offset + n)][fd := d.(offset := d.offset + n + k)] == t[fd := d.(offset := d.offset + (n + k))]
  {
  }

  /** So reads from the start that together ask for enough deliver the whole file, in whatever pieces. */
  lemma WholeFileRead<F>(states: seq<Store<F>>, events: seq<Event<F>>, fd: int, sizes: seq<nat>)
    requires Run(states, events) && ReadsOnly(events, fd, sizes)
    requires fd in states[0].table && states[0].table[fd].file in states[0].files && states[0].table[fd].offset == 0
    requires |states[0].files[states[0].table[fd].file]| <= Total(sizes, |sizes|)
    ensures Delivered(events, |sizes|) == states[0].files[states[0].table[fd].file]
  {
    ReadsConcatenate(states, events, fd, sizes, |sizes|);
    SliceWhole(states[0].files[states[0].table[fd].file], Total(sizes, |sizes|));
  }

  /** A descriptor that is closed stays so until an open returns it... */
  lemma {:induction false} ClosedStays<F>(states: seq<Store<F>>, events: seq<Event<F>>, fd: int, n: nat)
    requires Run(states, events) && 0 < n <= |events| && events[0].call == Close(fd)
    requires forall i :: 0 < i < n ==> !(events[i].call.Open? && events[i].reply.code == fd)
    ensures fd !in states[n].table
  {
    assert Answers(states[n - 1], events[n - 1].call, events[n - 1].reply, states[n - 1 + 1]);
    if n > 1 { ClosedStays(states, events, fd, n - 1); }
  }

  /** ...and until then every call on it fails and changes nothing. */
  lemma ClosedFails<F>(states: seq<Store<F>>, events: seq<Event<F>>, fd: int, n: nat)
    requires Run(states, events) && 0 < n < |events| && events[0].call == Close(fd)
    requires forall i :: 0 < i < n ==> !(events[i].call.Open? && events[i].reply.code == fd)
    requires var call := events[n].call;
             !call.Open? && !call.Close? && DescriptorOf(events[n]) == fd
    ensures events[n].reply == Reply(-1, []) && states[n + 1] == states[n]
  {
    ClosedStays(states, events, fd, n);
    assert Answers(states[n], events[n].call, events[n].reply, states[n + 1]);
  }

  /** Closing makes room: the next open of a file succeeds, with a descriptor no higher, at offset 0. */
  lemma ClosedIsReused<F>(s: Store<F>, fd: int, r1: Reply, mid: Store<F>, file: F, r2: Reply, s': Store<F>)
    requires 0 <= fd < MAX_FDS && Answers(s, Close(fd), r1, mid) && Answers(mid, Open(Some(file)), r2, s')
    ensures 0 <= r2.code <= fd && r2.code !in mid.table && s'.table == mid.table[r2.code := Descriptor(file, 0)]
    ensures mid.files == s.files == s'.files && forall k :: k in s.table && k != fd ==> k in mid.table && mid.table[k] == s.table[k]
  {
    FirstUnusedIsUnused(mid.table, 0);
  }

  /** A write changes the file first and then, if it wrote anything, the offset. */
  lemma WriteAnswered<F>(s: Store<F>, fd: int, bytes: seq<byte>, content: seq<byte>, mid: Store<F>, s': Store<F>)
    requires fd in s.table && s.table[fd].file !in s.dirs && s.table[fd].file in s.files
    requires Wrote(s.files[s.table[fd].file], s.table[fd].offset, bytes, content)
    requires mid == s.(files := s.files[s.table[fd].file := content])
    requires if bytes == [] then s' == mid else
             s' == mid.(table := mid.table[fd := mid.table[fd].(offset := s.table[fd].offset + |bytes|)])
    ensures Answers(s, Write(fd, bytes), Reply(|bytes|, []), s')
  {
    assert s.table[fd := s.table[fd].(offset := s.table[fd].offset + 0)] == s.table;
  }

  lemma WriteRefused<F>(s: Store<F>, fd: int, bytes: seq<byte>)
    requires fd in s.table && s.table[fd].file in s.dirs
    ensures Answers(s, Write(fd, bytes), Reply(-1, []), s)
  {
  }

  lemma ReadAnswered<F>(s: Store<F>, fd: int, size: nat, data: seq<byte>, s': Store<F>)
    requires fd in s.table && s.table[fd].file in s.files
    requires data == Slice(s.files[s.table[fd].file], s.table[fd].offset, size)
    requires var d := s.table[fd];
             s' == s.(table := s.table[fd := d.(offset := d.offset + |data|)])
    ensures Answers(s, Read(fd, size), Reply(|data|, data), s')
  {
  }

  lemma OpenAnswered<F>(s: Store<F>, file: F, fd: int, s': Store<F>)
    requires if FirstUnused(s.table, 0) == MAX_FDS then fd == -1 && s' == s
             else fd == FirstUnused(s.table, 0) && s' == s.(table := s.table[fd := Descriptor(file, 0)])
    ensures Answers(s, Open(Some(file)), Reply(fd, []), s')
  {
  }

  datatype FileDesc = FileDesc(used: bool, node: Node?, offset: nat)

  function Taken(d: FileDesc): bool {
    d.used && d.node != null
  }

  ghost function TableOf(t: seq<FileDesc>): map<int, Descriptor<Node>> {
    map i | 0 <= i < |t| && Taken(t[i]) :: Descriptor(t[i].node as Node, t[i].offset)
  }

  lemma TableTake(t: seq<FileDesc>, fd: nat, node: Node, offset: nat)
    requires fd < |t|
    ensures TableOf(t[fd := FileDesc(true, node, offset)]) == TableOf(t)[fd := Descriptor(node, offset)]
  {
  }

  lemma TableDrop(t: seq<FileDesc>, fd: nat)
    requires fd < |t|
    ensures TableOf(t[fd := t[fd].(used := false)]) == TableOf(t) - {fd}
  {
  }

  class FdTable {
    const vfs: Vfs
    const table: array<FileDesc>

    /** The buffers of all files. */
    ghost function Buffers(): set<object>
      reads vfs, vfs.nodes
    {
      set n | n in vfs.nodes && n.data != null :: n.data
    }

    /** Files are sound, and no two share a buffer. */
    ghost predicate FilesValid()
      reads vfs, vfs.nodes
    {
      && (forall n :: n in vfs.nodes ==> n.FileValid())
      && (forall m, n :: m in vfs.nodes && n in vfs.nodes && m != n && m.data != null ==> m.data != n.data)
    }

    /** Every descriptor in use has a node.  (The tree itself is vfs.Valid(), which the calls on
        descriptors neither need nor break.) */
    ghost predicate Valid()
      reads table, vfs, vfs.nodes
    {
      && FilesValid()
      && table !in Buffers()
      && table.Length == MAX_FDS
      && (forall i :: 0 <= i < MAX_FDS && table[i].used ==> Taken(table[i]) && table[i].node in vfs.nodes)
    }

    ghost function Files(): map<Node, seq<byte>>
      requires FilesValid()
      reads vfs, vfs.nodes, Buffers()
    {
      map n | n in vfs.nodes :: n.Content()
    }

    ghost function Dirs(): set<Node>
      reads vfs
    {
      set n | n in vfs.nodes && n.flags & VFS_DIR != 0
    }

    ghost function View(): Store<Node>
      requires Valid()
      reads table, vfs, vfs.nodes, Buffers()
    {
      Store(Files(), Dirs(), TableOf(table[..]))
    }

    /** fd_init. */
    constructor (vfs: Vfs)
      requires forall n :: n in vfs.nodes ==> n.FileValid()
      requires forall m, n :: m in vfs.nodes && n in vfs.nodes && m != n && m.data != null ==> m.data != n.data
      ensures Valid() && this.vfs == vfs && fresh(table) && View().table == map[]
    {
      this.vfs := vfs;
      table := new FileDesc[MAX_FDS](_ => FileDesc(false, null, 0));
    }

    /** fd_alloc: the lowest free slot, with its offset reset; -1 when all are in use. */
    method Alloc() returns (fd: int)
      requires Valid()
      modifies table
      ensures fd == if FirstUnused(TableOf(old(table[..])), 0) == MAX_FDS
                    then -1 else FirstUnused(TableOf(old(table[..])), 0)
      ensures -1 <= fd < MAX_FDS
      ensures fd == -1 ==> table[..] == old(table[..])
      ensures fd != -1 ==> table[..] == old(table[..])[fd := old(table[..])[fd].(used := true, offset := 0)]
    {
      ghost var t := table[..];
      var i := 0;
      while i < MAX_FDS
        invariant 0 <= i <= MAX_FDS && FirstUnused(TableOf(t), 0) == FirstUnused(TableOf(t), i)
        invariant table[..] == t
      {
        assert table[i] == t[i];
        if !table[i].used {
          table[i] := table[i].(used := true, offset := 0);
          return i;
        }
        i := i + 1;
      }
      return -1;
    }

    /** The part of sys_open after the path is resolved. */
    method Install(node: Node) returns (fd: int)
      requires Valid() && node in vfs.nodes
      modifies table
      ensures Valid() && Answers(old(View()), Open(Some(node)), Reply(fd, []), View())
    {
      hide Answers, FirstUnused, TableOf;
      ghost var t, before := table[..], View();
      fd := Alloc();
      if fd >= 0 {
        table[fd] := table[fd].(node := node);
        assert table[..] == t[fd := FileDesc(true, node, 0)];
        TableTake(t, fd, node, 0);
      }
      assert Files() == before.files;
      OpenAnswered(before, node, fd, View());
    }

    /** sys_open. */
    method SysOpen(path: string) returns (fd: int)
      requires Valid() && vfs.Valid() && forall w :: w in Components(path) ==> |w| <= MAX_NAME
      modifies table
      ensures Valid()
      ensures Answers(old(View()), Open(old(vfs.Target(path))), Reply(fd, []), View())
    {
      var node := vfs.LookupPath(path);
      assert View() == old(View());
      if node == null {
        return -1;
      }
      fd := Install(node);
    }

    /** Sets the offset of a descriptor in use. */
    method SetOffset(fd: int, offset: nat)
      requires Valid() && 0 <= fd < MAX_FDS && table[fd].used
      modifies table
      ensures Valid() && fd in old(View()).table
      ensures View() == old(View()).(table := old(View()).table[fd := old(View()).table[fd].(offset := offset)])
    {
      TableTake(table[..], fd, table[fd].node, offset);
      table[fd] := table[fd].(offset := offset);
      assert table[..] == old(table[..])[fd := FileDesc(true, old(table[..])[fd].node, offset)];
      assert Files() == old(Files());
    }

    /** The call through ops->write: the other files keep their contents. */
    method WriteNode(node: Node, offset: nat, size: nat, buffer: array<byte>) returns (written: int)
      requires FilesValid() && table !in Buffers() && node in vfs.nodes
      requires size <= buffer.Length && buffer !in Buffers() && offset + size < INT32_LIMIT
      modifies vfs.nodes, Buffers()
      ensures vfs.View() == old(vfs.View())
      ensures FilesValid() && table !in Buffers()
      ensures forall n :: n in vfs.nodes && n != node ==> n.Content() == old(Files())[n]
      ensures if node in Dirs() then written == -1 && node.Content() == old(Files())[node]
              else written == size && Wrote(old(Files())[node], offset, old(buffer[..size]), node.Content())
    {
      ghost var before := vfs.View();
      written := node.Write(offset, size, buffer);
      assert vfs.View() == before;
    }

    /** The part of sys_write below the descriptor: one file changes. */
    method WriteFile(node: Node, offset: nat, size: nat, buffer: array<byte>)
      returns (written: int, ghost content: seq<byte>)
      requires Valid() && node in vfs.nodes
      requires size <= buffer.Length && buffer !in Buffers() && offset + size < INT32_LIMIT
      modifies vfs.nodes, Buffers()
      ensures vfs.View() == old(vfs.View())
      ensures Valid() && node in old(View()).files
      ensures written == if node in old(View()).dirs then -1 else size
      ensures node !in old(View()).dirs ==> Wrote(old(View()).files[node], offset, old(buffer[..size]), content)
      ensures View() == if written == -1 then old(View())
                        else old(View()).(files := old(View()).files[node := content])
    {
      hide Wrote, TableOf;
      ghost var before, t := Files(), table[..];
      written := WriteNode(node, offset, size, buffer);
      content := node.Content();
      assert Files() == before[node := content];
      assert table[..] == t;
      if written == -1 { assert Files() == before; }
    }

    /** sys_write through a descriptor in use. */
    method WriteThrough(fd: int, buffer: array<byte>, size: nat) returns (written: int)
      requires Valid() && 0 <= fd < MAX_FDS && table[fd].used
      requires size <= buffer.Length && buffer !in Buffers() && table[fd].offset + size < INT32_LIMIT
      modifies table, vfs.nodes, Buffers()
      ensures vfs.View() == old(vfs.View())
      ensures Valid()
      ensures Answers(old(View()), Write(fd, old(buffer[..size])), Reply(written, []), View())
    {
      hide Wrote, Answers;
      var desc := table[fd];
      ghost var before, bytes := View(), buffer[..size];
      assert before.table[fd] == Descriptor(desc.node as Node, desc.offset);
      ghost var content;
      written, content := WriteFile(desc.node, desc.offset, size, buffer);
      ghost var mid := View();
      if written > 0 {
        SetOffset(fd, desc.offset + written);
      }
      if written >= 0 {
        WriteAnswered(before, fd, bytes, content, mid, View());
      } else {
        WriteRefused(before, fd, bytes);
      }
    }

    /** sys_write. */
    method SysWrite(fd: int, buffer: array<byte>, size: nat) returns (written: int)
      requires Valid() && size <= buffer.Length && buffer !in Buffers()
      requires 0 <= fd < MAX_FDS && table[fd].used ==> table[fd].offset + size < INT32_LIMIT
      modifies table, vfs.nodes, Buffers()
      ensures vfs.View() == old(vfs.View()) && (old(vfs.Valid()) ==> vfs.Valid())
      ensures Valid()
      ensures Answers(old(View()), Write(fd, old(buffer[..size])), Reply(written, []), View())
    {
      if fd < 0 || fd >= MAX_FDS {
        return -1;
      }
      if !table[fd].used {
        return -1;
      }
      written := WriteThrough(fd, buffer, size);
    }

    /** sys_read through a descriptor in use. */
    method ReadThrough(fd: int, buffer: array<byte>, size: nat) returns (count: nat)
      requires Valid() && 0 <= fd < MAX_FDS && table[fd].used && buffer as object != table
      requires size <= buffer.Length && buffer !in Buffers() && table[fd].offset + size < WORD_LIMIT
      modifies table, buffer
      ensures Valid() && count <= size && buffer[count..] == old(buffer[count..])
      ensures Answers(old(View()), Read(fd, size), Reply(count, buffer[..count]), View())
    {
      hide Slice, Answers;
      var desc := table[fd];
      ghost var before := View();
      assert before.table[fd] == Descriptor(desc.node as Node, desc.offset);
      count := desc.node.Read(desc.offset, size, buffer);
      assert View() == before;
      if count > 0 {
        SetOffset(fd, desc.offset + count);
      } else {
        assert before.table == before.table[fd := Descriptor(desc.node as Node, desc.offset)];
      }
      assert View().table == before.table[fd := Descriptor(desc.node as Node, desc.offset + count)];
      ReadAnswered(before, fd, size, buffer[..count], View());
    }

    /** sys_read; the bytes arrive at the start of the buffer, and the rest of it stays. */
    method SysRead(fd: int, buffer: array<byte>, size: nat) returns (count: int)
      requires Valid() && size <= buffer.Length && buffer !in Buffers() && buffer as object != table
      requires 0 <= fd < MAX_FDS && table[fd].used ==> table[fd].offset + size < WORD_LIMIT
      modifies table, buffer
      ensures Valid() && count <= size
      ensures Answers(old(View()), Read(fd, size), Reply(count, buffer[..if count < 0 then 0 else count]), View())
      ensures var n := if count < 0 then 0 else count; buffer[n..] == old(buffer[n..])
      ensures if fd !in old(View()).table then count == -1 else
              var d := old(View()).table[fd];
              && d.file in old(View()).files
              && var content := old(View()).files[d.file];
              && count == (if |content| <= d.offset then 0 else if |content| - d.offset < size then |content| - d.offset else size)
              && forall i :: 0 <= i < count ==> buffer[i] == content[d.offset + i]
    {
      hide Slice;
      if fd < 0 || fd >= MAX_FDS {
        return -1;
      }
      if !table[fd].used {
        return -1;
      }
      ghost var before := View();
      count := ReadThrough(fd, buffer, size);
      SliceIsClipped(before.files[before.table[fd].file], before.table[fd].offset, size);
    }

    /** sys_close. */
    method SysClose(fd: int)
      requires Valid()
      modifies table
      ensures Valid() && Answers(old(View()), Close(fd), Reply(0, []), View())
    {
      if fd >= 0 && fd < MAX_FDS {
        TableDrop(table[..], fd);
        table[fd] := table[fd].(used := false);
        assert table[..] == old(table[..])[fd := old(table[..])[fd].(used := false)];
      }
      assert TableOf(table[..]) == TableOf(old(table[..])) - {fd};
    }

    /** sys_seek. */
    method SysSeek(fd: int, offset: nat) returns (code: int)
      requires Valid() && offset < WORD_LIMIT
      modifies table
      ensures Valid() && Answers(old(View()), Seek(fd, offset), Reply(code, []), View())
    {
      if fd < 0 || fd >= MAX_FDS {
        return -1;
      }
      if !table[fd].used {
        return -1;
      }
      SetOffset(fd, offset);
      return 0;
    }
  }
}
