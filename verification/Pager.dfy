/** paging_init, map_page and the page-fault branch of isr_handler as they write the store. */
module Pager {
  import opened Bits
  import opened Frames
  import opened Machine
  import opened Paging
  import opened DemandPaging

  const PRESENT := 1
  const WRITABLE := 2

  /** What the fault branch ends in; Panic stands for debug_panic, Unhandled for the report. */
  datatype Outcome = Served | Panic | Unhandled

  /** There are frames for the fault, and the table that it writes is mapped to itself. */
  ghost predicate CanServe(m: seq<nat>, t: Layout, v: nat)
    requires TablesSound(m, t) && HeapPage(v)
  {
    CanFault(m, t, v) && (AllocKeepsTables(m, t); Writable(Allocated(m, t.g), t, v))
  }

  /** Bits 0 and 2 of the error code, as the source tests them. */
  lemma FaultBits(error: nat)
    ensures And(error, 1) == 0 <==> !Bit(error, 0)
    ensures And(error, 4) == 0 <==> !Bit(error, 2)
  {
    TestBit(error, 0);
    TestBit(error, 2);
    assert Power(0) == 1 && Power(2) == 4;
  }

  lemma FrameOfAddress(f: nat)
    ensures f * PAGE_SIZE / PAGE_SIZE == f && f * PAGE_SIZE % PAGE_SIZE == 0
  {
  }

  /** What making a table needs once its frame is taken. */
  lemma NewFrameReady(m: seq<nat>, t: Layout)
    requires TablesSound(m, t) && FrameLeft(m, t.g) && Identity(m, t, LeastFree(m, t.g, 0))
    ensures LeastFree(m, t.g, 0) < t.g.total && !t.g.Reserved(LeastFree(m, t.g, 0))
    ensures TablesSound(Allocated(m, t.g), t) && Identity(Allocated(m, t.g), t, LeastFree(m, t.g, 0))
    ensures forall i :: 0 <= i < PAGE_ENTRIES ==> SlotOf(Allocated(m, t.g), t, i) != Table(LeastFree(m, t.g, 0))
  {
    hide SlotOf, Walk, IsFree;
    AllocKeepsTables(m, t);
    AllocKeepsWalk(m, t, LeastFree(m, t.g, 0) * PAGE_SIZE);
  }

  /** What a served fault needs once the frame for the page is taken. */
  lemma FaultReady(m: seq<nat>, t: Layout, v: nat)
    requires TablesSound(m, t) && HeapPage(v) && CanServe(m, t, v)
    ensures var f, n := LeastFree(m, t.g, 0), Allocated(m, t.g);
            && 0 < f < t.g.Limit() && f * PAGE_SIZE < WORD_LIMIT
            && TablesSound(n, t) && (NoTable(n, t, v) ==> FrameLeft(n, t.g)) && Writable(n, t, v)
            && Faulted(m, t, v) == MappedPage(n, t, v, f * PAGE_SIZE)
  {
    hide SlotOf, Walk, IsFree, Writable, MappedPage;
    AllocKeepsTables(m, t);
  }

  class PageTables {
    const frames: FrameAllocator
    const mem: array<nat>
    const directory: nat
    const tracked: nat

    constructor (frames: FrameAllocator, directory: nat, tracked: nat)
      ensures this.frames == frames && mem == frames.mem
      ensures this.directory == directory && this.tracked == tracked
    {
      this.frames, this.mem, this.directory, this.tracked := frames, frames.mem, directory, tracked;
    }

    ghost function Lay(): Layout
      reads frames
    {
      Layout(frames.Geo(), directory, tracked)
    }

    ghost predicate Valid()
      reads frames, mem
    {
      frames.mem == mem && frames.Valid() && Lay().Placed()
    }

    /** The words [from, from + n) become zero. */
    method Clear(from: nat, n: nat)
      requires from + n <= mem.Length
      modifies mem
      ensures forall w :: 0 <= w < mem.Length ==>
                mem[w] == if from <= w < from + n then 0 else old(mem[w])
    {
      for i := 0 to n
        invariant forall w :: 0 <= w < mem.Length ==>
                    mem[w] == if from <= w < from + i then 0 else old(mem[w])
      {
        mem[from + i] := 0;
      }
    }

    /** A store with paging on: the processor takes the address through the tables as they are, and
        the kernel's pointers are meant to be physical. */
    method StoreThrough(address: nat, value: nat)
      requires IsMemory(mem[..]) && Lay().Placed() && address < WORD_LIMIT
      requires Walk(mem[..], Lay(), address) == Some(address)
      modifies mem
      ensures mem[..] == old(mem[..])[address / 4 := value]
    {
      mem[address / 4] := value;
    }

    /** The clearing loop of map_page, while the frame is no table yet. */
    method ClearTable(f: nat)
      requires TablesSound(mem[..], Lay()) && f < Lay().g.total && !Lay().g.Reserved(f) && Identity(mem[..], Lay(), f)
      requires forall i :: 0 <= i < PAGE_ENTRIES ==> SlotOf(mem[..], Lay(), i) != Table(f)
      modifies mem
      ensures mem[..] == Cleared(old(mem[..]), f)
    {
      hide Walk, FrameOf;
      ghost var m, t := mem[..], Lay();
      for i := 0 to PAGE_ENTRIES
        invariant IsMemory(mem[..])
        invariant forall w :: 0 <= w < mem.Length ==>
                    mem[w] == if f * FRAME_WORDS <= w < f * FRAME_WORDS + i then 0 else m[w]
      {
        DataKeepsWalk(m, mem[..], t, f, f * PAGE_SIZE);
        IdentityWord(mem[..], t, f, i);
        WordOfPage(f, i);
        StoreThrough(f * PAGE_SIZE + 4 * i, 0);
      }
      assert mem[..] == Cleared(m, f);
    }

    /** The directory entry and the tracked pointer of a table. */
    method EnterTable(i: nat, table: nat)
      requires directory + i < mem.Length && tracked + i < mem.Length && table % PAGE_SIZE == 0
      modifies mem
      ensures mem[..] == old(mem[..])[directory + i := table + 3][tracked + i := table]
    {
      EntryFlags(table);
      mem[directory + i] := Or(Or(table, PRESENT), WRITABLE);
      mem[tracked + i] := table;
    }

    /** The part of map_page that makes a missing table. */
    method MakeTable(i: nat) returns (table: nat)
      requires Valid() && TablesSound(mem[..], Lay()) && i < PAGE_ENTRIES && FrameLeft(mem[..], Lay().g)
      requires Identity(mem[..], Lay(), LeastFree(mem[..], Lay().g, 0))
      modifies mem
      ensures frames.mem == mem && mem[..] == WithTable(old(mem[..]), Lay(), i)
      ensures table == mem[tracked + i]
    {
      hide TablesSound, Identity, SlotOf, LeastFree, IsFree, Marked, Cleared;
      ghost var m, t := mem[..], Lay();
      ghost var f := LeastFree(m, t.g, 0);
      NewFrameReady(m, t);
      table := frames.AllocFrame();
      assert mem[..] == Allocated(m, t.g) && table == f * PAGE_SIZE;
      FrameOfAddress(f);
      ClearTable(table / PAGE_SIZE);
      assert mem[..] == Cleared(Allocated(m, t.g), f);
      EnterTable(i, table);
    }

    /** map_page. */
    method MapPage(v: nat, p: nat)
      requires Valid() && TablesSound(mem[..], Lay()) && v < WORD_LIMIT && p < WORD_LIMIT
      requires NoTable(mem[..], Lay(), v) ==> FrameLeft(mem[..], Lay().g)
      requires Writable(mem[..], Lay(), v)
      modifies mem
      ensures Valid() && mem[..] == MappedPage(old(mem[..]), Lay(), v, p)
      ensures TablesSound(mem[..], Lay())
    {
      hide SlotOf, Walk, Leaf, LeastFree, IsFree, WithTable, Cleared, Marked;
      ghost var m, t := mem[..], Lay();
      MappedPageSound(m, t, v, p);
      IndexMask(v / PAGE_SIZE);
      var dirIndex := v / 0x40_0000;
      var tableIndex := And(v / PAGE_SIZE, 0x3FF);
      var table := mem[tracked + dirIndex];
      if table == 0 {
        NewTableReady(m, t, v);
        table := MakeTable(dirIndex);
      } else {
        TableReady(m, t, v);
      }
      PutEntry(table, tableIndex, v, p);
      assert mem[..] == MappedPage(m, t, v, p);
    }

    /** The last statement of map_page: the entry goes into the table, through its own address. */
    method PutEntry(table: nat, tableIndex: nat, ghost v: nat, p: nat)
      requires TablesSound(mem[..], Lay()) && v < WORD_LIMIT && p < WORD_LIMIT && HasTable(mem[..], Lay(), Slot(v))
      requires table == mem[tracked + Slot(v)] && tableIndex == Index(v)
      requires Identity(mem[..], Lay(), table / PAGE_SIZE)
      modifies mem
      ensures mem[..] == Stored(old(mem[..]), Lay(), v, p)
    {
      hide SlotOf, Walk, Leaf, Or, And, IsFree;
      ghost var m, t := mem[..], Lay();
      PageMask(p);
      EntryFlags(And(p, 0xFFFF_F000));
      EntryWordOfTable(m, t, v);
      TableAddress(m, t, Slot(v));
      WordOfPage(table / PAGE_SIZE, tableIndex);
      IdentityWord(m, t, table / PAGE_SIZE, tableIndex);
      StoreThrough(table + 4 * tableIndex, Or(Or(And(p, 0xFFFF_F000), PRESENT), WRITABLE));
    }

    /** The page-fault branch of isr_handler: CR2 and the error code come from the processor. */
    method HandleFault(address: nat, error: nat) returns (outcome: Outcome)
      requires Valid() && TablesSound(mem[..], Lay()) && address < WORD_LIMIT
      requires var page := address - address % PAGE_SIZE;
               HeapPage(page) && FrameLeft(mem[..], Lay().g) ==> CanServe(mem[..], Lay(), page)
      modifies mem
      ensures Valid()
      ensures var page := address - address % PAGE_SIZE;
              if Bit(error, 0) || Bit(error, 2) || !HeapPage(page) then
                outcome == Unhandled && unchanged(mem)
              else if !old(FrameLeft(mem[..], Lay().g)) then outcome == Panic
              else outcome == Served && mem[..] == Faulted(old(mem[..]), old(Lay()), page)
    {
      hide TablesSound, LeastFree, IsFree, Bit, And, Faulted, MappedPage, Writable, CanServe, NoTable, Walk;
      PageMask(address);
      FaultBits(error);
      var aligned := And(address, 0xFFFF_F000);
      var notPresent, user := And(error, 1) == 0, And(error, 4) != 0;
      if notPresent && !user {
        if aligned >= KERNEL_HEAP_START && aligned < KERNEL_HEAP_END {
          LeastFreeIsLeast(mem[..], Lay().g, 0);
          ghost var m, t := mem[..], Lay();
          var frame := frames.AllocFrame();
          if frame == 0 {
            return Panic;
          }
          FaultReady(m, t, aligned);
          MapPage(aligned, frame);
          return Served;
        }
      }
      return Unhandled;
    }

    /** paging_init. */
    method Init()
      requires Valid() && ReservedHeld(mem[..], Lay().g)
      requires LeastFree(Wiped(mem[..], Lay()), Lay().g, 0) < Lay().g.Limit()
      modifies mem
      ensures Valid() && mem[..] == Initialised(old(mem[..]), Lay())
      ensures TablesSound(mem[..], Lay())
    {
      ghost var m, t := mem[..], Lay();
      WipedKeepsFree(m, t);
      InitialisedSound(m, t);
      ClearArrays();
      assert mem[..] == Wiped(m, t);
      MakeFirstTable(m);
    }

    /** The rest of paging_init, once both arrays are cleared. */
    method MakeFirstTable(ghost m: seq<nat>)
      requires Valid() && IsMemory(m) && ReservedHeld(m, Lay().g) && mem[..] == Wiped(m, Lay())
      requires LeastFree(Wiped(m, Lay()), Lay().g, 0) < Lay().g.Limit()
      modifies mem
      ensures mem[..] == Initialised(m, Lay())
    {
      hide SlotOf, Walk, IsFree, LeastFree, Marked;
      ghost var t := Lay();
      ghost var f := LeastFree(mem[..], t.g, 0);
      ghost var f', marked := InitialisedFrame(m, t);
      var firstTable := frames.AllocFrame();
      assert mem[..] == marked && firstTable == f * FRAME_SIZE;
      SlotWords(t, f, 0);
      IdentityTable(firstTable, f);
    }

    /** The table of the first 4 MB, filled and entered. */
    method IdentityTable(table: nat, ghost f: nat)
      requires table == f * FRAME_SIZE && table / 4 + FRAME_WORDS <= mem.Length == WORDS
      requires directory < mem.Length && tracked < mem.Length
      modifies mem
      ensures mem[..] == WithIdentity(old(mem[..]), f)[directory := table + 3][tracked := table]
    {
      FillIdentity(table / 4, f);
      EnterTable(0, table);
    }

    /** The first loop of paging_init. */
    method ClearArrays()
      requires Valid()
      modifies mem
      ensures frames.mem == mem && mem[..] == Wiped(old(mem[..]), Lay())
    {
      ghost var m := mem[..];
      for i := 0 to PAGE_ENTRIES
        invariant forall w :: 0 <= w < mem.Length ==>
                    mem[w] == if directory <= w < directory + i || tracked <= w < tracked + i then 0 else m[w]
      {
        mem[directory + i] := 0;
        mem[tracked + i] := 0;
      }
      assert mem[..] == Wiped(m, Lay());
    }

    /** The second and third loops of paging_init. */
    method FillIdentity(base: nat, ghost f: nat)
      requires base == f * FRAME_WORDS && base + FRAME_WORDS <= mem.Length == WORDS
      modifies mem
      ensures mem[..] == WithIdentity(old(mem[..]), f)
    {
      hide Or, WithIdentity;
      ghost var m := mem[..];
      Clear(base, PAGE_ENTRIES);
      for i := 1 to PAGE_ENTRIES
        invariant forall w :: 0 <= w < mem.Length ==>
                    mem[w] == if base <= w < base + i then IdentityEntry(w - base)
                              else if base <= w < base + PAGE_ENTRIES then 0 else m[w]
      {
        EntryFlags(i * PAGE_SIZE);
        mem[base + i] := Or(Or(i * PAGE_SIZE, PRESENT), WRITABLE);
      }
      IdentityFilled(m, mem[..], f);
    }
  }
}
