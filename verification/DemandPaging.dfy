/** paging_init, and demand paging of the kernel heap by the page-fault branch of isr_handler. */
module DemandPaging {
  import opened Bits
  import opened Frames
  import opened Machine
  import opened Paging

  /** paging_init: both kernel arrays cleared, then one table that maps pages 1 to 1023 of the
      first 4 MB to themselves. */
  function Wiped(m: seq<nat>, t: Layout): seq<nat> {
    seq(|m|, w requires 0 <= w < |m| =>
      if t.directory <= w < t.directory + PAGE_ENTRIES || t.tracked <= w < t.tracked + PAGE_ENTRIES then 0 else m[w])
  }

  function IdentityEntry(i: nat): nat {
    if i == 0 then 0 else i * PAGE_SIZE + 3
  }

  function WithIdentity(m: seq<nat>, f: nat): seq<nat> {
    seq(|m|, w requires 0 <= w < |m| =>
      if w / FRAME_WORDS == f then IdentityEntry(w % FRAME_WORDS) else m[w])
  }

  lemma IdentityFilled(m: seq<nat>, n: seq<nat>, f: nat)
    requires |n| == |m|
    requires forall w :: 0 <= w < |m| ==>
               n[w] == if f * FRAME_WORDS <= w < f * FRAME_WORDS + FRAME_WORDS then IdentityEntry(w - f * FRAME_WORDS) else m[w]
    ensures n == WithIdentity(m, f)
  {
    hide IdentityEntry;
    forall w | 0 <= w < |m|
      ensures n[w] == WithIdentity(m, f)[w]
    {
      FrameOfWord(w, f);
    }
  }

  lemma FrameOfWord(w: nat, f: nat)
    ensures w / FRAME_WORDS == f <==> f * FRAME_WORDS <= w < f * FRAME_WORDS + FRAME_WORDS
    ensures w / FRAME_WORDS == f ==> w % FRAME_WORDS == w - f * FRAME_WORDS
  {
  }

  function Initialised(m: seq<nat>, t: Layout): seq<nat>
    requires |m| == WORDS && t.Placed() && LeastFree(Wiped(m, t), t.g, 0) < t.g.Limit()
  {
    var n, f := Wiped(m, t), LeastFree(Wiped(m, t), t.g, 0);
    WithIdentity(Marked(n, t.g, f), f)[t.directory := f * PAGE_SIZE + 3][t.tracked := f * PAGE_SIZE]
  }

  /** Clearing the arrays does not touch the bitmap. */
  lemma WipedKeepsFree(m: seq<nat>, t: Layout)
    requires IsMemory(m) && t.Placed()
    ensures IsMemory(Wiped(m, t)) && FreeLess(m, Wiped(m, t), t.g, -1)
  {
    var n := Wiped(m, t);
    assert |n| == WORDS;
    forall h | 0 <= h < 32 * t.g.Entries()
      ensures IsFree(n, t.g, h) <==> IsFree(m, t.g, h)
    {
      InBitmap(t.g, h);
      SameWordSameFree(m, n, t.g, h);
    }
  }

  /** The frame of the first table, and the bitmap word that marks it. */
  lemma InitialisedFrame(m: seq<nat>, t: Layout) returns (f: nat, marked: seq<nat>)
    requires IsMemory(m) && t.Placed() && ReservedHeld(m, t.g)
    requires LeastFree(Wiped(m, t), t.g, 0) < t.g.Limit()
    ensures f == LeastFree(Wiped(m, t), t.g, 0) < t.g.total && !t.g.Reserved(f) && IsFree(m, t.g, f)
    ensures |Wiped(m, t)| == WORDS && t.g.Bitmap() + f / 32 < WORDS
    ensures marked == Marked(Wiped(m, t), t.g, f) && |marked| == WORDS && |Initialised(m, t)| == WORDS
  {
    f := LeastFree(Wiped(m, t), t.g, 0);
    WipedKeepsFree(m, t);
    LeastFreeIsLeast(Wiped(m, t), t.g, 0);
    assert t.g.total <= 32 * t.g.Entries();
    FreeIsUnreserved(m, t.g, f);
    InBitmap(t.g, f);
    marked := Marked(Wiped(m, t), t.g, f);
  }

  lemma InitialisedWord(m: seq<nat>, t: Layout, f: nat, marked: seq<nat>, w: nat)
    requires |m| == WORDS && t.Placed() && f == LeastFree(Wiped(m, t), t.g, 0) < t.g.Limit()
    requires marked == Marked(Wiped(m, t), t.g, f) && |marked| == WORDS && |Initialised(m, t)| == WORDS && w < WORDS
    ensures Initialised(m, t)[w] ==
            if w == t.directory then f * PAGE_SIZE + 3
            else if w == t.tracked then f * PAGE_SIZE
            else if w / FRAME_WORDS == f then IdentityEntry(w % FRAME_WORDS)
            else marked[w]
  {
  }

  lemma InitialisedIsMemory(m: seq<nat>, t: Layout)
    requires IsMemory(m) && t.Placed() && ReservedHeld(m, t.g)
    requires LeastFree(Wiped(m, t), t.g, 0) < t.g.Limit()
    ensures IsMemory(Initialised(m, t))
  {
    var f, marked := InitialisedFrame(m, t);
    var m' := Initialised(m, t);
    WipedKeepsFree(m, t);
    MarkedUses(Wiped(m, t), t.g, f);
    assert f * PAGE_SIZE + 3 < WORD_LIMIT;
    forall w | 0 <= w < WORDS
      ensures m'[w] < WORD_LIMIT
    {
      InitialisedWord(m, t, f, marked, w);
    }
  }

  lemma InitialisedFreeAt(m: seq<nat>, t: Layout, h: nat)
    requires IsMemory(m) && t.Placed() && ReservedHeld(m, t.g) && h < 32 * t.g.Entries()
    requires LeastFree(Wiped(m, t), t.g, 0) < t.g.Limit()
    ensures var f := LeastFree(Wiped(m, t), t.g, 0);
            && |Initialised(m, t)| == WORDS && |Marked(Wiped(m, t), t.g, f)| == WORDS
            && (IsFree(Initialised(m, t), t.g, h) <==> IsFree(Marked(Wiped(m, t), t.g, f), t.g, h))
  {
    var f, marked := InitialisedFrame(m, t);
    var b := t.g.Bitmap() + h / 32;
    InBitmap(t.g, h);
    InitialisedWord(m, t, f, marked, b);
    SlotWords(t, f, 0);
    if b / FRAME_WORDS == f { Apart(t, f, b); }
    SameWordSameFree(marked, Initialised(m, t), t.g, h);
  }

  lemma InitialisedFree(m: seq<nat>, t: Layout)
    requires IsMemory(m) && t.Placed() && ReservedHeld(m, t.g)
    requires LeastFree(Wiped(m, t), t.g, 0) < t.g.Limit()
    ensures |Initialised(m, t)| == WORDS
    ensures FreeLess(m, Initialised(m, t), t.g, LeastFree(Wiped(m, t), t.g, 0))
  {
    var f, n, m' := LeastFree(Wiped(m, t), t.g, 0), Wiped(m, t), Initialised(m, t);
    WipedKeepsFree(m, t);
    var f', marked := InitialisedFrame(m, t);
    MarkedUses(n, t.g, f);
    forall h | 0 <= h < 32 * t.g.Entries()
      ensures IsFree(m', t.g, h) <==> h != f && IsFree(m, t.g, h)
    {
      InitialisedFreeAt(m, t, h);
    }
  }

  /** Outside the bitmap the marked store is the wiped one, and the two arrays are zero there. */
  lemma ArrayIsWiped(m: seq<nat>, t: Layout, f: nat, w: nat)
    requires |m| == WORDS && t.Placed() && t.g.Bitmap() + f / 32 < WORDS && w < t.g.Bitmap()
    requires t.directory <= w < t.directory + PAGE_ENTRIES || t.tracked <= w < t.tracked + PAGE_ENTRIES
    ensures |Wiped(m, t)| == WORDS && |Marked(Wiped(m, t), t.g, f)| == WORDS && Marked(Wiped(m, t), t.g, f)[w] == 0
  {
  }

  /** Slot i of the two arrays. */
  lemma SlotInitialised(m: seq<nat>, t: Layout, f: nat, marked: seq<nat>, i: nat)
    requires |m| == WORDS && t.Placed() && f == LeastFree(Wiped(m, t), t.g, 0) < t.g.Limit()
    requires t.g.Bitmap() + f / 32 < WORDS
    requires marked == Marked(Wiped(m, t), t.g, f) && |marked| == WORDS && |Initialised(m, t)| == WORDS
    requires f < t.g.total && !t.g.Reserved(f) && i < PAGE_ENTRIES
    ensures Initialised(m, t)[t.directory + i] == if i == 0 then f * PAGE_SIZE + 3 else 0
    ensures Initialised(m, t)[t.tracked + i] == if i == 0 then f * PAGE_SIZE else 0
  {
    hide Initialised, LeastFree, Wiped, Marked;
    SlotWords(t, f, i);
    ArrayIsWiped(m, t, f, t.directory + i);
    ArrayIsWiped(m, t, f, t.tracked + i);
    InitialisedWord(m, t, f, marked, t.directory + i);
    InitialisedWord(m, t, f, marked, t.tracked + i);
  }

  lemma InitialisedSlot(m: seq<nat>, t: Layout, i: nat)
    requires IsMemory(m) && t.Placed() && ReservedHeld(m, t.g) && i < PAGE_ENTRIES
    requires LeastFree(Wiped(m, t), t.g, 0) < t.g.Limit()
    requires IsMemory(Initialised(m, t)) && FreeLess(m, Initialised(m, t), t.g, LeastFree(Wiped(m, t), t.g, 0))
    ensures SlotOf(Initialised(m, t), t, i) == if i == 0 then Table(LeastFree(Wiped(m, t), t.g, 0)) else Empty
  {
    hide Wiped, Initialised, LeastFree, Marked;
    var f, marked := InitialisedFrame(m, t);
    SlotInitialised(m, t, f, marked, i);
    SlotWords(t, f, i);
    InBitmap(t.g, f);
    assert t.g.total <= 32 * t.g.Entries();
  }

  /** After paging_init the tables are sound, exactly pages 1 to 1023 are mapped, to themselves,
      and exactly one frame was taken. */
  lemma InitialisedSound(m: seq<nat>, t: Layout)
    requires IsMemory(m) && t.Placed() && ReservedHeld(m, t.g)
    requires LeastFree(Wiped(m, t), t.g, 0) < t.g.Limit()
    ensures TablesSound(Initialised(m, t), t)
    ensures FreeLess(m, Initialised(m, t), t.g, LeastFree(Wiped(m, t), t.g, 0))
    ensures SlotOf(Initialised(m, t), t, 0) == Table(LeastFree(Wiped(m, t), t.g, 0))
    ensures forall i :: 0 < i < PAGE_ENTRIES ==> SlotOf(Initialised(m, t), t, i) == Empty
  {
    InitialisedIsMemory(m, t);
    InitialisedFree(m, t);
    StaysHeld(m, Initialised(m, t), t.g, LeastFree(Wiped(m, t), t.g, 0));
    forall i | 0 <= i < PAGE_ENTRIES
      ensures SlotOf(Initialised(m, t), t, i) == if i == 0 then Table(LeastFree(Wiped(m, t), t.g, 0)) else Empty
    {
      InitialisedSlot(m, t, i);
    }
  }

  lemma InitialisedWalk(m: seq<nat>, t: Layout, u: nat)
    requires IsMemory(m) && t.Placed() && ReservedHeld(m, t.g) && u < WORD_LIMIT
    requires LeastFree(Wiped(m, t), t.g, 0) < t.g.Limit()
    requires IsMemory(Initialised(m, t))
    ensures Walk(Initialised(m, t), t, u) == if PAGE_SIZE <= u < SLOT_SIZE then Some(u) else None
  {
    hide SlotOf, FreeLess, Leaf, Walk, LeastFree, IdentityEntry, Initialised, Wiped;
    var f, marked := InitialisedFrame(m, t);
    var m' := Initialised(m, t);
    InitialisedSound(m, t);
    WalkBySlot(m', t, u);
    if Slot(u) == 0 {
      var w := f * FRAME_WORDS + Index(u);
      InitialisedWord(m, t, f, marked, w);
      Apart(t, f, w);
      IdentityLeaf(u);
    }
  }

  lemma IdentityLeaf(u: nat)
    requires u < SLOT_SIZE
    ensures Leaf(IdentityEntry(Index(u)), u) == if PAGE_SIZE <= u then Some(u) else None
  {
    var i := u / PAGE_SIZE;
    assert Index(u) == i && u == i * PAGE_SIZE + u % PAGE_SIZE;
    EntryParts(i);
  }

  /** The frame for the data of a page is taken first; tables and translations stay. */
  lemma AllocKeepsTables(m: seq<nat>, t: Layout)
    requires TablesSound(m, t) && LeastFree(m, t.g, 0) < t.g.Limit()
    ensures var f, n := LeastFree(m, t.g, 0), Allocated(m, t.g);
            && f < t.g.total && !t.g.Reserved(f) && IsFree(m, t.g, f)
            && TablesSound(n, t) && FreeLess(m, n, t.g, f)
            && (forall i :: 0 <= i < PAGE_ENTRIES ==> SlotOf(n, t, i) == SlotOf(m, t, i) != Table(f))
  {
    hide SlotOf, LeastFree;
    var f, n := LeastFree(m, t.g, 0), Allocated(m, t.g);
    LeastFreeIsLeast(m, t.g, 0);
    FreeIsUnreserved(m, t.g, f);
    MarkedUses(m, t.g, f);
    StaysHeld(m, n, t.g, f);
    assert t.g.total <= 32 * t.g.Entries();
    forall i | 0 <= i < PAGE_ENTRIES
      ensures SlotOf(n, t, i) == SlotOf(m, t, i) != Table(f)
    {
      SlotWords(t, f, i);
      assert SlotOf(m, t, i) != Broken;
      SlotStays(m, n, t, i, f);
    }
  }

  /** A slot whose words stay keeps its table when a free frame goes. */
  lemma SlotStays(m: seq<nat>, n: seq<nat>, t: Layout, i: nat, f: nat)
    requires IsMemory(m) && IsMemory(n) && t.Placed() && i < PAGE_ENTRIES && SlotOf(m, t, i) != Broken
    requires f < t.g.total && IsFree(m, t.g, f) && FreeLess(m, n, t.g, f)
    requires n[t.directory + i] == m[t.directory + i] && n[t.tracked + i] == m[t.tracked + i]
    ensures SlotOf(n, t, i) == SlotOf(m, t, i) != Table(f)
  {
    assert t.g.total <= 32 * t.g.Entries();
  }

  lemma TableIsUnreserved(m: seq<nat>, t: Layout, i: nat)
    requires IsMemory(m) && t.Placed() && i < PAGE_ENTRIES && HasTable(m, t, i)
    ensures SlotOf(m, t, i).frame < t.g.total && !t.g.Reserved(SlotOf(m, t, i).frame)
  {
  }

  lemma AllocKeepsWalk(m: seq<nat>, t: Layout, u: nat)
    requires TablesSound(m, t) && LeastFree(m, t.g, 0) < t.g.Limit() && u < WORD_LIMIT
    requires IsMemory(Allocated(m, t.g))
    ensures Walk(Allocated(m, t.g), t, u) == Walk(m, t, u)
  {
    hide SlotOf, LeastFree, IsFree, Leaf;
    AllocKeepsTables(m, t);
    WalkBySlot(m, t, u);
    WalkBySlot(Allocated(m, t.g), t, u);
    InBitmap(t.g, LeastFree(m, t.g, 0));
    if HasTable(m, t, Slot(u)) {
      var h := SlotOf(m, t, Slot(u)).frame;
      TableIsUnreserved(m, t, Slot(u));
      Apart(t, h, h * FRAME_WORDS + Index(u));
    }
  }

  /** A page of the heap, all of which lies in one slot. */
  predicate HeapPage(v: nat) {
    KERNEL_HEAP_START <= v < KERNEL_HEAP_END && v % PAGE_SIZE == 0
  }

  /** For the heap's slot, map_page misses a table exactly when the slot is empty. */
  lemma HeapSlot(m: seq<nat>, t: Layout, v: nat)
    requires TablesSound(m, t) && HeapPage(v) && SlotOf(m, t, 1) != Table(0)
    ensures Slot(v) == 1 && (NoTable(m, t, v) <==> SlotOf(m, t, 1) == Empty) && SlotOf(m, t, 1) != Broken
  {
  }

  /** The same after the frame for the page is taken. */
  lemma HeapSlotAllocated(m: seq<nat>, t: Layout, v: nat)
    requires TablesSound(m, t) && HeapPage(v) && SlotOf(m, t, 1) != Table(0) && LeastFree(m, t.g, 0) < t.g.Limit()
    ensures TablesSound(Allocated(m, t.g), t) && Slot(v) == 1
    ensures NoTable(Allocated(m, t.g), t, v) <==> SlotOf(m, t, 1) == Empty
    ensures SlotOf(m, t, 1) != Broken && (SlotOf(m, t, 1) != Empty ==> SlotOf(m, t, 1).Table?)
    ensures SlotOf(Allocated(m, t.g), t, 1) == SlotOf(m, t, 1)
  {
    AllocKeepsTables(m, t);
    HeapSlot(Allocated(m, t.g), t, v);
  }

  /** There is a frame for the page, and another for the table if the slot has none. */
  ghost predicate CanFault(m: seq<nat>, t: Layout, v: nat)
    requires TablesSound(m, t) && HeapPage(v)
  {
    && FrameLeft(m, t.g)
    && (AllocKeepsTables(m, t); NoTable(Allocated(m, t.g), t, v) ==> FrameLeft(Allocated(m, t.g), t.g))
  }

  /** The store after the fault on page v has been served. */
  function Faulted(m: seq<nat>, t: Layout, v: nat): seq<nat>
    requires TablesSound(m, t) && HeapPage(v) && CanFault(m, t, v)
  {
    AllocKeepsTables(m, t);
    MappedPage(Allocated(m, t.g), t, v, LeastFree(m, t.g, 0) * PAGE_SIZE)
  }

  /** Serving a fault takes the least free frame for the page and, if the heap's slot had no
      table, the next one for a table; the other slots stay. */
  lemma FaultedSlots(m: seq<nat>, t: Layout, v: nat)
    requires TablesSound(m, t) && HeapPage(v) && CanFault(m, t, v) && SlotOf(m, t, 1) != Table(0)
    ensures TablesSound(Faulted(m, t, v), t)
    ensures forall i :: 0 <= i < PAGE_ENTRIES && i != 1 ==> SlotOf(Faulted(m, t, v), t, i) == SlotOf(m, t, i)
    ensures SlotOf(Faulted(m, t, v), t, 1) ==
            if SlotOf(m, t, 1).Table? then SlotOf(m, t, 1) else Table(LeastFree(Allocated(m, t.g), t.g, 0))
  {
    hide SlotOf;
    var n, p := Allocated(m, t.g), LeastFree(m, t.g, 0) * PAGE_SIZE;
    AllocKeepsTables(m, t);
    HeapSlotAllocated(m, t, v);
    MappedPageSound(n, t, v, p);
    forall i | 0 <= i < PAGE_ENTRIES
      ensures SlotOf(MappedPage(n, t, v, p), t, i) ==
              if NoTable(n, t, v) && i == 1 then Table(LeastFree(n, t.g, 0)) else SlotOf(m, t, i)
    {
      MappedPageSlots(n, t, v, p, i);
    }
  }

  /** The frames a fault takes. */
  ghost function Taken(m: seq<nat>, t: Layout): set<nat>
    requires TablesSound(m, t) && LeastFree(m, t.g, 0) < t.g.Limit()
  {
    AllocKeepsTables(m, t);
    {LeastFree(m, t.g, 0)} + if SlotOf(m, t, 1).Table? then {} else {LeastFree(Allocated(m, t.g), t.g, 0)}
  }

  lemma FaultedFree(m: seq<nat>, t: Layout, v: nat)
    requires TablesSound(m, t) && HeapPage(v) && CanFault(m, t, v) && SlotOf(m, t, 1) != Table(0)
    requires TablesSound(Faulted(m, t, v), t)
    ensures forall h :: 0 <= h < 32 * t.g.Entries() ==>
              (IsFree(Faulted(m, t, v), t.g, h) <==> h !in Taken(m, t) && IsFree(m, t.g, h))
    ensures Taken(m, t) <= FreeBelow(m, t.g, t.g.Limit())
    ensures |Taken(m, t)| == if SlotOf(m, t, 1).Table? then 1 else 2
  {
    hide IsFree, SlotOf;
    var f, n := LeastFree(m, t.g, 0), Allocated(m, t.g);
    AllocKeepsTables(m, t);
    HeapSlotAllocated(m, t, v);
    MappedPageSound(n, t, v, f * PAGE_SIZE);
    LeastFreeIsLeast(m, t.g, 0);
    LeastFreeIsLeast(n, t.g, 0);
    assert t.g.Limit() <= 32 * t.g.Entries();
  }

  lemma FaultedWalk(m: seq<nat>, t: Layout, v: nat, u: nat)
    requires TablesSound(m, t) && HeapPage(v) && CanFault(m, t, v) && SlotOf(m, t, 1) != Table(0)
    requires u < WORD_LIMIT && TablesSound(Faulted(m, t, v), t)
    ensures Walk(Faulted(m, t, v), t, u) ==
            if SamePage(u, v) then Some(LeastFree(m, t.g, 0) * PAGE_SIZE + u % PAGE_SIZE) else Walk(m, t, u)
  {
    hide SlotOf, LeastFree, IsFree, Leaf, Walk;
    var n, f := Allocated(m, t.g), LeastFree(m, t.g, 0);
    HeapSlotAllocated(m, t, v);
    assert Walk(n, t, u) == Walk(m, t, u) by { AllocKeepsWalk(m, t, u); }
    assert NoTable(n, t, v) && Slot(u) == 1 ==> Walk(n, t, u) == None by { WalkBySlot(m, t, u); }
    MappedFrameWalk(n, t, v, f, u);
  }

  /** map_page with the address of a frame, when the slot is empty or has its table. */
  lemma MappedFrameWalk(n: seq<nat>, t: Layout, v: nat, f: nat, u: nat)
    requires TablesSound(n, t) && v < WORD_LIMIT && u < WORD_LIMIT && f * PAGE_SIZE < WORD_LIMIT
    requires NoTable(n, t, v) ==> FrameLeft(n, t.g)
    requires IsMemory(MappedPage(n, t, v, f * PAGE_SIZE))
    requires NoTable(n, t, v) && Slot(u) == Slot(v) ==> Walk(n, t, u) == None
    ensures Walk(MappedPage(n, t, v, f * PAGE_SIZE), t, u) ==
            if SamePage(u, v) then Some(f * PAGE_SIZE + u % PAGE_SIZE) else Walk(n, t, u)
  {
    hide Walk, MappedPage, SlotOf;
    MappedPageWalk(n, t, v, f * PAGE_SIZE, u);
    WordOfPage(f, 0);
  }

  /** A run of faults; what it gives the k-th page is the frame least free at that moment. */
  ghost predicate FaultRun(states: seq<seq<nat>>, t: Layout, pages: seq<nat>) {
    && |states| == |pages| + 1 && TablesSound(states[0], t) && SlotOf(states[0], t, 1) != Table(0)
    && (forall k :: 0 <= k < |pages| ==> HeapPage(pages[k]))
    && (forall j, k :: 0 <= j < k < |pages| ==> pages[j] != pages[k])
    && (forall k :: 0 <= k < |pages| ==> Serves(states[k], t, pages[k], states[k + 1]))
  }

  ghost predicate Serves(m: seq<nat>, t: Layout, v: nat, m': seq<nat>) {
    TablesSound(m, t) && HeapPage(v) && CanFault(m, t, v) ==> m' == Faulted(m, t, v)
  }

  /** How many frames the search of pmm_alloc_frame can still give out. */
  ghost function Stock(m: seq<nat>, g: Geometry): nat
    requires IsMemory(m) && g.Fits()
  {
    |FreeBelow(m, g, g.Limit())|
  }

  /** While there is stock, and frame 0 is in use, there is a frame to be had. */
  lemma StockLeaves(m: seq<nat>, g: Geometry)
    requires IsMemory(m) && g.Fits() && Stock(m, g) > 0 && !IsFree(m, g, 0)
    ensures FrameLeft(m, g)
  {
    AllocationFails(m, g);
    LeastFreeIsLeast(m, g, 0);
  }

  lemma AllocatedStock(m: seq<nat>, t: Layout)
    requires TablesSound(m, t) && FrameLeft(m, t.g) && IsMemory(Allocated(m, t.g))
    ensures Stock(Allocated(m, t.g), t.g) == Stock(m, t.g) - 1
    ensures !IsFree(m, t.g, 0) ==> !IsFree(Allocated(m, t.g), t.g, 0)
  {
    var n, f := Allocated(m, t.g), LeastFree(m, t.g, 0);
    LeastFreeIsLeast(m, t.g, 0);
    AllocKeepsTables(m, t);
    assert t.g.Limit() <= 32 * t.g.Entries();
    assert FreeBelow(n, t.g, t.g.Limit()) == FreeBelow(m, t.g, t.g.Limit()) - {f};
  }

  /** Enough stock makes a fault succeed, and it costs what it takes. */
  lemma StockServes(m: seq<nat>, t: Layout, v: nat)
    requires TablesSound(m, t) && HeapPage(v) && SlotOf(m, t, 1) != Table(0) && !IsFree(m, t.g, 0)
    requires Stock(m, t.g) >= if SlotOf(m, t, 1).Table? then 1 else 2
    ensures CanFault(m, t, v)
  {
    StockLeaves(m, t.g);
    HeapSlotAllocated(m, t, v);
    if NoTable(Allocated(m, t.g), t, v) {
      AllocatedStock(m, t);
      StockLeaves(Allocated(m, t.g), t.g);
    }
  }

  lemma FaultedStock(m: seq<nat>, t: Layout, v: nat)
    requires TablesSound(m, t) && HeapPage(v) && CanFault(m, t, v) && SlotOf(m, t, 1) != Table(0)
    requires TablesSound(Faulted(m, t, v), t)
    ensures Stock(Faulted(m, t, v), t.g) == Stock(m, t.g) - |Taken(m, t)|
    ensures Free(Faulted(m, t, v), t.g) == Free(m, t.g) - Taken(m, t)
    ensures |Free(Faulted(m, t, v), t.g)| == |Free(m, t.g)| - |Taken(m, t)|
  {
    var m', limit := Faulted(m, t, v), t.g.Limit();
    FaultedFree(m, t, v);
    assert limit <= t.g.total <= 32 * t.g.Entries();
    assert FreeBelow(m', t.g, limit) == FreeBelow(m, t.g, limit) - Taken(m, t);
    assert Free(m', t.g) == Free(m, t.g) - Taken(m, t);
    assert Taken(m, t) <= Free(m, t.g);
  }

  /** Whether the heap's slot has its table after n faults of a run, and so what they cost. */
  function Cost(m0: seq<nat>, t: Layout, n: nat): nat
    requires IsMemory(m0) && t.Placed()
  {
    n + if n > 0 && !SlotOf(m0, t, 1).Table? then 1 else 0
  }

  /** Every fault of a run is served if there is a frame per page and one for the table: n faults
      consume exactly n frames plus one for the single table the heap needs. */
  lemma {:induction false} FaultsAreServed(states: seq<seq<nat>>, t: Layout, pages: seq<nat>, n: nat)
    requires FaultRun(states, t, pages) && n <= |pages|
    requires !IsFree(states[0], t.g, 0) && Stock(states[0], t.g) > |pages|
    ensures TablesSound(states[n], t) && SlotOf(states[n], t, 1) != Table(0) && !IsFree(states[n], t.g, 0)
    ensures n > 0 ==> SlotOf(states[n], t, 1).Table?
    ensures SlotOf(states[0], t, 1).Table? ==> SlotOf(states[n], t, 1).Table?
    ensures Stock(states[n], t.g) == Stock(states[0], t.g) - Cost(states[0], t, n)
    ensures |Free(states[n], t.g)| == |Free(states[0], t.g)| - Cost(states[0], t, n)
    ensures n < |pages| ==> CanFault(states[n], t, pages[n]) && states[n + 1] == Faulted(states[n], t, pages[n])
  {
    hide SlotOf, IsFree, LeastFree, Faulted, CanFault;
    if n != 0 {
      FaultsAreServed(states, t, pages, n - 1);
      FaultServed(states[n - 1], t, pages[n - 1]);
    }
    if n < |pages| {
      assert SlotOf(states[n], t, 1) != Broken;
      StockServes(states[n], t, pages[n]);
      assert Serves(states[n], t, pages[n], states[n + 1]);
    }
  }

  lemma FaultServed(m: seq<nat>, t: Layout, v: nat)
    requires TablesSound(m, t) && HeapPage(v) && CanFault(m, t, v)
    requires SlotOf(m, t, 1) != Table(0) && !IsFree(m, t.g, 0)
    ensures var m' := Faulted(m, t, v);
            && TablesSound(m', t) && SlotOf(m', t, 1).Table? && SlotOf(m', t, 1) != Table(0) && !IsFree(m', t.g, 0)
            && Stock(m', t.g) == Stock(m, t.g) - (if SlotOf(m, t, 1).Table? then 1 else 2)
            && |Free(m', t.g)| == |Free(m, t.g)| - (if SlotOf(m, t, 1).Table? then 1 else 2)
  {
    HeapSlotAllocated(m, t, v);
    FaultedSlots(m, t, v);
    FaultedFree(m, t, v);
    FaultedStock(m, t, v);
    LeastFreeIsLeast(Allocated(m, t.g), t.g, 0);
  }

  /** The frame that fault k of a run gives its page. */
  ghost function Given(states: seq<seq<nat>>, t: Layout, k: nat): nat
    requires k < |states| && |states[k]| == WORDS && t.g.Fits()
  {
    LeastFree(states[k], t.g, 0)
  }

  /** Frame f belongs to the data of a page: in use, not reserved, and no table. */
  ghost predicate IsData(m: seq<nat>, t: Layout, f: nat)
    requires IsMemory(m) && t.Placed()
  {
    && f < t.g.total && !t.g.Reserved(f) && !IsFree(m, t.g, f)
    && forall i :: 0 <= i < PAGE_ENTRIES ==> SlotOf(m, t, i) != Table(f)
  }

  lemma FaultedData(m: seq<nat>, t: Layout, v: nat, f: nat)
    requires TablesSound(m, t) && HeapPage(v) && CanFault(m, t, v) && SlotOf(m, t, 1) != Table(0)
    requires TablesSound(Faulted(m, t, v), t)
    requires IsData(m, t, f) || f == LeastFree(m, t.g, 0)
    ensures IsData(Faulted(m, t, v), t, f)
  {
    hide SlotOf, IsFree;
    FaultedSlots(m, t, v);
    FaultedFree(m, t, v);
    AllocKeepsTables(m, t);
    LeastFreeIsLeast(Allocated(m, t.g), t.g, 0);
    assert t.g.total <= 32 * t.g.Entries();
    HeapSlotAllocated(m, t, v);
  }

  /** The frame given to a page is in use for data, and for nothing else, from then on... */
  lemma {:induction false} GivenStaysData(states: seq<seq<nat>>, t: Layout, pages: seq<nat>, k: nat, n: nat)
    requires FaultRun(states, t, pages) && k < n <= |pages|
    requires !IsFree(states[0], t.g, 0) && Stock(states[0], t.g) > |pages|
    ensures TablesSound(states[n], t) && TablesSound(states[k], t) && IsData(states[n], t, Given(states, t, k))
  {
    hide SlotOf, LeastFree, Allocated, Faulted, IsFree, Stock, Walk;
    FaultsAreServed(states, t, pages, n);
    FaultsAreServed(states, t, pages, n - 1);
    FaultsAreServed(states, t, pages, k);
    if k < n - 1 {
      GivenStaysData(states, t, pages, k, n - 1);
    }
    FaultedData(states[n - 1], t, pages[n - 1], Given(states, t, k));
  }

  /** ...so distinct pages of a run get distinct frames, none of them a table... */
  lemma GivenApart(states: seq<seq<nat>>, t: Layout, pages: seq<nat>, k: nat, j: nat)
    requires FaultRun(states, t, pages) && k < j < |pages|
    requires !IsFree(states[0], t.g, 0) && Stock(states[0], t.g) > |pages|
    ensures TablesSound(states[k], t) && TablesSound(states[j], t) && Given(states, t, j) != Given(states, t, k)
  {
    GivenStaysData(states, t, pages, k, j);
    FaultsAreServed(states, t, pages, j);
    LeastFreeIsLeast(states[j], t.g, 0);
  }

  /** ...and every page keeps translating to its frame, all other addresses as before the run. */
  lemma {:induction false} FaultsMap(states: seq<seq<nat>>, t: Layout, pages: seq<nat>, k: nat, n: nat)
    requires FaultRun(states, t, pages) && k < n <= |pages|
    requires !IsFree(states[0], t.g, 0) && Stock(states[0], t.g) > |pages|
    ensures TablesSound(states[n], t) && TablesSound(states[k], t)
    ensures Walk(states[n], t, pages[k]) == Some(Given(states, t, k) * PAGE_SIZE)
  {
    hide SlotOf, LeastFree, Allocated, Faulted, IsFree, Stock, Walk, Leaf;
    FaultsAreServed(states, t, pages, n);
    FaultsAreServed(states, t, pages, n - 1);
    FaultsAreServed(states, t, pages, k);
    var v, u := pages[n - 1], pages[k];
    if k < n - 1 {
      FaultsMap(states, t, pages, k, n - 1);
      HeapPagesApart(u, v);
    }
    FaultedWalk(states[n - 1], t, v, u);
    HeapPagesApart(u, u);
  }

  lemma HeapPagesApart(u: nat, v: nat)
    requires HeapPage(u) && HeapPage(v)
    ensures u % PAGE_SIZE == 0 && (SamePage(u, v) <==> u == v)
  {
  }

  lemma {:induction false} FaultsKeepOthers(states: seq<seq<nat>>, t: Layout, pages: seq<nat>, n: nat, u: nat)
    requires FaultRun(states, t, pages) && n <= |pages| && u < WORD_LIMIT
    requires !IsFree(states[0], t.g, 0) && Stock(states[0], t.g) > |pages|
    requires forall k :: 0 <= k < n ==> !SamePage(u, pages[k])
    ensures TablesSound(states[n], t) && Walk(states[n], t, u) == Walk(states[0], t, u)
  {
    FaultsAreServed(states, t, pages, n);
    if n != 0 {
      FaultsAreServed(states, t, pages, n - 1);
      FaultsKeepOthers(states, t, pages, n - 1, u);
      FaultedWalk(states[n - 1], t, pages[n - 1], u);
    }
  }

  /** What was stored in a data frame survives every later fault. */
  lemma {:induction false} FaultsKeepData(states: seq<seq<nat>>, t: Layout, pages: seq<nat>, k: nat, n: nat, w: nat)
    requires FaultRun(states, t, pages) && k <= n <= |pages|
    requires !IsFree(states[0], t.g, 0) && Stock(states[0], t.g) > |pages|
    requires TablesSound(states[k], t) && IsData(states[k], t, w / FRAME_WORDS)
    ensures TablesSound(states[n], t) && IsData(states[n], t, w / FRAME_WORDS)
    ensures w < WORDS && states[n][w] == states[k][w]
  {
    hide IsFree, SlotOf, Faulted, Allocated;
    FaultsAreServed(states, t, pages, n);
    Apart(t, w / FRAME_WORDS, w);
    if k < n {
      FaultsAreServed(states, t, pages, n - 1);
      FaultsKeepData(states, t, pages, k, n - 1, w);
      FaultKeepsWord(states[n - 1], t, pages[n - 1], w);
      FaultedData(states[n - 1], t, pages[n - 1], w / FRAME_WORDS);
    }
  }

  lemma FaultKeepsWord(m: seq<nat>, t: Layout, v: nat, w: nat)
    requires TablesSound(m, t) && HeapPage(v) && CanFault(m, t, v) && SlotOf(m, t, 1) != Table(0)
    requires IsData(m, t, w / FRAME_WORDS)
    ensures w < WORDS && |Faulted(m, t, v)| == WORDS && Faulted(m, t, v)[w] == m[w]
  {
    hide LeastFree, MappedPage, Used;
    var f, n := LeastFree(m, t.g, 0), Allocated(m, t.g);
    AllocKeepsTables(m, t);
    Apart(t, w / FRAME_WORDS, w);
    InBitmap(t.g, f);
    assert t.g.total <= 32 * t.g.Entries();
    MappedPageKeepsData(n, t, v, f * PAGE_SIZE, w);
  }

  // ---- From paging_init on -------------------------------------------------------------------

  /** After paging_init frame 0 is in use, either before or for the first table, and the heap's slot is
      empty. */
  lemma InitialisedReady(m: seq<nat>, t: Layout)
    requires IsMemory(m) && t.Placed() && ReservedHeld(m, t.g)
    requires LeastFree(Wiped(m, t), t.g, 0) < t.g.Limit()
    ensures TablesSound(Initialised(m, t), t) && SlotOf(Initialised(m, t), t, 1) == Empty
    ensures !IsFree(Initialised(m, t), t.g, 0)
    ensures |Free(Initialised(m, t), t.g)| == |Free(m, t.g)| - 1
  {
    var f, m' := LeastFree(Wiped(m, t), t.g, 0), Initialised(m, t);
    InitialisedSound(m, t);
    WipedKeepsFree(m, t);
    LeastFreeIsLeast(Wiped(m, t), t.g, 0);
    assert t.g.total <= 32 * t.g.Entries();
    assert Free(m', t.g) == Free(m, t.g) - {f} && f in Free(m, t.g);
  }

  /** Faults after paging_init: n of them on distinct pages leave n + 2 frames fewer than there were
      before it, and its identity map stands. */
  lemma FaultsAfterInit(m: seq<nat>, states: seq<seq<nat>>, t: Layout, pages: seq<nat>, n: nat)
    requires IsMemory(m) && t.Placed() && ReservedHeld(m, t.g)
    requires LeastFree(Wiped(m, t), t.g, 0) < t.g.Limit() && states != [] && states[0] == Initialised(m, t)
    requires FaultRun(states, t, pages) && 0 < n <= |pages| && Stock(states[0], t.g) > |pages|
    ensures TablesSound(states[n], t) && |Free(states[n], t.g)| == |Free(m, t.g)| - n - 2
    ensures forall f :: 0 < f < PAGE_ENTRIES ==> Identity(states[n], t, f)
  {
    InitialisedReady(m, t);
    FaultsAreServed(states, t, pages, n);
    forall f | 0 < f < PAGE_ENTRIES
      ensures Identity(states[n], t, f)
    {
      IdentityStays(m, states, t, pages, n, f);
    }
  }

  lemma IdentityStays(m: seq<nat>, states: seq<seq<nat>>, t: Layout, pages: seq<nat>, n: nat, f: nat)
    requires IsMemory(m) && t.Placed() && ReservedHeld(m, t.g)
    requires LeastFree(Wiped(m, t), t.g, 0) < t.g.Limit() && states != [] && states[0] == Initialised(m, t)
    requires FaultRun(states, t, pages) && n <= |pages| && Stock(states[0], t.g) > |pages| && 0 < f < PAGE_ENTRIES
    ensures TablesSound(states[n], t) && Identity(states[n], t, f)
  {
    InitialisedReady(m, t);
    forall k | 0 <= k < n ensures !SamePage(f * PAGE_SIZE, pages[k]) { assert HeapPage(pages[k]); }
    FaultsKeepOthers(states, t, pages, n, f * PAGE_SIZE);
    InitialisedWalk(m, t, f * PAGE_SIZE);
  }

  /** Once made, the heap's table stays where it is. */
  lemma {:induction false} HeapTableStays(states: seq<seq<nat>>, t: Layout, pages: seq<nat>, n: nat)
    requires FaultRun(states, t, pages) && 0 < n <= |pages|
    requires !IsFree(states[0], t.g, 0) && Stock(states[0], t.g) > |pages| && SlotOf(states[0], t, 1) == Empty
    ensures TablesSound(states[n], t) && FrameLeft(Allocated(states[0], t.g), t.g)
    ensures SlotOf(states[n], t, 1) == Table(LeastFree(Allocated(states[0], t.g), t.g, 0))
  {
    hide SlotOf, LeastFree, IsFree, Allocated, Faulted;
    FaultsAreServed(states, t, pages, 0);
    FaultsAreServed(states, t, pages, n);
    FaultsAreServed(states, t, pages, n - 1);
    HeapSlotAllocated(states[0], t, pages[0]);
    if n > 1 { HeapTableStays(states, t, pages, n - 1); }
    FaultedSlots(states[n - 1], t, pages[n - 1]);
  }

  /** With its table in frame f, mapped to itself below 4 MB, a fault writes the table where it can. */
  lemma FaultIsWritable(m: seq<nat>, t: Layout, v: nat, f: nat)
    requires TablesSound(m, t) && HeapPage(v) && SlotOf(m, t, 1) != Table(0) && LeastFree(m, t.g, 0) < t.g.Limit()
    requires IsMemory(Allocated(m, t.g)) && f < PAGE_ENTRIES && Identity(m, t, f)
    requires if SlotOf(m, t, 1) == Empty then f == LeastFree(Allocated(m, t.g), t.g, 0) else SlotOf(m, t, 1) == Table(f)
    ensures Writable(Allocated(m, t.g), t, v)
  {
    hide SlotOf, Walk, Leaf, LeastFree, Allocated, Writable, TableFrame, NoTable;
    var n := Allocated(m, t.g);
    HeapSlotAllocated(m, t, v);
    AllocKeepsWalk(m, t, f * PAGE_SIZE);
    HeapTableFrame(n, t, v, f);
    WritableAt(n, t, v, f);
  }

  lemma HeapTableFrame(n: seq<nat>, t: Layout, v: nat, f: nat)
    requires TablesSound(n, t) && HeapPage(v) && SlotOf(n, t, 1) != Table(0) && SlotOf(n, t, 1) != Broken
    requires if SlotOf(n, t, 1) == Empty then f == LeastFree(n, t.g, 0) else SlotOf(n, t, 1) == Table(f)
    ensures TableFrame(n, t, v) == f
  {
  }

  lemma WritableAt(n: seq<nat>, t: Layout, v: nat, f: nat)
    requires IsMemory(n) && t.Placed() && HeapPage(v) && f < PAGE_ENTRIES && TableFrame(n, t, v) == f
    requires f * PAGE_SIZE < WORD_LIMIT && Walk(n, t, f * PAGE_SIZE) == Some(f * PAGE_SIZE)
    ensures Writable(n, t, v)
  {
  }

  /** If the heap's table comes to lie in the first 4 MB, every fault after paging_init writes it where
      it is mapped to itself. */
  lemma FaultsAreWritable(m: seq<nat>, states: seq<seq<nat>>, t: Layout, pages: seq<nat>, n: nat, f: nat)
    requires IsMemory(m) && t.Placed() && ReservedHeld(m, t.g)
    requires LeastFree(Wiped(m, t), t.g, 0) < t.g.Limit() && states != [] && states[0] == Initialised(m, t)
    requires FaultRun(states, t, pages) && n < |pages| && Stock(states[0], t.g) > |pages|
    requires IsMemory(states[1]) && SlotOf(states[1], t, 1) == Table(f) && f < PAGE_ENTRIES
    ensures IsMemory(states[n]) && IsMemory(Allocated(states[n], t.g)) && HeapPage(pages[n])
    ensures Writable(Allocated(states[n], t.g), t, pages[n])
  {
    hide SlotOf, Walk, Identity, Writable, LeastFree, Allocated, Initialised, FrameLeft;
    InitialisedReady(m, t);
    FaultsAreServed(states, t, pages, n);
    FaultsAreServed(states, t, pages, 1);
    HeapTableStays(states, t, pages, 1);
    if n > 0 { HeapTableStays(states, t, pages, n); }
    IdentityStays(m, states, t, pages, n, f);
    CanFaultSound(states[n], t, pages[n]);
    FaultIsWritable(states[n], t, pages[n], f);
  }

  lemma CanFaultSound(m: seq<nat>, t: Layout, v: nat)
    requires TablesSound(m, t) && HeapPage(v) && CanFault(m, t, v)
    ensures LeastFree(m, t.g, 0) < t.g.Limit() && TablesSound(Allocated(m, t.g), t)
  {
    AllocKeepsTables(m, t);
  }

  /** Where map_page is no map update: paging_init took frame 0 for its table, and mapping page 1 then
      drops page 2. */
  lemma TableInFrameZero(m: seq<nat>, t: Layout, p: nat)
    requires IsMemory(m) && t.Placed() && ReservedHeld(m, t.g) && p < WORD_LIMIT
    requires LeastFree(Wiped(m, t), t.g, 0) == 0 < t.g.Limit() && FrameLeft(Initialised(m, t), t.g)
    ensures TablesSound(Initialised(m, t), t) && IsMemory(MappedPage(Initialised(m, t), t, 0x1000, p))
    ensures Walk(Initialised(m, t), t, 0x2000) == Some(0x2000)
    ensures Walk(MappedPage(Initialised(m, t), t, 0x1000, p), t, 0x2000) == None
  {
    var m' := Initialised(m, t);
    InitialisedSound(m, t);
    InitialisedWalk(m, t, 0x2000);
    assert NoTable(m', t, 0x1000);
    MappedPageSound(m', t, 0x1000, p);
    MappedPageWalk(m', t, 0x1000, p, 0x2000);
  }
}
