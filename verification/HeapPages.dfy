/** What the pages that demand paging makes are good for: they cover every address that the kernel heap uses,
    and they can be written. */
module HeapPages {
  import opened Bits
  import opened DemandPaging
  import opened Frames
  import opened Machine
  import opened Paging
  import L = HeapList

  // ---- The heap lies on pages that a fault serves --------------------------------------------

  /** The fault branch serves a page exactly when all of its addresses are in the range of the heap. */
  lemma HeapPageIff(a: nat)
    requires a < WORD_LIMIT
    ensures HeapPage(a - a % PAGE_SIZE) <==> KERNEL_HEAP_START <= a < KERNEL_HEAP_END
  {
  }

  /** Every word that kmalloc and kfree use for a block, from its header to its sentinel, lies on such a
      page. */
  lemma BlockIsPaged(h: L.Heap, reserve: nat, i: nat, a: nat)
    requires L.Ordered(h, reserve) && i < |h.blocks|
    requires h.blocks[i].addr <= a < h.blocks[i].End() + L.TAIL
    ensures HeapPage(a - a % PAGE_SIZE)
  {
    L.AllBelowEnd(h, reserve, i);
    L.BlockIsSound(h, reserve, i);
    L.Alignment(h.blocks[i].addr, h.blocks[i].size, 0);
    BelowEnd(h, reserve);
    HeapPageIff(a);
  }

  lemma BelowEnd(h: L.Heap, reserve: nat)
    requires L.Ordered(h, reserve)
    ensures h.end < KERNEL_HEAP_END
  {
  }

  // ---- Mapped pages can be written -----------------------------------------------------------

  /** The read/write flag of an entry. */
  predicate AllowsStores(entry: nat) {
    entry / 2 % 2 == 1
  }

  /** The walk for a store: both levels must allow it. */
  function WalkForStore(m: seq<nat>, t: Layout, v: nat): Option<nat>
    requires IsMemory(m) && t.Placed() && v < WORD_LIMIT
  {
    var pde := m[t.directory + Slot(v)];
    if Present(pde) && AllowsStores(pde) then LeafForStore(m[FrameOf(pde) * FRAME_WORDS + Index(v)], v) else None
  }

  function LeafForStore(pte: nat, v: nat): Option<nat> {
    if AllowsStores(pte) then Leaf(pte, v) else None
  }

  /** What is mapped at u can be written there. */
  predicate CanStore(m: seq<nat>, t: Layout, u: nat)
    requires IsMemory(m) && t.Placed() && u < WORD_LIMIT
  {
    WalkForStore(m, t, u) == Walk(m, t, u)
  }

  lemma EntryAllowsStores(q: nat)
    ensures FrameOf(q * 4096 + 3) == q && Present(q * 4096 + 3) && AllowsStores(q * 4096 + 3)
  {
    EntryParts(q);
    assert q * 4096 + 3 == 2 * (2 * (q * 1024) + 1) + 1;
  }

  lemma StoreWalkBySlot(m: seq<nat>, t: Layout, u: nat)
    requires TablesSound(m, t) && u < WORD_LIMIT
    ensures Slot(u) < PAGE_ENTRIES
    ensures match SlotOf(m, t, Slot(u))
            case Empty => WalkForStore(m, t, u) == None
            case Table(f) => var w := f * FRAME_WORDS + Index(u); w < WORDS && WalkForStore(m, t, u) == LeafForStore(m[w], u)
            case Broken => false
  {
    hide LeafForStore, AllowsStores, Present;
    WalkBySlot(m, t, u);
    if SlotOf(m, t, Slot(u)).Table? { EntryAllowsStores(SlotOf(m, t, Slot(u)).frame); }
    assert !Present(0) by { NullIsAbsent(0); }
  }

  lemma NullIsAbsent(v: nat)
    ensures !Present(0) && Leaf(0, v) == LeafForStore(0, v) == None
  {
  }

  /** It depends on the entry of u alone. */
  lemma SameEntryStores(m: seq<nat>, n: seq<nat>, t: Layout, u: nat)
    requires TablesSound(m, t) && TablesSound(n, t) && u < WORD_LIMIT && Slot(u) < PAGE_ENTRIES
    requires SlotOf(n, t, Slot(u)) == SlotOf(m, t, Slot(u))
    requires HasTable(m, t, Slot(u)) ==>
               var w := SlotOf(m, t, Slot(u)).frame * FRAME_WORDS + Index(u); w < WORDS && n[w] == m[w]
    ensures CanStore(n, t, u) <==> CanStore(m, t, u)
  {
    hide SlotOf, Walk, WalkForStore, Leaf, LeafForStore;
    WalkBySlot(m, t, u);
    WalkBySlot(n, t, u);
    StoreWalkBySlot(m, t, u);
    StoreWalkBySlot(n, t, u);
  }

  /** An entry of map_page, and an empty one, mean the same to a store. */
  lemma LeafStores(e: nat, p: nat, v: nat)
    requires e == 0 || e == EntryFor(p)
    ensures LeafForStore(e, v) == Leaf(e, v)
  {
    if e == 0 {
      NullIsAbsent(v);
    } else {
      assert EntryFor(p) == p / PAGE_SIZE * 4096 + 3;
      EntryAllowsStores(p / PAGE_SIZE);
    }
  }

  lemma EntryStores(m: seq<nat>, t: Layout, u: nat, p: nat)
    requires TablesSound(m, t) && u < WORD_LIMIT && Slot(u) < PAGE_ENTRIES && HasTable(m, t, Slot(u))
    requires var w := SlotOf(m, t, Slot(u)).frame * FRAME_WORDS + Index(u); w < WORDS && (m[w] == 0 || m[w] == EntryFor(p))
    ensures CanStore(m, t, u)
  {
    hide SlotOf, Walk, WalkForStore, Leaf, LeafForStore, EntryFor;
    var w := SlotOf(m, t, Slot(u)).frame * FRAME_WORDS + Index(u);
    WalkBySlot(m, t, u);
    StoreWalkBySlot(m, t, u);
    LeafStores(m[w], p, u);
  }

  lemma StoredStores(m: seq<nat>, t: Layout, v: nat, p: nat, u: nat)
    requires TablesSound(m, t) && v < WORD_LIMIT && p < WORD_LIMIT && HasTable(m, t, Slot(v)) && u < WORD_LIMIT
    requires SamePage(u, v) || CanStore(m, t, u)
    ensures TablesSound(Stored(m, t, v, p), t) && CanStore(Stored(m, t, v, p), t, u)
  {
    hide SlotOf, CanStore, EntryFor, IsFree;
    var m' := Stored(m, t, v, p);
    StoredSound(m, t, v, p);
    EntryWordOfTable(m, t, v);
    WalkBySlot(m, t, u);
    PageParts(u, v);
    assert SlotOf(m', t, Slot(u)) == SlotOf(m, t, Slot(u));
    if SamePage(u, v) {
      EntryStores(m', t, u, p);
    } else {
      assert Slot(u) != Slot(v) && HasTable(m, t, Slot(u)) ==> SlotOf(m, t, Slot(u)) != SlotOf(m, t, Slot(v));
      SameEntryStores(m, m', t, u);
    }
  }

  lemma WithTableStores(m: seq<nat>, t: Layout, i: nat, u: nat)
    requires TablesSound(m, t) && i < PAGE_ENTRIES && FrameLeft(m, t.g) && u < WORD_LIMIT && CanStore(m, t, u)
    ensures TablesSound(WithTable(m, t, i), t) && CanStore(WithTable(m, t, i), t, u)
  {
    hide SlotOf, CanStore, IsFree, LeastFree, WithTable, EntryFor;
    var f, n := LeastFree(m, t.g, 0), WithTable(m, t, i);
    WithTableSound(m, t, i);
    WithTableAgrees(m, t, i);
    WithTableFree(m, t, i);
    WalkBySlot(m, t, u);
    if Slot(u) == i {
      WithTableSlot(m, t, i);
      NewTableWord(m, t, i, f * FRAME_WORDS + Index(u));
      EntryStores(n, t, u, 0);
    } else {
      AgreeKeepsSlot(m, n, t, i, f, Slot(u));
      if HasTable(m, t, Slot(u)) {
        var h := SlotOf(m, t, Slot(u)).frame;
        TableIsUnreserved(m, t, Slot(u));
        AgreeOnTable(m, n, t, i, f, h, h * FRAME_WORDS + Index(u));
      }
      SameEntryStores(m, n, t, u);
    }
  }

  lemma NewTableWord(m: seq<nat>, t: Layout, i: nat, w: nat)
    requires TablesSound(m, t) && i < PAGE_ENTRIES && FrameLeft(m, t.g) && IsMemory(WithTable(m, t, i))
    requires LeastFree(m, t.g, 0) < t.g.total && !t.g.Reserved(LeastFree(m, t.g, 0))
    requires LeastFree(m, t.g, 0) * FRAME_WORDS <= w < (LeastFree(m, t.g, 0) + 1) * FRAME_WORDS
    ensures w < WORDS && WithTable(m, t, i)[w] == 0
  {
    hide LeastFree, IsFree;
    Apart(t, LeastFree(m, t.g, 0), w);
    WithTableWord(m, t, i, w);
  }

  /** map_page keeps every mapped page writable, and so is the page that it maps. */
  lemma MappedPageStores(m: seq<nat>, t: Layout, v: nat, p: nat, u: nat)
    requires TablesSound(m, t) && v < WORD_LIMIT && p < WORD_LIMIT && (NoTable(m, t, v) ==> FrameLeft(m, t.g))
    requires u < WORD_LIMIT && (SamePage(u, v) || CanStore(m, t, u))
    ensures TablesSound(MappedPage(m, t, v, p), t) && CanStore(MappedPage(m, t, v, p), t, u)
  {
    hide CanStore, WithTable, Stored, LeastFree, FrameLeft;
    var i := Slot(v);
    PageParts(v, v);
    if NoTable(m, t, v) {
      WithTableSound(m, t, i);
      if !SamePage(u, v) { WithTableStores(m, t, i, u); }
      StoredStores(WithTable(m, t, i), t, v, p, u);
    } else {
      assert SlotOf(m, t, i) != Broken;
      StoredStores(m, t, v, p, u);
    }
  }

  lemma AllocatedStores(m: seq<nat>, t: Layout, u: nat)
    requires TablesSound(m, t) && LeastFree(m, t.g, 0) < t.g.Limit() && u < WORD_LIMIT
    requires TablesSound(Allocated(m, t.g), t)
    ensures CanStore(Allocated(m, t.g), t, u) <==> CanStore(m, t, u)
  {
    hide SlotOf, LeastFree, IsFree, CanStore;
    AllocKeepsTables(m, t);
    WalkBySlot(m, t, u);
    InBitmap(t.g, LeastFree(m, t.g, 0));
    if HasTable(m, t, Slot(u)) {
      var h := SlotOf(m, t, Slot(u)).frame;
      TableIsUnreserved(m, t, Slot(u));
      Apart(t, h, h * FRAME_WORDS + Index(u));
    }
    SameEntryStores(m, Allocated(m, t.g), t, u);
  }

  lemma FaultedStores(m: seq<nat>, t: Layout, v: nat, u: nat)
    requires TablesSound(m, t) && HeapPage(v) && CanFault(m, t, v) && u < WORD_LIMIT
    requires SamePage(u, v) || CanStore(m, t, u)
    ensures TablesSound(Faulted(m, t, v), t) && CanStore(Faulted(m, t, v), t, u)
  {
    hide CanStore, MappedPage;
    AllocKeepsTables(m, t);
    AllocatedStores(m, t, u);
    MappedPageStores(Allocated(m, t.g), t, v, LeastFree(m, t.g, 0) * PAGE_SIZE, u);
  }

  /** After paging_init every mapped page can be written. */
  lemma InitialisedStores(m: seq<nat>, t: Layout, u: nat)
    requires IsMemory(m) && t.Placed() && ReservedHeld(m, t.g) && u < WORD_LIMIT
    requires LeastFree(Wiped(m, t), t.g, 0) < t.g.Limit()
    ensures TablesSound(Initialised(m, t), t) && CanStore(Initialised(m, t), t, u)
  {
    hide SlotOf, FreeLess, LeastFree, Initialised, Wiped, WalkForStore, Walk, Leaf, LeafForStore;
    var f, marked := InitialisedFrame(m, t);
    var m' := Initialised(m, t);
    InitialisedSound(m, t);
    WalkBySlot(m', t, u);
    StoreWalkBySlot(m', t, u);
    if Slot(u) == 0 {
      var w := f * FRAME_WORDS + Index(u);
      InitialisedWord(m, t, f, marked, w);
      Apart(t, f, w);
      IdentityStores(m'[w], Index(u), u);
    }
  }

  lemma IdentityStores(e: nat, i: nat, u: nat)
    requires e == IdentityEntry(i)
    ensures LeafForStore(e, u) == Leaf(e, u)
  {
    if i == 0 { NullIsAbsent(u); } else { EntryAllowsStores(i); }
  }

  /** Over a run of faults every page stays writable that was, and every page that was given is: a store to
      it reaches its frame. */
  lemma {:induction false} FaultsAllowStores(states: seq<seq<nat>>, t: Layout, pages: seq<nat>, n: nat, u: nat)
    requires FaultRun(states, t, pages) && n <= |pages| && u < WORD_LIMIT
    requires !IsFree(states[0], t.g, 0) && Stock(states[0], t.g) > |pages|
    requires CanStore(states[0], t, u) || exists k :: 0 <= k < n && SamePage(u, pages[k])
    ensures TablesSound(states[n], t) && CanStore(states[n], t, u)
  {
    hide CanStore, SlotOf, Stock, IsFree, Faulted, SamePage;
    if n > 0 {
      FaultsAreServed(states, t, pages, n - 1);
      if !SamePage(u, pages[n - 1]) { FaultsAllowStores(states, t, pages, n - 1, u); }
      FaultedStores(states[n - 1], t, pages[n - 1], u);
    }
  }

  /** So every address of the heap on a page that was given can be written, and a store there reaches the
      frame of the page. */
  lemma GivenPageTakesStores(states: seq<seq<nat>>, t: Layout, pages: seq<nat>, k: nat, n: nat)
    requires FaultRun(states, t, pages) && k < n <= |pages|
    requires !IsFree(states[0], t.g, 0) && Stock(states[0], t.g) > |pages|
    ensures TablesSound(states[n], t) && TablesSound(states[k], t)
    ensures WalkForStore(states[n], t, pages[k]) == Some(Given(states, t, k) * PAGE_SIZE)
  {
    assert SamePage(pages[k], pages[k]);
    FaultsMap(states, t, pages, k, n);
    FaultsAllowStores(states, t, pages, n, pages[k]);
  }
}
