/** The two-level page table of src/kernel/mm/paging.c and the demand paging of
    src/kernel/core/idt.c, in the same flat store as the frame bitmap.

    `Walk` is the translation of the processor: "32-Bit Paging", section 4.3 of Volume 3A of the
    Intel 64 and IA-32 Architectures Software Developer's Manual, with 4-KByte pages only. */
module Paging {
  import opened Bits
  import opened Frames
  import opened Machine

  const PAGE_SIZE := 4096
  const PAGE_ENTRIES := 1024
  const SLOT_SIZE := 0x40_0000

  /** Where the kernel keeps page_directory and page_tables, as words of the store. */
  datatype Layout = Layout(g: Geometry, directory: nat, tracked: nat) {
    predicate InKernel(base: nat) {
      g.kernelStart <= 4 * base && 4 * (base + PAGE_ENTRIES) <= g.kernelEnd
    }

    predicate Placed() {
      && g.Fits() && InKernel(directory) && InKernel(tracked)
      && (directory + PAGE_ENTRIES <= tracked || tracked + PAGE_ENTRIES <= directory)
    }
  }

  function Slot(v: nat): nat {
    v / SLOT_SIZE
  }

  function Index(v: nat): nat {
    v / PAGE_SIZE % PAGE_ENTRIES
  }

  function SamePage(u: nat, v: nat): bool {
    u / PAGE_SIZE == v / PAGE_SIZE
  }

  lemma PageParts(u: nat, v: nat)
    requires u < WORD_LIMIT && v < WORD_LIMIT
    ensures Slot(v) < PAGE_ENTRIES && Index(v) < PAGE_ENTRIES
    ensures SamePage(u, v) <==> Slot(u) == Slot(v) && Index(u) == Index(v)
  {
    assert u / PAGE_SIZE == Slot(u) * PAGE_ENTRIES + Index(u);
    assert v / PAGE_SIZE == Slot(v) * PAGE_ENTRIES + Index(v);
  }

  predicate Present(entry: nat) {
    entry % 2 == 1
  }

  function FrameOf(entry: nat): nat {
    entry / PAGE_SIZE
  }

  /** A present, writable entry for the page of p. */
  function EntryFor(p: nat): nat {
    p - p % PAGE_SIZE + 3
  }

  /** The physical address that the walk finds for v. */
  function Walk(m: seq<nat>, t: Layout, v: nat): Option<nat>
    requires IsMemory(m) && t.Placed() && v < WORD_LIMIT
  {
    var pde := m[t.directory + Slot(v)];
    if Present(pde) then Leaf(m[FrameOf(pde) * FRAME_WORDS + Index(v)], v) else None
  }

  /** The second level of the walk. */
  function Leaf(pte: nat, v: nat): Option<nat> {
    if Present(pte) then Some(FrameOf(pte) * PAGE_SIZE + v % PAGE_SIZE) else None
  }

  /** Slot i of the directory: empty, or a table whose directory entry and tracked pointer agree
      and whose frame is in use and not reserved. */
  datatype SlotState = Empty | Table(frame: nat) | Broken

  function SlotOf(m: seq<nat>, t: Layout, i: nat): SlotState
    requires IsMemory(m) && t.Placed() && i < PAGE_ENTRIES
  {
    var pde, pointer := m[t.directory + i], m[t.tracked + i];
    var f := FrameOf(pde);
    if pde == 0 && pointer == 0 then Empty
    else if pde == f * PAGE_SIZE + 3 && pointer == f * PAGE_SIZE
            && f < t.g.total && !t.g.Reserved(f) && !IsFree(m, t.g, f) then Table(f)
    else Broken
  }

  ghost function ReservedFrames(g: Geometry): set<nat> {
    set f | 0 <= f < g.total && g.Reserved(f)
  }

  /** No kernel or bitmap frame is free. */
  ghost predicate ReservedHeld(m: seq<nat>, g: Geometry)
    requires IsMemory(m) && g.Fits()
  {
    ReservedFrames(g) !! Free(m, g)
  }

  lemma FreeIsUnreserved(m: seq<nat>, g: Geometry, f: nat)
    requires IsMemory(m) && g.Fits() && ReservedHeld(m, g) && f < g.total && IsFree(m, g, f)
    ensures !g.Reserved(f)
  {
    assert f in Free(m, g);
    assert g.Reserved(f) ==> f in ReservedFrames(g);
  }

  ghost predicate TablesSound(m: seq<nat>, t: Layout) {
    && IsMemory(m) && t.Placed() && ReservedHeld(m, t.g)
    && (forall i :: 0 <= i < PAGE_ENTRIES ==> SlotOf(m, t, i) != Broken)
    && (forall i, j :: 0 <= i < j < PAGE_ENTRIES && SlotOf(m, t, i) == SlotOf(m, t, j) ==> SlotOf(m, t, i) == Empty)
  }

  /** The free frames of m2 are those of m, less f. */
  ghost predicate FreeLess(m: seq<nat>, m2: seq<nat>, g: Geometry, f: int)
    requires |m| == WORDS && |m2| == WORDS && g.Fits()
  {
    forall h :: 0 <= h < 32 * g.Entries() ==> (IsFree(m2, g, h) <==> h != f && IsFree(m, g, h))
  }

  lemma StaysHeld(m: seq<nat>, m2: seq<nat>, g: Geometry, f: int)
    requires IsMemory(m) && IsMemory(m2) && g.Fits() && FreeLess(m, m2, g, f) && ReservedHeld(m, g)
    ensures ReservedHeld(m2, g)
  {
    assert g.total <= 32 * g.Entries();
    forall h | h in Free(m2, g)
      ensures h !in ReservedFrames(g)
    {
      FreeIsUnreserved(m, g, h);
    }
  }

  predicate HasTable(m: seq<nat>, t: Layout, i: nat)
    requires IsMemory(m) && t.Placed() && i < PAGE_ENTRIES
  {
    SlotOf(m, t, i).Table?
  }

  /** The words of an unreserved frame lie apart from directory, table pointers and bitmap. */
  lemma Apart(t: Layout, f: nat, w: nat)
    requires t.Placed() && f < t.g.total && !t.g.Reserved(f) && f * FRAME_WORDS <= w < (f + 1) * FRAME_WORDS
    ensures w < WORDS
    ensures !(t.directory <= w < t.directory + PAGE_ENTRIES)
    ensures !(t.tracked <= w < t.tracked + PAGE_ENTRIES)
    ensures !(t.g.Bitmap() <= w < t.g.Bitmap() + t.g.Entries())
  {
    BitmapIsReserved(t.g, f, w);
  }

  lemma EntryPlace(f: nat, i: nat)
    requires i < PAGE_ENTRIES
    ensures (f * FRAME_WORDS + i) / FRAME_WORDS == f && (f * FRAME_WORDS + i) % FRAME_WORDS == i
  {
  }

  lemma TableWalk(m: seq<nat>, t: Layout, u: nat, f: nat)
    requires IsMemory(m) && t.Placed() && u < WORD_LIMIT && Slot(u) < PAGE_ENTRIES && SlotOf(m, t, Slot(u)) == Table(f)
    ensures f * FRAME_WORDS + Index(u) < WORDS && Walk(m, t, u) == Leaf(m[f * FRAME_WORDS + Index(u)], u)
  {
    Apart(t, f, f * FRAME_WORDS + Index(u));
    EntryParts(f);
  }

  /** The walk in terms of the slot of its address. */
  lemma WalkBySlot(m: seq<nat>, t: Layout, u: nat)
    requires TablesSound(m, t) && u < WORD_LIMIT
    ensures Slot(u) < PAGE_ENTRIES
    ensures match SlotOf(m, t, Slot(u))
            case Empty => Walk(m, t, u) == None
            case Table(f) =>
              var w := f * FRAME_WORDS + Index(u);
              w < WORDS && w / FRAME_WORDS == f && w % FRAME_WORDS == Index(u) && Walk(m, t, u) == Leaf(m[w], u)
            case Broken => false
  {
    PageParts(u, u);
    assert SlotOf(m, t, Slot(u)) != Broken;
    if SlotOf(m, t, Slot(u)).Table? {
      TableWalk(m, t, u, SlotOf(m, t, Slot(u)).frame);
      EntryPlace(SlotOf(m, t, Slot(u)).frame, Index(u));
    }
  }

  /** The stores agree outside frame f, slot i and the bitmap. */
  ghost predicate Agree(m: seq<nat>, m2: seq<nat>, t: Layout, i: nat, f: nat) {
    && |m| == WORDS && |m2| == WORDS
    && forall w {:trigger m2[w]} :: 0 <= w < WORDS && !Touched(t, i, f, w) ==> m2[w] == m[w]
  }

  predicate Touched(t: Layout, i: nat, f: nat, w: nat) {
    || w / FRAME_WORDS == f || w == t.directory + i || w == t.tracked + i
    || t.g.Bitmap() <= w < t.g.Bitmap() + t.g.Entries()
  }

  /** The words of slot j are in no unreserved frame and not in the bitmap. */
  lemma SlotWords(t: Layout, f: nat, j: nat)
    requires t.Placed() && j < PAGE_ENTRIES && f < t.g.total && !t.g.Reserved(f)
    ensures t.directory + j < WORDS && (t.directory + j) / FRAME_WORDS != f
    ensures t.tracked + j < WORDS && (t.tracked + j) / FRAME_WORDS != f
    ensures t.directory + j < t.g.Bitmap() && t.tracked + j < t.g.Bitmap()
  {
    if (t.directory + j) / FRAME_WORDS == f { Apart(t, f, t.directory + j); }
    if (t.tracked + j) / FRAME_WORDS == f { Apart(t, f, t.tracked + j); }
  }

  lemma AgreeOnSlot(m: seq<nat>, m2: seq<nat>, t: Layout, i: nat, f: nat, j: nat)
    requires t.Placed() && Agree(m, m2, t, i, f) && f < t.g.total && !t.g.Reserved(f)
    requires i < PAGE_ENTRIES && j < PAGE_ENTRIES && i != j
    ensures t.directory + j < WORDS && t.tracked + j < WORDS
    ensures m2[t.directory + j] == m[t.directory + j] && m2[t.tracked + j] == m[t.tracked + j]
  {
    SlotWords(t, f, j);
    assert !Touched(t, i, f, t.directory + j) && !Touched(t, i, f, t.tracked + j);
  }

  lemma AgreeOnTable(m: seq<nat>, m2: seq<nat>, t: Layout, i: nat, f: nat, h: nat, w: nat)
    requires t.Placed() && Agree(m, m2, t, i, f) && i < PAGE_ENTRIES
    requires h != f && h < t.g.total && !t.g.Reserved(h) && w / FRAME_WORDS == h
    ensures w < WORDS && m2[w] == m[w]
  {
    Apart(t, h, w);
    assert !Touched(t, i, f, w);
  }

  /** The other slots of agreeing stores are alike. */
  lemma AgreeKeepsSlot(m: seq<nat>, m2: seq<nat>, t: Layout, i: nat, f: nat, j: nat)
    requires TablesSound(m, t) && IsMemory(m2) && Agree(m, m2, t, i, f) && FreeLess(m, m2, t.g, f)
    requires f < t.g.total && !t.g.Reserved(f) && IsFree(m, t.g, f)
    requires i < PAGE_ENTRIES && j < PAGE_ENTRIES && i != j
    ensures SlotOf(m2, t, j) == SlotOf(m, t, j) != Table(f)
  {
    AgreeOnSlot(m, m2, t, i, f, j);
    assert t.g.total <= 32 * t.g.Entries();
  }

  /** The word of the entry for v in its table. */
  function EntryWord(m: seq<nat>, t: Layout, v: nat): nat
    requires IsMemory(m) && t.Placed() && v < WORD_LIMIT
  {
    m[t.tracked + Slot(v)] / 4 + Index(v)
  }

  lemma EntryWordOfTable(m: seq<nat>, t: Layout, v: nat)
    requires TablesSound(m, t) && v < WORD_LIMIT && Slot(v) < PAGE_ENTRIES && HasTable(m, t, Slot(v))
    ensures var f := SlotOf(m, t, Slot(v)).frame;
            && EntryWord(m, t, v) == f * FRAME_WORDS + Index(v) < WORDS
            && EntryWord(m, t, v) / FRAME_WORDS == f
            && f < t.g.total && !t.g.Reserved(f)
  {
    PageParts(v, v);
    Apart(t, SlotOf(m, t, Slot(v)).frame, EntryWord(m, t, v));
  }

  /** A store of a page entry for v into its table, which is there. */
  function Stored(m: seq<nat>, t: Layout, v: nat, p: nat): seq<nat>
    requires TablesSound(m, t) && v < WORD_LIMIT && Slot(v) < PAGE_ENTRIES && HasTable(m, t, Slot(v))
  {
    EntryWordOfTable(m, t, v);
    m[EntryWord(m, t, v) := EntryFor(p)]
  }

  /** A slot depends on its two words and on which frames are free. */
  lemma SlotUnchanged(m: seq<nat>, m2: seq<nat>, t: Layout, i: nat)
    requires IsMemory(m) && IsMemory(m2) && t.Placed() && i < PAGE_ENTRIES && FreeLess(m, m2, t.g, -1)
    requires m2[t.directory + i] == m[t.directory + i] && m2[t.tracked + i] == m[t.tracked + i]
    ensures SlotOf(m2, t, i) == SlotOf(m, t, i)
  {
    assert t.g.total <= 32 * t.g.Entries();
  }

  /** Storing an entry keeps the tables sound and the free frames as they are... */
  lemma StoredSound(m: seq<nat>, t: Layout, v: nat, p: nat)
    requires TablesSound(m, t) && v < WORD_LIMIT && p < WORD_LIMIT && HasTable(m, t, Slot(v))
    ensures TablesSound(Stored(m, t, v, p), t)
    ensures FreeLess(m, Stored(m, t, v, p), t.g, -1)
    ensures forall i :: 0 <= i < PAGE_ENTRIES ==> SlotOf(Stored(m, t, v, p), t, i) == SlotOf(m, t, i)
  {
    hide SlotOf, IsFree, HasTable;
    var w, m' := EntryWord(m, t, v), Stored(m, t, v, p);
    var f := w / FRAME_WORDS;
    EntryWordOfTable(m, t, v);
    Apart(t, f, w);
    assert EntryFor(p) < WORD_LIMIT;
    StoreKeepsBitmap(m, t.g, f, w, EntryFor(p));
    StaysHeld(m, m', t.g, -1);
    forall i | 0 <= i < PAGE_ENTRIES
      ensures SlotOf(m', t, i) == SlotOf(m, t, i)
    {
      SlotWords(t, f, i);
      SlotUnchanged(m, m', t, i);
    }
  }

  /** ...and changes the translation of its page only. */
  lemma StoredWalk(m: seq<nat>, t: Layout, v: nat, p: nat, u: nat)
    requires TablesSound(m, t) && v < WORD_LIMIT && p < WORD_LIMIT && HasTable(m, t, Slot(v)) && u < WORD_LIMIT
    requires IsMemory(Stored(m, t, v, p))
    ensures Walk(Stored(m, t, v, p), t, u) == Updated(m, t, v, p, u)
  {
    hide SlotOf, IsFree, Walk, Leaf;
    var m' := Stored(m, t, v, p);
    StoredSound(m, t, v, p);
    EntryWordOfTable(m, t, v);
    WalkBySlot(m, t, u);
    WalkBySlot(m', t, u);
    PageParts(u, v);
    assert SlotOf(m', t, Slot(u)) == SlotOf(m, t, Slot(u));
    assert Slot(u) != Slot(v) && HasTable(m, t, Slot(u)) ==> SlotOf(m, t, Slot(u)) != SlotOf(m, t, Slot(v));
    EntryLeaf(p, u);
  }

  lemma EntryLeaf(p: nat, u: nat)
    ensures Leaf(EntryFor(p), u) == Some(p - p % PAGE_SIZE + u % PAGE_SIZE)
  {
    EntryParts(p / PAGE_SIZE);
    assert EntryFor(p) == p / PAGE_SIZE * 4096 + 3;
  }

  lemma EntryParts(q: nat)
    ensures FrameOf(q * 4096 + 3) == q && Present(q * 4096 + 3)
  {
    assert q * 4096 + 3 == 2 * (q * 2048 + 1) + 1;
  }

  /** What a map update at v would translate u to. */
  function Updated(m: seq<nat>, t: Layout, v: nat, p: nat, u: nat): Option<nat>
    requires IsMemory(m) && t.Placed() && u < WORD_LIMIT
  {
    if SamePage(u, v) then Some(p - p % PAGE_SIZE + u % PAGE_SIZE) else Walk(m, t, u)
  }

  function Cleared(m: seq<nat>, f: nat): (m': seq<nat>)
    ensures |m'| == |m|
  {
    seq(|m|, w requires 0 <= w < |m| => if w / FRAME_WORDS == f then 0 else m[w])
  }

  /** The search finds a frame, and not frame 0, whose address would stand for failure. */
  ghost predicate FrameLeft(m: seq<nat>, g: Geometry)
    requires |m| == WORDS && g.Fits()
  {
    0 < LeastFree(m, g, 0) < g.Limit()
  }

  /** map_page's new table: allocated, cleared, entered in the directory and tracked. */
  function WithTable(m: seq<nat>, t: Layout, i: nat): (m': seq<nat>)
    requires IsMemory(m) && t.Placed() && i < PAGE_ENTRIES && FrameLeft(m, t.g)
    ensures |m'| == WORDS
  {
    var f := LeastFree(m, t.g, 0);
    Cleared(Marked(m, t.g, f), f)[t.directory + i := f * PAGE_SIZE + 3][t.tracked + i := f * PAGE_SIZE]
  }

  lemma WithTableWord(m: seq<nat>, t: Layout, i: nat, w: nat)
    requires IsMemory(m) && t.Placed() && i < PAGE_ENTRIES && FrameLeft(m, t.g) && w < WORDS
    requires w != t.directory + i && w != t.tracked + i
    ensures var f := LeastFree(m, t.g, 0);
            WithTable(m, t, i)[w] == if w / FRAME_WORDS == f then 0 else Marked(m, t.g, f)[w]
  {
  }

  /** The new table changes its frame, its slot and one bit of the bitmap. */
  lemma WithTableAgrees(m: seq<nat>, t: Layout, i: nat)
    requires TablesSound(m, t) && i < PAGE_ENTRIES && FrameLeft(m, t.g)
    ensures var f := LeastFree(m, t.g, 0);
            && f < t.g.total && !t.g.Reserved(f) && IsFree(m, t.g, f)
            && IsMemory(WithTable(m, t, i))
            && Agree(m, WithTable(m, t, i), t, i, f)
  {
    hide LeastFree;
    var f, m' := LeastFree(m, t.g, 0), WithTable(m, t, i);
    LeastFreeIsLeast(m, t.g, 0);
    FreeIsUnreserved(m, t.g, f);
    MarkedUses(m, t.g, f);
    assert f * PAGE_SIZE + 3 < WORD_LIMIT;
    forall w | 0 <= w < WORDS
      ensures m'[w] < WORD_LIMIT && (!Touched(t, i, f, w) ==> m'[w] == m[w])
    {
      if w != t.directory + i && w != t.tracked + i {
        WithTableWord(m, t, i, w);
      }
    }
  }

  lemma SameWordSameFree(m: seq<nat>, m2: seq<nat>, g: Geometry, h: nat)
    requires |m| == WORDS && |m2| == WORDS && g.Fits() && h < 32 * g.Entries()
    requires g.Bitmap() + h / 32 < WORDS && m2[g.Bitmap() + h / 32] == m[g.Bitmap() + h / 32]
    ensures IsFree(m2, g, h) <==> IsFree(m, g, h)
  {
  }

  lemma WithTableFreeAt(m: seq<nat>, t: Layout, i: nat, h: nat)
    requires IsMemory(m) && t.Placed() && i < PAGE_ENTRIES && FrameLeft(m, t.g) && h < 32 * t.g.Entries()
    requires LeastFree(m, t.g, 0) < t.g.total && !t.g.Reserved(LeastFree(m, t.g, 0))
    ensures IsFree(WithTable(m, t, i), t.g, h) <==> IsFree(Allocated(m, t.g), t.g, h)
  {
    hide IsFree, Marked;
    var f, b := LeastFree(m, t.g, 0), t.g.Bitmap() + h / 32;
    InBitmap(t.g, h);
    InBitmap(t.g, f);
    assert Allocated(m, t.g) == Marked(m, t.g, f);
    SlotWords(t, f, i);
    if b / FRAME_WORDS == f { Apart(t, f, b); }
    WithTableWord(m, t, i, b);
    SameWordSameFree(Marked(m, t.g, f), WithTable(m, t, i), t.g, h);
  }

  lemma WithTableFree(m: seq<nat>, t: Layout, i: nat)
    requires TablesSound(m, t) && i < PAGE_ENTRIES && FrameLeft(m, t.g)
    ensures FreeLess(m, WithTable(m, t, i), t.g, LeastFree(m, t.g, 0))
  {
    hide LeastFree;
    var f, m' := LeastFree(m, t.g, 0), WithTable(m, t, i);
    LeastFreeIsLeast(m, t.g, 0);
    FreeIsUnreserved(m, t.g, f);
    MarkedUses(m, t.g, f);
    forall h | 0 <= h < 32 * t.g.Entries()
      ensures IsFree(m', t.g, h) <==> h != f && IsFree(m, t.g, h)
    {
      WithTableFreeAt(m, t, i, h);
    }
  }

  lemma WithTableSlot(m: seq<nat>, t: Layout, i: nat)
    requires TablesSound(m, t) && i < PAGE_ENTRIES && FrameLeft(m, t.g)
    ensures IsMemory(WithTable(m, t, i)) && SlotOf(WithTable(m, t, i), t, i) == Table(LeastFree(m, t.g, 0))
  {
    hide LeastFree, IsFree, Cleared, Marked, Agree, Touched;
    WithTableAgrees(m, t, i);
    WithTableFree(m, t, i);
    WithTableEntry(m, t, i);
    TableSlot(WithTable(m, t, i), t, i, LeastFree(m, t.g, 0));
  }

  lemma WithTableEntry(m: seq<nat>, t: Layout, i: nat)
    requires IsMemory(m) && t.Placed() && i < PAGE_ENTRIES && FrameLeft(m, t.g) && IsMemory(WithTable(m, t, i))
    ensures WithTable(m, t, i)[t.directory + i] == LeastFree(m, t.g, 0) * PAGE_SIZE + 3
    ensures WithTable(m, t, i)[t.tracked + i] == LeastFree(m, t.g, 0) * PAGE_SIZE
  {
    hide LeastFree, IsFree;
  }

  lemma TableSlot(m: seq<nat>, t: Layout, i: nat, f: nat)
    requires IsMemory(m) && t.Placed() && i < PAGE_ENTRIES && f < t.g.total && !t.g.Reserved(f) && !IsFree(m, t.g, f)
    requires m[t.directory + i] == f * PAGE_SIZE + 3 && m[t.tracked + i] == f * PAGE_SIZE
    ensures SlotOf(m, t, i) == Table(f)
  {
    EntryParts(f);
  }

  lemma WithTableSound(m: seq<nat>, t: Layout, i: nat)
    requires TablesSound(m, t) && i < PAGE_ENTRIES && FrameLeft(m, t.g)
    ensures TablesSound(WithTable(m, t, i), t) && HasTable(WithTable(m, t, i), t, i)
  {
    var f, m' := LeastFree(m, t.g, 0), WithTable(m, t, i);
    WithTableAgrees(m, t, i);
    WithTableFree(m, t, i);
    WithTableSlot(m, t, i);
    StaysHeld(m, m', t.g, f);
    forall j | 0 <= j < PAGE_ENTRIES && j != i
      ensures SlotOf(m', t, j) == SlotOf(m, t, j) != Table(f)
    {
      AgreeKeepsSlot(m, m', t, i, f, j);
    }
  }

  /** A new table maps nothing. */
  lemma NewSlotWalk(m: seq<nat>, t: Layout, i: nat, u: nat)
    requires TablesSound(m, t) && i < PAGE_ENTRIES && FrameLeft(m, t.g) && u < WORD_LIMIT && Slot(u) == i
    requires TablesSound(WithTable(m, t, i), t)
    ensures Walk(WithTable(m, t, i), t, u) == None
  {
    hide SlotOf, Walk, IsFree;
    var f := LeastFree(m, t.g, 0);
    WithTableSlot(m, t, i);
    WalkBySlot(WithTable(m, t, i), t, u);
    var w := f * FRAME_WORDS + Index(u);
    WithTableAgrees(m, t, i);
    Apart(t, f, w);
    WithTableWord(m, t, i, w);
  }

  /** In the other slots all is as before. */
  lemma OtherSlotWalk(m: seq<nat>, t: Layout, i: nat, u: nat)
    requires TablesSound(m, t) && i < PAGE_ENTRIES && FrameLeft(m, t.g) && u < WORD_LIMIT && Slot(u) != i
    requires TablesSound(WithTable(m, t, i), t)
    ensures Walk(WithTable(m, t, i), t, u) == Walk(m, t, u)
  {
    hide LeastFree, IsFree, WithTable, Walk, Leaf;
    var f, m' := LeastFree(m, t.g, 0), WithTable(m, t, i);
    WithTableAgrees(m, t, i);
    WithTableFree(m, t, i);
    WalkBySlot(m', t, u);
    WalkBySlot(m, t, u);
    AgreeKeepsSlot(m, m', t, i, f, Slot(u));
    if HasTable(m, t, Slot(u)) {
      var h := SlotOf(m, t, Slot(u)).frame;
      AgreeOnTable(m, m', t, i, f, h, h * FRAME_WORDS + Index(u));
    }
  }

  /** map_page: the store after it. */
  function MappedPage(m: seq<nat>, t: Layout, v: nat, p: nat): seq<nat>
    requires TablesSound(m, t) && v < WORD_LIMIT
    requires m[t.tracked + Slot(v)] == 0 ==> FrameLeft(m, t.g)
  {
    if m[t.tracked + Slot(v)] == 0 then
      WithTableSound(m, t, Slot(v));
      Stored(WithTable(m, t, Slot(v)), t, v, p)
    else
      assert SlotOf(m, t, Slot(v)) != Broken;
      Stored(m, t, v, p)
  }

  /** Whether map_page has to make a table: none is tracked for the slot.  A table in frame 0 is
      tracked as a null pointer, so it counts as missing. */
  predicate NoTable(m: seq<nat>, t: Layout, v: nat)
    requires IsMemory(m) && t.Placed() && v < WORD_LIMIT
  {
    m[t.tracked + Slot(v)] == 0
  }

  lemma MappedPageSound(m: seq<nat>, t: Layout, v: nat, p: nat)
    requires TablesSound(m, t) && v < WORD_LIMIT && p < WORD_LIMIT && (NoTable(m, t, v) ==> FrameLeft(m, t.g))
    ensures TablesSound(MappedPage(m, t, v, p), t)
    ensures FreeLess(m, MappedPage(m, t, v, p), t.g, if NoTable(m, t, v) then LeastFree(m, t.g, 0) else -1)
  {
    var i := Slot(v);
    if NoTable(m, t, v) {
      WithTableSound(m, t, i);
      WithTableFree(m, t, i);
      StoredSound(WithTable(m, t, i), t, v, p);
    } else {
      assert SlotOf(m, t, i) != Broken;
      StoredSound(m, t, v, p);
    }
  }

  /** map_page adds at most the one table. */
  lemma MappedPageSlots(m: seq<nat>, t: Layout, v: nat, p: nat, i: nat)
    requires TablesSound(m, t) && v < WORD_LIMIT && p < WORD_LIMIT && (NoTable(m, t, v) ==> FrameLeft(m, t.g))
    requires i < PAGE_ENTRIES && TablesSound(MappedPage(m, t, v, p), t)
    ensures SlotOf(MappedPage(m, t, v, p), t, i) ==
            if NoTable(m, t, v) && i == Slot(v) then Table(LeastFree(m, t.g, 0)) else SlotOf(m, t, i)
    ensures NoTable(m, t, v) && i != Slot(v) ==> SlotOf(m, t, i) != Table(LeastFree(m, t.g, 0))
  {
    var j := Slot(v);
    if NoTable(m, t, v) {
      WithTableSound(m, t, j);
      StoredSound(WithTable(m, t, j), t, v, p);
      if i == j {
        WithTableSlot(m, t, i);
      } else {
        WithTableAgrees(m, t, j);
        WithTableFree(m, t, j);
        AgreeKeepsSlot(m, WithTable(m, t, j), t, j, LeastFree(m, t.g, 0), i);
      }
    } else {
      assert SlotOf(m, t, j) != Broken;
      StoredSound(m, t, v, p);
    }
  }

  /** map_page writes into no frame that was in use, other than tables and reserved ones. */
  lemma MappedPageKeepsData(m: seq<nat>, t: Layout, v: nat, p: nat, w: nat)
    requires TablesSound(m, t) && v < WORD_LIMIT && p < WORD_LIMIT && (NoTable(m, t, v) ==> FrameLeft(m, t.g))
    requires var h := w / FRAME_WORDS;
             && h < t.g.total && !t.g.Reserved(h) && !IsFree(m, t.g, h)
             && forall i :: 0 <= i < PAGE_ENTRIES ==> SlotOf(m, t, i) != Table(h)
    ensures w < WORDS && |MappedPage(m, t, v, p)| == WORDS && MappedPage(m, t, v, p)[w] == m[w]
  {
    hide WithTable, IsFree;
    var h, j := w / FRAME_WORDS, Slot(v);
    Apart(t, h, w);
    if NoTable(m, t, v) {
      var f, n := LeastFree(m, t.g, 0), WithTable(m, t, j);
      WithTableSound(m, t, j);
      WithTableAgrees(m, t, j);
      WithTableSlot(m, t, j);
      AgreeOnTable(m, n, t, j, f, h, w);
      EntryWordOfTable(n, t, v);
    } else {
      assert SlotOf(m, t, j) != Broken;
      EntryWordOfTable(m, t, v);
    }
  }

  /** map_page translates exactly as follows: it is a map update, except that a table in frame 0
      is replaced by a new one, which drops all other pages of its slot. */
  lemma MappedPageWalk(m: seq<nat>, t: Layout, v: nat, p: nat, u: nat)
    requires TablesSound(m, t) && v < WORD_LIMIT && p < WORD_LIMIT && (NoTable(m, t, v) ==> FrameLeft(m, t.g))
    requires u < WORD_LIMIT && IsMemory(MappedPage(m, t, v, p))
    ensures Walk(MappedPage(m, t, v, p), t, u) ==
            if NoTable(m, t, v) && Slot(u) == Slot(v) && !SamePage(u, v) then None else Updated(m, t, v, p, u)
  {
    var i := Slot(v);
    if NoTable(m, t, v) {
      WithTableSound(m, t, i);
      StoredSound(WithTable(m, t, i), t, v, p);
      StoredWalk(WithTable(m, t, i), t, v, p, u);
      if Slot(u) == i { NewSlotWalk(m, t, i, u); } else { OtherSlotWalk(m, t, i, u); }
    } else {
      assert SlotOf(m, t, i) != Broken;
      StoredWalk(m, t, v, p, u);
    }
  }

  /** map_page refines a map update exactly when a table is tracked for the slot, or the slot maps
      no other page.  The condition can be read off before the call. */
  lemma MapUpdateIff(m: seq<nat>, t: Layout, v: nat, p: nat)
    requires TablesSound(m, t) && v < WORD_LIMIT && p < WORD_LIMIT && (NoTable(m, t, v) ==> FrameLeft(m, t.g))
    ensures IsMemory(MappedPage(m, t, v, p))
    ensures (forall u :: 0 <= u < WORD_LIMIT ==> Walk(MappedPage(m, t, v, p), t, u) == Updated(m, t, v, p, u))
       <==> (NoTable(m, t, v) ==>
               forall u :: 0 <= u < WORD_LIMIT && Slot(u) == Slot(v) && !SamePage(u, v) ==> Walk(m, t, u) == None)
  {
    MappedPageSound(m, t, v, p);
    var m' := MappedPage(m, t, v, p);
    forall u | 0 <= u < WORD_LIMIT
      ensures Walk(m', t, u) ==
              if NoTable(m, t, v) && Slot(u) == Slot(v) && !SamePage(u, v) then None else Updated(m, t, v, p, u)
    {
      MappedPageWalk(m, t, v, p, u);
    }
    if forall u :: 0 <= u < WORD_LIMIT ==> Walk(m', t, u) == Updated(m, t, v, p, u) {
      forall u | 0 <= u < WORD_LIMIT && Slot(u) == Slot(v) && !SamePage(u, v) && NoTable(m, t, v)
        ensures Walk(m, t, u) == None
      {
        assert Walk(m', t, u) == Updated(m, t, v, p, u);
      }
    }
  }

  // ---- Writing tables with paging on ---------------------------------------------------------

  /** Frame f can be written at its own address: the walk takes that to itself. */
  predicate Identity(m: seq<nat>, t: Layout, f: nat)
    requires IsMemory(m) && t.Placed()
  {
    f * PAGE_SIZE < WORD_LIMIT && Walk(m, t, f * PAGE_SIZE) == Some(f * PAGE_SIZE)
  }

  lemma WordOfPage(f: nat, i: nat)
    requires f * PAGE_SIZE < WORD_LIMIT && i < PAGE_ENTRIES
    ensures f * PAGE_SIZE + 4 * i < WORD_LIMIT && SamePage(f * PAGE_SIZE + 4 * i, f * PAGE_SIZE)
    ensures (f * PAGE_SIZE + 4 * i) % PAGE_SIZE == 4 * i && (f * PAGE_SIZE + 4 * i) / 4 == f * FRAME_WORDS + i
  {
  }

  /** Then so can every word of it. */
  lemma IdentityWord(m: seq<nat>, t: Layout, f: nat, i: nat)
    requires IsMemory(m) && t.Placed() && Identity(m, t, f) && i < PAGE_ENTRIES
    ensures f * PAGE_SIZE + 4 * i < WORD_LIMIT && Walk(m, t, f * PAGE_SIZE + 4 * i) == Some(f * PAGE_SIZE + 4 * i)
  {
    var u, v := f * PAGE_SIZE + 4 * i, f * PAGE_SIZE;
    WordOfPage(f, i);
    WordOfPage(f, 0);
    PageParts(u, v);
  }

  /** Writing into a frame that is no table changes no translation. */
  lemma DataKeepsWalk(m: seq<nat>, m2: seq<nat>, t: Layout, f: nat, u: nat)
    requires TablesSound(m, t) && IsMemory(m2) && f < t.g.total && !t.g.Reserved(f) && u < WORD_LIMIT
    requires forall i :: 0 <= i < PAGE_ENTRIES ==> SlotOf(m, t, i) != Table(f)
    requires forall w {:trigger m2[w]} :: 0 <= w < WORDS && w / FRAME_WORDS != f ==> m2[w] == m[w]
    ensures Walk(m2, t, u) == Walk(m, t, u)
  {
    WalkBySlot(m, t, u);
    SlotWords(t, f, Slot(u));
    if HasTable(m, t, Slot(u)) {
      EntryParts(SlotOf(m, t, Slot(u)).frame);
    }
  }

  /** The frame of the table that map_page writes the entry for v into. */
  function TableFrame(m: seq<nat>, t: Layout, v: nat): nat
    requires IsMemory(m) && t.Placed() && v < WORD_LIMIT
  {
    if NoTable(m, t, v) then LeastFree(m, t.g, 0) else m[t.tracked + Slot(v)] / PAGE_SIZE
  }

  /** What map_page needs once paging is on: its table lies at an address that is mapped to itself, and
      still is when a new table has taken the slot. */
  predicate Writable(m: seq<nat>, t: Layout, v: nat)
    requires IsMemory(m) && t.Placed() && v < WORD_LIMIT
  {
    Identity(m, t, TableFrame(m, t, v)) && (NoTable(m, t, v) ==> Slot(TableFrame(m, t, v) * PAGE_SIZE) != Slot(v))
  }

  /** The second condition is exactly what the first needs to survive the new table. */
  lemma NewTableIdentity(m: seq<nat>, t: Layout, v: nat)
    requires TablesSound(m, t) && v < WORD_LIMIT && NoTable(m, t, v) && FrameLeft(m, t.g)
    requires Identity(m, t, TableFrame(m, t, v))
    ensures TablesSound(WithTable(m, t, Slot(v)), t)
    ensures Identity(WithTable(m, t, Slot(v)), t, TableFrame(m, t, v)) <==> Writable(m, t, v)
  {
    var f, i := TableFrame(m, t, v), Slot(v);
    WithTableSound(m, t, i);
    PageParts(f * PAGE_SIZE, v);
    if Slot(f * PAGE_SIZE) == i { NewSlotWalk(m, t, i, f * PAGE_SIZE); } else { OtherSlotWalk(m, t, i, f * PAGE_SIZE); }
  }

  lemma TableAddress(m: seq<nat>, t: Layout, i: nat)
    requires IsMemory(m) && t.Placed() && i < PAGE_ENTRIES && HasTable(m, t, i)
    ensures m[t.tracked + i] == SlotOf(m, t, i).frame * PAGE_SIZE
    ensures m[t.tracked + i] / PAGE_SIZE == SlotOf(m, t, i).frame
  {
  }

  /** The table that is there can be written... */
  lemma TableReady(m: seq<nat>, t: Layout, v: nat)
    requires TablesSound(m, t) && v < WORD_LIMIT && !NoTable(m, t, v) && Writable(m, t, v)
    ensures Slot(v) < PAGE_ENTRIES && HasTable(m, t, Slot(v)) && Identity(m, t, m[t.tracked + Slot(v)] / PAGE_SIZE)
  {
    hide Walk, Leaf, IsFree;
    PageParts(v, v);
    assert SlotOf(m, t, Slot(v)) != Broken;
  }

  /** ...and so can a new one. */
  lemma NewTableReady(m: seq<nat>, t: Layout, v: nat)
    requires TablesSound(m, t) && v < WORD_LIMIT && NoTable(m, t, v) && FrameLeft(m, t.g) && Writable(m, t, v)
    ensures Slot(v) < PAGE_ENTRIES
    ensures var n := WithTable(m, t, Slot(v));
            && TablesSound(n, t) && HasTable(n, t, Slot(v)) && Identity(n, t, n[t.tracked + Slot(v)] / PAGE_SIZE)
  {
    hide SlotOf, Walk, Leaf, IsFree, LeastFree, Cleared, Marked, WithTable;
    PageParts(v, v);
    NewTableIdentity(m, t, v);
    WithTableSound(m, t, Slot(v));
    WithTableSlot(m, t, Slot(v));
    TableAddress(WithTable(m, t, Slot(v)), t, Slot(v));
  }
}
