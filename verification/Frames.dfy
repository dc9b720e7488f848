/** The physical frame allocator of src/kernel/mm/pmm.c, over one flat store of 32-bit words.

    The bitmap lies inside the memory it manages, at the end of the kernel.  `Allocated` and
    `Released` say what the two operations do to the store; the lemmas are about those. */
module Frames {
  import opened Bits
  import opened Machine

  const FRAME_SIZE := 4096
  const FRAME_WORDS := 1024
  const WORDS := 0x4000_0000       // the 32-bit physical address space, in words
  const MISSING_MEMORY_MAP := 1

  /** An entry of the Multiboot memory map. */
  datatype Region = Region(addr: nat, len: nat, kind: nat)

  ghost predicate IsMemory(m: seq<nat>) {
    |m| == WORDS && forall w :: 0 <= w < WORDS ==> m[w] < WORD_LIMIT
  }

  /** The addresses the linker fixes and the number of frames. */
  datatype Geometry = Geometry(kernelStart: nat, kernelEnd: nat, total: nat) {
    /** The first word of the bitmap. */
    function Bitmap(): nat {
      kernelEnd / 4
    }

    function Entries(): nat {
      (total + 31) / 32
    }

    /** The end of the bitmap, rounded up to a frame. */
    function BitmapEnd(): nat {
      (kernelEnd + 4 * Entries() + FRAME_SIZE - 1) / FRAME_SIZE * FRAME_SIZE
    }

    /** The frames of the kernel and of the bitmap. */
    predicate Reserved(f: nat) {
      || kernelStart / FRAME_SIZE <= f < (kernelEnd + FRAME_SIZE - 1) / FRAME_SIZE
      || kernelEnd / FRAME_SIZE <= f < BitmapEnd() / FRAME_SIZE
    }

    /** Kernel and bitmap fit in the memory that the map describes. */
    predicate Fits() {
      && kernelEnd % 4 == 0
      && BitmapEnd() / FRAME_SIZE <= total <= WORDS / FRAME_WORDS
    }

    /** The frames the search of pmm_alloc_frame looks at. */
    function Limit(): nat {
      total / 32 * 32
    }
  }

  predicate Used(m: seq<nat>, g: Geometry, f: nat)
    requires g.Bitmap() + f / 32 < |m|
  {
    Bit(m[g.Bitmap() + f / 32], f % 32)
  }

  lemma InBitmap(g: Geometry, f: nat)
    requires g.Fits() && f < 32 * g.Entries()
    ensures g.Bitmap() + f / 32 < g.Bitmap() + g.Entries() <= WORDS
  {
  }

  ghost predicate Sound(m: seq<nat>, g: Geometry) {
    IsMemory(m) && g.Fits()
  }

  ghost function FreeBelow(m: seq<nat>, g: Geometry, limit: nat): set<nat>
    requires Sound(m, g) && limit <= 32 * g.Entries()
  {
    set f | 0 <= f < limit && IsFree(m, g, f)
  }

  predicate IsFree(m: seq<nat>, g: Geometry, f: nat)
    requires |m| == WORDS && g.Fits()
  {
    f < 32 * g.Entries() && !Used(m, g, f)
  }

  /** The free frames of the machine. */
  ghost function Free(m: seq<nat>, g: Geometry): set<nat>
    requires Sound(m, g)
  {
    FreeBelow(m, g, g.total)
  }

  /** set_frame and clear_frame on the store. */
  function Marked(m: seq<nat>, g: Geometry, f: nat): (m': seq<nat>)
    requires g.Bitmap() + f / 32 < |m|
    ensures |m'| == |m|
  {
    var w := g.Bitmap() + f / 32;
    m[w := Or(m[w], Power(f % 32))]
  }

  function Released(m: seq<nat>, g: Geometry, f: nat): seq<nat>
    requires g.Bitmap() + f / 32 < |m| && m[g.Bitmap() + f / 32] < WORD_LIMIT
  {
    var w := g.Bitmap() + f / 32;
    assert Power(f % 32) < WORD_LIMIT by { ClearBit(m[w], f % 32); }
    m[w := And(m[w], Not(Power(f % 32)))]
  }

  lemma MarkedUses(m: seq<nat>, g: Geometry, f: nat)
    requires Sound(m, g) && f < 32 * g.Entries()
    ensures Sound(Marked(m, g, f), g)
    ensures forall h :: 0 <= h < 32 * g.Entries() ==> (IsFree(Marked(m, g, f), g, h) <==> h != f && IsFree(m, g, h))
  {
    SetBit(m[g.Bitmap() + f / 32], f % 32);
    forall h | 0 <= h < 32 * g.Entries()
      ensures IsFree(Marked(m, g, f), g, h) <==> h != f && IsFree(m, g, h)
    {
      if h / 32 == f / 32 {
        assert h == f <==> h % 32 == f % 32;
      }
    }
  }

  lemma ReleasedFrees(m: seq<nat>, g: Geometry, f: nat)
    requires Sound(m, g) && f < 32 * g.Entries()
    ensures Sound(Released(m, g, f), g)
    ensures forall h :: 0 <= h < 32 * g.Entries() ==> (IsFree(Released(m, g, f), g, h) <==> h == f || IsFree(m, g, h))
  {
    ClearBit(m[g.Bitmap() + f / 32], f % 32);
    forall h | 0 <= h < 32 * g.Entries()
      ensures IsFree(Released(m, g, f), g, h) <==> h == f || IsFree(m, g, h)
    {
      if h / 32 == f / 32 {
        assert h == f <==> h % 32 == f % 32;
      }
    }
  }

  /** The least free frame from f on, or the limit of the search. */
  function LeastFree(m: seq<nat>, g: Geometry, f: nat): nat
    requires |m| == WORDS && g.Fits() && f <= g.Limit()
    decreases g.Limit() - f
  {
    if f < g.Limit() && !IsFree(m, g, f) then LeastFree(m, g, f + 1) else f
  }

  lemma {:induction false} LeastFreeIsLeast(m: seq<nat>, g: Geometry, f: nat)
    requires |m| == WORDS && g.Fits() && f <= g.Limit()
    ensures f <= LeastFree(m, g, f) <= g.Limit() <= g.total
    ensures LeastFree(m, g, f) < g.Limit() ==> IsFree(m, g, LeastFree(m, g, f))
    ensures forall h :: f <= h < LeastFree(m, g, f) ==> !IsFree(m, g, h)
    decreases g.Limit() - f
  {
    if f < g.Limit() && !IsFree(m, g, f) {
      LeastFreeIsLeast(m, g, f + 1);
    }
  }

  /** pmm_alloc_frame: the store after it. */
  function Allocated(m: seq<nat>, g: Geometry): (m': seq<nat>)
    requires |m| == WORDS && g.Fits()
    ensures |m'| == WORDS
  {
    var f := LeastFree(m, g, 0);
    if f < g.Limit() then Marked(m, g, f) else m
  }

  /** Allocation takes the least free frame and nothing else; the free count drops by one. */
  lemma AllocatedTakesLeast(m: seq<nat>, g: Geometry)
    requires Sound(m, g)
    ensures var f := LeastFree(m, g, 0);
            && Sound(Allocated(m, g), g)
            && (f < g.Limit() ==>
                  && f in Free(m, g) && (forall h :: h in Free(m, g) ==> f <= h)
                  && Free(Allocated(m, g), g) == Free(m, g) - {f}
                  && |Free(Allocated(m, g), g)| == |Free(m, g)| - 1)
            && (f == g.Limit() ==> Allocated(m, g) == m)
  {
    var f := LeastFree(m, g, 0);
    LeastFreeIsLeast(m, g, 0);
    if f < g.Limit() {
      MarkedUses(m, g, f);
      assert Free(Allocated(m, g), g) == Free(m, g) - {f};
    }
  }

  /** The search fails exactly when nothing below the limit is free; at most 31 frames, those of
      the last partial word, can then still be counted free. */
  lemma AllocationFails(m: seq<nat>, g: Geometry)
    requires Sound(m, g)
    ensures LeastFree(m, g, 0) == g.Limit() <==> FreeBelow(m, g, g.Limit()) == {}
    ensures LeastFree(m, g, 0) == g.Limit() ==> |Free(m, g)| <= 31
  {
    LeastFreeIsLeast(m, g, 0);
    if LeastFree(m, g, 0) < g.Limit() {
      assert LeastFree(m, g, 0) in FreeBelow(m, g, g.Limit());
    } else {
      IntervalSize(Free(m, g), g.Limit(), g.total);
    }
  }

  lemma {:induction false} IntervalSize(s: set<nat>, lo: nat, hi: nat)
    requires lo <= hi && forall f :: f in s ==> lo <= f < hi
    ensures |s| <= hi - lo
    decreases hi - lo
  {
    if lo < hi {
      IntervalSize(s - {lo}, lo + 1, hi);
    } else {
      assert s == {};
    }
  }

  /** Freeing gives back exactly the frame. */
  lemma ReleasedGivesBack(m: seq<nat>, g: Geometry, f: nat)
    requires Sound(m, g) && f < g.total && !IsFree(m, g, f)
    ensures Sound(Released(m, g, f), g)
    ensures Free(Released(m, g, f), g) == Free(m, g) + {f}
    ensures |Free(Released(m, g, f), g)| == |Free(m, g)| + 1
  {
    ReleasedFrees(m, g, f);
    assert Free(Released(m, g, f), g) == Free(m, g) + {f};
  }

  /** What the holders of frames can do. */
  datatype Op =
    | Alloc
    | Release(frame: nat)
    | Store(frame: nat, index: nat, word: nat)

  /** The store and the frames handed out and not given back. */
  datatype State = State(m: seq<nat>, held: set<nat>)

  /** Holders free and write only what they hold. */
  predicate Allowed(s: State, op: Op) {
    match op
    case Alloc => true
    case Release(f) => f in s.held
    case Store(f, i, w) => f in s.held && i < FRAME_WORDS && w < WORD_LIMIT
  }

  /** The bitmap is intact: kernel, bitmap and held frames are marked, and distinct. */
  ghost predicate Safe(s: State, g: Geometry) {
    && Sound(s.m, g)
    && (forall f :: 0 <= f < g.total && g.Reserved(f) ==> !IsFree(s.m, g, f))
    && (forall f :: f in s.held ==> f < g.total && !g.Reserved(f) && !IsFree(s.m, g, f))
  }

  ghost function Next(s: State, g: Geometry, op: Op): State
    requires Safe(s, g) && Allowed(s, op)
  {
    match op
    case Alloc =>
      var f := LeastFree(s.m, g, 0);
      State(Allocated(s.m, g), if f < g.Limit() then s.held + {f} else s.held)
    case Release(f) =>
      InBitmap(g, f);
      State(Released(s.m, g, f), s.held - {f})
    case Store(f, i, w) => s.(m := s.m[f * FRAME_WORDS + i := w])
  }

  /** No word of a frame outside the reserved ones is a word of the bitmap. */
  lemma BitmapIsReserved(g: Geometry, f: nat, w: nat)
    requires g.Fits() && f < g.total && !g.Reserved(f) && f * FRAME_WORDS <= w < (f + 1) * FRAME_WORDS
    ensures w < WORDS && !(g.Bitmap() <= w < g.Bitmap() + g.Entries())
  {
  }

  /** A store to a frame that is not reserved leaves the whole bitmap as it was. */
  lemma StoreKeepsBitmap(m: seq<nat>, g: Geometry, f: nat, w: nat, value: nat)
    requires Sound(m, g) && f < g.total && !g.Reserved(f) && value < WORD_LIMIT
    requires f * FRAME_WORDS <= w < (f + 1) * FRAME_WORDS
    ensures w < WORDS && Sound(m[w := value], g)
    ensures forall b :: g.Bitmap() <= b < g.Bitmap() + g.Entries() ==> m[w := value][b] == m[b]
    ensures forall h :: 0 <= h < 32 * g.Entries() ==> (IsFree(m[w := value], g, h) <==> IsFree(m, g, h))
  {
    BitmapIsReserved(g, f, w);
    forall h | 0 <= h < 32 * g.Entries()
      ensures IsFree(m[w := value], g, h) <==> IsFree(m, g, h)
    {
      InBitmap(g, h);
    }
  }

  /** A step keeps the partition of the frames into reserved, held and free. */
  ghost predicate Keeps(s: State, t: State, g: Geometry) {
    && Safe(s, g) && Safe(t, g)
    && Free(t.m, g) + t.held == Free(s.m, g) + s.held
  }

  /** A frame that is handed out was neither held nor reserved. */
  lemma AllocIsSafe(s: State, g: Geometry)
    requires Safe(s, g)
    ensures var t, f := Next(s, g, Alloc), LeastFree(s.m, g, 0);
            && Keeps(s, t, g)
            && (t.held != s.held ==> t.held == s.held + {f} && f !in s.held && !g.Reserved(f))
  {
    hide Free, Bit;
    AllocatedTakesLeast(s.m, g);
    LeastFreeIsLeast(s.m, g, 0);
    if LeastFree(s.m, g, 0) < g.Limit() {
      MarkedUses(s.m, g, LeastFree(s.m, g, 0));
    }
  }

  lemma ReleaseIsSafe(s: State, g: Geometry, f: nat)
    requires Safe(s, g) && f in s.held
    ensures Keeps(s, Next(s, g, Release(f)), g)
  {
    hide IsFree, FreeBelow;
    ReleasedGivesBack(s.m, g, f);
    ReleasedFrees(s.m, g, f);
    assert s.held == s.held - {f} + {f};
  }

  lemma StoreIsSafe(s: State, g: Geometry, f: nat, i: nat, w: nat)
    requires Safe(s, g) && Allowed(s, Store(f, i, w))
    ensures Keeps(s, Next(s, g, Store(f, i, w)), g)
    ensures Free(Next(s, g, Store(f, i, w)).m, g) == Free(s.m, g)
  {
    StoreKeepsBitmap(s.m, g, f, f * FRAME_WORDS + i, w);
  }

  lemma StepIsSafe(s: State, g: Geometry, op: Op)
    requires Safe(s, g) && Allowed(s, op)
    ensures Keeps(s, Next(s, g, op), g)
  {
    match op
    case Alloc => AllocIsSafe(s, g);
    case Release(f) => ReleaseIsSafe(s, g, f);
    case Store(f, i, w) => StoreIsSafe(s, g, f, i, w);
  }

  /** A run in which every step is allowed. */
  ghost predicate Run(states: seq<State>, ops: seq<Op>, g: Geometry) {
    && |states| == |ops| + 1 && Safe(states[0], g)
    && forall k :: 0 <= k < |ops| ==> RunStep(states[k], ops[k], g, states[k + 1])
  }

  ghost predicate RunStep(s: State, op: Op, g: Geometry, t: State) {
    Safe(s, g) ==> Allowed(s, op) && t == Next(s, g, op)
  }

  /** Over every run the bitmap protects itself: whatever the holders write, no frame is lost and
      none is both free and held... */
  lemma {:induction false} RunIsSafe(states: seq<State>, ops: seq<Op>, g: Geometry, n: nat)
    requires Run(states, ops, g) && n <= |ops|
    ensures Safe(states[n], g)
    ensures Free(states[n].m, g) + states[n].held == Free(states[0].m, g) + states[0].held
    ensures Free(states[n].m, g) !! states[n].held
  {
    if n != 0 {
      RunIsSafe(states, ops, g, n - 1);
      assert RunStep(states[n - 1], ops[n - 1], g, states[n - 1 + 1]);
      StepIsSafe(states[n - 1], g, ops[n - 1]);
    }
  }

  /** ...and no allocation ever hands out a held, kernel or bitmap frame. */
  lemma RunAllocatesFresh(states: seq<State>, ops: seq<Op>, g: Geometry, n: nat)
    requires Run(states, ops, g) && n < |ops| && ops[n] == Alloc && states[n + 1].held != states[n].held
    ensures Sound(states[n].m, g)
    ensures var f := LeastFree(states[n].m, g, 0);
            states[n + 1].held == states[n].held + {f} && f !in states[n].held && !g.Reserved(f)
  {
    RunIsSafe(states, ops, g, n);
    assert RunStep(states[n], ops[n], g, states[n + 1]);
    AllocIsSafe(states[n], g);
  }

  lemma LeastFreeAtLimit(m: seq<nat>, g: Geometry)
    requires |m| == WORDS && g.Fits()
    ensures LeastFree(m, g, g.Limit()) == g.Limit()
  {
  }

  lemma {:induction false} LeastFreeSkips(m: seq<nat>, g: Geometry, f: nat, n: nat)
    requires |m| == WORDS && g.Fits() && f + n <= g.Limit()
    requires forall h :: f <= h < f + n ==> !IsFree(m, g, h)
    ensures LeastFree(m, g, f) == LeastFree(m, g, f + n)
    decreases n
  {
    if n != 0 {
      LeastFreeSkips(m, g, f + 1, n - 1);
    }
  }

  /** Of the bits of word i of the bitmap: frame 32 * i + j is used exactly when bit j is set. */
  lemma WordOfFrame(m: seq<nat>, g: Geometry, i: nat, j: nat)
    requires Sound(m, g) && i < g.Entries() && j < 32
    ensures IsFree(m, g, 32 * i + j) <==> And(m[g.Bitmap() + i], Power(j)) == 0
  {
    assert (32 * i + j) / 32 == i && (32 * i + j) % 32 == j;
    TestBit(m[g.Bitmap() + i], j);
  }

  lemma FullWord(m: seq<nat>, g: Geometry, i: nat)
    requires Sound(m, g) && i < g.Entries() && m[g.Bitmap() + i] == ALL_ONES
    ensures forall h :: 32 * i <= h < 32 * i + 32 ==> !IsFree(m, g, h)
  {
    forall h | 32 * i <= h < 32 * i + 32
      ensures !IsFree(m, g, h)
    {
      assert h / 32 == i && h % 32 < 32;
      AllOnesBit(h % 32);
    }
  }

  /** Frames that a usable region of the map covers, in the source's arithmetic: 64-bit sums, and
      frame numbers cut to 32 bits. */
  predicate Covers(r: Region, f: nat) {
    r.kind == 1 && r.addr / FRAME_SIZE % WORD_LIMIT <= f < (r.addr + r.len) % WIDE_LIMIT / FRAME_SIZE % WORD_LIMIT
  }

  const WIDE_LIMIT := WORD_LIMIT * WORD_LIMIT

  predicate Covered(map_: seq<Region>, f: nat) {
    exists k :: 0 <= k < |map_| && Covers(map_[k], f)
  }

  /** The highest region end, cut to 32 bits. */
  function Highest(map_: seq<Region>): nat {
    if map_ == [] then 0 else
    var last := map_[|map_| - 1];
    var end := (last.addr + last.len) % WORD_LIMIT;
    var before := Highest(map_[..|map_| - 1]);
    if end > before then end else before
  }

  /** It is the largest of them, or 0. */
  lemma {:induction false} HighestIsLargest(map_: seq<Region>)
    ensures forall k :: 0 <= k < |map_| ==> (map_[k].addr + map_[k].len) % WORD_LIMIT <= Highest(map_)
    ensures Highest(map_) == 0 || exists k :: 0 <= k < |map_| && (map_[k].addr + map_[k].len) % WORD_LIMIT == Highest(map_)
  {
    if map_ != [] {
      var front := map_[..|map_| - 1];
      HighestIsLargest(front);
      assert forall k :: 0 <= k < |front| ==> map_[k] == front[k];
    }
  }

  /** total_frames cuts off no frame of a usable region that ends within 32 bits. */
  lemma NoFrameCutOff(map_: seq<Region>, f: nat)
    requires forall k :: 0 <= k < |map_| && map_[k].kind == 1 ==> map_[k].addr + map_[k].len < WORD_LIMIT
    ensures f < Highest(map_) / FRAME_SIZE && Covered(map_, f)
       <==> exists k :: 0 <= k < |map_| && map_[k].kind == 1
                        && map_[k].addr / FRAME_SIZE <= f < (map_[k].addr + map_[k].len) / FRAME_SIZE
  {
    hide Covers, Highest;
    HighestIsLargest(map_);
    forall k | 0 <= k < |map_|
      ensures var r := map_[k];
              Covers(r, f) <==> r.kind == 1 && r.addr / FRAME_SIZE <= f < (r.addr + r.len) / FRAME_SIZE
      ensures Covers(map_[k], f) ==> f < Highest(map_) / FRAME_SIZE
    {
      RegionCut(map_[k], Highest(map_), f);
    }
  }

  lemma RegionCut(r: Region, high: nat, f: nat)
    requires r.kind == 1 ==> r.addr + r.len < WORD_LIMIT
    requires (r.addr + r.len) % WORD_LIMIT <= high
    ensures Covers(r, f) <==> r.kind == 1 && r.addr / FRAME_SIZE <= f < (r.addr + r.len) / FRAME_SIZE
    ensures Covers(r, f) ==> f < high / FRAME_SIZE
  {
    if r.kind == 1 { CoversPlainly(r, f); }
  }

  /** The usual map of a machine with 128 MB: the firmware's region ends at 4 GB, which is cut to 0, so
      that the memory decides. */
  lemma UsualMap()
    ensures Highest([Region(0, 0x9_FC00, 1), Region(0x10_0000, 0x7EE_0000, 1), Region(0x7FE_0000, 0x2_0000, 2),
                     Region(0xFFFC_0000, 0x4_0000, 2)]) / FRAME_SIZE == 0x8000
  {
    var m := [Region(0, 0x9_FC00, 1), Region(0x10_0000, 0x7EE_0000, 1), Region(0x7FE_0000, 0x2_0000, 2),
              Region(0xFFFC_0000, 0x4_0000, 2)];
    HighestIsLargest(m);
    assert (m[2].addr + m[2].len) % WORD_LIMIT == 0x800_0000;
  }

  /** When no region ends beyond 32 bits, the cuts change nothing. */
  lemma CoversPlainly(r: Region, f: nat)
    requires r.addr + r.len < WORD_LIMIT
    ensures Covers(r, f) <==> r.kind == 1 && r.addr / FRAME_SIZE <= f < (r.addr + r.len) / FRAME_SIZE
  {
  }

  /** Nothing but the bitmap differs. */
  ghost predicate OnlyBitmap(m: seq<nat>, m2: seq<nat>, g: Geometry) {
    && |m| == |m2| == WORDS
    && forall w :: 0 <= w < WORDS && !(g.Bitmap() <= w < g.Bitmap() + g.Entries()) ==> m2[w] == m[w]
  }

  lemma MarkedInBitmap(m: seq<nat>, m2: seq<nat>, g: Geometry, f: nat)
    requires Sound(m2, g) && f < 32 * g.Entries() && OnlyBitmap(m, m2, g)
    ensures OnlyBitmap(m, Marked(m2, g, f), g)
  {
    InBitmap(g, f);
  }

  lemma ReleasedInBitmap(m: seq<nat>, m2: seq<nat>, g: Geometry, f: nat)
    requires Sound(m2, g) && f < 32 * g.Entries() && OnlyBitmap(m, m2, g)
    ensures OnlyBitmap(m, Released(m2, g, f), g)
  {
    InBitmap(g, f);
  }

  /** The allocator.  kernelStart and kernelEnd are the linker's symbols. */
  class FrameAllocator {
    const mem: array<nat>
    const kernelStart: nat
    const kernelEnd: nat
    var bitmap: nat
    var totalFrames: nat

    ghost function Geo(): Geometry
      reads this
    {
      Geometry(kernelStart, kernelEnd, totalFrames)
    }

    ghost predicate Valid()
      reads this, mem
    {
      Sound(mem[..], Geo()) && bitmap == Geo().Bitmap()
    }

    constructor (mem: array<nat>, kernelStart: nat, kernelEnd: nat)
      ensures this.mem == mem && this.kernelStart == kernelStart && this.kernelEnd == kernelEnd
    {
      this.mem, this.kernelStart, this.kernelEnd := mem, kernelStart, kernelEnd;
      bitmap, totalFrames := 0, 0;
    }

    /** set_frame. */
    method SetFrame(frame: nat)
      requires Valid() && frame < 32 * Geo().Entries()
      modifies mem
      ensures Valid() && mem[..] == Marked(old(mem[..]), Geo(), frame)
    {
      MarkedUses(mem[..], Geo(), frame);
      var w := bitmap + frame / 32;
      mem[w] := Or(mem[w], Power(frame % 32));
      assert mem[..] == Marked(old(mem[..]), Geo(), frame);
    }

    /** clear_frame. */
    method ClearFrame(frame: nat)
      requires Valid() && frame < 32 * Geo().Entries()
      modifies mem
      ensures Valid() && mem[..] == Released(old(mem[..]), Geo(), frame)
    {
      ReleasedFrees(mem[..], Geo(), frame);
      var w := bitmap + frame / 32;
      ClearBit(mem[w], frame % 32);
      mem[w] := And(mem[w], Not(Power(frame % 32)));
      assert mem[..] == Released(old(mem[..]), Geo(), frame);
    }

    /** The inner loop of first_free_frame: the first clear bit of word i, or 32. */
    method FirstClearBit(i: nat) returns (j: nat)
      requires Valid() && 32 * i + 32 <= Geo().Limit()
      ensures j <= 32
      ensures LeastFree(mem[..], Geo(), 32 * i) ==
              if j < 32 then 32 * i + j else LeastFree(mem[..], Geo(), 32 * (i + 1))
    {
      hide Used, IsFree;
      ghost var m, g := mem[..], Geo();
      j := 0;
      while j < 32
        invariant j <= 32
        invariant forall h :: 32 * i <= h < 32 * i + j ==> !IsFree(m, g, h)
      {
        WordOfFrame(m, g, i, j);
        if And(mem[bitmap + i], Power(j)) == 0 {
          break;
        }
        j := j + 1;
      }
      LeastFreeSkips(m, g, 32 * i, j);
    }

    /** first_free_frame. */
    method FirstFreeFrame() returns (r: int)
      requires Valid()
      ensures r == if LeastFree(mem[..], Geo(), 0) < Geo().Limit() then LeastFree(mem[..], Geo(), 0) else -1
    {
      hide LeastFree, IsFree, Bit;
      ghost var m, g := mem[..], Geo();
      var i := 0;
      while i < totalFrames / 32
        invariant 0 <= i <= totalFrames / 32 && LeastFree(m, g, 0) == LeastFree(m, g, 32 * i)
      {
        if mem[bitmap + i] != ALL_ONES {
          var j := FirstClearBit(i);
          if j < 32 {
            return i * 32 + j;
          }
        } else {
          FullWord(m, g, i);
          LeastFreeSkips(m, g, 32 * i, 32);
        }
        i := i + 1;
      }
      LeastFreeAtLimit(m, g);
      return -1;
    }

    /** pmm_alloc_frame: an address, or 0 for failure -- and for frame 0. */
    method AllocFrame() returns (address: nat)
      requires Valid()
      modifies mem
      ensures Valid() && mem[..] == Allocated(old(mem[..]), Geo())
      ensures var f := LeastFree(old(mem[..]), Geo(), 0);
              address == if f < Geo().Limit() then f * FRAME_SIZE else 0
    {
      LeastFreeIsLeast(mem[..], Geo(), 0);
      var frame := FirstFreeFrame();
      if frame == -1 {
        return 0;
      }
      SetFrame(frame);
      return frame * FRAME_SIZE;
    }

    /** pmm_free_frame; callers free addresses inside the memory. */
    method FreeFrame(address: nat)
      requires Valid() && address / FRAME_SIZE < totalFrames
      modifies mem
      ensures Valid() && mem[..] == Released(old(mem[..]), Geo(), address / FRAME_SIZE)
    {
      ClearFrame(address / FRAME_SIZE);
    }

    /** pmm_get_free_frames counts the free frames. */
    method GetFreeFrames() returns (free: nat)
      requires Valid()
      ensures free == |Free(mem[..], Geo())|
    {
      hide Bit, Power, Used;
      ghost var m, g := mem[..], Geo();
      free := 0;
      var i := 0;
      assert FreeBelow(m, g, 0) == {};
      while i < totalFrames
        invariant 0 <= i <= totalFrames && free == |FreeBelow(m, g, i)|
      {
        var index, bit := i / 32, i % 32;
        WordOfFrame(m, g, index, bit);
        assert FreeBelow(m, g, i + 1) == FreeBelow(m, g, i) + if IsFree(m, g, i) then {i} else {};
        if And(mem[bitmap + index], Power(bit)) == 0 {
          free := free + 1;
        }
        i := i + 1;
      }
    }

    /** One of the two reserving loops of pmm_init. */
    method Reserve(from: nat, to: nat)
      requires Valid() && to <= 32 * Geo().Entries()
      modifies mem
      ensures Valid() && OnlyBitmap(old(mem[..]), mem[..], Geo())
      ensures forall f :: 0 <= f < 32 * Geo().Entries() ==>
                (IsFree(mem[..], Geo(), f) <==> IsFree(old(mem[..]), Geo(), f) && !(from <= f < to))
    {
      hide IsFree, Marked;
      ghost var m, g := mem[..], Geo();
      var f := from;
      while f < to
        invariant Valid() && from <= f && (f <= to || f == from) && OnlyBitmap(m, mem[..], g)
        invariant forall h :: 0 <= h < 32 * g.Entries() ==>
                    (IsFree(mem[..], g, h) <==> IsFree(m, g, h) && !(from <= h < f))
      {
        MarkedUses(mem[..], g, f);
        MarkedInBitmap(m, mem[..], g, f);
        SetFrame(f);
        f := f + 1;
      }
    }

    /** The loop of pmm_init over one usable region. */
    method ReleaseRegion(from: nat, to: nat)
      requires Valid()
      modifies mem
      ensures Valid() && OnlyBitmap(old(mem[..]), mem[..], Geo())
      ensures forall f :: 0 <= f < 32 * Geo().Entries() ==>
                (IsFree(mem[..], Geo(), f) <==> IsFree(old(mem[..]), Geo(), f) || (f < totalFrames && from <= f < to))
    {
      hide IsFree, Released;
      ghost var m, g := mem[..], Geo();
      var f := from;
      while f < to
        invariant Valid() && from <= f && (f <= to || f == from) && OnlyBitmap(m, mem[..], g)
        invariant forall h :: 0 <= h < 32 * g.Entries() ==>
                    (IsFree(mem[..], g, h) <==> IsFree(m, g, h) || (h < totalFrames && from <= h < f))
      {
        if f < totalFrames {
          ReleasedFrees(mem[..], g, f);
          ReleasedInBitmap(m, mem[..], g, f);
          ClearFrame(f);
        }
        f := f + 1;
      }
    }

    /** The first loop of pmm_init. */
    static method FindHighest(map_: seq<Region>) returns (highest: nat)
      ensures highest == Highest(map_) < WORD_LIMIT
      ensures forall k :: 0 <= k < |map_| ==> (map_[k].addr + map_[k].len) % WORD_LIMIT <= highest
      ensures highest == 0 || exists k :: 0 <= k < |map_| && (map_[k].addr + map_[k].len) % WORD_LIMIT == highest
    {
      highest := 0;
      var k := 0;
      while k < |map_|
        invariant k <= |map_| && highest == Highest(map_[..k]) < WORD_LIMIT
      {
        assert map_[..k + 1][..k] == map_[..k];
        var regionEnd := (map_[k].addr + map_[k].len) % WORD_LIMIT;
        if regionEnd > highest {
          highest := regionEnd;
        }
        k := k + 1;
      }
      assert map_[..k] == map_;
      HighestIsLargest(map_);
    }

    /** The second loop over the map: usable regions are released. */
    method ReleaseUsable(map_: seq<Region>)
      requires Valid() && forall f :: 0 <= f < 32 * Geo().Entries() ==> !IsFree(mem[..], Geo(), f)
      modifies mem
      ensures Valid() && OnlyBitmap(old(mem[..]), mem[..], Geo())
      ensures forall f :: 0 <= f < 32 * Geo().Entries() ==>
                (IsFree(mem[..], Geo(), f) <==> f < totalFrames && Covered(map_, f))
    {
      var k := 0;
      while k < |map_|
        invariant k <= |map_| && Valid() && OnlyBitmap(old(mem[..]), mem[..], Geo())
        invariant forall f :: 0 <= f < 32 * Geo().Entries() ==>
                    (IsFree(mem[..], Geo(), f) <==> f < totalFrames && Covered(map_[..k], f))
      {
        CoveredOneMore(map_, k);
        if map_[k].kind == 1 {
          ReleaseRegion(map_[k].addr / FRAME_SIZE % WORD_LIMIT,
                        (map_[k].addr + map_[k].len) % WIDE_LIMIT / FRAME_SIZE % WORD_LIMIT);
        }
        k := k + 1;
      }
      assert map_[..k] == map_;
    }

    /** pmm_init: total_frames is that of the highest region end; afterwards exactly the frames of usable
        regions are free that lie below it and belong neither to the kernel nor to the bitmap; the
        padding bits of the last word stay set, and only the bitmap was written. */
    method Init(flags: nat, map_: seq<Region>) returns (status: nat)
      requires IsMemory(mem[..])
      requires Geometry(kernelStart, kernelEnd, Highest(map_) / FRAME_SIZE).Fits()
      modifies this`bitmap, this`totalFrames, mem
      ensures status == if Bit(flags, 6) then 0 else MISSING_MEMORY_MAP
      ensures status != 0 ==> unchanged(this) && unchanged(mem)
      ensures status == 0 ==>
                && Valid() && totalFrames == Highest(map_) / FRAME_SIZE
                && (forall k :: 0 <= k < |map_| ==> (map_[k].addr + map_[k].len) % WORD_LIMIT / FRAME_SIZE <= totalFrames)
                && (totalFrames == 0 ||
                    exists k :: 0 <= k < |map_| && (map_[k].addr + map_[k].len) % WORD_LIMIT / FRAME_SIZE == totalFrames)
                && (forall f :: 0 <= f < 32 * Geo().Entries() ==>
                      (IsFree(mem[..], Geo(), f) <==> f < totalFrames && Covered(map_, f) && !Geo().Reserved(f)))
                && (forall w :: 0 <= w < WORDS && !(bitmap <= w < bitmap + Geo().Entries()) ==> mem[w] == old(mem[w]))
    {
      TestBit(flags, 6);
      if And(flags, Power(6)) == 0 {
        return MISSING_MEMORY_MAP;
      }
      var highest := FindHighest(map_);
      totalFrames := highest / FRAME_SIZE;
      bitmap := kernelEnd / 4;
      var entries := (totalFrames + 31) / 32;
      var past := kernelEnd + 4 * entries + FRAME_SIZE - 1;
      var bitmapEnd := AlignedEnd(past, Geo());
      Populate(map_, entries, bitmapEnd);
      return 0;
    }

    /** The page boundary that the bitmap ends at or before. */
    static method AlignedEnd(past: nat, ghost g: Geometry) returns (end: nat)
      requires g.Fits() && g.total < WORD_LIMIT / FRAME_SIZE && past == g.kernelEnd + 4 * g.Entries() + FRAME_SIZE - 1
      ensures end == g.BitmapEnd()
    {
      hide And;
      KernelBelowBitmap(g);
      end := And(past, Not(FRAME_SIZE - 1));
      PageMask(past);
    }

    /** The rest of pmm_init, once the bitmap is placed. */
    method Populate(map_: seq<Region>, entries: nat, bitmapEnd: nat)
      requires IsMemory(mem[..]) && Geo().Fits() && totalFrames < WORD_LIMIT / FRAME_SIZE
      requires bitmap == Geo().Bitmap() && entries == Geo().Entries() && bitmapEnd == Geo().BitmapEnd()
      modifies mem
      ensures Valid()
      ensures forall f :: 0 <= f < 32 * entries ==>
                (IsFree(mem[..], Geo(), f) <==> f < totalFrames && Covered(map_, f) && !Geo().Reserved(f))
      ensures forall w :: 0 <= w < WORDS && !(bitmap <= w < bitmap + entries) ==> mem[w] == old(mem[w])
    {
      FillBitmap(entries);
      ReleaseUsable(map_);
      KernelBelowBitmap(Geo());
      Reserve(kernelStart / FRAME_SIZE, (kernelEnd + FRAME_SIZE - 1) / FRAME_SIZE);
      Reserve(kernelEnd / FRAME_SIZE, bitmapEnd / FRAME_SIZE);
    }

    /** The memset of pmm_init, a word at a time. */
    method FillBitmap(entries: nat)
      requires IsMemory(mem[..]) && Geo().Fits() && bitmap == Geo().Bitmap() && entries == Geo().Entries()
      modifies mem
      ensures Valid()
      ensures forall w :: 0 <= w < WORDS && !(bitmap <= w < bitmap + entries) ==> mem[w] == old(mem[w])
      ensures forall f :: 0 <= f < 32 * entries ==> !IsFree(mem[..], Geo(), f)
    {
      var i := 0;
      while i < entries
        invariant 0 <= i <= entries && IsMemory(mem[..])
        invariant forall w :: 0 <= w < WORDS && !(bitmap <= w < bitmap + entries) ==> mem[w] == old(mem[w])
        invariant forall w :: bitmap <= w < bitmap + i ==> mem[w] == ALL_ONES
      {
        mem[bitmap + i] := ALL_ONES;
        i := i + 1;
      }
      forall f | 0 <= f < 32 * entries
        ensures !IsFree(mem[..], Geo(), f)
      {
        FullWord(mem[..], Geo(), f / 32);
      }
    }
  }

  /** The end of the bitmap does not overflow 32 bits, and the kernel ends before it. */
  lemma KernelBelowBitmap(g: Geometry)
    requires g.Fits() && g.total < WORD_LIMIT / FRAME_SIZE
    ensures g.kernelEnd + 4 * g.Entries() + FRAME_SIZE - 1 < WORD_LIMIT
    ensures (g.kernelEnd + FRAME_SIZE - 1) / FRAME_SIZE <= g.BitmapEnd() / FRAME_SIZE <= 32 * g.Entries()
  {
  }

  /** The reserved frames are exactly those that hold a byte of the kernel or of the bitmap. */
  lemma ReservedIff(g: Geometry, f: nat)
    requires g.kernelStart < g.kernelEnd
    ensures g.Reserved(f) <==> f * FRAME_SIZE < g.kernelEnd + 4 * g.Entries() && g.kernelStart < (f + 1) * FRAME_SIZE
  {
    FrameMeets(g.kernelStart, g.kernelEnd + 4 * g.Entries(), f);
    FrameMeets(g.kernelStart, g.kernelEnd, f);
    FrameMeets(g.kernelEnd, g.kernelEnd + 4 * g.Entries(), f);
  }

  lemma FrameMeets(from: nat, to: nat, f: nat)
    ensures from / FRAME_SIZE <= f < (to + FRAME_SIZE - 1) / FRAME_SIZE <==> f * FRAME_SIZE < to && from < (f + 1) * FRAME_SIZE
  {
  }

  lemma CoveredOneMore(map_: seq<Region>, k: nat)
    requires k < |map_|
    ensures forall f :: Covered(map_[..k + 1], f) <==> Covered(map_[..k], f) || Covers(map_[k], f)
  {
    forall f
      ensures Covered(map_[..k + 1], f) <==> Covered(map_[..k], f) || Covers(map_[k], f)
    {
      assert map_[..k + 1][k] == map_[k];
      assert forall i :: 0 <= i < k ==> map_[..k + 1][i] == map_[..k][i];
    }
  }
}
