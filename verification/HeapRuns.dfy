/** Whole runs of kmalloc, kfree and the owners' stores (src/kernel/mm/heap.c), and the exact tiling
    that the repaired layout keeps. */
module HeapRuns {
  import opened HeapList
  import opened HeapMemory
  import opened Machine

  // ---- The tiling ----------------------------------------------------------------------------

  /** In a tiling the footprints add up to the heap range. */
  lemma {:induction false} TiledFrom(h: Heap, i: nat)
    requires Tiled(h) && i <= |h.blocks|
    ensures i < |h.blocks| ==> h.blocks[i].addr + Footprint(h.blocks[i..]) == h.end
    decreases |h.blocks| - i
  {
    if i < |h.blocks| {
      assert Gap(h, i) == TAIL;
      assert h.blocks[i..][1..] == h.blocks[i + 1..];
      TiledFrom(h, i + 1);
    }
  }

  lemma TiledFootprint(h: Heap, reserve: nat)
    requires Ordered(h, reserve) && Tiled(h)
    ensures KERNEL_HEAP_START + Footprint(h.blocks) == h.end
  {
    TiledFrom(h, 0);
    assert h.blocks[0..] == h.blocks;
  }

  /** In a tiling every merge has room for its tail, away from the links that it still has to read. */
  lemma TiledMergeable(h: Heap, i: nat)
    requires Tiled(h) && i < |h.blocks|
    ensures Mergeable(h, i, TAIL) && LinksClear(h, i)
  {
    assert forall j :: 0 <= j < |h.blocks| ==> Gap(h, j) == TAIL;
  }

  lemma AbsorbedTiled(h: Heap, i: nat)
    requires Tiled(h) && i + 1 < |h.blocks|
    ensures Tiled(h.(blocks := Absorbed(h.blocks, i)))
  {
    var h' := h.(blocks := Absorbed(h.blocks, i));
    forall j | 0 <= j < |h'.blocks| ensures Gap(h', j) == TAIL {
      AbsorbedBlock(h.blocks, i, 0);
      AbsorbedGap(h, i, j);
    }
  }

  lemma ReleasedTiled(h: Heap, i: nat)
    requires Tiled(h) && i < |h.blocks|
    ensures Tiled(h.(blocks := Released(h.blocks, i)))
  {
    var h1 := h.(blocks := Marked(h.blocks, i));
    assert forall j :: 0 <= j < |h1.blocks| ==> Gap(h1, j) == Gap(h, j);
    var h2 := h.(blocks := MergedNext(h1.blocks, i));
    if i + 1 < |h1.blocks| && h1.blocks[i + 1].free { AbsorbedTiled(h1, i); }
    if 0 < i && h2.blocks[i - 1].free { AbsorbedTiled(h2, i - 1); }
  }

  lemma TrimmedTiled(h: Heap)
    requires Tiled(h)
    ensures Tiled(Trimmed(h, TAIL))
  {
    var h' := Trimmed(h, TAIL);
    forall j | 0 <= j < |h'.blocks| ensures Gap(h', j) == TAIL {
      assert Gap(h, j) == TAIL;
    }
  }

  lemma FreeTiled(h: Heap, i: nat)
    requires Tiled(h) && i < |h.blocks|
    ensures Tiled(Free(h, i, TAIL))
  {
    ReleasedTiled(h, i);
    TrimmedTiled(h.(blocks := Released(h.blocks, i)));
  }

  lemma RequestTiled(h: Heap, size: nat)
    requires Tiled(h)
    ensures Tiled(Request(h, size, TAIL).heap)
  {
    var h' := Request(h, size, TAIL).heap;
    if Guard(h.end, size) && h.blocks != [] {
      var i := FirstFit(h.blocks, size);
      FirstFitFits(h.blocks, size);
      forall j | 0 <= j < |h'.blocks| ensures Gap(h', j) == TAIL {
        if i < |h.blocks| {
          assert Gap(h, i) == TAIL;
          ServedBlock(h, i, size, TAIL, j);
        } else if j < |h.blocks| {
          assert Gap(h, j) == TAIL;
          assert h'.blocks[j] == h.blocks[j];
        }
      }
    }
  }

  // ---- Runs ----------------------------------------------------------------------------------

  /** The heap and the memory that it lies in. */
  datatype State = State(m: Memory, h: Heap)

  /** A call of kmalloc, a call of kfree on the payload of a block, or a store of one word by the
      owner of a block. */
  datatype Call = Allocate(request: nat) | Release(block: Block) | Store(block: Block, a: nat, value: nat)

  /** The index of a block; the number of blocks if it is not there. */
  function Find(blocks: seq<Block>, b: Block): (i: nat)
    ensures i <= |blocks|
    ensures i < |blocks| ==> blocks[i] == b
    ensures b in blocks ==> i < |blocks|
  {
    if blocks == [] || blocks[0] == b then 0 else 1 + Find(blocks[1..], b)
  }

  function Step(s: State, call: Call, reserve: nat): State {
    match call
    case Allocate(request) => State(MallocMemory(s.m, s.h, request, reserve), Malloc(s.h, request, reserve).heap)
    case Release(b) =>
      var i := Find(s.h.blocks, b);
      if i < |s.h.blocks| then State(FreeMemory(s.m, s.h, i, reserve), Free(s.h, i, reserve)) else s
    case Store(b, a, value) => s.(m := Put(s.m, a, value))
  }

  function Run(s: State, calls: seq<Call>, reserve: nat): State
    decreases |calls|
  {
    if calls == [] then s else Run(Step(s, calls[0], reserve), calls[1..], reserve)
  }

  /** What the heap asks of its callers: 32-bit sizes whose footprint does not wrap, and release of
      and stores into blocks in use. */
  predicate FairCall(s: State, call: Call) {
    match call
    case Allocate(request) => request < WORD_LIMIT && !Wraps(s.h.end, Aligned(request))
    case Release(b) => b in Live(s.h.blocks)
    case Store(b, a, _) => b in Live(s.h.blocks) && Owns(b, a)
  }

  /** The calls that the code as written survives. */
  predicate Safe(s: State, call: Call) {
    call.Release? ==> var i := Find(s.h.blocks, call.block); i < |s.h.blocks| ==> SafeRelease(s.h, i)
  }

  /** Every call of a run is fair and, in the code as written, safe. */
  predicate Permitted(s: State, calls: seq<Call>, reserve: nat)
    decreases |calls|
  {
    calls == [] ||
    (FairCall(s, calls[0]) && (reserve == 0 ==> Safe(s, calls[0])) && Permitted(Step(s, calls[0], reserve), calls[1..], reserve))
  }

  /** The invariant: an ordered, coalesced list whose headers, links and tails are in memory; with the
      repaired layout the blocks tile the heap. */
  ghost predicate Good(s: State, reserve: nat) {
    && Layout(reserve) && Sound(s.h, reserve) && TopRoom(s.h) && Linked(s.m, s.h) && Guarded(s.m, s.h)
    && (reserve == TAIL ==> Tiled(s.h))
  }

  lemma GoodIsOrdered(s: State, reserve: nat)
    requires Good(s, reserve)
    ensures Ordered(s.h, 0)
  {
    Weaker(s.h, reserve);
  }

  lemma AllocateGood(s: State, request: nat, reserve: nat)
    requires Good(s, reserve) && request < WORD_LIMIT
    ensures Good(Step(s, Allocate(request), reserve), reserve)
  {
    MallocSound(s.h, request, reserve);
    MallocCorrect(s.m, s.h, request, reserve);
    if request > 0 && Aligned(request) >= request {
      RequestTopRoom(s.h, Aligned(request), reserve);
      if reserve == TAIL { RequestTiled(s.h, Aligned(request)); }
    }
  }

  lemma ReleaseIsSafe(s: State, i: nat, reserve: nat)
    requires Good(s, reserve) && i < |s.h.blocks|
    requires reserve == 0 ==> SafeRelease(s.h, i)
    ensures Ordered(s.h, 0) && Mergeable(s.h, i, reserve) && Mergeable(s.h, i, 0) && LinksClear(s.h, i)
  {
    GoodIsOrdered(s, reserve);
    if reserve == TAIL { TiledMergeable(s.h, i); }
  }

  lemma ReleaseGood(s: State, i: nat, reserve: nat)
    requires Good(s, reserve) && i < |s.h.blocks|
    requires reserve == 0 ==> SafeRelease(s.h, i)
    ensures Good(State(FreeMemory(s.m, s.h, i, reserve), Free(s.h, i, reserve)), reserve)
  {
    ReleaseIsSafe(s, i, reserve);
    if reserve == TAIL { FreeTiled(s.h, i); }
    FreeSound(s.h, i, reserve);
    FreeTopRoom(s.h, i, reserve);
    FreeCorrect(s.m, s.h, i, reserve);
  }

  /** A payload word is in no header and is no tail. */
  lemma StoreOutside(h: Heap, i: nat, a: nat, j: nat)
    requires Ordered(h, 0) && i < |h.blocks| && j < |h.blocks| && Owns(h.blocks[i], a)
    ensures a < h.blocks[j].addr || h.blocks[j].addr + HEADER <= a
    ensures a != h.blocks[j].End()
  {
    OutsideHeader(h, j, i, a);
    if j < i { Apart(h, 0, j, i); }
    if i < j { Apart(h, 0, i, j); }
  }

  lemma StoreGood(s: State, i: nat, a: nat, value: nat, reserve: nat)
    requires Good(s, reserve) && i < |s.h.blocks| && Owns(s.h.blocks[i], a)
    ensures Good(s.(m := Put(s.m, a, value)), reserve)
  {
    GoodIsOrdered(s, reserve);
    var m' := Put(s.m, a, value);
    forall j | 0 <= j < |s.h.blocks|
      ensures HeaderAt(m', s.h.blocks[j].addr) == Expected(s.h.blocks, j)
      ensures TailOf(m', s.h.blocks[j]) == MAGIC
    {
      assert HeaderAt(s.m, s.h.blocks[j].addr) == Expected(s.h.blocks, j);
      assert TailOf(s.m, s.h.blocks[j]) == MAGIC;
      StoreOutside(s.h, i, a, j);
    }
  }

  lemma StepGood(s: State, call: Call, reserve: nat)
    requires Good(s, reserve) && FairCall(s, call) && (reserve == 0 ==> Safe(s, call))
    ensures Good(Step(s, call, reserve), reserve)
  {
    match call
    case Allocate(request) => AllocateGood(s, request, reserve);
    case Release(b) => ReleaseGood(s, Find(s.h.blocks, b), reserve);
    case Store(b, a, value) => StoreGood(s, Find(s.h.blocks, b), a, value, reserve);
  }

  /** Every run keeps the invariant: as written when its calls are safe, and repaired always. */
  lemma {:induction false} RunGood(s: State, calls: seq<Call>, reserve: nat)
    requires Good(s, reserve) && Permitted(s, calls, reserve)
    ensures Good(Run(s, calls, reserve), reserve)
    decreases |calls|
  {
    if calls != [] {
      StepGood(s, calls[0], reserve);
      RunGood(Step(s, calls[0], reserve), calls[1..], reserve);
    }
  }

  /** heap_init starts with no blocks. */
  lemma InitGood(m: Memory, reserve: nat)
    requires |m| >= KERNEL_HEAP_END && Layout(reserve)
    ensures Good(State(m, EMPTY), reserve)
  {
  }

  // ---- What the owners of blocks see ---------------------------------------------------------

  /** The call neither releases nor stores into b. */
  predicate Spares(call: Call, b: Block) {
    !call.Allocate? ==> call.block != b
  }

  lemma AllocateKeeps(s: State, request: nat, reserve: nat, b: Block)
    requires Good(s, reserve) && request < WORD_LIMIT && b in Live(s.h.blocks)
    ensures b in Live(Malloc(s.h, request, reserve).heap.blocks)
    ensures Payload(MallocMemory(s.m, s.h, request, reserve), b) == Payload(s.m, b)
  {
    MallocSound(s.h, request, reserve);
    MallocKeepsBlock(s.m, s.h, request, reserve, Find(s.h.blocks, b));
  }

  lemma ReleaseKeeps(s: State, i: nat, reserve: nat, b: Block)
    requires Good(s, reserve) && i < |s.h.blocks| && !s.h.blocks[i].free
    requires reserve == 0 ==> SafeRelease(s.h, i)
    requires b in Live(s.h.blocks) && b != s.h.blocks[i]
    ensures b in Live(Free(s.h, i, reserve).blocks) && Payload(FreeMemory(s.m, s.h, i, reserve), b) == Payload(s.m, b)
  {
    assert b in Live(Free(s.h, i, reserve).blocks) by { FreeLive(s.h, i, reserve); }
    var j := Find(s.h.blocks, b);
    assert Payload(FreeMemory(s.m, s.h, i, reserve), s.h.blocks[j]) == Payload(s.m, s.h.blocks[j]) by {
      ReleaseIsSafe(s, i, reserve);
      FreeKeepsBlock(s.m, s.h, i, reserve, j);
    }
  }

  lemma StoreKeeps(s: State, i: nat, a: nat, value: nat, reserve: nat, b: Block)
    requires Good(s, reserve) && i < |s.h.blocks| && Owns(s.h.blocks[i], a)
    requires b in Live(s.h.blocks) && b != s.h.blocks[i]
    ensures Payload(Put(s.m, a, value), b) == Payload(s.m, b)
  {
    hide Good;
    PayloadsDisjoint(s, reserve, b, s.h.blocks[i]);
    PayloadSame(s.m, Put(s.m, a, value), b);
  }

  lemma StepKeeps(s: State, call: Call, reserve: nat, b: Block)
    requires Good(s, reserve) && FairCall(s, call) && (reserve == 0 ==> Safe(s, call))
    requires b in Live(s.h.blocks) && Spares(call, b)
    ensures b in Live(Step(s, call, reserve).h.blocks) && Payload(Step(s, call, reserve).m, b) == Payload(s.m, b)
  {
    match call
    case Allocate(request) => AllocateKeeps(s, request, reserve, b);
    case Release(other) => ReleaseKeeps(s, Find(s.h.blocks, other), reserve, b);
    case Store(other, a, value) => StoreKeeps(s, Find(s.h.blocks, other), a, value, reserve, b);
  }

  /** Over a whole run a block keeps its place and its contents until it is released, whatever the
      other calls do. */
  lemma {:induction false} RunKeeps(s: State, calls: seq<Call>, reserve: nat, b: Block)
    requires Good(s, reserve) && Permitted(s, calls, reserve)
    requires b in Live(s.h.blocks) && forall call :: call in calls ==> Spares(call, b)
    ensures b in Live(Run(s, calls, reserve).h.blocks) && Payload(Run(s, calls, reserve).m, b) == Payload(s.m, b)
    decreases |calls|
  {
    if calls != [] {
      StepKeeps(s, calls[0], reserve, b);
      StepGood(s, calls[0], reserve);
      RunKeeps(Step(s, calls[0], reserve), calls[1..], reserve, b);
    }
  }

  /** Payloads of different blocks do not meet, and lie between the headers. */
  lemma PayloadsDisjoint(s: State, reserve: nat, b: Block, c: Block)
    requires Good(s, reserve) && b in s.h.blocks && c in s.h.blocks && b != c
    ensures b.End() + reserve <= c.addr || c.End() + reserve <= b.addr
    ensures KERNEL_HEAP_START <= b.addr && b.End() + reserve <= s.h.end < KERNEL_HEAP_END
  {
    var i, j := Find(s.h.blocks, b), Find(s.h.blocks, c);
    if i < j { Apart(s.h, reserve, i, j); } else { Apart(s.h, reserve, j, i); }
    AllBelowEnd(s.h, reserve, i);
  }

  // ---- What is handed out --------------------------------------------------------------------

  /** Whatever happens between two requests, as long as the block of the first is not released, the block
      of the second is another one, and the two lie apart, headers included. */
  lemma HandedOutApart(s: State, calls: seq<Call>, reserve: nat, b: Block, request: nat)
    requires Good(s, reserve) && Permitted(s, calls, reserve) && request < WORD_LIMIT
    requires b in Live(s.h.blocks) && forall call :: call in calls ==> call.Release? ==> call.block != b
    ensures var h := Run(s, calls, reserve).h;
            var out := Malloc(h, request, reserve);
            && b in Live(h.blocks)
            && (out.index >= 0 ==>
                  && out.index < |out.heap.blocks|
                  && var c := out.heap.blocks[out.index];
                  && c !in Live(h.blocks) && b in Live(out.heap.blocks) && request <= c.size
                  && (b.End() + reserve <= c.addr || c.End() + reserve <= b.addr))
  {
    hide Good;
    RunGood(s, calls, reserve);
    RunHolds(s, calls, reserve);
    StaysHeld(s, calls, reserve, Live(s.h.blocks), b);
    var h := Run(s, calls, reserve).h;
    GoodIsSound(Run(s, calls, reserve), reserve);
    MallocSound(h, request, reserve);
    MallocFresh(h, request, reserve);
  }

  lemma GoodIsSound(s: State, reserve: nat)
    requires Good(s, reserve)
    ensures Sound(s.h, reserve) && Layout(reserve)
  {
  }

  /** The blocks that the callers hold after one more call: what kmalloc hands out comes to them, what they
      release goes. */
  function HeldAfter(h: Heap, call: Call, reserve: nat, held: set<Block>): set<Block> {
    match call
    case Allocate(request) =>
      var out := Malloc(h, request, reserve);
      if 0 <= out.index < |out.heap.blocks| then held + {out.heap.blocks[out.index]} else held
    case Release(b) => held - {b}
    case Store(_, _, _) => held
  }

  function Held(s: State, calls: seq<Call>, reserve: nat, held: set<Block>): set<Block>
    decreases |calls|
  {
    if calls == [] then held
    else Held(Step(s, calls[0], reserve), calls[1..], reserve, HeldAfter(s.h, calls[0], reserve, held))
  }

  lemma StepHolds(s: State, call: Call, reserve: nat)
    requires Good(s, reserve) && FairCall(s, call) && (reserve == 0 ==> Safe(s, call))
    ensures HeldAfter(s.h, call, reserve, Live(s.h.blocks)) == Live(Step(s, call, reserve).h.blocks)
  {
    match call
    case Allocate(request) => MallocSound(s.h, request, reserve);
    case Release(b) =>
      var i := Find(s.h.blocks, b);
      FreeLive(s.h, i, reserve);
    case Store(b, a, value) =>
  }

  /** Over a whole run, what the callers were handed and did not release is exactly what the heap has in
      use. */
  lemma {:induction false} RunHolds(s: State, calls: seq<Call>, reserve: nat)
    requires Good(s, reserve) && Permitted(s, calls, reserve)
    ensures Held(s, calls, reserve, Live(s.h.blocks)) == Live(Run(s, calls, reserve).h.blocks)
    decreases |calls|
  {
    hide Good, Live, HeldAfter;
    if calls != [] {
      StepHolds(s, calls[0], reserve);
      StepGood(s, calls[0], reserve);
      RunHolds(Step(s, calls[0], reserve), calls[1..], reserve);
    }
  }

  lemma {:induction false} StaysHeld(s: State, calls: seq<Call>, reserve: nat, held: set<Block>, b: Block)
    requires b in held && forall call :: call in calls ==> call.Release? ==> call.block != b
    ensures b in Held(s, calls, reserve, held)
    decreases |calls|
  {
    if calls != [] {
      StaysHeld(Step(s, calls[0], reserve), calls[1..], reserve, HeldAfter(s.h, calls[0], reserve, held), b);
    }
  }

  /** From the empty heap on, any two blocks that were handed out and not released lie apart. */
  lemma HeldApart(m: Memory, calls: seq<Call>, reserve: nat, b: Block, c: Block)
    requires |m| >= KERNEL_HEAP_END && Layout(reserve) && Permitted(State(m, EMPTY), calls, reserve)
    requires b in Held(State(m, EMPTY), calls, reserve, {}) && c in Held(State(m, EMPTY), calls, reserve, {}) && b != c
    ensures b.End() + reserve <= c.addr || c.End() + reserve <= b.addr
  {
    InitGood(m, reserve);
    RunGood(State(m, EMPTY), calls, reserve);
    RunHolds(State(m, EMPTY), calls, reserve);
    assert Live(EMPTY.blocks) == {};
    PayloadsDisjoint(Run(State(m, EMPTY), calls, reserve), reserve, b, c);
  }
}
