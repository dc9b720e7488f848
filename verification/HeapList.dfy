/** The block list of the kernel heap (src/kernel/mm/heap.c), and what kmalloc and kfree do to it.

    The size arithmetic of the source gives a block a footprint of header + size + tail, but two
    placements leave the tail out.  `reserve` is the room for the tail in those two places: 0 is
    the code as written, 4 is the repair. */
module HeapList {
  import opened Machine

  const HEADER := 20
  const TAIL := 4
  const FOOTPRINT := 24
  const MIN_BLOCK_SIZE := 8

  /** A block: the address of its header, the size of its payload, and whether it is free. */
  datatype Block = Block(addr: nat, size: nat, free: bool) {
    /** The address of its tail sentinel, where the payload ends. */
    function End(): nat {
      addr + HEADER + size
    }
  }

  /** The blocks in list order, and heap_end. */
  datatype Heap = Heap(blocks: seq<Block>, end: nat)

  const EMPTY := Heap([], KERNEL_HEAP_START)

  /** Where block i's successor begins; heap_end for the last. */
  function After(h: Heap, i: nat): nat
    requires i < |h.blocks|
  {
    if i + 1 < |h.blocks| then h.blocks[i + 1].addr else h.end
  }

  /** The room between the payload of block i and its successor: 4 is exactly its tail. */
  function Gap(h: Heap, i: nat): int
    requires i < |h.blocks|
  {
    After(h, i) - h.blocks[i].End()
  }

  /** Blocks in address order from heap_start, sizes in multiples of 8, at least `reserve` bytes
      after every payload. */
  ghost predicate Ordered(h: Heap, reserve: nat) {
    && (h.blocks == [] ==> h.end == KERNEL_HEAP_START)
    && (h.blocks != [] ==> h.blocks[0].addr == KERNEL_HEAP_START)
    && (forall i :: 0 <= i < |h.blocks| ==> SoundBlock(h.blocks[i]))
    && (forall i :: 0 <= i < |h.blocks| ==> Gap(h, i) >= reserve)
    && h.end % 4 == 0 && h.end < KERNEL_HEAP_END
  }

  predicate SoundBlock(b: Block) {
    b.size > 0 && b.size % 8 == 0 && b.addr % 4 == 0
  }

  /** No two neighbours are both free. */
  ghost predicate Coalesced(blocks: seq<Block>) {
    forall i {:trigger blocks[i].free} :: 0 <= i < |blocks| - 1 ==> !(blocks[i].free && blocks[i + 1].free)
  }

  /** The highest block is in use. */
  predicate TopInUse(h: Heap) {
    h.blocks != [] ==> !h.blocks[|h.blocks| - 1].free
  }

  ghost predicate Sound(h: Heap, reserve: nat) {
    Ordered(h, reserve) && Coalesced(h.blocks) && TopInUse(h)
  }

  /** The last of several blocks has room for its tail in either layout: it was appended. */
  predicate TopRoom(h: Heap) {
    |h.blocks| >= 2 ==> Gap(h, |h.blocks| - 1) >= TAIL
  }

  /** The blocks tile [heap_start, heap_end): each is followed by its tail and then its successor. */
  ghost predicate Tiled(h: Heap) {
    forall i :: 0 <= i < |h.blocks| ==> Gap(h, i) == TAIL
  }

  /** Payloads end before every later header. */
  lemma {:induction false} Apart(h: Heap, reserve: nat, i: nat, j: nat)
    requires Ordered(h, reserve) && i < j < |h.blocks|
    ensures h.blocks[i].End() + reserve <= h.blocks[j].addr
    decreases j - i
  {
    assert Gap(h, i) >= reserve;
    if i + 1 < j {
      Apart(h, reserve, i + 1, j);
    }
  }

  lemma {:induction false} AllBelowEnd(h: Heap, reserve: nat, i: nat)
    requires Ordered(h, reserve) && i < |h.blocks|
    ensures KERNEL_HEAP_START <= h.blocks[i].addr && h.blocks[i].End() + reserve <= h.end
  {
    var last := |h.blocks| - 1;
    assert Gap(h, last) >= reserve;
    if i < last { Apart(h, reserve, i, last); }
    if 0 < i { Apart(h, reserve, 0, i); }
  }

  // ---- kmalloc ------------------------------------------------------------------------------

  /** (size + 7) & ~7 in 32 bits; a smaller result is the overflow the source tests for. */
  function Aligned(size: nat): nat {
    (size + 7) % WORD_LIMIT / 8 * 8
  }

  /** The guard of line 46, in 32-bit arithmetic. */
  predicate Guard(end: nat, size: nat) {
    size <= (KERNEL_HEAP_END - end - FOOTPRINT) % WORD_LIMIT
  }

  /** The guard and the two tests of lines 122 to 128, in 32-bit arithmetic. */
  predicate AppendAccepted(end: nat, size: nat) {
    var newEnd := (end + FOOTPRINT + size) % WORD_LIMIT;
    Guard(end, size) && newEnd >= end && newEnd < KERNEL_HEAP_END
  }

  /** A request whose size plus footprint wraps around 32 bits while less than a footprint of the
      heap range is left: the one case in which the tests do not mean what they say. */
  predicate Wraps(end: nat, size: nat) {
    KERNEL_HEAP_END - FOOTPRINT < end && end <= end + FOOTPRINT + size - WORD_LIMIT < KERNEL_HEAP_END
  }

  /** An append is accepted exactly when the block ends below KERNEL_HEAP_END -- or wraps. */
  lemma AppendAcceptedIff(end: nat, size: nat)
    requires end < KERNEL_HEAP_END && size < WORD_LIMIT
    ensures AppendAccepted(end, size) <==> end + FOOTPRINT + size < KERNEL_HEAP_END || Wraps(end, size)
  {
  }

  /** The wrap does happen, as written: one request brings heap_end to 20 bytes below the end of the
      range, and one of 2^32 - 8 bytes is then accepted. */
  lemma WrapWitness()
    ensures var h := Malloc(EMPTY, 0x3F_FFD8, 0).heap;
            && h.end == KERNEL_HEAP_END - 20 && Wraps(h.end, 0xFFFF_FFF8)
            && AppendAccepted(h.end, 0xFFFF_FFF8) && Aligned(0xFFFF_FFF8) == 0xFFFF_FFF8
  {
  }

  predicate Fits(b: Block, size: nat) {
    b.free && b.size >= size
  }

  /** The first free block that is large enough, or the number of blocks. */
  function FirstFit(blocks: seq<Block>, size: nat): (i: nat)
    ensures i <= |blocks|
  {
    if blocks == [] || Fits(blocks[0], size) then 0 else 1 + FirstFit(blocks[1..], size)
  }

  lemma {:induction false} FirstFitIsFirst(blocks: seq<Block>, size: nat, i: nat)
    requires i <= |blocks|
    ensures FirstFit(blocks, size) == i
       <==> (i < |blocks| ==> Fits(blocks[i], size)) && forall j :: 0 <= j < i ==> !Fits(blocks[j], size)
  {
    if blocks == [] {
    } else if i == 0 {
    } else {
      FirstFitIsFirst(blocks[1..], size, i - 1);
      assert forall j :: 0 < j < i ==> blocks[j] == blocks[1..][j - 1];
      assert forall j :: 0 <= j < i - 1 ==> blocks[1..][j] == blocks[j + 1];
    }
  }

  predicate Splits(b: Block, size: nat) {
    b.size >= size + FOOTPRINT + MIN_BLOCK_SIZE
  }

  /** Block i serves a request, splitting off a free remainder when there is room for one. */
  function Served(h: Heap, i: nat, size: nat, reserve: nat): Heap
    requires i < |h.blocks| && h.blocks[i].size >= size
  {
    var b := h.blocks[i];
    if Splits(b, size) then
      var rest := Block(b.addr + HEADER + size + reserve, b.size - size - FOOTPRINT, true);
      h.(blocks := h.blocks[..i] + [Block(b.addr, size, false), rest] + h.blocks[i + 1..])
    else
      h.(blocks := h.blocks[i := b.(free := false)])
  }

  function Appended(h: Heap, size: nat): Heap {
    Heap(h.blocks + [Block(h.end, size, false)], h.end + FOOTPRINT + size)
  }

  function First(size: nat, reserve: nat): Heap {
    Heap([Block(KERNEL_HEAP_START, size, false)], KERNEL_HEAP_START + HEADER + size + reserve)
  }

  /** kmalloc on the list: the new heap, and the index of the block served if there is one. */
  datatype Outcome = Outcome(heap: Heap, index: int)

  function Malloc(h: Heap, request: nat, reserve: nat): Outcome {
    if request == 0 || Aligned(request) < request then Outcome(h, -1) else Request(h, Aligned(request), reserve)
  }

  /** A request for a multiple of 8. */
  function Request(h: Heap, size: nat, reserve: nat): Outcome {
    if !Guard(h.end, size) then Outcome(h, -1)
    else if h.blocks == [] then
      if KERNEL_HEAP_START + HEADER + size + reserve >= KERNEL_HEAP_END then Outcome(h, -1)
      else Outcome(First(size, reserve), 0)
    else
      var i := FirstFit(h.blocks, size);
      if i < |h.blocks| then FirstFitFits(h.blocks, size); Outcome(Served(h, i, size, reserve), i)
      else if h.end + FOOTPRINT + size < KERNEL_HEAP_END then Outcome(Appended(h, size), i)
      else Outcome(h, -1)
  }

  lemma FirstFitFits(blocks: seq<Block>, size: nat)
    ensures FirstFit(blocks, size) < |blocks| ==> Fits(blocks[FirstFit(blocks, size)], size)
  {
    FirstFitIsFirst(blocks, size, FirstFit(blocks, size));
  }

  /** kmalloc serves the first free block that fits exactly when the guard lets the request through;
      the guard compares it with the address range that is left, not with the free blocks. */
  lemma ServesFittingIff(h: Heap, request: nat, reserve: nat)
    requires 0 < request <= Aligned(request) && FirstFit(h.blocks, Aligned(request)) < |h.blocks|
    ensures Malloc(h, request, reserve).index == FirstFit(h.blocks, Aligned(request)) <==> Guard(h.end, Aligned(request))
  {
  }

  /** So a request can fail although a free block fits, as written: with 3 MB freed in front of a block
      in use and less than 1 MB of the range left, 2 MB are refused. */
  lemma GuardRefusesFit()
    ensures var h1 := Malloc(EMPTY, 0x30_0000, 0).heap;
            var h2 := Malloc(h1, 0x8_0000, 0).heap;
            && |h2.blocks| == 2
            && var h3 := Free(h2, 0, 0);
            FirstFit(h3.blocks, 0x20_0000) == 0 && Malloc(h3, 0x20_0000, 0) == Outcome(h3, -1)
  {
    var h1 := Heap([Block(0x40_0000, 0x30_0000, false)], 0x70_0014);
    assert Malloc(EMPTY, 0x30_0000, 0).heap == h1;
    FirstFitIsFirst(h1.blocks, 0x8_0000, 1);
    var h2 := Heap(h1.blocks + [Block(0x70_0014, 0x8_0000, false)], 0x78_002C);
    assert Malloc(h1, 0x8_0000, 0).heap == h2;
    assert Free(h2, 0, 0) == h2.(blocks := [Block(0x40_0000, 0x30_0000, true), h2.blocks[1]]);
  }

  /** The total footprint, which splitting and merging conserve. */
  function Footprint(blocks: seq<Block>): nat {
    if blocks == [] then 0 else blocks[0].size + FOOTPRINT + Footprint(blocks[1..])
  }

  lemma {:induction false} FootprintAppend(a: seq<Block>, b: seq<Block>)
    ensures Footprint(a + b) == Footprint(a) + Footprint(b)
  {
    if a == [] {
      assert a + b == b;
    } else {
      assert (a + b)[1..] == a[1..] + b;
      FootprintAppend(a[1..], b);
    }
  }

  // ---- kfree --------------------------------------------------------------------------------

  /** Block i takes in its successor. */
  function Absorbed(blocks: seq<Block>, i: nat): seq<Block>
    requires i + 1 < |blocks|
  {
    blocks[..i] + [blocks[i].(size := blocks[i].size + FOOTPRINT + blocks[i + 1].size)] + blocks[i + 2..]
  }

  function Marked(blocks: seq<Block>, i: nat): seq<Block>
    requires i < |blocks|
  {
    blocks[i := blocks[i].(free := true)]
  }

  /** Freed and merged with the next block, if that is free. */
  function MergedNext(blocks: seq<Block>, i: nat): seq<Block>
    requires i < |blocks|
  {
    if i + 1 < |blocks| && blocks[i + 1].free then Absorbed(blocks, i) else blocks
  }

  /** Then merged into the previous block, if that is free. */
  function MergedPrevious(blocks: seq<Block>, i: nat): seq<Block>
    requires i < |blocks|
  {
    if 0 < i && blocks[i - 1].free then Absorbed(blocks, i - 1) else blocks
  }

  function Released(blocks: seq<Block>, i: nat): seq<Block>
    requires i < |blocks|
  {
    MergedPrevious(MergedNext(Marked(blocks, i), i), i)
  }

  /** The end of kfree.  When the last of several blocks is free, heap_end goes down to it; as written
      the block stays linked, and the repair unlinks it. */
  function Trimmed(h: Heap, reserve: nat): Heap {
    if h.blocks == [] || !h.blocks[|h.blocks| - 1].free then h
    else if |h.blocks| == 1 then EMPTY
    else if reserve == TAIL then Heap(h.blocks[..|h.blocks| - 1], h.blocks[|h.blocks| - 1].addr)
    else h.(end := h.blocks[|h.blocks| - 1].addr)
  }

  /** kfree on the list. */
  function Free(h: Heap, i: nat, reserve: nat): Heap
    requires i < |h.blocks|
  {
    Trimmed(h.(blocks := Released(h.blocks, i)), reserve)
  }

  /** Merging is safe for the tail that it writes: both gaps together must leave room for it. */
  predicate RoomForTail(h: Heap, i: nat, reserve: nat)
    requires i + 1 < |h.blocks|
  {
    Gap(h, i) + Gap(h, i + 1) >= TAIL + reserve
  }

  lemma AbsorbedGap(h: Heap, i: nat, j: nat)
    requires i + 1 < |h.blocks| && j < |h.blocks| - 1
    ensures var h' := h.(blocks := Absorbed(h.blocks, i));
            Gap(h', j) == if j < i then Gap(h, j)
                          else if j == i then Gap(h, i) + Gap(h, i + 1) - TAIL
                          else Gap(h, j + 1)
  {
  }

  lemma AbsorbedBlock(blocks: seq<Block>, i: nat, j: nat)
    requires i + 1 < |blocks| && j < |blocks| - 1
    ensures |Absorbed(blocks, i)| == |blocks| - 1
    ensures Absorbed(blocks, i)[j] == if j < i then blocks[j]
                                      else if j == i then blocks[i].(size := blocks[i].size + FOOTPRINT + blocks[i + 1].size)
                                      else blocks[j + 1]
  {
  }

  /** Merging keeps the order exactly when there is room for the tail. */
  lemma AbsorbedOrderedIff(h: Heap, i: nat, reserve: nat)
    requires Ordered(h, reserve) && i + 1 < |h.blocks|
    ensures Ordered(h.(blocks := Absorbed(h.blocks, i)), reserve) <==> RoomForTail(h, i, reserve)
  {
    var h' := h.(blocks := Absorbed(h.blocks, i));
    AbsorbedGap(h, i, i);
    if RoomForTail(h, i, reserve) {
      forall j | 0 <= j < |h'.blocks|
        ensures SoundBlock(h'.blocks[j]) && Gap(h', j) >= reserve
      {
        AbsorbedGap(h, i, j);
        AbsorbedBlock(h.blocks, i, j);
      }
      AbsorbedBlock(h.blocks, i, 0);
    } else {
      assert Gap(h', i) < reserve;
    }
  }

  // ---- What kmalloc keeps -------------------------------------------------------------------

  /** The two layouts: as written, and with the tail's room made. */
  predicate Layout(reserve: nat) {
    reserve == 0 || reserve == TAIL
  }

  lemma ServedBlock(h: Heap, i: nat, size: nat, reserve: nat, j: nat)
    requires i < |h.blocks| && Fits(h.blocks[i], size) && Layout(reserve)
    requires j < |Served(h, i, size, reserve).blocks|
    ensures var h' := Served(h, i, size, reserve);
            var n := if Splits(h.blocks[i], size) then 1 else 0;
            && |h'.blocks| == |h.blocks| + n
            && (j < i ==> h'.blocks[j] == h.blocks[j] && Gap(h', j) == Gap(h, j))
            && (i + n < j ==> h'.blocks[j] == h.blocks[j - n] && Gap(h', j) == Gap(h, j - n))
            && (j == i == i + n ==> Gap(h', j) == Gap(h, i))
            && (j == i < i + n ==> Gap(h', j) == reserve)
            && (j == i + n > i ==> Gap(h', j) == Gap(h, i) + TAIL - reserve)
  {
  }

  /** Addresses behind a block stay word-aligned, and remainders multiples of 8. */
  lemma Alignment(a: nat, size: nat, total: nat)
    requires a % 4 == 0 && size % 8 == 0 && total % 8 == 0
    ensures (a + HEADER + size) % 4 == 0 && (a + FOOTPRINT + size) % 4 == 0
    ensures (total - size - FOOTPRINT) % 8 == 0
  {
  }

  lemma PiecesSound(b: Block, size: nat, reserve: nat)
    requires SoundBlock(b) && Splits(b, size) && size > 0 && size % 8 == 0 && Layout(reserve)
    ensures SoundBlock(Block(b.addr, size, false))
    ensures SoundBlock(Block(b.addr + HEADER + size + reserve, b.size - size - FOOTPRINT, true))
  {
    Alignment(b.addr, size, b.size);
  }

  lemma ServedPieces(h: Heap, i: nat, size: nat, reserve: nat)
    requires i < |h.blocks| && Fits(h.blocks[i], size)
    ensures var b, h' := h.blocks[i], Served(h, i, size, reserve);
            && i < |h'.blocks| && h'.end == h.end
            && h'.blocks[i] == (if Splits(b, size) then Block(b.addr, size, false) else b.(free := false))
            && (Splits(b, size) ==>
                  i + 1 < |h'.blocks| && h'.blocks[i + 1] == Block(b.addr + HEADER + size + reserve, b.size - size - FOOTPRINT, true))
  {
  }

  lemma ServedAt(h: Heap, i: nat, size: nat, reserve: nat, j: nat)
    requires Ordered(h, reserve) && Layout(reserve) && i < |h.blocks| && Fits(h.blocks[i], size)
    requires size > 0 && size % 8 == 0 && j < |Served(h, i, size, reserve).blocks|
    ensures SoundBlock(Served(h, i, size, reserve).blocks[j]) && Gap(Served(h, i, size, reserve), j) >= reserve
  {
    hide Gap, Served, Ordered;
    var n := if Splits(h.blocks[i], size) then 1 else 0;
    ServedBlock(h, i, size, reserve, j);
    ServedPieces(h, i, size, reserve);
    var k := if j < i then j else if j <= i + n then i else j - n;
    BlockIsSound(h, reserve, i);
    BlockIsSound(h, reserve, k);
    GapAtLeast(h, reserve, k);
    if n == 1 { PiecesSound(h.blocks[i], size, reserve); }
  }

  lemma ServedOrdered(h: Heap, i: nat, size: nat, reserve: nat)
    requires Ordered(h, reserve) && Layout(reserve) && i < |h.blocks| && Fits(h.blocks[i], size)
    requires size > 0 && size % 8 == 0
    ensures Ordered(Served(h, i, size, reserve), reserve)
  {
    hide SoundBlock, Gap, Served;
    var h' := Served(h, i, size, reserve);
    forall j | 0 <= j < |h'.blocks|
      ensures SoundBlock(h'.blocks[j]) && Gap(h', j) >= reserve
    {
      ServedAt(h, i, size, reserve, j);
    }
    ServedPieces(h, i, size, reserve);
    ServedBlock(h, i, size, reserve, 0);
  }

  lemma ServedSound(h: Heap, i: nat, size: nat, reserve: nat)
    requires Sound(h, reserve) && Layout(reserve) && i < |h.blocks| && Fits(h.blocks[i], size)
    requires size > 0 && size % 8 == 0
    ensures Sound(Served(h, i, size, reserve), reserve)
  {
    ServedOrdered(h, i, size, reserve);
    var h' := Served(h, i, size, reserve);
    assert i + 1 < |h.blocks|;
    forall j {:trigger h'.blocks[j].free} | 0 <= j < |h'.blocks| - 1
      ensures !(h'.blocks[j].free && h'.blocks[j + 1].free)
    {
      ServedBlock(h, i, size, reserve, j);
      ServedBlock(h, i, size, reserve, j + 1);
      assert !h.blocks[i + 1].free;
    }
    ServedBlock(h, i, size, reserve, |h'.blocks| - 1);
  }

  lemma AppendedAt(h: Heap, size: nat, j: nat)
    requires j <= |h.blocks|
    ensures Appended(h, size).blocks[j] == if j < |h.blocks| then h.blocks[j] else Block(h.end, size, false)
    ensures Gap(Appended(h, size), j) == if j < |h.blocks| then Gap(h, j) else TAIL
  {
  }

  lemma AppendedOrdered(h: Heap, size: nat, reserve: nat)
    requires Ordered(h, reserve) && Layout(reserve) && h.blocks != []
    requires size > 0 && size % 8 == 0 && h.end + FOOTPRINT + size < KERNEL_HEAP_END
    ensures Ordered(Appended(h, size), reserve)
  {
    hide Gap;
    var h' := Appended(h, size);
    forall j | 0 <= j < |h'.blocks|
      ensures SoundBlock(h'.blocks[j]) && Gap(h', j) >= reserve
    {
      AppendedAt(h, size, j);
      if j < |h.blocks| { BlockIsSound(h, reserve, j); GapAtLeast(h, reserve, j); }
    }
    AppendedAt(h, size, 0);
    LastEnds(h, reserve);
    Alignment(h.end, size, 0);
  }

  lemma LastEnds(h: Heap, reserve: nat)
    requires Ordered(h, reserve)
    ensures h.end % 4 == 0
  {
  }

  lemma AppendedSound(h: Heap, size: nat, reserve: nat)
    requires Sound(h, reserve) && Layout(reserve) && h.blocks != []
    requires size > 0 && size % 8 == 0 && h.end + FOOTPRINT + size < KERNEL_HEAP_END
    ensures Sound(Appended(h, size), reserve)
  {
    hide Ordered, SoundBlock, Gap;
    AppendedOrdered(h, size, reserve);
    var h' := Appended(h, size);
    assert h'.blocks[|h.blocks| - 1] == h.blocks[|h.blocks| - 1];
  }

  lemma AlignedIsRoundedUp(size: nat)
    requires 0 < size < WORD_LIMIT
    ensures Aligned(size) >= size <==> size <= WORD_LIMIT - 8
    ensures Aligned(size) >= size ==> Aligned(size) % 8 == 0 && size <= Aligned(size) < size + 8
  {
  }

  /** The blocks in use. */
  function Live(blocks: seq<Block>): set<Block> {
    set b | b in blocks && !b.free
  }

  lemma LiveAppend(a: seq<Block>, b: seq<Block>)
    ensures Live(a + b) == Live(a) + Live(b)
  {
  }

  lemma RequestSound(h: Heap, size: nat, reserve: nat)
    requires Sound(h, reserve) && Layout(reserve) && size > 0 && size % 8 == 0
    ensures var out := Request(h, size, reserve);
            && Sound(out.heap, reserve)
            && out.index < |out.heap.blocks|
            && (out.index < 0 ==> out.heap == h)
            && (out.index >= 0 ==> !out.heap.blocks[out.index].free && out.heap.blocks[out.index].size >= size)
  {
    if Guard(h.end, size) && h.blocks != [] {
      var i := FirstFit(h.blocks, size);
      FirstFitFits(h.blocks, size);
      if i < |h.blocks| {
        ServedSound(h, i, size, reserve);
      } else if h.end + FOOTPRINT + size < KERNEL_HEAP_END {
        AppendedSound(h, size, reserve);
      }
    } else if h.blocks == [] && KERNEL_HEAP_START + HEADER + size + reserve < KERNEL_HEAP_END {
      FirstSound(size, reserve);
    }
  }

  lemma FirstSound(size: nat, reserve: nat)
    requires Layout(reserve) && size > 0 && size % 8 == 0
    requires KERNEL_HEAP_START + HEADER + size + reserve < KERNEL_HEAP_END
    ensures Sound(First(size, reserve), reserve)
  {
    var h' := First(size, reserve);
    Alignment(KERNEL_HEAP_START, size, 0);
    assert |h'.blocks| == 1 && h'.blocks[0] == Block(KERNEL_HEAP_START, size, false);
    assert Gap(h', 0) == reserve;
  }

  lemma RequestLive(h: Heap, size: nat, reserve: nat)
    requires Layout(reserve)
    ensures var out := Request(h, size, reserve);
            && out.index < |out.heap.blocks|
            && Live(out.heap.blocks) == Live(h.blocks) + (if out.index < 0 then {} else {out.heap.blocks[out.index]})
  {
    var out := Request(h, size, reserve);
    if out.index >= 0 && h.blocks != [] {
      var i := FirstFit(h.blocks, size);
      FirstFitFits(h.blocks, size);
      if i < |h.blocks| {
        ServedLive(h, i, size, reserve);
      } else {
        LiveAppend(h.blocks, [out.heap.blocks[i]]);
      }
    }
  }

  /** kmalloc keeps the heap sound; on success it adds to the blocks in use exactly the one that it
      serves, which is large enough, and on failure it changes nothing. */
  lemma MallocSound(h: Heap, request: nat, reserve: nat)
    requires Sound(h, reserve) && Layout(reserve) && request < WORD_LIMIT
    ensures var out := Malloc(h, request, reserve);
            && Sound(out.heap, reserve)
            && out.index < |out.heap.blocks|
            && (out.index < 0 ==> out.heap == h)
            && (out.index >= 0 ==> out.heap.blocks[out.index].size >= request > 0)
            && Live(out.heap.blocks) == Live(h.blocks) + (if out.index < 0 then {} else {out.heap.blocks[out.index]})
  {
    if request > 0 {
      AlignedIsRoundedUp(request);
      if Aligned(request) >= request {
        RequestSound(h, Aligned(request), reserve);
        RequestLive(h, Aligned(request), reserve);
      }
    }
  }

  /** The block that kmalloc hands out was not in use before, it lies apart from every block that was, and
      less than another header, tail and smallest block of it is left over. */
  lemma MallocFresh(h: Heap, request: nat, reserve: nat)
    requires Sound(h, reserve) && Layout(reserve) && request < WORD_LIMIT
    ensures var out := Malloc(h, request, reserve);
            out.index >= 0 ==>
              && out.index < |out.heap.blocks|
              && var b := out.heap.blocks[out.index];
              && !b.free && b !in Live(h.blocks)
              && request <= b.size < Aligned(request) + FOOTPRINT + MIN_BLOCK_SIZE
              && forall c :: c in Live(h.blocks) ==> c.End() + reserve <= b.addr || b.End() + reserve <= c.addr
  {
    var out := Malloc(h, request, reserve);
    if out.index >= 0 {
      MallocSound(h, request, reserve);
      AlignedIsRoundedUp(request);
      RequestSound(h, Aligned(request), reserve);
      RequestIsNew(h, Aligned(request), reserve);
      var b := out.heap.blocks[out.index];
      forall c | c in Live(h.blocks)
        ensures c.addr != b.addr && (c.End() + reserve <= b.addr || b.End() + reserve <= c.addr)
      {
        var j :| 0 <= j < |out.heap.blocks| && out.heap.blocks[j] == c;
        if j < out.index { Apart(out.heap, reserve, j, out.index); }
        if out.index < j { Apart(out.heap, reserve, out.index, j); }
      }
    }
  }

  lemma RequestIsNew(h: Heap, size: nat, reserve: nat)
    requires Sound(h, reserve) && Layout(reserve) && size > 0 && size % 8 == 0
    ensures var out := Request(h, size, reserve);
            && out.index < |out.heap.blocks|
            && (out.index >= 0 ==>
                  && out.heap.blocks[out.index].size < size + FOOTPRINT + MIN_BLOCK_SIZE
                  && forall c :: c in Live(h.blocks) ==> c.addr != out.heap.blocks[out.index].addr)
  {
    var out := Request(h, size, reserve);
    if out.index >= 0 && h.blocks != [] {
      var i := FirstFit(h.blocks, size);
      FirstFitFits(h.blocks, size);
      if i < |h.blocks| { ServedPieces(h, i, size, reserve); }
      forall c | c in Live(h.blocks)
        ensures c.addr != out.heap.blocks[i].addr
      {
        var j :| 0 <= j < |h.blocks| && h.blocks[j] == c;
        if i < |h.blocks| { Distinct(h, reserve, i, j); } else { AllBelowEnd(h, reserve, j); }
      }
    }
  }

  /** When kmalloc returns NULL, said by sizes and addresses alone: nothing or too much is asked for, the
      guard of line 46 finds too little of the range left, or no free block is large enough and a new one
      would exceed the range.  (Requests that wrap aside, see AppendAcceptedIff.) */
  ghost predicate Refused(h: Heap, request: nat, reserve: nat) {
    var size, left := (request + 7) / 8 * 8, KERNEL_HEAP_END - h.end - FOOTPRINT;
    || request == 0 || request > WORD_LIMIT - 8
    || size > (if left < 0 then WORD_LIMIT + left else left)
    || (&& (forall b :: b in h.blocks && b.free ==> b.size < size)
        && (if h.blocks == [] then KERNEL_HEAP_START + HEADER + size + reserve else h.end + FOOTPRINT + size) >= KERNEL_HEAP_END)
  }

  lemma MallocFailsIff(h: Heap, request: nat, reserve: nat)
    requires Ordered(h, reserve) && request < WORD_LIMIT
    ensures Malloc(h, request, reserve).index < 0 <==> Refused(h, request, reserve)
  {
    var size := (request + 7) / 8 * 8;
    if request > 0 { AlignedIsRoundedUp(request); }
    if 0 < request <= WORD_LIMIT - 8 {
      assert Aligned(request) == size;
      var i := FirstFit(h.blocks, size);
      FirstFitIsFirst(h.blocks, size, i);
      assert h.blocks != [] ==> (i < |h.blocks| <==> exists b :: b in h.blocks && Fits(b, size));
    }
  }

  lemma ServedLive(h: Heap, i: nat, size: nat, reserve: nat)
    requires i < |h.blocks| && Fits(h.blocks[i], size)
    ensures i < |Served(h, i, size, reserve).blocks|
    ensures Live(Served(h, i, size, reserve).blocks) == Live(h.blocks) + {Served(h, i, size, reserve).blocks[i]}
  {
    var b := h.blocks[i];
    var before, after := h.blocks[..i], h.blocks[i + 1..];
    assert h.blocks == before + [b] + after;
    LiveParts(before, [b], after);
    if Splits(b, size) {
      LiveParts(before, [Block(b.addr, size, false), Block(b.addr + HEADER + size + reserve, b.size - size - FOOTPRINT, true)], after);
    } else {
      assert Served(h, i, size, reserve).blocks == before + [b.(free := false)] + after;
      LiveParts(before, [b.(free := false)], after);
    }
  }

  lemma LiveParts(a: seq<Block>, b: seq<Block>, c: seq<Block>)
    ensures Live(a + b + c) == Live(a) + Live(b) + Live(c)
  {
    LiveAppend(a + b, c);
    LiveAppend(a, b);
  }

  // ---- What kfree keeps ---------------------------------------------------------------------

  /** The first block of the free run that releasing block i makes, and the end of the run. */
  function RunStart(blocks: seq<Block>, i: nat): nat
    requires i < |blocks|
  {
    if 0 < i && blocks[i - 1].free then i - 1 else i
  }

  function RunEnd(blocks: seq<Block>, i: nat): nat
    requires i < |blocks|
  {
    if i + 1 < |blocks| && blocks[i + 1].free then i + 2 else i + 1
  }

  /** Coalescing replaces the free run around the released block by one free block with the same
      address and the same total footprint. */
  lemma ReleasedIsRun(blocks: seq<Block>, i: nat)
    requires i < |blocks|
    ensures var lo, hi := RunStart(blocks, i), RunEnd(blocks, i);
            && Footprint(blocks[lo..hi]) >= FOOTPRINT
            && Released(blocks, i)
               == blocks[..lo] + [Block(blocks[lo].addr, Footprint(blocks[lo..hi]) - FOOTPRINT, true)] + blocks[hi..]
  {
    hide Footprint, Released;
    var lo, hi := RunStart(blocks, i), RunEnd(blocks, i);
    RunFootprint(blocks[lo..hi]);
    ReleasedBlocks(blocks, i);
  }

  lemma ReleasedBlocks(blocks: seq<Block>, i: nat)
    requires i < |blocks|
    ensures var lo, hi := RunStart(blocks, i), RunEnd(blocks, i);
            var size := blocks[lo].size + (if hi > lo + 1 then FOOTPRINT + blocks[lo + 1].size else 0)
                        + (if hi > lo + 2 then FOOTPRINT + blocks[lo + 2].size else 0);
            Released(blocks, i) == blocks[..lo] + [Block(blocks[lo].addr, size, true)] + blocks[hi..]
  {
    var lo, hi := RunStart(blocks, i), RunEnd(blocks, i);
    var b := blocks[i].(free := true);
    assert Marked(blocks, i) == blocks[..i] + [b] + blocks[i + 1..];
    if hi == i + 2 {
      b := b.(size := b.size + FOOTPRINT + blocks[i + 1].size);
    }
    var merged := MergedNext(Marked(blocks, i), i);
    assert merged == blocks[..i] + [b] + blocks[hi..];
    if lo == i - 1 {
      assert merged[..i - 1] == blocks[..i - 1] && merged[i + 1..] == blocks[hi..];
      assert merged[i - 1] == blocks[i - 1] && merged[i] == b;
    }
  }

  lemma RunFootprint(run: seq<Block>)
    requires 1 <= |run| <= 3
    ensures Footprint(run) == run[0].size + FOOTPRINT + (if |run| > 1 then run[1].size + FOOTPRINT else 0)
                              + (if |run| > 2 then run[2].size + FOOTPRINT else 0)
  {
    FootprintOne(run[|run| - 1]);
    if |run| == 1 {
      assert run == [run[0]];
    } else if |run| == 2 {
      assert run[1..] == [run[1]];
    } else {
      assert run[1..][0] == run[1] && run[1..][1..] == [run[2]];
      assert Footprint(run[1..]) == run[1].size + FOOTPRINT + Footprint(run[1..][1..]);
    }
  }

  lemma FootprintParts(a: seq<Block>, b: seq<Block>, c: seq<Block>)
    ensures Footprint(a + b + c) == Footprint(a) + Footprint(b) + Footprint(c)
  {
    FootprintAppend(a + b, c);
    FootprintAppend(a, b);
  }

  lemma FootprintOne(b: Block)
    ensures Footprint([b]) == b.size + FOOTPRINT
  {
    assert [b][1..] == [];
  }

  /** Splitting and coalescing conserve the total footprint. */
  lemma ReleasedConserves(blocks: seq<Block>, i: nat)
    requires i < |blocks|
    ensures Footprint(Released(blocks, i)) == Footprint(blocks)
  {
    var lo, hi, joined := TheRun(blocks, i);
    PartsConserve(blocks, Released(blocks, i), lo, hi, joined);
  }

  /** ReleasedIsRun, with the run named. */
  lemma TheRun(blocks: seq<Block>, i: nat) returns (lo: nat, hi: nat, joined: Block)
    requires i < |blocks|
    ensures lo <= i < hi <= |blocks|
    ensures forall j :: lo <= j < hi && j != i ==> blocks[j].free
    ensures joined.addr == blocks[lo].addr && joined.free && joined.size + FOOTPRINT == Footprint(blocks[lo..hi])
    ensures Released(blocks, i) == blocks[..lo] + [joined] + blocks[hi..]
  {
    hide Released, Footprint;
    ReleasedIsRun(blocks, i);
    lo, hi := RunStart(blocks, i), RunEnd(blocks, i);
    joined := Block(blocks[lo].addr, Footprint(blocks[lo..hi]) - FOOTPRINT, true);
  }

  lemma PartsConserve(blocks: seq<Block>, after: seq<Block>, lo: nat, hi: nat, joined: Block)
    requires lo <= hi <= |blocks| && after == blocks[..lo] + [joined] + blocks[hi..]
    requires joined.size + FOOTPRINT == Footprint(blocks[lo..hi])
    ensures Footprint(after) == Footprint(blocks)
  {
    hide Footprint;
    FootprintParts(blocks[..lo], [joined], blocks[hi..]);
    FootprintParts(blocks[..lo], blocks[lo..hi], blocks[hi..]);
    FootprintOne(joined);
    ThreeParts(blocks, lo, hi);
  }

  lemma ThreeParts(blocks: seq<Block>, lo: nat, hi: nat)
    requires lo <= hi <= |blocks|
    ensures blocks == blocks[..lo] + blocks[lo..hi] + blocks[hi..]
  {
  }

  lemma ServedConserves(h: Heap, i: nat, size: nat, reserve: nat)
    requires i < |h.blocks| && Fits(h.blocks[i], size)
    ensures Footprint(Served(h, i, size, reserve).blocks) == Footprint(h.blocks)
  {
    hide Footprint;
    var b := h.blocks[i];
    var before, after := h.blocks[..i], h.blocks[i + 1..];
    assert h.blocks == before + [b] + after;
    FootprintParts(before, [b], after);
    FootprintOne(b);
    if Splits(b, size) {
      var first := Block(b.addr, size, false);
      var rest := Block(b.addr + HEADER + size + reserve, b.size - size - FOOTPRINT, true);
      FootprintParts(before, [first, rest], after);
      FootprintAppend([first], [rest]);
      assert [first] + [rest] == [first, rest];
      FootprintOne(first);
      FootprintOne(rest);
    } else {
      assert Served(h, i, size, reserve).blocks == before + [b.(free := false)] + after;
      FootprintParts(before, [b.(free := false)], after);
      FootprintOne(b.(free := false));
    }
  }

  /** The room kfree needs for the tails it writes, merge by merge. */
  predicate Mergeable(h: Heap, i: nat, reserve: nat)
    requires i < |h.blocks|
  {
    var next := i + 1 < |h.blocks| && h.blocks[i + 1].free;
    var previous := 0 < i && h.blocks[i - 1].free;
    && (next ==> RoomForTail(h, i, reserve))
    && (previous && !next ==> RoomForTail(h, i - 1, reserve))
    && (previous && next ==> Gap(h, i - 1) + Gap(h, i) + Gap(h, i + 1) >= 2 * TAIL + reserve)
  }

  /** Lines 224 to 230 write the tail of the merged block before they read the links of the block that
      goes: the tail must not fall on those links. */
  predicate LinksClear(h: Heap, i: nat)
    requires i < |h.blocks|
  {
    var next := i + 1 < |h.blocks| && h.blocks[i + 1].free;
    var size := if next then h.blocks[i].size + FOOTPRINT + h.blocks[i + 1].size else h.blocks[i].size;
    0 < i && h.blocks[i - 1].free ==> Gap(h, i - 1) != size + 8 && Gap(h, i - 1) != size + 12
  }

  /** What kfree as written needs besides a block in use: room for the tails that the merges write, tails
      that miss the links still to be read, and a highest block that stays in use, unless the heap
      empties. */
  predicate SafeRelease(h: Heap, i: nat)
    requires i < |h.blocks|
  {
    Mergeable(h, i, 0) && LinksClear(h, i) && TopStays(h, i)
  }

  lemma MarkedOrdered(h: Heap, i: nat, reserve: nat)
    requires Ordered(h, reserve) && i < |h.blocks|
    ensures Ordered(h.(blocks := Marked(h.blocks, i)), reserve)
    ensures forall j :: 0 <= j < |h.blocks| ==> Gap(h.(blocks := Marked(h.blocks, i)), j) == Gap(h, j)
  {
    var h' := h.(blocks := Marked(h.blocks, i));
    forall j | 0 <= j < |h.blocks|
      ensures Gap(h', j) == Gap(h, j) && SoundBlock(h'.blocks[j])
    {
      assert SoundBlock(h.blocks[j]);
    }
  }

  /** Both merges of a release keep the order exactly when every tail that they write has room. */
  lemma ReleasedOrderedIff(h: Heap, i: nat, reserve: nat)
    requires Ordered(h, reserve) && i < |h.blocks|
    ensures Ordered(h.(blocks := MergedNext(Marked(h.blocks, i), i)), reserve)
            && Ordered(h.(blocks := Released(h.blocks, i)), reserve)
       <==> Mergeable(h, i, reserve)
  {
    var h1 := h.(blocks := Marked(h.blocks, i));
    MarkedOrdered(h, i, reserve);
    var h2 := h.(blocks := MergedNext(h1.blocks, i));
    if i + 1 < |h.blocks| && h.blocks[i + 1].free {
      AbsorbedOrderedIff(h1, i, reserve);
      AbsorbedGap(h1, i, i);
      if 0 < i { AbsorbedGap(h1, i, i - 1); }
    }
    if 0 < i && h.blocks[i - 1].free {
      assert h2.blocks[i - 1].free;
      if Ordered(h2, reserve) { AbsorbedOrderedIff(h2, i - 1, reserve); }
    } else {
      assert 0 < i ==> h2.blocks[i - 1] == h.blocks[i - 1];
    }
  }

  lemma ReleasedCoalesced(blocks: seq<Block>, i: nat)
    requires Coalesced(blocks) && i < |blocks|
    ensures Coalesced(Released(blocks, i))
  {
    hide Released;
    ReleasedIsRun(blocks, i);
    var lo, hi := RunStart(blocks, i), RunEnd(blocks, i);
    var after := Released(blocks, i);
    assert 1 < i && blocks[i - 1].free ==> !blocks[i - 2].free;
    assert hi == i + 2 < |blocks| ==> !blocks[hi].free;
    forall j {:trigger after[j].free} | 0 <= j < |after| - 1
      ensures !(after[j].free && after[j + 1].free)
    {
      if j + 1 < lo {
        assert !(blocks[j].free && blocks[j + 1].free);
      } else if j + 1 == lo {
        assert !blocks[lo - 1].free;
      } else if j == lo {
        assert after[j + 1] == blocks[hi];
      } else {
        var k := j - lo - 1 + hi;
        assert after[j] == blocks[k] && after[j + 1] == blocks[k + 1];
        assert !(blocks[k].free && blocks[k + 1].free);
      }
    }
  }

  /** The trim leaves a sound heap exactly when it unlinks, or has nothing to unlink: otherwise heap_end
      lies below a block that is still in the list. */
  lemma TrimmedSoundIff(h: Heap, reserve: nat)
    requires Ordered(h, reserve) && Coalesced(h.blocks) && Layout(reserve)
    ensures Sound(Trimmed(h, reserve), reserve) <==> reserve == TAIL || |h.blocks| == 1 || TopInUse(h)
  {
    var h', last := Trimmed(h, reserve), |h.blocks| - 1;
    if |h.blocks| > 1 && h.blocks[last].free {
      if reserve == TAIL {
        CutOffSound(h, reserve);
      } else {
        assert Gap(h', last) < 0;
      }
    }
  }

  lemma CutOffSound(h: Heap, reserve: nat)
    requires Ordered(h, reserve) && Coalesced(h.blocks) && |h.blocks| > 1 && h.blocks[|h.blocks| - 1].free
    ensures Sound(Heap(h.blocks[..|h.blocks| - 1], h.blocks[|h.blocks| - 1].addr), reserve)
  {
    var last := |h.blocks| - 1;
    var h' := Heap(h.blocks[..last], h.blocks[last].addr);
    assert !h.blocks[last - 1].free;
    forall j | 0 <= j < last
      ensures SoundBlock(h'.blocks[j]) && Gap(h', j) >= reserve
    {
      assert Gap(h', j) == Gap(h, j);
    }
    forall j {:trigger h'.blocks[j].free} | 0 <= j < |h'.blocks| - 1
      ensures !(h'.blocks[j].free && h'.blocks[j + 1].free)
    {
      assert !(h.blocks[j].free && h.blocks[j + 1].free);
    }
    assert Gap(h, last) >= reserve;
  }

  /** The highest block stays in use, or nothing but one free block is left. */
  predicate TopStays(h: Heap, i: nat)
    requires i < |h.blocks|
  {
    |Released(h.blocks, i)| == 1 || TopInUse(h.(blocks := Released(h.blocks, i)))
  }

  /** kfree with room for its tails leaves a sound heap always when repaired, and as written exactly
      when the highest block stays in use or the heap empties. */
  lemma FreeSound(h: Heap, i: nat, reserve: nat)
    requires Sound(h, reserve) && Layout(reserve) && i < |h.blocks| && Mergeable(h, i, reserve)
    ensures Sound(Free(h, i, reserve), reserve) <==> reserve == TAIL || TopStays(h, i)
  {
    ReleasedOrderedIff(h, i, reserve);
    ReleasedCoalesced(h.blocks, i);
    TrimmedSoundIff(h.(blocks := Released(h.blocks, i)), reserve);
  }

  /** kfree takes exactly the released block from the blocks in use. */
  lemma FreeLive(h: Heap, i: nat, reserve: nat)
    requires Ordered(h, reserve) && i < |h.blocks| && !h.blocks[i].free
    ensures Live(Free(h, i, reserve).blocks) == Live(h.blocks) - {h.blocks[i]}
  {
    hide Released, Ordered;
    ReleasedLive(h, i, reserve);
    var released := Released(h.blocks, i);
    if released != [] && released[|released| - 1].free {
      var last := |released| - 1;
      assert released == released[..last] + [released[last]];
      LiveAppend(released[..last], [released[last]]);
    }
  }

  lemma ReleasedLive(h: Heap, i: nat, reserve: nat)
    requires Ordered(h, reserve) && i < |h.blocks| && !h.blocks[i].free
    ensures Live(Released(h.blocks, i)) == Live(h.blocks) - {h.blocks[i]}
  {
    var lo, hi, joined := TheRun(h.blocks, i);
    PartsLive(h, reserve, i, Released(h.blocks, i), lo, hi, joined);
  }

  lemma PartsLive(h: Heap, reserve: nat, i: nat, released: seq<Block>, lo: nat, hi: nat, joined: Block)
    requires Ordered(h, reserve) && lo <= i < hi <= |h.blocks| && !h.blocks[i].free && joined.free
    requires forall j :: lo <= j < hi && j != i ==> h.blocks[j].free
    requires released == h.blocks[..lo] + [joined] + h.blocks[hi..]
    ensures Live(released) == Live(h.blocks) - {h.blocks[i]}
  {
    hide Live, Ordered;
    var before, run, after := h.blocks[..lo], h.blocks[lo..hi], h.blocks[hi..];
    LiveParts(before, [joined], after);
    assert h.blocks == before + run + after;
    LiveParts(before, run, after);
    RunLive(run, i - lo);
    assert h.blocks[i] !in before && h.blocks[i] !in after by { Occurs(h, reserve, i); }
    LiveOccurs(before, h.blocks[i]);
    LiveOccurs(after, h.blocks[i]);
    FreeIsNotLive(joined);
  }

  lemma LiveOccurs(s: seq<Block>, b: Block)
    ensures b in Live(s) ==> b in s
  {
  }

  lemma FreeIsNotLive(b: Block)
    requires b.free
    ensures Live([b]) == {}
  {
  }

  lemma RunLive(run: seq<Block>, k: nat)
    requires k < |run| && !run[k].free && forall j :: 0 <= j < |run| && j != k ==> run[j].free
    ensures Live(run) == {run[k]}
  {
  }

  lemma Occurs(h: Heap, reserve: nat, i: nat)
    requires Ordered(h, reserve) && i < |h.blocks|
    ensures forall j :: 0 <= j < |h.blocks| && j != i ==> h.blocks[j] != h.blocks[i]
  {
    forall j | 0 <= j < |h.blocks| && j != i ensures h.blocks[j] != h.blocks[i] {
      Distinct(h, reserve, i, j);
    }
  }

  lemma Distinct(h: Heap, reserve: nat, i: nat, j: nat)
    requires Ordered(h, reserve) && i < |h.blocks| && j < |h.blocks| && i != j
    ensures h.blocks[i].addr != h.blocks[j].addr
  {
    if i < j { Apart(h, reserve, i, j); } else { Apart(h, reserve, j, i); }
  }

  /** Splitting a free block and releasing the part that was served restores the list. */
  lemma SplitThenFree(h: Heap, i: nat, size: nat, reserve: nat)
    requires Sound(h, reserve) && Layout(reserve) && i < |h.blocks| && Fits(h.blocks[i], size) && size > 0 && size % 8 == 0
    ensures i < |Served(h, i, size, reserve).blocks|
    ensures Mergeable(Served(h, i, size, reserve), i, reserve)
    ensures Free(Served(h, i, size, reserve), i, reserve) == h
  {
    ServedSound(h, i, size, reserve);
    var h' := Served(h, i, size, reserve);
    var n := if Splits(h.blocks[i], size) then 1 else 0;
    ServedBlock(h, i, size, reserve, i);
    ServedBlock(h, i, size, reserve, i + n);
    assert i + 1 < |h.blocks| && !h.blocks[i + 1].free;
    assert 0 < i ==> !h.blocks[i - 1].free && h'.blocks[i - 1] == h.blocks[i - 1];
    assert i + n + 1 < |h'.blocks| && h'.blocks[i + n + 1] == h.blocks[i + 1];
    SplitThenRelease(h, i, size, reserve);
  }

  lemma SplitThenRelease(h: Heap, i: nat, size: nat, reserve: nat)
    requires i + 1 < |h.blocks| && Fits(h.blocks[i], size) && !h.blocks[i + 1].free
    requires 0 < i ==> !h.blocks[i - 1].free
    ensures i < |Served(h, i, size, reserve).blocks|
    ensures Released(Served(h, i, size, reserve).blocks, i) == h.blocks
  {
    var blocks := Served(h, i, size, reserve).blocks;
    assert 0 < i ==> blocks[i - 1] == h.blocks[i - 1];
    if Splits(h.blocks[i], size) {
      SplitThenMerge(h, i, size, reserve);
    } else {
      assert blocks[i + 1] == h.blocks[i + 1];
      assert Marked(blocks, i) == h.blocks;
    }
  }

  lemma SplitThenMerge(h: Heap, i: nat, size: nat, reserve: nat)
    requires i + 1 < |h.blocks| && Fits(h.blocks[i], size) && Splits(h.blocks[i], size)
    ensures i < |Served(h, i, size, reserve).blocks|
    ensures MergedNext(Marked(Served(h, i, size, reserve).blocks, i), i) == h.blocks
  {
  }

  // ---- The room behind the last block --------------------------------------------------------

  lemma RequestTopRoom(h: Heap, size: nat, reserve: nat)
    requires Sound(h, reserve) && Layout(reserve) && TopRoom(h)
    ensures TopRoom(Request(h, size, reserve).heap)
  {
    if Guard(h.end, size) && h.blocks != [] {
      var i, h' := FirstFit(h.blocks, size), Request(h, size, reserve).heap;
      FirstFitFits(h.blocks, size);
      if i < |h.blocks| {
        assert i + 1 < |h.blocks|;
        ServedBlock(h, i, size, reserve, |h'.blocks| - 1);
      }
    }
  }

  lemma BlockIsSound(h: Heap, reserve: nat, i: nat)
    requires Ordered(h, reserve) && i < |h.blocks|
    ensures SoundBlock(h.blocks[i])
  {
  }

  lemma GapAtLeast(h: Heap, reserve: nat, i: nat)
    requires Ordered(h, reserve) && i < |h.blocks|
    ensures Gap(h, i) >= reserve
  {
  }

  lemma FreeTopRoom(h: Heap, i: nat, reserve: nat)
    requires Sound(h, reserve) && Layout(reserve) && i < |h.blocks| && TopRoom(h) && Mergeable(h, i, reserve)
    requires reserve == TAIL || TopStays(h, i)
    ensures TopRoom(Free(h, i, reserve))
  {
    hide Released, Footprint, Ordered, Coalesced, LinksClear, Mergeable;
    var h' := Free(h, i, reserve);
    if reserve == TAIL {
      FreeSound(h, i, reserve);
      if |h'.blocks| >= 2 { GapAtLeast(h', reserve, |h'.blocks| - 1); }
    } else {
      var lo, hi, joined := TheRun(h.blocks, i);
    }
  }
}
