/** Where kfree as written breaks the layout (src/kernel/mm/heap.c): the exact condition, and runs that
    get there. */
module HeapFailures {
  import opened HeapList
  import opened HeapMemory
  import opened HeapRuns
  import opened Machine

  // ---- A merge without room ------------------------------------------------------------------

  lemma AbsorbCollides(m: Memory, a: nat, n: nat, next: nat, size: nat)
    requires next != 0 && next + HEADER <= |m| && a + HEADER + size == next + 4
    requires Word(m, a + 12) == n && Word(m, n + 12) == next && Word(m, a + 4) + FOOTPRINT + Word(m, n + 4) == size
    ensures HeaderAt(AbsorbMemory(m, a), next).size == MAGIC
  {
  }

  lemma GapsAreWords(h: Heap, i: nat)
    requires Ordered(h, 0) && i + 2 < |h.blocks|
    ensures (Gap(h, i) + Gap(h, i + 1)) % 4 == 0
    ensures h.blocks[i].addr + HEADER + h.blocks[i].size + FOOTPRINT + h.blocks[i + 1].size
         == h.blocks[i + 2].addr + 4 - (Gap(h, i) + Gap(h, i + 1))
  {
    assert SoundBlock(h.blocks[i]) && SoundBlock(h.blocks[i + 1]) && SoundBlock(h.blocks[i + 2]);
    DistanceInWords(h.blocks[i].addr, h.blocks[i + 2].addr, h.blocks[i].size, h.blocks[i + 1].size);
  }

  lemma DistanceInWords(a: int, b: int, s: int, t: int)
    requires a % 4 == 0 && b % 4 == 0 && s % 8 == 0 && t % 8 == 0
    ensures (b - a - 40 - s - t) % 4 == 0
  {
  }

  /** A merge without room writes its tail over the size of the next header -- and only then. */
  lemma TailOverwritesSize(m: Memory, h: Heap, i: nat)
    requires Ordered(h, 0) && Linked(m, h) && i + 2 < |h.blocks|
    ensures var m' := AbsorbMemory(m, h.blocks[i].addr);
            HeaderAt(m', h.blocks[i + 2].addr).size == (if RoomForTail(h, i, 0) then h.blocks[i + 2].size else MAGIC)
  {
    var a, n, next := h.blocks[i].addr, h.blocks[i + 1].addr, h.blocks[i + 2].addr;
    var size := h.blocks[i].size + FOOTPRINT + h.blocks[i + 1].size;
    Neighbours(m, h, i);
    Neighbours(m, h, i + 1);
    Neighbours(m, h, i + 2);
    if RoomForTail(h, i, 0) {
      MergesAt(m, h, i);
      AbsorbNext(m, a, n, next, size);
    } else {
      assert Gap(h, i) >= 0 && Gap(h, i + 1) >= 0;
      GapsAreWords(h, i);
      AbsorbCollides(m, a, n, next, size);
    }
  }

  /** A run of requests. */
  function Requests(h: Heap, sizes: seq<nat>): Heap
    decreases |sizes|
  {
    if sizes == [] then h else Requests(Malloc(h, sizes[0], 0).heap, sizes[1..])
  }

  /** A request served by splitting the first block that fits. */
  lemma RequestSplits(before: seq<Block>, b: Block, after: seq<Block>, end: nat)
    requires end <= KERNEL_HEAP_END - FOOTPRINT - 8
    requires Fits(b, 8) && Splits(b, 8) && forall k :: 0 <= k < |before| ==> !before[k].free
    ensures Malloc(Heap(before + [b] + after, end), 8, 0).heap
         == Heap(before + [Block(b.addr, 8, false), Block(b.addr + 28, b.size - 32, true)] + after, end)
  {
    var blocks := before + [b] + after;
    FirstFitIsFirst(blocks, 8, |before|);
    assert blocks[..|before|] == before && blocks[|before| + 1..] == after;
  }

  /** Seven requests and one release, as written: four pieces of 8 bytes with no room between them, a
      free rest with a gap of 16 bytes behind it, and two blocks in use. */
  lemma CarvedRun() returns (h: Heap)
    ensures var three := Requests(EMPTY, [136, 8, 8]);
            |three.blocks| == 3 && h == Requests(Free(three, 0, 0), [8, 8, 8, 8])
    ensures h == Heap([Block(0x40_0000, 8, false), Block(0x40_001C, 8, false), Block(0x40_0038, 8, false),
                       Block(0x40_0054, 8, false), Block(0x40_0070, 8, true),
                       Block(0x40_009C, 8, false), Block(0x40_00BC, 8, false)], 0x40_00DC)
  {
    var a, b, c := Block(0x40_0000, 136, false), Block(0x40_009C, 8, false), Block(0x40_00BC, 8, false);
    var h1, h2, h3 := Heap([a], 0x40_009C), Heap([a, b], 0x40_00BC), Heap([a, b, c], 0x40_00DC);
    assert Malloc(EMPTY, 136, 0).heap == h1;
    FirstFitIsFirst(h1.blocks, 8, 1);
    assert Malloc(h1, 8, 0).heap == h2;
    FirstFitIsFirst(h2.blocks, 8, 2);
    assert Malloc(h2, 8, 0).heap == h3;
    assert [136, 8, 8][1..] == [8, 8] && [8, 8][1..] == [8] && [8][1..] == [];
    assert Requests(EMPTY, [136, 8, 8]) == Requests(h1, [8, 8]) == Requests(h2, [8]) == h3;
    h := CarvedPieces(b, c);
    assert Free(h3, 0, 0).blocks == [a.(free := true), b, c];
  }

  lemma CarvedPieces(b: Block, c: Block) returns (h: Heap)
    requires b == Block(0x40_009C, 8, false) && c == Block(0x40_00BC, 8, false)
    ensures h == Requests(Heap([Block(0x40_0000, 136, true), b, c], 0x40_00DC), [8, 8, 8, 8])
    ensures h == Heap([Block(0x40_0000, 8, false), Block(0x40_001C, 8, false), Block(0x40_0038, 8, false),
                       Block(0x40_0054, 8, false), Block(0x40_0070, 8, true), b, c], 0x40_00DC)
  {
    hide Malloc;
    var p0, p1 := Block(0x40_0000, 8, false), Block(0x40_001C, 8, false);
    var r0, r1, r2 := Block(0x40_0000, 136, true), Block(0x40_001C, 104, true), Block(0x40_0038, 72, true);
    var end := 0x40_00DC;
    var h4, h5, h6 := Heap([r0, b, c], end), Heap([p0, r1, b, c], end), Heap([p0, p1, r2, b, c], end);
    assert Malloc(h4, 8, 0).heap == h5 by {
      RequestSplits([], r0, [b, c], end);
      assert h4.blocks == [] + [r0] + [b, c];
    }
    assert Malloc(h5, 8, 0).heap == h6 by {
      RequestSplits([p0], r1, [b, c], end);
      assert h5.blocks == [p0] + [r1] + [b, c] && h6.blocks == [p0] + [p1, r2] + [b, c];
    }
    h := MorePieces(p0, p1, b, c);
    assert [8, 8, 8, 8][1..] == [8, 8, 8] && [8, 8, 8][1..] == [8, 8];
    assert Requests(h4, [8, 8, 8, 8]) == Requests(h5, [8, 8, 8]) == Requests(h6, [8, 8]);
  }

  lemma MorePieces(p0: Block, p1: Block, b: Block, c: Block) returns (h: Heap)
    requires !p0.free && !p1.free
    ensures h == Requests(Heap([p0, p1, Block(0x40_0038, 72, true), b, c], 0x40_00DC), [8, 8])
    ensures h == Heap([p0, p1, Block(0x40_0038, 8, false), Block(0x40_0054, 8, false), Block(0x40_0070, 8, true), b, c], 0x40_00DC)
  {
    hide Malloc;
    var p2, p3 := Block(0x40_0038, 8, false), Block(0x40_0054, 8, false);
    var r2, r3, r4 := Block(0x40_0038, 72, true), Block(0x40_0054, 40, true), Block(0x40_0070, 8, true);
    var end := 0x40_00DC;
    var h6, h7 := Heap([p0, p1, r2, b, c], end), Heap([p0, p1, p2, r3, b, c], end);
    h := Heap([p0, p1, p2, p3, r4, b, c], end);
    assert Malloc(h6, 8, 0).heap == h7 by {
      RequestSplits([p0, p1], r2, [b, c], end);
      assert h6.blocks == [p0, p1] + [r2] + [b, c] && h7.blocks == [p0, p1] + [p2, r3] + [b, c];
    }
    assert Malloc(h7, 8, 0).heap == h by {
      RequestSplits([p0, p1, p2], r3, [b, c], end);
      assert h7.blocks == [p0, p1, p2] + [r3] + [b, c] && h.blocks == [p0, p1, p2] + [p3, r4] + [b, c];
    }
    assert [8, 8][1..] == [8] && [8][1..] == [];
    assert Requests(h6, [8, 8]) == Requests(h7, [8]) == h;
  }

  /** That run reaches both failures.  After the release of its first piece, the release of the second
      merges two blocks without room for the tail; and the release of the block behind the rest merges
      it into the rest with the tail on its own back link. */
  lemma CarvedRunFails()
    ensures var h := Requests(Free(Requests(EMPTY, [136, 8, 8]), 0, 0), [8, 8, 8, 8]);
            && |h.blocks| == 7 && !Mergeable(Free(h, 0, 0), 1, 0) && !LinksClear(h, 5)
  {
    hide Requests, Released, Mergeable, LinksClear;
    var h := CarvedRun();
    CarvedFails(h);
  }

  lemma CarvedFails(h: Heap)
    requires h == Heap([Block(0x40_0000, 8, false), Block(0x40_001C, 8, false), Block(0x40_0038, 8, false),
                        Block(0x40_0054, 8, false), Block(0x40_0070, 8, true),
                        Block(0x40_009C, 8, false), Block(0x40_00BC, 8, false)], 0x40_00DC)
    ensures |Free(h, 0, 0).blocks| == 7 && !Mergeable(Free(h, 0, 0), 1, 0) && !LinksClear(h, 5)
  {
    var after := Heap([Block(0x40_0000, 8, true)] + h.blocks[1..], h.end);
    assert Free(h, 0, 0) == after;
    assert after.blocks[1] == h.blocks[1] && after.blocks[2] == h.blocks[2];
  }

  /** Once heap_end is lowered onto a block that is still linked, the next append lands on it and makes
      it its own successor and predecessor. */
  lemma AppendOntoLast(m: Memory, last: nat, size: nat)
    requires last + HEADER + size < |m|
    ensures HeaderAt(AppendMemory(m, last, last, size), last).next == last
    ensures HeaderAt(AppendMemory(m, last, last, size), last).prev == last
  {
  }

  /** A run as written that gets there: two requests of 8 bytes, release of the second, and then a
      request of 16 bytes, which the block that is left behind cannot serve. */
  lemma TrimLeavesLast()
    ensures var h2 := Requests(EMPTY, [8, 8]);
            && |h2.blocks| == 2
            && var h3 := Free(h2, 1, 0);
            var out := Malloc(h3, 16, 0);
            && !TopStays(h2, 1) && !Sound(h3, 0) && out.index == 2 < |out.heap.blocks|
            && out.heap.blocks[2].addr == out.heap.blocks[1].addr == h3.end
  {
    var h1 := Heap([Block(0x40_0000, 8, false)], 0x40_001C);
    assert Malloc(EMPTY, 8, 0).heap == h1;
    var h2 := Heap([Block(0x40_0000, 8, false), Block(0x40_001C, 8, false)], 0x40_003C);
    assert Malloc(h1, 8, 0).heap == h2 by { FirstFitIsFirst(h1.blocks, 8, 1); }
    assert [8, 8][1..] == [8] && [8][1..] == [];
    assert Requests(EMPTY, [8, 8]) == Requests(h1, [8]) == h2;
    var h3 := Heap([Block(0x40_0000, 8, false), Block(0x40_001C, 8, true)], 0x40_001C);
    assert Free(h2, 1, 0) == h3;
    assert h3.blocks[1].free;
    FirstFitIsFirst(h3.blocks, 16, 2);
  }

  // ---- The exact condition -------------------------------------------------------------------

  lemma WrongHeader(m: Memory, h: Heap, i: nat)
    requires i < |h.blocks| && HeaderAt(m, h.blocks[i].addr) != Expected(h.blocks, i)
    ensures !Linked(m, h)
  {
  }

  lemma LinkSpoiled(m: Memory, h: Heap, i: nat)
    requires Ordered(h, 0) && Linked(m, h) && 0 < i < |h.blocks| && RoomForTail(h, i - 1, 0)
    requires Gap(h, i - 1) == h.blocks[i].size + 8 || Gap(h, i - 1) == h.blocks[i].size + 12
    ensures !Linked(PreviousMemory(m, h.blocks[i].addr), h.(blocks := Absorbed(h.blocks, i - 1)))
  {
    hide PreviousMemory, HeaderAt, Merges, Linked, Absorbed, Ordered, Expected, Word;
    var h' := h.(blocks := Absorbed(h.blocks, i - 1));
    PreviousSetting(m, h, i);
    WrongLink(m, h.blocks[i - 1].addr, h.blocks[i].addr, Next(h.blocks, i), h.blocks[i - 1].size + FOOTPRINT + h.blocks[i].size);
    AbsorbedBlock(h.blocks, i - 1, i - 1);
    ExpectedAbsorbed(h.blocks, i - 1, i - 1);
    WrongHeader(PreviousMemory(m, h.blocks[i].addr), h', i - 1);
  }

  lemma SizeSpoiled(m: Memory, h: Heap, i: nat)
    requires Ordered(h, 0) && Linked(m, h) && 0 < i && i + 1 < |h.blocks| && !RoomForTail(h, i - 1, 0)
    ensures !Linked(PreviousMemory(m, h.blocks[i].addr), h.(blocks := Absorbed(h.blocks, i - 1)))
  {
    hide PreviousMemory, Absorbed, Ordered, Linked;
    var h' := h.(blocks := Absorbed(h.blocks, i - 1));
    var n := h.blocks[i].addr;
    Neighbours(m, h, i - 1);
    Neighbours(m, h, i);
    Neighbours(m, h, i + 1);
    NoRoom(h, i - 1);
    WrongSize(m, h.blocks[i - 1].addr, n, h.blocks[i + 1].addr, h.blocks[i - 1].size + FOOTPRINT + h.blocks[i].size);
    AbsorbedBlock(h.blocks, i - 1, i);
    assert HeaderAt(PreviousMemory(m, n), h'.blocks[i].addr).size == MAGIC != h'.blocks[i].size;
    WrongHeader(PreviousMemory(m, n), h', i);
  }

  /** A merge into the previous block that does not fit spoils a header: the next one's size when the
      tail has no room, and the merged block's link when its tail falls on the links still to be read. */
  lemma PreviousSpoils(m: Memory, h: Heap, i: nat)
    requires Ordered(h, 0) && Linked(m, h) && 0 < i < |h.blocks| && h.blocks[i - 1].free && !PreviousFits(h, i)
    requires RoomForTail(h, i - 1, 0) || i + 1 < |h.blocks|
    ensures !Linked(PreviousMemory(m, h.blocks[i].addr), h.(blocks := Absorbed(h.blocks, i - 1)))
  {
    hide PreviousMemory, Absorbed, Ordered, Linked, HeaderAt, Expected;
    if RoomForTail(h, i - 1, 0) { LinkSpoiled(m, h, i); } else { SizeSpoiled(m, h, i); }
  }

  lemma WrongLink(m: Memory, a: nat, n: nat, next: nat, size: nat)
    requires Merges(m, a, n, next, size) && Word(m, n + 16) == a && a + HEADER <= n
    requires n + HEADER <= KERNEL_HEAP_END <= |m| && next < KERNEL_HEAP_END && (next == 0 || n + HEADER <= next)
    requires a + HEADER + size == n + 12 || a + HEADER + size == n + 16
    ensures HeaderAt(PreviousMemory(m, n), a).next != next
  {
  }

  lemma WrongSize(m: Memory, a: nat, n: nat, next: nat, size: nat)
    requires Word(m, a + 4) + FOOTPRINT + Word(m, n + 4) == size && Word(m, n + 12) == next && Word(m, n + 16) == a
    requires a + HEADER <= n && n + HEADER <= next && next + HEADER <= KERNEL_HEAP_END <= |m|
    requires a + HEADER + size == next + 4
    ensures HeaderAt(PreviousMemory(m, n), next).size == MAGIC
  {
  }

  /** Without room the tail of a merge falls on the size of the block behind it. */
  lemma NoRoom(h: Heap, i: nat)
    requires Ordered(h, 0) && i + 2 < |h.blocks| && !RoomForTail(h, i, 0)
    ensures h.blocks[i].addr + HEADER + h.blocks[i].size + FOOTPRINT + h.blocks[i + 1].size == h.blocks[i + 2].addr + 4
  {
    assert Gap(h, i) >= 0 && Gap(h, i + 1) >= 0;
    GapsAreWords(h, i);
  }

  /** The word at next + 4 keeps a sentinel through the merge into the previous block. */
  lemma SentinelStays(m: Memory, a: nat, n: nat, next: nat)
    requires Word(m, n + 16) == a && Word(m, n + 12) == next && Word(m, next + 4) == MAGIC
    requires a + HEADER <= n && n + HEADER <= next && next + HEADER <= KERNEL_HEAP_END <= |m|
    ensures Word(PreviousMemory(m, n), next + 4) == MAGIC
  {
  }

  lemma SpoiledWords(m: Memory, a: nat, n: nat, next: nat, size: nat)
    requires Word(m, a + 12) == n && Word(m, n + 12) == next && Word(m, a + 4) + FOOTPRINT + Word(m, n + 4) == size
    requires a + HEADER <= n && n + HEADER <= next && next + HEADER <= KERNEL_HEAP_END <= |m|
    requires a + HEADER + size == next + 4
    ensures |AbsorbMemory(m, a)| == |m| && Word(AbsorbMemory(m, a), next + 4) == MAGIC
    ensures Word(AbsorbMemory(m, a), a + 12) == next && Word(AbsorbMemory(m, a), a + 16) == Word(m, a + 16)
  {
  }

  lemma NextWords(m: Memory, h: Heap, i: nat)
    requires Ordered(h, 0) && Linked(m, h) && i + 2 < |h.blocks| && !RoomForTail(h, i, 0)
    ensures var m', a, next := AbsorbMemory(m, h.blocks[i].addr), h.blocks[i].addr, h.blocks[i + 2].addr;
            && |m'| == |m| && Word(m', next + 4) == MAGIC
            && Word(m', a + 12) == next && Word(m', a + 16) == Previous(h.blocks, i)
            && a + HEADER <= next && next + HEADER <= KERNEL_HEAP_END <= |m|
  {
    hide AbsorbMemory, Ordered, Linked;
    Neighbours(m, h, i);
    Neighbours(m, h, i + 1);
    Neighbours(m, h, i + 2);
    NoRoom(h, i);
    SpoiledWords(m, h.blocks[i].addr, h.blocks[i + 1].addr, h.blocks[i + 2].addr,
                 h.blocks[i].size + FOOTPRINT + h.blocks[i + 1].size);
  }

  /** A merge of the next block without room spoils the size of the block behind it for good. */
  lemma NextSpoilsWord(m: Memory, h: Heap, i: nat)
    requires Ordered(h, 0) && Linked(m, h) && i + 2 < |h.blocks| && h.blocks[i + 1].free && !NextFits(h, i)
    ensures Word(ReleaseMemory(m, h.blocks, i), h.blocks[i + 2].addr + 4) == MAGIC
  {
    hide AbsorbMemory, PreviousMemory, Ordered, Linked, Word, Gap, Put;
    var h1, m1 := h.(blocks := Marked(h.blocks, i)), Put(m, h.blocks[i].addr + 8, 1);
    assert Linked(m1, h1) && Ordered(h1, 0) && !RoomForTail(h1, i, 0) by {
      MarkCorrect(m, h, i, true);
      MarkedOrdered(h, i, 0);
    }
    NextWords(m1, h1, i);
    if 0 < i && h.blocks[i - 1].free {
      Apart(h, 0, i - 1, i);
      SentinelStays(AbsorbMemory(m1, h.blocks[i].addr), h.blocks[i - 1].addr, h.blocks[i].addr, h.blocks[i + 2].addr);
    }
  }

  lemma SizeIsNoSentinel(h: Heap, k: nat)
    requires Ordered(h, 0) && k < |h.blocks|
    ensures 0 < h.blocks[k].size < MAGIC
  {
    AllBelowEnd(h, 0, k);
    assert SoundBlock(h.blocks[k]);
  }

  lemma NextSpoils(m: Memory, h: Heap, i: nat)
    requires Ordered(h, 0) && Linked(m, h) && i + 2 < |h.blocks| && h.blocks[i + 1].free && !NextFits(h, i)
    ensures !Linked(ReleaseMemory(m, h.blocks, i), h.(blocks := Released(h.blocks, i)))
  {
    hide ReleaseMemory, Released, Ordered, Linked;
    var h' := h.(blocks := Released(h.blocks, i));
    NextSpoilsWord(m, h, i);
    ReleasedIsRun(h.blocks, i);
    var k := RunStart(h.blocks, i) + 1;
    assert h'.blocks[k] == h.blocks[i + 2];
    SizeIsNoSentinel(h, i + 2);
    WrongHeader(ReleaseMemory(m, h.blocks, i), h', k);
  }

  lemma LastHasRoom(h: Heap, i: nat)
    requires Ordered(h, 0) && TopRoom(h) && 0 < i == |h.blocks| - 1
    ensures RoomForTail(h, i - 1, 0)
  {
    assert Gap(h, i - 1) >= 0;
  }

  /** The same for the merge into the previous block. */
  lemma ReleaseSpoils(m: Memory, h: Heap, i: nat)
    requires Sound(h, 0) && TopRoom(h) && Linked(m, h) && i < |h.blocks| && NextFits(h, i)
    requires !(Mergeable(h, i, 0) && LinksClear(h, i))
    ensures !Linked(ReleaseMemory(m, h.blocks, i), h.(blocks := Released(h.blocks, i)))
  {
    hide AbsorbMemory, PreviousMemory, Put, Linked, Ordered;
    var m2, h2 := MergeNextMemory(Put(m, h.blocks[i].addr + 8, 1), h.blocks, i), Joined(h, i);
    JoinedRoom(h, i);
    JoinCorrect(m, h, i);
    assert h2.blocks[i - 1].free && h2.blocks[i].addr == h.blocks[i].addr;
    if i + 1 >= |h2.blocks| {
      assert h2.blocks == Marked(h.blocks, i) && i == |h.blocks| - 1;
      LastHasRoom(h, i);
    }
    PreviousSpoils(m2, h2, i);
  }

  /** kfree as written leaves the list in memory, ordered, coalesced and with its highest block in use
      exactly when the release is safe. */
  lemma SafeReleaseIff(m: Memory, h: Heap, i: nat)
    requires Sound(h, 0) && TopRoom(h) && Linked(m, h) && i < |h.blocks|
    ensures var released := h.(blocks := Released(h.blocks, i));
            Linked(ReleaseMemory(m, h.blocks, i), released) && Sound(Trimmed(released, 0), 0) <==> SafeRelease(h, i)
  {
    hide ReleaseMemory, Released, Ordered, Linked, Coalesced, Gap;
    var released := h.(blocks := Released(h.blocks, i));
    if Mergeable(h, i, 0) && LinksClear(h, i) {
      ReleaseCorrect(m, h, i);
      FreeSound(h, i, 0);
    } else if NextFits(h, i) {
      ReleaseSpoils(m, h, i);
    } else {
      assert i + 2 < |h.blocks|;
      NextSpoils(m, h, i);
    }
  }
}
