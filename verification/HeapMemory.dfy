/** The heap as it lies in memory: block headers and tail sentinels in the very bytes the heap hands
    out (src/kernel/mm/heap.c).

    A memory maps the address of every aligned 32-bit word to the word stored there; only addresses
    divisible by 4 are used. */
module HeapMemory {
  import opened HeapList
  import opened Machine

  type Memory = seq<nat>

  const MAGIC := 0xDEAD_BEEF

  /** The five words of a block header. */
  datatype Header = Header(magic: nat, size: nat, free: nat, next: nat, prev: nat)

  function HeaderAt(m: Memory, a: nat): Header {
    if a + HEADER <= |m| then Header(m[a], m[a + 4], m[a + 8], m[a + 12], m[a + 16]) else Header(0, 0, 0, 0, 0)
  }

  function TailOf(m: Memory, b: Block): nat {
    if b.End() < |m| then m[b.End()] else 0
  }

  /** The addresses of a block's neighbours, 0 (NULL) where there is none. */
  function Next(blocks: seq<Block>, i: nat): nat {
    if i + 1 < |blocks| then blocks[i + 1].addr else 0
  }

  function Previous(blocks: seq<Block>, i: nat): nat {
    if 0 < i <= |blocks| then blocks[i - 1].addr else 0
  }

  /** The header that block i of a doubly linked list must have. */
  function Expected(blocks: seq<Block>, i: nat): Header
    requires i < |blocks|
  {
    Header(MAGIC, blocks[i].size, if blocks[i].free then 1 else 0, Next(blocks, i), Previous(blocks, i))
  }

  /** The headers of the list are in memory, doubly linked. */
  ghost predicate Linked(m: Memory, h: Heap) {
    && |m| >= KERNEL_HEAP_END
    && forall i :: 0 <= i < |h.blocks| ==> HeaderAt(m, h.blocks[i].addr) == Expected(h.blocks, i)
  }

  /** Every tail sentinel is intact. */
  ghost predicate Guarded(m: Memory, h: Heap) {
    forall i :: 0 <= i < |h.blocks| ==> TailOf(m, h.blocks[i]) == MAGIC
  }

  /** The bytes of a block that its owner may use. */
  function Payload(m: Memory, b: Block): Memory {
    if b.End() <= |m| then m[b.addr + HEADER..b.End()] else []
  }

  /** One store; addresses outside memory are not written. */
  function Put(m: Memory, a: nat, value: nat): Memory {
    if a < |m| then m[a := value] else m
  }

  /** The words of b's payload. */
  predicate Owns(b: Block, c: nat) {
    b.addr + HEADER <= c < b.End()
  }

  lemma PayloadSame(m: Memory, m': Memory, b: Block)
    requires |m'| == |m| && forall c | Owns(b, c) :: Word(m', c) == Word(m, c)
    ensures Payload(m', b) == Payload(m, b)
  {
    if b.End() <= |m| {
      forall k | 0 <= k < b.size ensures Payload(m', b)[k] == Payload(m, b)[k] {
        assert Word(m', b.addr + HEADER + k) == Word(m, b.addr + HEADER + k);
      }
    }
  }

  /** A whole block: its header, then its tail. */
  function PutBlock(m: Memory, a: nat, size: nat, free: nat, next: nat, prev: nat): Memory {
    Put(Put(Put(Put(Put(Put(m, a, MAGIC), a + 4, size), a + 8, free), a + 12, next), a + 16, prev), a + HEADER + size, MAGIC)
  }

  /** The back link of a successor, if there is one. */
  function PutBack(m: Memory, next: nat, prev: nat): Memory {
    if next == 0 then m else Put(m, next + 16, prev)
  }

  function Word(m: Memory, a: nat): nat {
    if a < |m| then m[a] else 0
  }

  /** Lines 207 to 215, and 224 to 230: the block at a takes in its successor. */
  function AbsorbMemory(m: Memory, a: nat): Memory {
    var n := Word(m, a + 12);
    var size := Word(m, a + 4) + FOOTPRINT + Word(m, n + 4);
    var next := Word(m, n + 12);
    PutBack(Put(Put(Put(m, a + 4, size), a + 12, next), a + HEADER + size, MAGIC), next, a)
  }

  /** Three words that describe a merge: the successor, its successor, and the merged size. */
  ghost predicate Merges(m: Memory, a: nat, n: nat, next: nat, size: nat) {
    && a + HEADER + size < |m|
    && Word(m, a + 12) == n && Word(m, n + 12) == next && Word(m, a + 4) + FOOTPRINT + Word(m, n + 4) == size
    && (next != 0 ==> a + HEADER + size <= next && next + HEADER <= |m| && m[next] == MAGIC)
  }

  lemma AbsorbSelf(m: Memory, a: nat, n: nat, next: nat, size: nat)
    requires Merges(m, a, n, next, size)
    ensures HeaderAt(AbsorbMemory(m, a), a) == HeaderAt(m, a).(size := size, next := next)
  {
  }

  lemma AbsorbNext(m: Memory, a: nat, n: nat, next: nat, size: nat)
    requires Merges(m, a, n, next, size) && next != 0
    ensures HeaderAt(AbsorbMemory(m, a), next) == HeaderAt(m, next).(prev := a)
  {
  }

  lemma AbsorbOther(m: Memory, a: nat, n: nat, next: nat, size: nat, x: nat)
    requires Merges(m, a, n, next, size)
    requires x + HEADER <= a || (next != 0 && next + HEADER <= x)
    ensures HeaderAt(AbsorbMemory(m, a), x) == HeaderAt(m, x)
  {
  }

  lemma Neighbours(m: Memory, h: Heap, i: nat)
    requires Ordered(h, 0) && Linked(m, h) && i < |h.blocks|
    ensures HeaderAt(m, h.blocks[i].addr) == Expected(h.blocks, i)
    ensures 0 < h.blocks[i].addr && h.blocks[i].End() < KERNEL_HEAP_END <= |m|
    ensures i + 1 < |h.blocks| ==> h.blocks[i].End() <= h.blocks[i + 1].addr
  {
    AllBelowEnd(h, 0, i);
    assert Gap(h, i) >= 0;
  }

  lemma MergesAt(m: Memory, h: Heap, i: nat)
    requires Ordered(h, 0) && i + 1 < |h.blocks| && Linked(m, h)
    requires RoomForTail(h, i, 0)
    ensures Merges(m, h.blocks[i].addr, h.blocks[i + 1].addr, Next(h.blocks, i + 1),
                   h.blocks[i].size + FOOTPRINT + h.blocks[i + 1].size)
  {
    Neighbours(m, h, i);
    Neighbours(m, h, i + 1);
    if i + 2 < |h.blocks| { Neighbours(m, h, i + 2); }
  }

  lemma ExpectedAbsorbed(blocks: seq<Block>, i: nat, j: nat)
    requires i + 1 < |blocks| && j < |blocks| - 1
    ensures Expected(Absorbed(blocks, i), j)
         == if j < i then Expected(blocks, j)
            else if j == i then Expected(blocks, i).(size := blocks[i].size + FOOTPRINT + blocks[i + 1].size,
                                                     next := Next(blocks, i + 1))
            else if j == i + 1 then Expected(blocks, j + 1).(prev := blocks[i].addr)
            else Expected(blocks, j + 1)
  {
  }

  lemma AbsorbHeader(m: Memory, h: Heap, i: nat, j: nat)
    requires Ordered(h, 0) && i + 1 < |h.blocks| && Linked(m, h) && j < |h.blocks| - 1
    requires RoomForTail(h, i, 0)
    ensures HeaderAt(AbsorbMemory(m, h.blocks[i].addr), Absorbed(h.blocks, i)[j].addr) == Expected(Absorbed(h.blocks, i), j)
  {
    var a, n, next := h.blocks[i].addr, h.blocks[i + 1].addr, Next(h.blocks, i + 1);
    var size := h.blocks[i].size + FOOTPRINT + h.blocks[i + 1].size;
    MergesAt(m, h, i);
    ExpectedAbsorbed(h.blocks, i, j);
    AbsorbedBlock(h.blocks, i, j);
    var k := if j <= i then j else j + 1;
    var x := h.blocks[k].addr;
    Neighbours(m, h, k);
    if j < i {
      Apart(h, 0, j, i);
      AbsorbOther(m, a, n, next, size, x);
    } else if j == i {
      AbsorbSelf(m, a, n, next, size);
    } else if j == i + 1 {
      AbsorbNext(m, a, n, next, size);
    } else {
      Apart(h, 0, i + 2, k);
      AbsorbOther(m, a, n, next, size, x);
    }
  }

  lemma TailApart(h: Heap, j: nat, i: nat)
    requires Ordered(h, 0) && i < |h.blocks| && j < |h.blocks|
    ensures h.blocks[j].End() <= h.blocks[i].addr || h.blocks[i].addr + HEADER <= h.blocks[j].End()
    ensures h.blocks[j].End() < KERNEL_HEAP_END
  {
    if j < i { Apart(h, 0, j, i); }
    if i < j { Apart(h, 0, i, j); }
    AllBelowEnd(h, 0, j);
  }

  lemma AbsorbKeepsTail(m: Memory, a: nat, n: nat, next: nat, size: nat, e: nat)
    requires Merges(m, a, n, next, size) && e < |m| && m[e] == MAGIC
    requires e <= a || a + HEADER <= e
    requires next == 0 || e <= next || next + HEADER <= e
    ensures |AbsorbMemory(m, a)| == |m| && AbsorbMemory(m, a)[e] == MAGIC
  {
  }

  lemma AbsorbWritesTail(m: Memory, a: nat, n: nat, next: nat, size: nat)
    requires Merges(m, a, n, next, size)
    ensures |AbsorbMemory(m, a)| == |m| && AbsorbMemory(m, a)[a + HEADER + size] == MAGIC
  {
  }

  lemma AbsorbOtherTail(m: Memory, a: nat, n: nat, next: nat, size: nat, b: Block)
    requires Merges(m, a, n, next, size) && TailOf(m, b) == MAGIC
    requires b.End() <= a || a + HEADER <= b.End()
    requires next == 0 || b.End() <= next || next + HEADER <= b.End()
    ensures TailOf(AbsorbMemory(m, a), b) == MAGIC
  {
    AbsorbKeepsTail(m, a, n, next, size, b.End());
  }

  lemma AbsorbOwnTail(m: Memory, a: nat, n: nat, next: nat, size: nat, b: Block)
    requires Merges(m, a, n, next, size) && b.addr == a && b.size == size
    ensures TailOf(AbsorbMemory(m, a), b) == MAGIC
  {
    AbsorbWritesTail(m, a, n, next, size);
  }

  lemma AbsorbTailAt(m: Memory, h: Heap, i: nat, k: nat)
    requires Ordered(h, 0) && i + 1 < |h.blocks| && Linked(m, h) && k < |h.blocks|
    requires RoomForTail(h, i, 0) && TailOf(m, h.blocks[k]) == MAGIC
    ensures TailOf(AbsorbMemory(m, h.blocks[i].addr), h.blocks[k]) == MAGIC
  {
    var next := Next(h.blocks, i + 1);
    MergesAt(m, h, i);
    TailApart(h, k, i);
    if i + 2 < |h.blocks| { TailApart(h, k, i + 2); }
    AbsorbOtherTail(m, h.blocks[i].addr, h.blocks[i + 1].addr, next, h.blocks[i].size + FOOTPRINT + h.blocks[i + 1].size, h.blocks[k]);
  }

  lemma AbsorbTail(m: Memory, h: Heap, i: nat, j: nat)
    requires Ordered(h, 0) && i + 1 < |h.blocks| && Linked(m, h) && Guarded(m, h) && j < |h.blocks| - 1
    requires RoomForTail(h, i, 0)
    ensures TailOf(AbsorbMemory(m, h.blocks[i].addr), Absorbed(h.blocks, i)[j]) == MAGIC
  {
    AbsorbedBlock(h.blocks, i, j);
    if j == i {
      MergesAt(m, h, i);
      AbsorbOwnTail(m, h.blocks[i].addr, h.blocks[i + 1].addr, Next(h.blocks, i + 1),
                    h.blocks[i].size + FOOTPRINT + h.blocks[i + 1].size, Absorbed(h.blocks, i)[j]);
    } else {
      AbsorbTailAt(m, h, i, if j < i then j else j + 1);
    }
  }

  /** A payload word lies in no header. */
  lemma OutsideHeader(h: Heap, i: nat, j: nat, c: nat)
    requires Ordered(h, 0) && i < |h.blocks| && j < |h.blocks| && Owns(h.blocks[j], c)
    ensures c < h.blocks[i].addr || h.blocks[i].addr + HEADER <= c
  {
    if j < i { Apart(h, 0, j, i); }
    if i < j { Apart(h, 0, i, j); }
  }

  lemma AbsorbKeepsWord(m: Memory, a: nat, n: nat, next: nat, size: nat, c: nat)
    requires Merges(m, a, n, next, size)
    requires c < a || (next != 0 && next + HEADER <= c)
    ensures Word(AbsorbMemory(m, a), c) == Word(m, c)
  {
  }

  /** Merging in memory is merging in the list: headers, links, tails and every other payload. */
  lemma AbsorbCorrect(m: Memory, h: Heap, i: nat)
    requires Ordered(h, 0) && i + 1 < |h.blocks| && Linked(m, h) && RoomForTail(h, i, 0)
    ensures var m' := AbsorbMemory(m, h.blocks[i].addr);
            var h' := h.(blocks := Absorbed(h.blocks, i));
            && Linked(m', h') && |m'| == |m|
            && (Guarded(m, h) ==> Guarded(m', h'))
  {
    var m' := AbsorbMemory(m, h.blocks[i].addr);
    var h' := h.(blocks := Absorbed(h.blocks, i));
    forall j | 0 <= j < |h'.blocks|
      ensures HeaderAt(m', h'.blocks[j].addr) == Expected(h'.blocks, j)
      ensures Guarded(m, h) ==> TailOf(m', h'.blocks[j]) == MAGIC
    {
      AbsorbHeader(m, h, i, j);
      if Guarded(m, h) { AbsorbTail(m, h, i, j); }
    }
  }

  lemma AbsorbKeepsPayload(m: Memory, h: Heap, i: nat, j: nat, c: nat)
    requires Ordered(h, 0) && i + 1 < |h.blocks| && Linked(m, h) && RoomForTail(h, i, 0)
    requires j < |h.blocks| && j != i && j != i + 1
    requires Owns(h.blocks[j], c)
    ensures Word(AbsorbMemory(m, h.blocks[i].addr), c) == Word(m, c)
  {
    MergesAt(m, h, i);
    if j < i { Apart(h, 0, j, i); }
    if i + 2 < j { Apart(h, 0, i + 2, j); }
    AbsorbKeepsWord(m, h.blocks[i].addr, h.blocks[i + 1].addr, Next(h.blocks, i + 1),
                    h.blocks[i].size + FOOTPRINT + h.blocks[i + 1].size, c);
  }

  // ---- A change of the free mark -------------------------------------------------------------

  lemma HeadersApart(h: Heap, j: nat, i: nat)
    requires Ordered(h, 0) && i < |h.blocks| && j < |h.blocks| && i != j
    ensures h.blocks[j].addr + HEADER <= h.blocks[i].addr || h.blocks[i].addr + HEADER <= h.blocks[j].addr
  {
    if j < i { Apart(h, 0, j, i); } else { Apart(h, 0, i, j); }
  }

  lemma MarkSelf(m: Memory, a: nat, value: nat)
    requires a + HEADER <= |m|
    ensures HeaderAt(Put(m, a + 8, value), a) == HeaderAt(m, a).(free := value)
  {
  }

  lemma MarkOther(m: Memory, a: nat, value: nat, x: nat)
    requires x + HEADER <= a || a + HEADER <= x
    ensures HeaderAt(Put(m, a + 8, value), x) == HeaderAt(m, x)
  {
  }

  lemma ExpectedMarked(blocks: seq<Block>, i: nat, free: bool, j: nat)
    requires i < |blocks| && j < |blocks|
    ensures Expected(blocks[i := blocks[i].(free := free)], j)
         == if j == i then Expected(blocks, i).(free := if free then 1 else 0) else Expected(blocks, j)
  {
  }

  lemma MarkHeader(m: Memory, h: Heap, i: nat, free: bool, j: nat)
    requires Ordered(h, 0) && i < |h.blocks| && Linked(m, h) && j < |h.blocks|
    ensures var blocks := h.blocks[i := h.blocks[i].(free := free)];
            HeaderAt(Put(m, h.blocks[i].addr + 8, if free then 1 else 0), h.blocks[j].addr) == Expected(blocks, j)
  {
    var value := if free then 1 else 0;
    ExpectedMarked(h.blocks, i, free, j);
    Neighbours(m, h, j);
    if i == j {
      MarkSelf(m, h.blocks[i].addr, value);
    } else {
      HeadersApart(h, j, i);
      MarkOther(m, h.blocks[i].addr, value, h.blocks[j].addr);
    }
  }

  lemma MarkTail(m: Memory, h: Heap, i: nat, value: nat, j: nat)
    requires Ordered(h, 0) && i < |h.blocks| && j < |h.blocks|
    ensures TailOf(Put(m, h.blocks[i].addr + 8, value), h.blocks[j]) == TailOf(m, h.blocks[j])
  {
    TailApart(h, j, i);
  }

  lemma MarkCorrect(m: Memory, h: Heap, i: nat, free: bool)
    requires Ordered(h, 0) && i < |h.blocks| && Linked(m, h)
    ensures var m' := Put(m, h.blocks[i].addr + 8, if free then 1 else 0);
            var h' := h.(blocks := h.blocks[i := h.blocks[i].(free := free)]);
            && Linked(m', h') && |m'| == |m|
            && (Guarded(m, h) ==> Guarded(m', h'))
  {
    var value := if free then 1 else 0;
    var m' := Put(m, h.blocks[i].addr + 8, value);
    var h' := h.(blocks := h.blocks[i := h.blocks[i].(free := free)]);
    forall j | 0 <= j < |h.blocks|
      ensures HeaderAt(m', h'.blocks[j].addr) == Expected(h'.blocks, j)
      ensures Guarded(m, h) ==> TailOf(m', h'.blocks[j]) == MAGIC
    {
      MarkHeader(m, h, i, free, j);
      MarkTail(m, h, i, value, j);
    }
  }

  lemma MarkKeepsPayload(m: Memory, h: Heap, i: nat, value: nat, j: nat, c: nat)
    requires Ordered(h, 0) && i < |h.blocks| && j < |h.blocks|
    requires Owns(h.blocks[j], c)
    ensures Word(Put(m, h.blocks[i].addr + 8, value), c) == Word(m, c)
  {
    OutsideHeader(h, i, j, c);
  }

  // ---- Serving a free block ------------------------------------------------------------------

  lemma PutBlockSelf(m: Memory, a: nat, size: nat, free: nat, next: nat, prev: nat)
    requires a + HEADER + size < |m|
    ensures |PutBlock(m, a, size, free, next, prev)| == |m|
    ensures HeaderAt(PutBlock(m, a, size, free, next, prev), a) == Header(MAGIC, size, free, next, prev)
    ensures PutBlock(m, a, size, free, next, prev)[a + HEADER + size] == MAGIC
  {
  }

  /** Lines 87 to 107: the block at a is cut down to `size`, and the rest becomes a free block. */
  function SplitMemory(m: Memory, a: nat, size: nat, reserve: nat): Memory
    requires Word(m, a + 4) >= size + FOOTPRINT
  {
    var rest := a + HEADER + size + reserve;
    var next := Word(m, a + 12);
    var m1 := PutBack(PutBlock(m, rest, Word(m, a + 4) - size - FOOTPRINT, 1, next, a), next, rest);
    Put(Put(Put(m1, a + 4, size), a + 12, rest), a + HEADER + size, MAGIC)
  }

  /** What a split needs of memory: the block at a and its successor, if it has one. */
  ghost predicate Cuts(m: Memory, a: nat, size: nat, total: nat, next: nat, reserve: nat) {
    && Layout(reserve) && total >= size + FOOTPRINT + MIN_BLOCK_SIZE && size > 0
    && Word(m, a + 4) == total && Word(m, a + 12) == next && a + HEADER + total < |m|
    && (next != 0 ==> a + HEADER + total + reserve <= next && next + HEADER <= |m|)
  }

  lemma SplitSelf(m: Memory, a: nat, size: nat, total: nat, next: nat, reserve: nat)
    requires Cuts(m, a, size, total, next, reserve)
    ensures var rest := a + HEADER + size + reserve;
            HeaderAt(SplitMemory(m, a, size, reserve), a) == HeaderAt(m, a).(size := size, next := rest)
  {
  }

  lemma SplitRest(m: Memory, a: nat, size: nat, total: nat, next: nat, reserve: nat)
    requires Cuts(m, a, size, total, next, reserve)
    ensures var rest := a + HEADER + size + reserve;
            HeaderAt(SplitMemory(m, a, size, reserve), rest) == Header(MAGIC, total - size - FOOTPRINT, 1, next, a)
  {
  }

  lemma SplitNext(m: Memory, a: nat, size: nat, total: nat, next: nat, reserve: nat)
    requires Cuts(m, a, size, total, next, reserve) && next != 0
    ensures var rest := a + HEADER + size + reserve;
            HeaderAt(SplitMemory(m, a, size, reserve), next) == HeaderAt(m, next).(prev := rest)
  {
  }

  lemma SplitOther(m: Memory, a: nat, size: nat, total: nat, next: nat, reserve: nat, x: nat)
    requires Cuts(m, a, size, total, next, reserve)
    requires x + HEADER <= a || (next != 0 && next + HEADER <= x)
    ensures HeaderAt(SplitMemory(m, a, size, reserve), x) == HeaderAt(m, x)
  {
  }

  lemma SplitLinks(m: Memory, a: nat, size: nat, total: nat, next: nat, reserve: nat)
    requires Cuts(m, a, size, total, next, reserve)
    ensures |SplitMemory(m, a, size, reserve)| == |m|
    ensures SplitMemory(m, a, size, reserve)[a + HEADER + size] == MAGIC
    ensures SplitMemory(m, a, size, reserve)[a + HEADER + total + reserve - TAIL] == MAGIC
  {
  }

  lemma SplitOtherTail(m: Memory, a: nat, size: nat, total: nat, next: nat, reserve: nat, b: Block)
    requires Cuts(m, a, size, total, next, reserve) && TailOf(m, b) == MAGIC
    requires b.End() <= a || (next != 0 && next + HEADER <= b.End())
    ensures TailOf(SplitMemory(m, a, size, reserve), b) == MAGIC
  {
  }

  lemma SplitKeepsWord(m: Memory, a: nat, size: nat, total: nat, next: nat, reserve: nat, c: nat)
    requires Cuts(m, a, size, total, next, reserve)
    requires c < a || (next != 0 && next + HEADER <= c)
    ensures Word(SplitMemory(m, a, size, reserve), c) == Word(m, c)
  {
  }

  /** The list after the split: the remainder is linked in behind block i, which is still free. */
  function Cut(h: Heap, i: nat, size: nat, reserve: nat): Heap
    requires i < |h.blocks| && Splits(h.blocks[i], size)
  {
    var b := h.blocks[i];
    var rest := Block(b.addr + HEADER + size + reserve, b.size - size - FOOTPRINT, true);
    h.(blocks := h.blocks[..i] + [b.(size := size), rest] + h.blocks[i + 1..])
  }

  lemma CutBlock(h: Heap, i: nat, size: nat, reserve: nat, j: nat)
    requires i < |h.blocks| && Splits(h.blocks[i], size) && j <= |h.blocks|
    ensures var b := h.blocks[i];
            var h' := Cut(h, i, size, reserve);
            && |h'.blocks| == |h.blocks| + 1
            && h'.blocks[j] == if j < i then h.blocks[j]
                               else if j == i then b.(size := size)
                               else if j == i + 1 then Block(b.addr + HEADER + size + reserve, b.size - size - FOOTPRINT, true)
                               else h.blocks[j - 1]
  {
  }

  lemma ExpectedCut(h: Heap, i: nat, size: nat, reserve: nat, j: nat)
    requires i < |h.blocks| && Splits(h.blocks[i], size) && j <= |h.blocks|
    ensures var h' := Cut(h, i, size, reserve);
            var a := h.blocks[i].addr;
            var rest := a + HEADER + size + reserve;
            && |h'.blocks| == |h.blocks| + 1
            && Expected(h'.blocks, j)
               == if j < i then Expected(h.blocks, j)
                  else if j == i then Expected(h.blocks, i).(size := size, next := rest)
                  else if j == i + 1 then Header(MAGIC, h.blocks[i].size - size - FOOTPRINT, 1, Next(h.blocks, i), a)
                  else if j == i + 2 then Expected(h.blocks, j - 1).(prev := rest)
                  else Expected(h.blocks, j - 1)
  {
  }

  lemma CutsAt(m: Memory, h: Heap, i: nat, size: nat, reserve: nat)
    requires Ordered(h, 0) && Ordered(h, reserve) && Layout(reserve) && i < |h.blocks| && Linked(m, h) && size > 0
    requires Splits(h.blocks[i], size)
    ensures Cuts(m, h.blocks[i].addr, size, h.blocks[i].size, Next(h.blocks, i), reserve)
  {
    Neighbours(m, h, i);
    assert Gap(h, i) >= reserve;
    if i + 1 < |h.blocks| { Neighbours(m, h, i + 1); }
  }

  lemma CutOther(m: Memory, h: Heap, i: nat, size: nat, reserve: nat, k: nat)
    requires Ordered(h, 0) && Ordered(h, reserve) && Layout(reserve) && i < |h.blocks| && Linked(m, h) && size > 0
    requires Splits(h.blocks[i], size) && k < |h.blocks| && k != i
    ensures Word(m, h.blocks[i].addr + 4) == h.blocks[i].size
    ensures HeaderAt(SplitMemory(m, h.blocks[i].addr, size, reserve), h.blocks[k].addr)
         == if k == i + 1 then Expected(h.blocks, k).(prev := h.blocks[i].addr + HEADER + size + reserve) else Expected(h.blocks, k)
  {
    var a, next, total := h.blocks[i].addr, Next(h.blocks, i), h.blocks[i].size;
    CutsAt(m, h, i, size, reserve);
    Neighbours(m, h, k);
    if k < i {
      Apart(h, 0, k, i);
      SplitOther(m, a, size, total, next, reserve, h.blocks[k].addr);
    } else if k == i + 1 {
      SplitNext(m, a, size, total, next, reserve);
    } else {
      Apart(h, 0, i + 1, k);
      Neighbours(m, h, i + 1);
      SplitOther(m, a, size, total, next, reserve, h.blocks[k].addr);
    }
  }

  lemma CutSelf(m: Memory, h: Heap, i: nat, size: nat, reserve: nat)
    requires Ordered(h, 0) && Ordered(h, reserve) && Layout(reserve) && i < |h.blocks| && Linked(m, h) && size > 0
    requires Splits(h.blocks[i], size)
    ensures Word(m, h.blocks[i].addr + 4) == h.blocks[i].size
    ensures var m' := SplitMemory(m, h.blocks[i].addr, size, reserve);
            var a := h.blocks[i].addr;
            var rest := a + HEADER + size + reserve;
            && HeaderAt(m', a) == Expected(h.blocks, i).(size := size, next := rest)
            && HeaderAt(m', rest) == Header(MAGIC, h.blocks[i].size - size - FOOTPRINT, 1, Next(h.blocks, i), a)
  {
    hide HeaderAt, SplitMemory, Linked, Ordered;
    var a, next, total := h.blocks[i].addr, Next(h.blocks, i), h.blocks[i].size;
    CutsAt(m, h, i, size, reserve);
    Neighbours(m, h, i);
    SplitSelf(m, a, size, total, next, reserve);
    SplitRest(m, a, size, total, next, reserve);
  }

  lemma CutHeader(m: Memory, h: Heap, i: nat, size: nat, reserve: nat, j: nat)
    requires Ordered(h, 0) && Ordered(h, reserve) && Layout(reserve) && i < |h.blocks| && Linked(m, h) && size > 0
    requires Splits(h.blocks[i], size) && j <= |h.blocks|
    ensures Word(m, h.blocks[i].addr + 4) == h.blocks[i].size
    ensures var h' := Cut(h, i, size, reserve);
            && |h'.blocks| == |h.blocks| + 1
            && HeaderAt(SplitMemory(m, h.blocks[i].addr, size, reserve), h'.blocks[j].addr) == Expected(h'.blocks, j)
  {
    ExpectedCut(h, i, size, reserve, j);
    CutBlock(h, i, size, reserve, j);
    if j == i || j == i + 1 {
      CutSelf(m, h, i, size, reserve);
    } else {
      CutOther(m, h, i, size, reserve, if j < i then j else j - 1);
    }
  }

  lemma TailOutside(m: Memory, h: Heap, i: nat, k: nat)
    requires Ordered(h, 0) && Linked(m, h) && i < |h.blocks| && k < |h.blocks| && k != i
    ensures h.blocks[k].End() <= h.blocks[i].addr || (Next(h.blocks, i) != 0 && Next(h.blocks, i) + HEADER <= h.blocks[k].End())
  {
    if k < i {
      Apart(h, 0, k, i);
    } else {
      Neighbours(m, h, i + 1);
      if i + 1 < k { Apart(h, 0, i + 1, k); }
    }
  }

  lemma CutTail(m: Memory, h: Heap, i: nat, size: nat, reserve: nat, j: nat)
    requires Ordered(h, 0) && Ordered(h, reserve) && Layout(reserve) && i < |h.blocks| && Linked(m, h) && size > 0
    requires Splits(h.blocks[i], size) && j <= |h.blocks| && Guarded(m, h)
    ensures Word(m, h.blocks[i].addr + 4) == h.blocks[i].size
    ensures var h' := Cut(h, i, size, reserve);
            && |h'.blocks| == |h.blocks| + 1
            && TailOf(SplitMemory(m, h.blocks[i].addr, size, reserve), h'.blocks[j]) == MAGIC
  {
    hide Linked, Ordered, SplitMemory, Cut, Cuts;
    var a, next, total := h.blocks[i].addr, Next(h.blocks, i), h.blocks[i].size;
    CutsAt(m, h, i, size, reserve);
    CutBlock(h, i, size, reserve, j);
    if j == i || j == i + 1 {
      SplitLinks(m, a, size, total, next, reserve);
    } else {
      var k := if j < i then j else j - 1;
      TailOutside(m, h, i, k);
      SplitOtherTail(m, a, size, total, next, reserve, h.blocks[k]);
    }
  }

  lemma CutCorrect(m: Memory, h: Heap, i: nat, size: nat, reserve: nat)
    requires Ordered(h, 0) && Ordered(h, reserve) && Layout(reserve) && i < |h.blocks| && Linked(m, h) && size > 0
    requires Splits(h.blocks[i], size)
    ensures Word(m, h.blocks[i].addr + 4) == h.blocks[i].size
    ensures var m' := SplitMemory(m, h.blocks[i].addr, size, reserve);
            var h' := Cut(h, i, size, reserve);
            && Linked(m', h') && |m'| == |m|
            && (Guarded(m, h) ==> Guarded(m', h'))
  {
    CutHeader(m, h, i, size, reserve, 0);
    CutsAt(m, h, i, size, reserve);
    SplitLinks(m, h.blocks[i].addr, size, h.blocks[i].size, Next(h.blocks, i), reserve);
    var m' := SplitMemory(m, h.blocks[i].addr, size, reserve);
    var h' := Cut(h, i, size, reserve);
    forall j | 0 <= j < |h'.blocks|
      ensures HeaderAt(m', h'.blocks[j].addr) == Expected(h'.blocks, j)
      ensures Guarded(m, h) ==> TailOf(m', h'.blocks[j]) == MAGIC
    {
      CutHeader(m, h, i, size, reserve, j);
      if Guarded(m, h) { CutTail(m, h, i, size, reserve, j); }
    }
  }

  lemma Weaker(h: Heap, reserve: nat)
    requires Ordered(h, reserve)
    ensures Ordered(h, 0)
  {
    forall i | 0 <= i < |h.blocks| ensures Gap(h, i) >= 0 {
      assert Gap(h, i) >= reserve;
    }
  }

  lemma CutOrdered(h: Heap, i: nat, size: nat, reserve: nat)
    requires Ordered(h, reserve) && Layout(reserve) && i < |h.blocks| && Fits(h.blocks[i], size)
    requires size > 0 && size % 8 == 0 && Splits(h.blocks[i], size)
    ensures Ordered(Cut(h, i, size, reserve), reserve)
  {
    ServedOrdered(h, i, size, reserve);
    var served := Served(h, i, size, reserve);
    MarkedOrdered(served, i, reserve);
    assert Marked(served.blocks, i) == Cut(h, i, size, reserve).blocks;
  }

  /** Lines 82 to 112 in memory. */
  function ServeMemory(m: Memory, a: nat, size: nat, reserve: nat): Memory {
    var m1 := if Word(m, a + 4) >= size + FOOTPRINT + MIN_BLOCK_SIZE then SplitMemory(m, a, size, reserve) else m;
    Put(m1, a + 8, 0)
  }

  /** Serving a free block in memory is serving it in the list. */
  lemma ServeCorrect(m: Memory, h: Heap, i: nat, size: nat, reserve: nat)
    requires Ordered(h, reserve) && Layout(reserve) && i < |h.blocks| && Linked(m, h) && size > 0 && size % 8 == 0
    requires Fits(h.blocks[i], size)
    ensures var m' := ServeMemory(m, h.blocks[i].addr, size, reserve);
            var h' := Served(h, i, size, reserve);
            && Linked(m', h') && |m'| == |m|
            && (Guarded(m, h) ==> Guarded(m', h'))
  {
    hide Linked, Ordered, SplitMemory, Guarded;
    Weaker(h, reserve);
    Neighbours(m, h, i);
    if Splits(h.blocks[i], size) {
      CutThenMark(m, h, i, size, reserve);
    } else {
      MarkCorrect(m, h, i, false);
    }
  }

  lemma CutThenMark(m: Memory, h: Heap, i: nat, size: nat, reserve: nat)
    requires Ordered(h, 0) && Ordered(h, reserve) && Layout(reserve) && i < |h.blocks| && Linked(m, h)
    requires size > 0 && size % 8 == 0 && Fits(h.blocks[i], size) && Splits(h.blocks[i], size)
    ensures Word(m, h.blocks[i].addr + 4) == h.blocks[i].size
    ensures var m' := Put(SplitMemory(m, h.blocks[i].addr, size, reserve), h.blocks[i].addr + 8, 0);
            var h' := Served(h, i, size, reserve);
            && Linked(m', h') && |m'| == |m|
            && (Guarded(m, h) ==> Guarded(m', h'))
  {
    hide Cut, HeaderAt, Linked, Ordered, Served, SplitMemory;
    CutCorrect(m, h, i, size, reserve);
    CutOrdered(h, i, size, reserve);
    Weaker(Cut(h, i, size, reserve), reserve);
    CutBlock(h, i, size, reserve, i);
    CutIsServed(h, i, size, reserve);
    MarkUsed(SplitMemory(m, h.blocks[i].addr, size, reserve), Cut(h, i, size, reserve), i, Served(h, i, size, reserve));
  }

  lemma CutIsServed(h: Heap, i: nat, size: nat, reserve: nat)
    requires i < |h.blocks| && Splits(h.blocks[i], size)
    ensures var h1 := Cut(h, i, size, reserve);
            && i < |h1.blocks|
            && Served(h, i, size, reserve) == h1.(blocks := h1.blocks[i := h1.blocks[i].(free := false)])
  {
  }

  lemma MarkUsed(m: Memory, h: Heap, i: nat, h': Heap)
    requires Ordered(h, 0) && i < |h.blocks| && Linked(m, h)
    requires h' == h.(blocks := h.blocks[i := h.blocks[i].(free := false)])
    ensures var m' := Put(m, h.blocks[i].addr + 8, 0);
            Linked(m', h') && |m'| == |m| && (Guarded(m, h) ==> Guarded(m', h'))
  {
    MarkCorrect(m, h, i, false);
  }

  lemma SplitKeepsPayload(m: Memory, h: Heap, i: nat, size: nat, reserve: nat, j: nat, c: nat)
    requires Ordered(h, 0) && Ordered(h, reserve) && Layout(reserve) && i < |h.blocks| && Linked(m, h) && size > 0
    requires Splits(h.blocks[i], size) && j < |h.blocks| && j != i
    ensures Word(m, h.blocks[i].addr + 4) == h.blocks[i].size
    requires Owns(h.blocks[j], c)
    ensures Word(SplitMemory(m, h.blocks[i].addr, size, reserve), c) == Word(m, c)
  {
    CutsAt(m, h, i, size, reserve);
    if j < i { Apart(h, 0, j, i); } else { Neighbours(m, h, i + 1); }
    if i + 1 < j { Apart(h, 0, i + 1, j); }
    SplitKeepsWord(m, h.blocks[i].addr, size, h.blocks[i].size, Next(h.blocks, i), reserve, c);
  }

  lemma CutKeepsPayload(m: Memory, h: Heap, i: nat, size: nat, reserve: nat, j: nat, c: nat)
    requires Ordered(h, 0) && Ordered(h, reserve) && Layout(reserve) && i < |h.blocks| && Linked(m, h) && size > 0
    requires Splits(h.blocks[i], size) && j < |h.blocks| && j != i && Owns(h.blocks[j], c)
    ensures Word(m, h.blocks[i].addr + 4) == h.blocks[i].size
    ensures Word(Put(SplitMemory(m, h.blocks[i].addr, size, reserve), h.blocks[i].addr + 8, 0), c) == Word(m, c)
  {
    SplitKeepsPayload(m, h, i, size, reserve, j, c);
    OutsideHeader(h, i, j, c);
  }

  lemma ServeKeepsPayload(m: Memory, h: Heap, i: nat, size: nat, reserve: nat, j: nat, c: nat)
    requires Ordered(h, reserve) && Layout(reserve) && i < |h.blocks| && Linked(m, h) && size > 0
    requires Fits(h.blocks[i], size) && j < |h.blocks| && j != i
    requires Owns(h.blocks[j], c)
    ensures Word(ServeMemory(m, h.blocks[i].addr, size, reserve), c) == Word(m, c)
  {
    hide Linked;
    Weaker(h, reserve);
    Neighbours(m, h, i);
    if Splits(h.blocks[i], size) {
      CutKeepsPayload(m, h, i, size, reserve, j, c);
    } else {
      OutsideHeader(h, i, j, c);
    }
  }

  // ---- Appending -----------------------------------------------------------------------------

  /** Lines 130 to 140: a new last block at `end`. */
  function AppendMemory(m: Memory, end: nat, last: nat, size: nat): Memory {
    Put(PutBlock(m, end, size, 0, 0, last), last + 12, end)
  }

  lemma AppendSelf(m: Memory, end: nat, last: nat, size: nat)
    requires end + HEADER + size < |m| && last + HEADER <= end
    ensures |AppendMemory(m, end, last, size)| == |m|
    ensures HeaderAt(AppendMemory(m, end, last, size), end) == Header(MAGIC, size, 0, 0, last)
    ensures HeaderAt(AppendMemory(m, end, last, size), last) == HeaderAt(m, last).(next := end)
    ensures TailOf(AppendMemory(m, end, last, size), Block(end, size, false)) == MAGIC
  {
  }

  lemma AppendOther(m: Memory, end: nat, last: nat, size: nat, b: Block)
    requires end + HEADER + size < |m| && last + HEADER <= end && b.End() <= last
    ensures HeaderAt(AppendMemory(m, end, last, size), b.addr) == HeaderAt(m, b.addr)
  {
  }

  lemma AppendTail(m: Memory, end: nat, last: nat, size: nat, b: Block)
    requires end + HEADER + size < |m| && last + HEADER <= end
    requires b.End() <= last || last + HEADER <= b.End() <= end
    requires TailOf(m, b) == MAGIC
    ensures TailOf(AppendMemory(m, end, last, size), b) == MAGIC
  {
  }

  lemma AppendedHeader(m: Memory, h: Heap, size: nat, j: nat)
    requires Ordered(h, 0) && j < |h.blocks| && Linked(m, h) && h.end + FOOTPRINT + size < KERNEL_HEAP_END
    ensures HeaderAt(AppendMemory(m, h.end, h.blocks[|h.blocks| - 1].addr, size), h.blocks[j].addr)
         == if j == |h.blocks| - 1 then Expected(h.blocks, j).(next := h.end) else Expected(h.blocks, j)
  {
    hide HeaderAt, AppendMemory, Linked, Ordered;
    var last := |h.blocks| - 1;
    AllBelowEnd(h, 0, last);
    Neighbours(m, h, j);
    if j < last {
      Apart(h, 0, j, last);
      AppendOther(m, h.end, h.blocks[last].addr, size, h.blocks[j]);
    } else {
      AppendSelf(m, h.end, h.blocks[last].addr, size);
    }
  }

  lemma AppendedTail(m: Memory, h: Heap, size: nat, j: nat)
    requires Ordered(h, 0) && j < |h.blocks| && |m| >= KERNEL_HEAP_END && h.end + FOOTPRINT + size < KERNEL_HEAP_END
    requires TailOf(m, h.blocks[j]) == MAGIC
    ensures TailOf(AppendMemory(m, h.end, h.blocks[|h.blocks| - 1].addr, size), h.blocks[j]) == MAGIC
  {
    var last := |h.blocks| - 1;
    AllBelowEnd(h, 0, j);
    AllBelowEnd(h, 0, last);
    TailApart(h, j, last);
    AppendTail(m, h.end, h.blocks[last].addr, size, h.blocks[j]);
  }

  lemma ExpectedAppended(h: Heap, size: nat, j: nat)
    requires j < |h.blocks|
    ensures Expected(Appended(h, size).blocks, j)
         == if j == |h.blocks| - 1 then Expected(h.blocks, j).(next := h.end) else Expected(h.blocks, j)
  {
  }

  lemma AppendedBlock(m: Memory, h: Heap, size: nat, j: nat)
    requires Ordered(h, 0) && j < |h.blocks| && Linked(m, h) && h.end + FOOTPRINT + size < KERNEL_HEAP_END
    ensures HeaderAt(AppendMemory(m, h.end, h.blocks[|h.blocks| - 1].addr, size), h.blocks[j].addr)
         == Expected(Appended(h, size).blocks, j)
  {
    ExpectedAppended(h, size, j);
    AppendedHeader(m, h, size, j);
  }

  lemma AppendLinked(m: Memory, h: Heap, size: nat)
    requires Ordered(h, 0) && h.blocks != [] && Linked(m, h) && h.end + FOOTPRINT + size < KERNEL_HEAP_END
    ensures Linked(AppendMemory(m, h.end, h.blocks[|h.blocks| - 1].addr, size), Appended(h, size))
  {
    var m' := AppendMemory(m, h.end, h.blocks[|h.blocks| - 1].addr, size);
    var h' := Appended(h, size);
    AppendedLast(m, h, size);
    forall j | 0 <= j < |h'.blocks|
      ensures HeaderAt(m', h'.blocks[j].addr) == Expected(h'.blocks, j)
    {
      if j < |h.blocks| {
        AppendedBlock(m, h, size, j);
        assert h'.blocks[j] == h.blocks[j];
      } else {
        assert j == |h.blocks|;
      }
    }
  }

  lemma AppendGuarded(m: Memory, h: Heap, size: nat)
    requires Ordered(h, 0) && h.blocks != [] && |m| >= KERNEL_HEAP_END && Guarded(m, h)
    requires h.end + FOOTPRINT + size < KERNEL_HEAP_END
    ensures Guarded(AppendMemory(m, h.end, h.blocks[|h.blocks| - 1].addr, size), Appended(h, size))
  {
    var m' := AppendMemory(m, h.end, h.blocks[|h.blocks| - 1].addr, size);
    AppendedLast(m, h, size);
    forall j | 0 <= j < |h.blocks|
      ensures TailOf(m', h.blocks[j]) == MAGIC
    {
      AppendedTail(m, h, size, j);
    }
  }

  /** Appending in memory is appending in the list. */
  lemma AppendCorrect(m: Memory, h: Heap, size: nat)
    requires Ordered(h, 0) && h.blocks != [] && Linked(m, h) && h.end + FOOTPRINT + size < KERNEL_HEAP_END
    ensures var m' := AppendMemory(m, h.end, h.blocks[|h.blocks| - 1].addr, size);
            && Linked(m', Appended(h, size)) && |m'| == |m|
            && (Guarded(m, h) ==> Guarded(m', Appended(h, size)))
  {
    AppendLinked(m, h, size);
    AppendedLast(m, h, size);
    if Guarded(m, h) { AppendGuarded(m, h, size); }
  }

  lemma AppendedLast(m: Memory, h: Heap, size: nat)
    requires Ordered(h, 0) && h.blocks != [] && |m| >= KERNEL_HEAP_END && h.end + FOOTPRINT + size < KERNEL_HEAP_END
    ensures var m' := AppendMemory(m, h.end, h.blocks[|h.blocks| - 1].addr, size);
            var last := Appended(h, size).blocks[|h.blocks|];
            && |m'| == |m|
            && HeaderAt(m', last.addr) == Expected(Appended(h, size).blocks, |h.blocks|)
            && TailOf(m', last) == MAGIC
  {
    AllBelowEnd(h, 0, |h.blocks| - 1);
    AppendSelf(m, h.end, h.blocks[|h.blocks| - 1].addr, size);
  }

  lemma AppendKeepsWord(m: Memory, end: nat, last: nat, size: nat, c: nat)
    requires c < end && (c < last || last + HEADER <= c)
    ensures Word(AppendMemory(m, end, last, size), c) == Word(m, c)
  {
  }

  lemma AppendKeepsPayload(m: Memory, h: Heap, size: nat, j: nat, c: nat)
    requires Ordered(h, 0) && j < |h.blocks| && Owns(h.blocks[j], c)
    ensures Word(AppendMemory(m, h.end, h.blocks[|h.blocks| - 1].addr, size), c) == Word(m, c)
  {
    var last := |h.blocks| - 1;
    AllBelowEnd(h, 0, j);
    OutsideHeader(h, last, j, c);
    AppendKeepsWord(m, h.end, h.blocks[last].addr, size, c);
  }

  lemma FirstCorrect(m: Memory, size: nat, reserve: nat)
    requires |m| >= KERNEL_HEAP_END && KERNEL_HEAP_START + HEADER + size + reserve < KERNEL_HEAP_END
    ensures var m' := PutBlock(m, KERNEL_HEAP_START, size, 0, 0, 0);
            Linked(m', First(size, reserve)) && Guarded(m', First(size, reserve)) && |m'| == |m|
  {
    PutBlockSelf(m, KERNEL_HEAP_START, size, 0, 0, 0);
  }

  // ---- The trim at the end of kfree ----------------------------------------------------------

  /** Lines 246 and 247 store nothing; the repair unlinks the last block when it is free and not the only
      one. */
  function TrimMemory(m: Memory, blocks: seq<Block>, reserve: nat): Memory {
    if reserve == TAIL && |blocks| > 1 && blocks[|blocks| - 1].free then Put(m, blocks[|blocks| - 2].addr + 12, 0) else m
  }

  lemma TrimLink(m: Memory, a: nat, x: nat)
    requires a + HEADER <= |m| && (x == a || x + HEADER <= a || a + HEADER <= x)
    ensures HeaderAt(Put(m, a + 12, 0), x) == if x == a then HeaderAt(m, x).(next := 0) else HeaderAt(m, x)
  {
  }

  lemma TrimHeader(m: Memory, h: Heap, j: nat)
    requires Ordered(h, 0) && Linked(m, h) && |h.blocks| > 1 && j < |h.blocks| - 1
    ensures var last := |h.blocks| - 1;
            var m' := Put(m, h.blocks[last - 1].addr + 12, 0);
            && HeaderAt(m', h.blocks[j].addr) == Expected(h.blocks[..last], j)
            && TailOf(m', h.blocks[j]) == TailOf(m, h.blocks[j])
  {
    hide HeaderAt, Ordered, Linked;
    var last := |h.blocks| - 1;
    Neighbours(m, h, j);
    Neighbours(m, h, last - 1);
    if j < last - 1 { HeadersApart(h, j, last - 1); }
    TrimLink(m, h.blocks[last - 1].addr, h.blocks[j].addr);
    TailApart(h, j, last - 1);
  }

  lemma TrimCorrect(m: Memory, h: Heap, reserve: nat)
    requires Ordered(h, 0) && Linked(m, h)
    ensures var m' := TrimMemory(m, h.blocks, reserve);
            Linked(m', Trimmed(h, reserve)) && |m'| == |m| && (Guarded(m, h) ==> Guarded(m', Trimmed(h, reserve)))
  {
    hide Ordered, HeaderAt;
    var m', h' := TrimMemory(m, h.blocks, reserve), Trimmed(h, reserve);
    if reserve == TAIL && |h.blocks| > 1 && h.blocks[|h.blocks| - 1].free {
      forall j | 0 <= j < |h'.blocks|
        ensures HeaderAt(m', h'.blocks[j].addr) == Expected(h'.blocks, j)
        ensures Guarded(m, h) ==> TailOf(m', h'.blocks[j]) == MAGIC
      {
        TrimHeader(m, h, j);
      }
    }
  }

  lemma TrimKeepsPayload(m: Memory, h: Heap, reserve: nat, j: nat, c: nat)
    requires Ordered(h, 0) && j < |h.blocks|
    requires Owns(h.blocks[j], c)
    ensures Word(TrimMemory(m, h.blocks, reserve), c) == Word(m, c)
  {
    if |h.blocks| > 1 {
      OutsideHeader(h, |h.blocks| - 2, j, c);
    }
  }

  // ---- kfree in memory -----------------------------------------------------------------------

  /** Lines 224 to 230 in their own order: the block at n goes into its predecessor, whose tail is
      written before the links at n are read for the last time. */
  function PreviousMemory(m: Memory, n: nat): Memory {
    var prev := Word(m, n + 16);
    var size := Word(m, prev + 4) + FOOTPRINT + Word(m, n + 4);
    var m1 := Put(Put(m, prev + 4, size), prev + HEADER + size, MAGIC);
    var m2 := Put(m1, Word(m1, n + 16) + 12, Word(m1, n + 12));
    PutBack(m2, Word(m2, n + 12), Word(m2, n + 16))
  }

  /** That order does what the merge should do exactly when the tail misses the two links. */
  lemma PreviousIsAbsorb(m: Memory, a: nat, n: nat, next: nat, size: nat)
    requires Merges(m, a, n, next, size) && Word(m, n + 16) == a && a + HEADER <= n
    requires n + HEADER <= KERNEL_HEAP_END <= |m| && next < KERNEL_HEAP_END
    requires next == 0 || n + HEADER <= next
    ensures PreviousMemory(m, n) == AbsorbMemory(m, a)
       <==> a + HEADER + size != n + 12 && a + HEADER + size != n + 16
  {
    if a + HEADER + size != n + 12 && a + HEADER + size != n + 16 {
      assert PreviousMemory(m, n) == AbsorbMemory(m, a);
    } else {
      assert AbsorbMemory(m, a)[a + 12] == next;
    }
  }

  /** Lines 197 to 232: the mark and the two merges. */
  function ReleaseMemory(m: Memory, blocks: seq<Block>, i: nat): Memory
    requires i < |blocks|
  {
    var m1 := MergeNextMemory(Put(m, blocks[i].addr + 8, 1), blocks, i);
    MergePreviousMemory(m1, blocks, i)
  }

  function MergePreviousMemory(m: Memory, blocks: seq<Block>, i: nat): Memory
    requires i < |blocks|
  {
    if 0 < i && blocks[i - 1].free then PreviousMemory(m, blocks[i].addr) else m
  }

  function MergeNextMemory(m: Memory, blocks: seq<Block>, i: nat): Memory
    requires i < |blocks|
  {
    if i + 1 < |blocks| && blocks[i + 1].free then AbsorbMemory(m, blocks[i].addr) else m
  }

  function FreeMemory(m: Memory, h: Heap, i: nat, reserve: nat): Memory
    requires i < |h.blocks|
  {
    TrimMemory(ReleaseMemory(m, h.blocks, i), Released(h.blocks, i), reserve)
  }

  lemma MergeNextCorrect(m: Memory, h: Heap, i: nat)
    requires Ordered(h, 0) && i < |h.blocks| && Linked(m, h)
    requires NextFits(h, i)
    ensures var m' := MergeNextMemory(m, h.blocks, i);
            var h' := h.(blocks := MergedNext(h.blocks, i));
            Linked(m', h') && |m'| == |m| && Ordered(h', 0) && (Guarded(m, h) ==> Guarded(m', h'))
  {
    if i + 1 < |h.blocks| && h.blocks[i + 1].free {
      AbsorbCorrect(m, h, i);
      AbsorbedOrderedIff(h, i, 0);
    }
  }

  /** Room for the tail of block i merged into block i - 1, away from the links of block i. */
  predicate PreviousFits(h: Heap, i: nat)
    requires i < |h.blocks|
  {
    0 < i && h.blocks[i - 1].free ==>
      && RoomForTail(h, i - 1, 0)
      && Gap(h, i - 1) != h.blocks[i].size + 8 && Gap(h, i - 1) != h.blocks[i].size + 12
  }

  /** In terms of the list: the merge into a free predecessor goes wrong exactly when the gap in front
      of block i is 8 or 12 bytes more than its size. */
  lemma PreviousIsAbsorbIff(m: Memory, h: Heap, i: nat)
    requires Ordered(h, 0) && 0 < i < |h.blocks| && Linked(m, h) && RoomForTail(h, i - 1, 0)
    ensures PreviousMemory(m, h.blocks[i].addr) == AbsorbMemory(m, h.blocks[i - 1].addr)
       <==> Gap(h, i - 1) != h.blocks[i].size + 8 && Gap(h, i - 1) != h.blocks[i].size + 12
  {
    PreviousSetting(m, h, i);
    PreviousIsAbsorb(m, h.blocks[i - 1].addr, h.blocks[i].addr, Next(h.blocks, i),
                     h.blocks[i - 1].size + FOOTPRINT + h.blocks[i].size);
  }

  lemma PreviousSetting(m: Memory, h: Heap, i: nat)
    requires Ordered(h, 0) && 0 < i < |h.blocks| && Linked(m, h) && RoomForTail(h, i - 1, 0)
    ensures var a, n, next := h.blocks[i - 1].addr, h.blocks[i].addr, Next(h.blocks, i);
            var size := h.blocks[i - 1].size + FOOTPRINT + h.blocks[i].size;
            && Merges(m, a, n, next, size) && Word(m, n + 16) == a && a + HEADER <= n
            && n + HEADER <= KERNEL_HEAP_END <= |m| && next < KERNEL_HEAP_END && (next == 0 || n + HEADER <= next)
            && a + HEADER + size == n + FOOTPRINT + h.blocks[i].size - Gap(h, i - 1)
  {
    MergesAt(m, h, i - 1);
    Neighbours(m, h, i - 1);
    Neighbours(m, h, i);
    if i + 1 < |h.blocks| { Neighbours(m, h, i + 1); }
  }

  /** The memory after the merge with the previous block, if that is free. */
  function PreviousAbsorbed(m: Memory, blocks: seq<Block>, i: nat): Memory
    requires i < |blocks|
  {
    if 0 < i && blocks[i - 1].free then AbsorbMemory(m, blocks[i - 1].addr) else m
  }

  lemma MergePreviousIs(m: Memory, h: Heap, i: nat)
    requires Ordered(h, 0) && i < |h.blocks| && Linked(m, h) && PreviousFits(h, i)
    ensures MergePreviousMemory(m, h.blocks, i) == PreviousAbsorbed(m, h.blocks, i)
  {
    if 0 < i && h.blocks[i - 1].free { PreviousIsAbsorbIff(m, h, i); }
  }

  lemma MergePreviousCorrect(m: Memory, h: Heap, i: nat, m': Memory)
    requires Ordered(h, 0) && i < |h.blocks| && Linked(m, h) && PreviousFits(h, i)
    requires m' == PreviousAbsorbed(m, h.blocks, i)
    ensures var h' := h.(blocks := MergedPrevious(h.blocks, i));
            Linked(m', h') && |m'| == |m| && Ordered(h', 0) && (Guarded(m, h) ==> Guarded(m', h'))
  {
    if 0 < i && h.blocks[i - 1].free {
      AbsorbCorrect(m, h, i - 1);
      AbsorbedOrderedIff(h, i - 1, 0);
    }
  }

  /** Marking and merging with the next block, in the list. */
  function Joined(h: Heap, i: nat): Heap
    requires i < |h.blocks|
  {
    h.(blocks := MergedNext(Marked(h.blocks, i), i))
  }

  /** Room for the tail of a free block i + 1 merged into block i. */
  predicate NextFits(h: Heap, i: nat)
    requires i < |h.blocks|
  {
    i + 1 < |h.blocks| && h.blocks[i + 1].free ==> RoomForTail(h, i, 0)
  }

  lemma JoinedRoom(h: Heap, i: nat)
    requires Ordered(h, 0) && i < |h.blocks| && NextFits(h, i)
    ensures Ordered(h.(blocks := Marked(h.blocks, i)), 0) && NextFits(h.(blocks := Marked(h.blocks, i)), i)
    ensures i < |Joined(h, i).blocks|
    ensures 0 < i ==> Joined(h, i).blocks[i - 1] == h.blocks[i - 1]
    ensures PreviousFits(Joined(h, i), i) <==> Mergeable(h, i, 0) && LinksClear(h, i)
  {
    var h1 := h.(blocks := Marked(h.blocks, i));
    MarkedOrdered(h, i, 0);
    if i + 1 < |h.blocks| && h.blocks[i + 1].free && 0 < i {
      AbsorbedGap(h1, i, i - 1);
      AbsorbedGap(h1, i, i);
    }
  }

  lemma JoinCorrect(m: Memory, h: Heap, i: nat)
    requires Ordered(h, 0) && i < |h.blocks| && Linked(m, h) && NextFits(h, i)
    ensures var m' := MergeNextMemory(Put(m, h.blocks[i].addr + 8, 1), h.blocks, i);
            Linked(m', Joined(h, i)) && |m'| == |m| && Ordered(Joined(h, i), 0) && (Guarded(m, h) ==> Guarded(m', Joined(h, i)))
  {
    JoinedRoom(h, i);
    MarkCorrect(m, h, i, true);
    MergeNextCorrect(Put(m, h.blocks[i].addr + 8, 1), h.(blocks := Marked(h.blocks, i)), i);
  }

  /** Releasing a block in memory is releasing it in the list. */
  lemma ReleaseCorrect(m: Memory, h: Heap, i: nat)
    requires Ordered(h, 0) && i < |h.blocks| && Linked(m, h) && Mergeable(h, i, 0) && LinksClear(h, i)
    ensures var m' := ReleaseMemory(m, h.blocks, i);
            var h' := h.(blocks := Released(h.blocks, i));
            Linked(m', h') && |m'| == |m| && Ordered(h', 0) && (Guarded(m, h) ==> Guarded(m', h'))
  {
    JoinCorrect(m, h, i);
    JoinedRoom(h, i);
    assert Joined(h, i).blocks == MergedNext(Marked(h.blocks, i), i);
    var m1 := MergeNextMemory(Put(m, h.blocks[i].addr + 8, 1), h.blocks, i);
    MergePreviousIs(m1, Joined(h, i), i);
    MergePreviousCorrect(m1, Joined(h, i), i, ReleaseMemory(m, h.blocks, i));
  }

  /** kfree in memory is kfree in the list: headers, links and tails. */
  lemma FreeCorrect(m: Memory, h: Heap, i: nat, reserve: nat)
    requires Ordered(h, 0) && i < |h.blocks| && Linked(m, h) && Mergeable(h, i, 0) && LinksClear(h, i)
    ensures var m' := FreeMemory(m, h, i, reserve);
            Linked(m', Free(h, i, reserve)) && |m'| == |m| && (Guarded(m, h) ==> Guarded(m', Free(h, i, reserve)))
  {
    ReleaseCorrect(m, h, i);
    TrimCorrect(ReleaseMemory(m, h.blocks, i), h.(blocks := Released(h.blocks, i)), reserve);
  }

  lemma MergeNextKeepsPayload(m: Memory, h: Heap, i: nat, j: nat, c: nat)
    requires Ordered(h, 0) && i < |h.blocks| && Linked(m, h)
    requires NextFits(h, i)
    requires j < |h.blocks| && j != i && !h.blocks[j].free
    requires Owns(h.blocks[j], c)
    ensures Word(MergeNextMemory(m, h.blocks, i), c) == Word(m, c)
  {
    if i + 1 < |h.blocks| && h.blocks[i + 1].free {
      AbsorbKeepsPayload(m, h, i, j, c);
    }
  }

  lemma JoinKeepsPayload(m: Memory, h: Heap, i: nat, j: nat, c: nat)
    requires Ordered(h, 0) && i < |h.blocks| && Linked(m, h) && Mergeable(h, i, 0)
    requires j < |h.blocks| && j != i && !h.blocks[j].free
    requires Owns(h.blocks[j], c)
    ensures Word(MergeNextMemory(Put(m, h.blocks[i].addr + 8, 1), h.blocks, i), c) == Word(m, c)
  {
    MarkCorrect(m, h, i, true);
    MarkKeepsPayload(m, h, i, 1, j, c);
    JoinedRoom(h, i);
    MergeNextKeepsPayload(Put(m, h.blocks[i].addr + 8, 1), h.(blocks := Marked(h.blocks, i)), i, j, c);
  }

  /** Where another block in use is after the merge with the next block. */
  lemma JoinedAt(blocks: seq<Block>, i: nat, j: nat) returns (k: nat)
    requires i < |blocks| && j < |blocks| && j != i && !blocks[j].free
    ensures k < |MergedNext(Marked(blocks, i), i)| && k != i && MergedNext(Marked(blocks, i), i)[k] == blocks[j]
  {
    k := j;
    if i + 1 < |blocks| && blocks[i + 1].free {
      k := if j < i then j else j - 1;
      AbsorbedBlock(Marked(blocks, i), i, k);
    }
  }

  lemma ReleasedAt(blocks: seq<Block>, i: nat, j: nat) returns (k: nat)
    requires i < |blocks| && j < |blocks| && j != i && !blocks[j].free
    ensures k < |Released(blocks, i)| && Released(blocks, i)[k] == blocks[j]
  {
    var lo, hi, joined := TheRun(blocks, i);
    k := if j < lo then j else j - hi + lo + 1;
  }

  lemma AbsorbedKeepsPayload(m: Memory, h: Heap, i: nat, m': Memory, k: nat, c: nat)
    requires Ordered(h, 0) && i + 1 < |h.blocks| && Linked(m, h) && RoomForTail(h, i, 0)
    requires m' == AbsorbMemory(m, h.blocks[i].addr)
    requires k < |h.blocks| && k != i && k != i + 1 && Owns(h.blocks[k], c)
    ensures Word(m', c) == Word(m, c)
  {
    AbsorbKeepsPayload(m, h, i, k, c);
  }

  lemma MergePreviousKeepsPayload(m: Memory, h: Heap, i: nat, m': Memory, k: nat, c: nat)
    requires Ordered(h, 0) && i < |h.blocks| && Linked(m, h) && PreviousFits(h, i)
    requires if 0 < i && h.blocks[i - 1].free then m' == AbsorbMemory(m, h.blocks[i - 1].addr) else m' == m
    requires k < |h.blocks| && k != i && !h.blocks[k].free && Owns(h.blocks[k], c)
    ensures Word(m', c) == Word(m, c)
  {
    hide AbsorbMemory, Word, Ordered, Linked, Gap;
    if 0 < i && h.blocks[i - 1].free {
      assert RoomForTail(h, i - 1, 0) && k != i - 1;
      AbsorbedKeepsPayload(m, h, i - 1, m', k, c);
    }
  }

  lemma ReleaseKeepsPayload(m: Memory, h: Heap, i: nat, j: nat, c: nat)
    requires Ordered(h, 0) && i < |h.blocks| && Linked(m, h) && Mergeable(h, i, 0) && LinksClear(h, i)
    requires j < |h.blocks| && j != i && !h.blocks[j].free
    requires Owns(h.blocks[j], c)
    ensures Word(ReleaseMemory(m, h.blocks, i), c) == Word(m, c)
  {
    var k := JoinedAt(h.blocks, i, j);
    JoinKeepsPayload(m, h, i, j, c);
    JoinCorrect(m, h, i);
    JoinedRoom(h, i);
    var m1 := MergeNextMemory(Put(m, h.blocks[i].addr + 8, 1), h.blocks, i);
    MergePreviousIs(m1, Joined(h, i), i);
    MergePreviousKeepsPayload(m1, Joined(h, i), i, ReleaseMemory(m, h.blocks, i), k, c);
  }

  lemma FreeKeepsPayload(m: Memory, h: Heap, i: nat, reserve: nat, j: nat, c: nat)
    requires Ordered(h, 0) && i < |h.blocks| && Linked(m, h) && Mergeable(h, i, 0) && LinksClear(h, i)
    requires j < |h.blocks| && j != i && !h.blocks[j].free
    requires Owns(h.blocks[j], c)
    ensures Word(FreeMemory(m, h, i, reserve), c) == Word(m, c)
  {
    ReleaseKeepsPayload(m, h, i, j, c);
    ReleaseCorrect(m, h, i);
    var k := ReleasedAt(h.blocks, i, j);
    TrimKeepsPayload(ReleaseMemory(m, h.blocks, i), h.(blocks := Released(h.blocks, i)), reserve, k, c);
  }

  /** kfree leaves the payload of every other block in use alone. */
  lemma FreeKeepsBlock(m: Memory, h: Heap, i: nat, reserve: nat, j: nat)
    requires Ordered(h, 0) && i < |h.blocks| && Linked(m, h) && Mergeable(h, i, 0) && LinksClear(h, i)
    requires j < |h.blocks| && j != i && !h.blocks[j].free
    ensures Payload(FreeMemory(m, h, i, reserve), h.blocks[j]) == Payload(m, h.blocks[j])
  {
    FreeCorrect(m, h, i, reserve);
    forall c | Owns(h.blocks[j], c) ensures Word(FreeMemory(m, h, i, reserve), c) == Word(m, c) {
      FreeKeepsPayload(m, h, i, reserve, j, c);
    }
    PayloadSame(m, FreeMemory(m, h, i, reserve), h.blocks[j]);
  }

  // ---- kmalloc in memory ---------------------------------------------------------------------

  function RequestMemory(m: Memory, h: Heap, size: nat, reserve: nat): Memory {
    if !Guard(h.end, size) then m
    else if h.blocks == [] then
      if KERNEL_HEAP_START + HEADER + size + reserve >= KERNEL_HEAP_END then m
      else PutBlock(m, KERNEL_HEAP_START, size, 0, 0, 0)
    else
      var i := FirstFit(h.blocks, size);
      if i < |h.blocks| then ServeMemory(m, h.blocks[i].addr, size, reserve)
      else if h.end + FOOTPRINT + size < KERNEL_HEAP_END then AppendMemory(m, h.end, h.blocks[|h.blocks| - 1].addr, size)
      else m
  }

  function MallocMemory(m: Memory, h: Heap, request: nat, reserve: nat): Memory {
    if request == 0 || Aligned(request) < request then m else RequestMemory(m, h, Aligned(request), reserve)
  }

  lemma RequestCorrect(m: Memory, h: Heap, size: nat, reserve: nat)
    requires Ordered(h, reserve) && Layout(reserve) && Linked(m, h) && size > 0 && size % 8 == 0
    ensures var m' := RequestMemory(m, h, size, reserve);
            var h' := Request(h, size, reserve).heap;
            Linked(m', h') && |m'| == |m| && (Guarded(m, h) ==> Guarded(m', h'))
  {
    Weaker(h, reserve);
    if Guard(h.end, size) {
      if h.blocks == [] {
        if KERNEL_HEAP_START + HEADER + size + reserve < KERNEL_HEAP_END { FirstCorrect(m, size, reserve); }
      } else {
        var i := FirstFit(h.blocks, size);
        FirstFitFits(h.blocks, size);
        if i < |h.blocks| {
          ServeCorrect(m, h, i, size, reserve);
        } else if h.end + FOOTPRINT + size < KERNEL_HEAP_END {
          AppendCorrect(m, h, size);
        }
      }
    }
  }

  lemma RequestKeepsPayload(m: Memory, h: Heap, size: nat, reserve: nat, j: nat, c: nat)
    requires Ordered(h, reserve) && Layout(reserve) && Linked(m, h) && size > 0
    requires j < |h.blocks| && !h.blocks[j].free
    requires Owns(h.blocks[j], c)
    ensures Word(RequestMemory(m, h, size, reserve), c) == Word(m, c)
  {
    hide Word, ServeMemory, AppendMemory, Linked, FirstFit, Owns;
    Weaker(h, reserve);
    if Guard(h.end, size) {
      var i := FirstFit(h.blocks, size);
      FirstFitFits(h.blocks, size);
      if i < |h.blocks| {
        ServeKeepsPayload(m, h, i, size, reserve, j, c);
      } else if h.end + FOOTPRINT + size < KERNEL_HEAP_END {
        AppendKeepsPayload(m, h, size, j, c);
      }
    }
  }

  /** kmalloc in memory is kmalloc in the list: headers, links and tails. */
  lemma MallocCorrect(m: Memory, h: Heap, request: nat, reserve: nat)
    requires Ordered(h, reserve) && Layout(reserve) && Linked(m, h) && request < WORD_LIMIT
    ensures var m' := MallocMemory(m, h, request, reserve);
            var h' := Malloc(h, request, reserve).heap;
            Linked(m', h') && |m'| == |m| && (Guarded(m, h) ==> Guarded(m', h'))
  {
    if request > 0 {
      AlignedIsRoundedUp(request);
      if Aligned(request) >= request { RequestCorrect(m, h, Aligned(request), reserve); }
    }
  }

  lemma MallocKeepsPayload(m: Memory, h: Heap, request: nat, reserve: nat, j: nat, c: nat)
    requires Ordered(h, reserve) && Layout(reserve) && Linked(m, h) && request < WORD_LIMIT
    requires j < |h.blocks| && !h.blocks[j].free
    requires Owns(h.blocks[j], c)
    ensures Word(MallocMemory(m, h, request, reserve), c) == Word(m, c)
  {
    if request > 0 {
      AlignedIsRoundedUp(request);
      if Aligned(request) >= request { RequestKeepsPayload(m, h, Aligned(request), reserve, j, c); }
    }
  }

  /** kmalloc leaves the payload of every block in use alone. */
  lemma MallocKeepsBlock(m: Memory, h: Heap, request: nat, reserve: nat, j: nat)
    requires Ordered(h, reserve) && Layout(reserve) && Linked(m, h) && request < WORD_LIMIT
    requires j < |h.blocks| && !h.blocks[j].free
    ensures Payload(MallocMemory(m, h, request, reserve), h.blocks[j]) == Payload(m, h.blocks[j])
  {
    MallocCorrect(m, h, request, reserve);
    forall c | Owns(h.blocks[j], c) ensures Word(MallocMemory(m, h, request, reserve), c) == Word(m, c) {
      MallocKeepsPayload(m, h, request, reserve, j, c);
    }
    PayloadSame(m, MallocMemory(m, h, request, reserve), h.blocks[j]);
  }
}
