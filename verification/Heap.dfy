/** kmalloc and kfree (src/kernel/mm/heap.c, lines 25 to 251) on memory that they write word by word. */
module Heap {
  import L = HeapList
  import R = HeapRuns
  import opened HeapMemory
  import opened Machine

  /** How kfree ends; all but the first and the last print a message. */
  datatype Verdict = Ignored | BadHeader | BadMagic | BadTail | BadBoundary | DoubleFree | Released

  /** The header in front of a payload, in 32-bit arithmetic. */
  function HeaderOf(ptr: nat): nat {
    (ptr + WORD_LIMIT - L.HEADER) % WORD_LIMIT
  }

  /** The index of the block whose header is at a; the number of blocks if there is none. */
  function Locate(blocks: seq<L.Block>, a: nat): (i: nat)
    ensures i <= |blocks|
    ensures i < |blocks| ==> blocks[i].addr == a
  {
    if blocks == [] || blocks[0].addr == a then 0 else 1 + Locate(blocks[1..], a)
  }

  lemma {:induction false} LocateFinds(h: L.Heap, reserve: nat, i: nat)
    requires L.Ordered(h, reserve) && i < |h.blocks|
    ensures Locate(h.blocks, h.blocks[i].addr) == i
  {
    forall j | 0 <= j < i ensures h.blocks[j].addr != h.blocks[i].addr { L.Distinct(h, reserve, j, i); }
    LocateFirst(h.blocks, h.blocks[i].addr, i);
  }

  lemma {:induction false} LocateFirst(blocks: seq<L.Block>, a: nat, i: nat)
    requires i < |blocks| && blocks[i].addr == a && forall j :: 0 <= j < i ==> blocks[j].addr != a
    ensures Locate(blocks, a) == i
  {
    if i > 0 {
      assert blocks[0].addr != a;
      LocateFirst(blocks[1..], a, i - 1);
    }
  }

  /** What kfree makes of a pointer: only the payload of a block in use with an intact tail is freed. */
  function Judged(m: Memory, h: L.Heap, ptr: nat): Verdict {
    var a := HeaderOf(ptr);
    var i := Locate(h.blocks, a);
    if ptr == 0 then Ignored
    else if a < KERNEL_HEAP_START || a >= h.end then BadHeader
    else if i == |h.blocks| then BadMagic
    else if TailOf(m, h.blocks[i]) != MAGIC then BadTail
    else if h.blocks[i].free then DoubleFree
    else Released
  }

  /** A pointer that is not NULL points behind something that does not look like a header, or behind
      a header. */
  predicate Plausible(m: Memory, h: L.Heap, ptr: nat) {
    var a := HeaderOf(ptr);
    ptr != 0 && KERNEL_HEAP_START <= a < h.end && Word(m, a) == MAGIC ==> Locate(h.blocks, a) < |h.blocks|
  }

  /** Which pointers kfree frees, and how it answers all others: it tells payloads of blocks apart from other
      addresses, then looks at the sentinel, and then at the mark. */
  lemma JudgedIff(m: Memory, h: L.Heap, reserve: nat, ptr: nat)
    requires L.Ordered(h, reserve) && ptr < WORD_LIMIT
    ensures Judged(m, h, ptr).Released? <==>
              exists b :: b in h.blocks && ptr == b.addr + L.HEADER && TailOf(m, b) == MAGIC && !b.free
    ensures Judged(m, h, ptr).DoubleFree? <==>
              exists b :: b in h.blocks && ptr == b.addr + L.HEADER && TailOf(m, b) == MAGIC && b.free
    ensures Judged(m, h, ptr).BadTail? <==>
              exists b :: b in h.blocks && ptr == b.addr + L.HEADER && TailOf(m, b) != MAGIC
    ensures Judged(m, h, ptr).Ignored? <==> ptr == 0
    ensures Judged(m, h, ptr).BadHeader? <==>
              ptr != 0 && !(KERNEL_HEAP_START + L.HEADER <= ptr < h.end + L.HEADER)
    ensures Judged(m, h, ptr).BadMagic? <==>
              KERNEL_HEAP_START + L.HEADER <= ptr < h.end + L.HEADER && forall b :: b in h.blocks ==> ptr != b.addr + L.HEADER
  {
    hide L.Ordered, TailOf;
    EndBelow(h, reserve);
    var i := Locate(h.blocks, HeaderOf(ptr));
    forall b | b in h.blocks && ptr == b.addr + L.HEADER
      ensures i < |h.blocks| && h.blocks[i] == b && KERNEL_HEAP_START <= b.addr < h.end && HeaderOf(ptr) == b.addr
    {
      var j :| 0 <= j < |h.blocks| && h.blocks[j] == b;
      L.AllBelowEnd(h, reserve, j);
      LocateFinds(h, reserve, j);
    }
    if i < |h.blocks| { assert h.blocks[i] in h.blocks && HeaderOf(ptr) == h.blocks[i].addr; }
  }

  lemma EndBelow(h: L.Heap, reserve: nat)
    requires L.Ordered(h, reserve)
    ensures KERNEL_HEAP_START <= h.end < KERNEL_HEAP_END
  {
    if h.blocks != [] { L.AllBelowEnd(h, reserve, 0); }
  }

  class KernelHeap {
    const mem: array<nat>
    const reserve: nat
    var head: nat
    var end: nat
    ghost var blocks: seq<L.Block>

    ghost function View(): L.Heap
      reads this
    {
      L.Heap(blocks, end)
    }

    ghost predicate Valid()
      reads this, mem
    {
      && L.Layout(reserve) && L.Sound(View(), reserve) && L.TopRoom(View()) && Linked(mem[..], View())
      && (reserve == L.TAIL ==> L.Tiled(View()))
      && head == if blocks == [] then 0 else KERNEL_HEAP_START
    }

    /** heap_init. */
    constructor (mem: array<nat>, reserve: nat)
      requires mem.Length >= KERNEL_HEAP_END && L.Layout(reserve)
      ensures Valid() && this.mem == mem && this.reserve == reserve && View() == L.EMPTY
    {
      this.mem, this.reserve := mem, reserve;
      head, end, blocks := 0, KERNEL_HEAP_START, [];
    }

    /** A header and its tail, in the order of lines 130 to 138. */
    method WriteBlock(a: nat, size: nat, free: nat, next: nat, prev: nat)
      requires a + L.HEADER + size < mem.Length
      modifies mem
      ensures mem[..] == PutBlock(old(mem[..]), a, size, free, next, prev)
    {
      mem[a] := MAGIC;
      mem[a + 4] := size;
      mem[a + 8] := free;
      mem[a + 12] := next;
      mem[a + 16] := prev;
      mem[a + L.HEADER + size] := MAGIC;
    }

    /** Lines 87 to 107. */
    method Split(a: nat, size: nat)
      requires L.Layout(reserve) && a + L.HEADER < mem.Length
      requires Cuts(mem[..], a, size, mem[a + 4], mem[a + 12], reserve)
      modifies mem
      ensures mem[..] == SplitMemory(old(mem[..]), a, size, reserve)
    {
      hide PutBlock;
      var rest, next := a + L.HEADER + size + reserve, mem[a + 12];
      WriteBlock(rest, mem[a + 4] - size - L.FOOTPRINT, 1, next, a);
      if next != 0 {
        mem[next + 16] := rest;
      }
      mem[a + 4] := size;
      mem[a + 12] := rest;
      mem[a + L.HEADER + size] := MAGIC;
    }

    /** Lines 82 to 112: the block at a serves the request. */
    method Serve(a: nat, size: nat)
      requires L.Layout(reserve) && a + L.HEADER < mem.Length
      requires mem[a + 4] >= size + L.FOOTPRINT + L.MIN_BLOCK_SIZE ==> Cuts(mem[..], a, size, mem[a + 4], mem[a + 12], reserve)
      modifies mem
      ensures mem[..] == ServeMemory(old(mem[..]), a, size, reserve)
    {
      if mem[a + 4] >= size + L.FOOTPRINT + L.MIN_BLOCK_SIZE {
        Split(a, size);
      }
      mem[a + 8] := 0;
    }

    /** Lines 80 to 119: the search stops at the first free block that fits, or at the last block. */
    method Search(size: nat) returns (current: nat, found: bool, ghost k: nat)
      requires L.Ordered(View(), reserve) && Linked(mem[..], View()) && blocks != [] && head == blocks[0].addr
      ensures k < |blocks| && current == blocks[k].addr
      ensures found == (L.FirstFit(blocks, size) < |blocks|)
      ensures k == if found then L.FirstFit(blocks, size) else |blocks| - 1
    {
      hide L.Ordered, Linked, HeaderAt, L.FirstFit;
      current, k := head, 0;
      while true
        invariant k < |blocks| && current == blocks[k].addr
        invariant forall j :: 0 <= j < k ==> !L.Fits(blocks[j], size)
        decreases |blocks| - k
      {
        Words(mem[..], View(), reserve, k);
        if mem[current + 8] != 0 && mem[current + 4] >= size {
          L.FirstFitIsFirst(blocks, size, k);
          return current, true, k;
        }
        if mem[current + 12] == 0 {
          L.FirstFitIsFirst(blocks, size, |blocks|);
          return current, false, k;
        }
        current, k := mem[current + 12], k + 1;
      }
    }

    /** Lines 130 to 140. */
    method Append(last: nat, size: nat)
      requires end + L.HEADER + size < mem.Length && last + 16 < mem.Length
      modifies mem
      ensures mem[..] == AppendMemory(old(mem[..]), end, last, size)
    {
      WriteBlock(end, size, 0, 0, last);
      mem[last + 12] := end;
    }

    /** Lines 54 to 76. */
    method AllocateFirst(size: nat) returns (ptr: nat)
      requires Valid() && L.Guard(end, size) && head == 0
      modifies this, mem
      ensures View() == old(L.Request(View(), size, reserve).heap)
      ensures mem[..] == old(RequestMemory(mem[..], View(), size, reserve))
      ensures ptr == Returned(old(L.Request(View(), size, reserve)))
      ensures head == if blocks == [] then 0 else KERNEL_HEAP_START
    {
      var newEnd := end + L.HEADER + size + reserve;
      if newEnd >= KERNEL_HEAP_END {
        return 0;
      }
      WriteBlock(end, size, 0, 0, 0);
      head, ptr := end, end + L.HEADER;
      blocks := [L.Block(end, size, false)];
      end := newEnd;
    }

    /** Lines 122 to 146, behind the last block. */
    method AllocateLast(last: nat, size: nat) returns (ptr: nat)
      requires mem.Length >= KERNEL_HEAP_END && last + L.HEADER <= end < KERNEL_HEAP_END
      requires size < WORD_LIMIT && L.Guard(end, size) && !L.Wraps(end, size)
      modifies this`end, this`blocks, mem
      ensures var h := old(View());
              if h.end + L.FOOTPRINT + size < KERNEL_HEAP_END then
                && View() == L.Appended(h, size) && ptr == h.end + L.HEADER
                && mem[..] == AppendMemory(old(mem[..]), h.end, last, size)
              else View() == h && ptr == 0 && mem[..] == old(mem[..])
    {
      var newEnd := (end + L.FOOTPRINT + size) % WORD_LIMIT;
      AppendTest(end, size);
      if newEnd < end || newEnd >= KERNEL_HEAP_END {
        return 0;
      }
      Append(last, size);
      blocks := blocks + [L.Block(end, size, false)];
      ptr := end + L.HEADER;
      end := newEnd;
    }

    method ServeFound(a: nat, size: nat, ghost k: nat) returns (ptr: nat)
      requires L.Ordered(View(), reserve) && L.Layout(reserve) && Linked(mem[..], View()) && size > 0
      requires k == L.FirstFit(blocks, size) < |blocks| && a == blocks[k].addr
      modifies this`blocks, mem
      ensures L.Fits(old(blocks)[k], size) && View() == L.Served(old(View()), k, size, reserve)
      ensures mem[..] == ServeMemory(old(mem[..]), a, size, reserve)
      ensures ptr == a + L.HEADER
    {
      L.FirstFitFits(blocks, size);
      ServeSetting(mem[..], View(), k, size, reserve);
      Serve(a, size);
      blocks := L.Served(View(), k, size, reserve).blocks;
      ptr := a + L.HEADER;
    }

    /** Lines 46 to 147: a request for a multiple of 8. */
    method Allocate(size: nat) returns (ptr: nat)
      requires Valid() && 0 < size < WORD_LIMIT && size % 8 == 0 && !L.Wraps(end, size)
      modifies this, mem
      ensures View() == old(L.Request(View(), size, reserve).heap)
      ensures mem[..] == old(RequestMemory(mem[..], View(), size, reserve))
      ensures ptr == Returned(old(L.Request(View(), size, reserve)))
      ensures head == if blocks == [] then 0 else KERNEL_HEAP_START
    {
      hide HeaderAt, L.FirstFit, L.Coalesced, ServeMemory, AppendMemory, L.Tiled;
      if size > (KERNEL_HEAP_END - end - L.FOOTPRINT) % WORD_LIMIT {
        return 0;
      }
      if head == 0 {
        ptr := AllocateFirst(size);
        return;
      }
      var current, found, k := Search(size);
      if found {
        ptr := ServeFound(current, size, k);
        return;
      }
      L.AllBelowEnd(View(), reserve, k);
      ptr := AllocateLast(current, size);
    }

    /** kmalloc: NULL exactly when it must refuse, and then nothing changes; otherwise the payload of a block
        that was not in use, large enough, and the only one that comes into use. */
    method Kmalloc(request: nat) returns (ptr: nat)
      requires Valid() && request < WORD_LIMIT && !L.Wraps(end, L.Aligned(request))
      modifies this, mem
      ensures Valid()
      ensures View() == old(L.Malloc(View(), request, reserve).heap)
      ensures mem[..] == old(MallocMemory(mem[..], View(), request, reserve))
      ensures ptr == Returned(old(L.Malloc(View(), request, reserve)))
      ensures ptr == 0 <==> old(L.Refused(View(), request, reserve))
      ensures ptr == 0 ==> View() == old(View()) && mem[..] == old(mem[..])
      ensures ptr != 0 ==> HandedOut(old(View()), View(), request, ptr)
    {
      hide L.Refused, L.Request, L.Tiled, RequestMemory, HandedOut;
      MallocHandsOut(mem[..], View(), request, reserve);
      if request == 0 {
        return 0;
      }
      var aligned := L.Aligned(request);
      if aligned < request {
        return 0;
      }
      L.AlignedIsRoundedUp(request);
      L.RequestSound(View(), aligned, reserve);
      RequestCorrect(mem[..], View(), aligned, reserve);
      L.RequestTopRoom(View(), aligned, reserve);
      if reserve == L.TAIL { R.RequestTiled(View(), aligned); }
      ptr := Allocate(aligned);
    }

    // ---- kfree -------------------------------------------------------------------------------

    /** Lines 201 to 216. */
    method MergeNext(a: nat, ghost i: nat)
      requires L.Ordered(View(), 0) && Linked(mem[..], View()) && i < |blocks| && a == blocks[i].addr
      requires NextFits(View(), i)
      modifies mem
      ensures mem[..] == MergeNextMemory(old(mem[..]), blocks, i)
    {
      hide L.Ordered, Linked, HeaderAt, AbsorbMemory;
      NextTest(mem[..], View(), i);
      var next := mem[a + 12];
      if next != 0 && next >= KERNEL_HEAP_START && next < end && mem[next + 8] != 0 {
        AbsorbNextBlock(a, next);
      }
    }

    /** Lines 207 to 215. */
    method AbsorbNextBlock(a: nat, next: nat)
      requires Merges(mem[..], a, next, Word(mem[..], next + 12), Word(mem[..], a + 4) + L.FOOTPRINT + Word(mem[..], next + 4))
      requires a + L.HEADER <= next < next + L.HEADER <= mem.Length
      modifies mem
      ensures mem[..] == AbsorbMemory(old(mem[..]), a)
    {
      mem[a + 4] := mem[a + 4] + L.FOOTPRINT + mem[next + 4];
      mem[a + 12] := mem[next + 12];
      mem[a + L.HEADER + mem[a + 4]] := MAGIC;
      if mem[a + 12] != 0 {
        mem[mem[a + 12] + 16] := a;
      }
    }

    /** Lines 219 to 232. */
    method MergePrevious(a: nat, ghost i: nat)
      requires L.Ordered(View(), 0) && Linked(mem[..], View()) && i < |blocks| && a == blocks[i].addr
      requires PreviousFits(View(), i)
      modifies mem
      ensures mem[..] == MergePreviousMemory(old(mem[..]), blocks, i)
    {
      hide L.Ordered, Linked, HeaderAt, PreviousMemory;
      PreviousTest(mem[..], View(), i);
      var prev := mem[a + 16];
      if prev != 0 && prev >= KERNEL_HEAP_START && prev < end && mem[prev + 8] != 0 {
        AbsorbIntoPrevious(a);
      }
    }

    /** Lines 224 to 230. */
    method AbsorbIntoPrevious(n: nat)
      requires n + L.HEADER <= mem.Length
      requires var prev, next := mem[n + 16], mem[n + 12];
               && prev + L.HEADER <= n
               && Merges(mem[..], prev, n, next, Word(mem[..], prev + 4) + L.FOOTPRINT + mem[n + 4])
               && prev + L.HEADER + mem[prev + 4] + L.FOOTPRINT + mem[n + 4] != n + 12
               && prev + L.HEADER + mem[prev + 4] + L.FOOTPRINT + mem[n + 4] != n + 16
      modifies mem
      ensures mem[..] == PreviousMemory(old(mem[..]), n)
    {
      mem[mem[n + 16] + 4] := mem[mem[n + 16] + 4] + L.FOOTPRINT + mem[n + 4];
      mem[mem[n + 16] + L.HEADER + mem[mem[n + 16] + 4]] := MAGIC;
      mem[mem[n + 16] + 12] := mem[n + 12];
      if mem[n + 12] != 0 {
        mem[mem[n + 12] + 16] := mem[n + 16];
      }
    }

    /** Lines 241 to 244: the walk to the last block. */
    method Last() returns (last: nat)
      requires L.Ordered(View(), 0) && Linked(mem[..], View())
      requires head == if blocks == [] then 0 else KERNEL_HEAP_START
      ensures last == if blocks == [] then 0 else blocks[|blocks| - 1].addr
    {
      last := head;
      ghost var k := 0;
      if blocks != [] { Words(mem[..], View(), 0, 0); }
      while last != 0 && mem[last + 12] != 0
        invariant last == 0 <==> blocks == []
        invariant last != 0 ==> k < |blocks| && last == blocks[k].addr && last + L.HEADER <= mem.Length
        invariant last != 0 ==> mem[last + 12] == Next(blocks, k)
        invariant last != 0 ==> (Next(blocks, k) == 0 <==> k == |blocks| - 1)
        decreases |blocks| - k
      {
        Words(mem[..], View(), 0, k + 1);
        last, k := mem[last + 12], k + 1;
      }
    }

    /** Lines 246 and 247; the repaired heap unlinks the block that it cuts off. */
    method CutOff(last: nat)
      requires L.Ordered(View(), 0) && Linked(mem[..], View())
      requires |blocks| > 1 && last == blocks[|blocks| - 1].addr && blocks[|blocks| - 1].free
      modifies this`end, this`blocks, mem
      ensures View() == L.Trimmed(old(View()), reserve)
      ensures mem[..] == TrimMemory(old(mem[..]), old(blocks), reserve)
      ensures blocks != []
    {
      hide L.Ordered, Linked, HeaderAt, Expected;
      Words(mem[..], View(), 0, |blocks| - 1);
      Words(mem[..], View(), 0, |blocks| - 2);
      end := last;
      if reserve == L.TAIL {
        mem[mem[last + 16] + 12] := 0;
        blocks := blocks[..|blocks| - 1];
      }
    }

    /** Lines 234 to 248. */
    method Trim()
      requires L.Ordered(View(), 0) && Linked(mem[..], View())
      requires head == if blocks == [] then 0 else KERNEL_HEAP_START
      modifies this, mem
      ensures View() == L.Trimmed(old(View()), reserve)
      ensures mem[..] == TrimMemory(old(mem[..]), old(blocks), reserve)
      ensures head == if blocks == [] then 0 else KERNEL_HEAP_START
    {
      hide L.Ordered, Linked, HeaderAt, Expected;
      HeadTest(mem[..], View(), head);
      if head != 0 && mem[head + 8] != 0 && mem[head + 12] == 0 {
        end, head := KERNEL_HEAP_START, 0;
        blocks := [];
        return;
      }
      var last := Last();
      LastTest(mem[..], View(), last);
      if last != 0 && mem[last + 8] != 0 {
        CutOff(last);
      }
    }

    /** Lines 197 to 216: the mark and the merge with the next block. */
    method MarkAndMergeNext(a: nat, ghost i: nat)
      requires L.Ordered(View(), 0) && Linked(mem[..], View()) && i < |blocks| && a == blocks[i].addr
      requires L.Mergeable(View(), i, 0) && L.LinksClear(View(), i)
      modifies this`blocks, mem
      ensures blocks == L.MergedNext(L.Marked(old(blocks), i), i)
      ensures mem[..] == MergeNextMemory(Put(old(mem[..]), a + 8, 1), old(blocks), i)
    {
      ReleaseSteps(mem[..], View(), i);
      mem[a + 8] := 1;
      blocks := L.Marked(blocks, i);
      MergeNext(a, i);
      blocks := L.MergedNext(blocks, i);
    }

    /** Lines 197 to 232: the mark and the two merges. */
    method Release(a: nat, ghost i: nat)
      requires L.Ordered(View(), 0) && Linked(mem[..], View()) && i < |blocks| && a == blocks[i].addr
      requires L.Mergeable(View(), i, 0) && L.LinksClear(View(), i)
      modifies this`blocks, mem
      ensures mem[..] == ReleaseMemory(old(mem[..]), old(blocks), i)
      ensures blocks == L.Released(old(blocks), i)
    {
      ReleaseSteps(mem[..], View(), i);
      MarkAndMergeNext(a, i);
      MergePrevious(a, i);
      blocks := L.MergedPrevious(blocks, i);
    }

    /** Lines 197 to 248. */
    method ReleaseAndTrim(a: nat, ghost i: nat)
      requires L.Ordered(View(), 0) && Linked(mem[..], View()) && i < |blocks| && a == blocks[i].addr
      requires L.Mergeable(View(), i, 0) && L.LinksClear(View(), i) && head == KERNEL_HEAP_START
      modifies this, mem
      ensures View() == L.Free(old(View()), i, reserve)
      ensures mem[..] == FreeMemory(old(mem[..]), old(View()), i, reserve)
      ensures head == if blocks == [] then 0 else KERNEL_HEAP_START
    {
      hide L.Ordered, Linked, L.Mergeable, L.LinksClear, L.Released, ReleaseMemory, L.Trimmed, TrimMemory;
      ghost var m, h := mem[..], View();
      ReleaseCorrect(m, h, i);
      ReleasedNotEmpty(h.blocks, i);
      Release(a, i);
      assert View() == h.(blocks := L.Released(h.blocks, i));
      Trim();
    }

    /** Lines 154 to 195: the checks. */
    method Check(ptr: nat) returns (verdict: Verdict)
      requires L.Ordered(View(), reserve) && Linked(mem[..], View()) && ptr < WORD_LIMIT && ptr % 4 == 0
      requires Plausible(mem[..], View(), ptr)
      ensures verdict == Judged(mem[..], View(), ptr)
    {
      hide L.Ordered, Linked, HeaderAt;
      if ptr == 0 {
        return Ignored;
      }
      var a := HeaderOf(ptr);
      ghost var i := Locate(blocks, a);
      EndIsInside(mem[..], View(), reserve);
      if a < KERNEL_HEAP_START || a >= end {
        return BadHeader;
      }
      if mem[a] != MAGIC {
        NotABlock(mem[..], View(), reserve, a);
        return BadMagic;
      }
      FoundBlock(mem[..], View(), reserve, i);
      if mem[a + L.HEADER + mem[a + 4]] != MAGIC {
        return BadTail;
      }
      if mem[a + 4] == 0 || a + L.HEADER + mem[a + 4] > end {
        return BadBoundary;
      }
      return if mem[a + 8] != 0 then DoubleFree else Released;
    }

    /** kfree.  What it leaves is a valid heap exactly when it is repaired, refuses the pointer, or as
        written keeps the highest block in use or empties the heap. */
    method Kfree(ptr: nat) returns (verdict: Verdict)
      requires Valid() && ptr < WORD_LIMIT && ptr % 4 == 0 && Plausible(mem[..], View(), ptr)
      requires reserve == 0 && Judged(mem[..], View(), ptr).Released? ==>
                 var i := Locate(blocks, HeaderOf(ptr));
                 L.Mergeable(View(), i, 0) && L.LinksClear(View(), i)
      modifies this, mem
      ensures verdict == old(Judged(mem[..], View(), ptr))
      ensures verdict.Released? ==>
                && View() == old(L.Free(View(), Locate(blocks, HeaderOf(ptr)), reserve))
                && mem[..] == old(FreeMemory(mem[..], View(), Locate(blocks, HeaderOf(ptr)), reserve))
      ensures !verdict.Released? ==> View() == old(View()) && mem[..] == old(mem[..])
      ensures Valid() <==> verdict.Released? && reserve == 0 ==> old(L.TopStays(View(), Locate(blocks, HeaderOf(ptr))))
    {
      hide L.Ordered, Linked, L.Free, FreeMemory, L.Mergeable, L.LinksClear, L.Coalesced, L.TopInUse, L.TopStays, L.TopRoom;
      verdict := Check(ptr);
      if verdict.Released? {
        ghost var i := Locate(blocks, HeaderOf(ptr));
        ReleaseIsValidIff(mem[..], View(), reserve, i);
        ReleaseAndTrim(HeaderOf(ptr), i);
      }
    }
  }

  lemma ReleasedNotEmpty(blocks: seq<L.Block>, i: nat)
    requires i < |blocks|
    ensures L.Released(blocks, i) != []
  {
  }

  /** What the steps of Release need, one after the other. */
  lemma ReleaseSteps(m: Memory, h: L.Heap, i: nat)
    requires L.Ordered(h, 0) && Linked(m, h) && i < |h.blocks| && L.Mergeable(h, i, 0) && L.LinksClear(h, i)
    ensures h.blocks[i].addr + L.HEADER <= |m|
    ensures var m1, h1 := Put(m, h.blocks[i].addr + 8, 1), h.(blocks := L.Marked(h.blocks, i));
            && L.Ordered(h1, 0) && Linked(m1, h1)
            && NextFits(h1, i)
            && MergeNextMemory(m1, h1.blocks, i) == MergeNextMemory(m1, h.blocks, i)
    ensures var m2 := MergeNextMemory(Put(m, h.blocks[i].addr + 8, 1), h.blocks, i);
            var h2 := h.(blocks := L.MergedNext(L.Marked(h.blocks, i), i));
            && L.Ordered(h2, 0) && Linked(m2, h2) && i < |h2.blocks| && h2.blocks[i].addr == h.blocks[i].addr
            && PreviousFits(h2, i)
            && MergePreviousMemory(m2, h2.blocks, i) == MergePreviousMemory(m2, h.blocks, i)
  {
    Words(m, h, 0, i);
    MarkCorrect(m, h, i, true);
    JoinedRoom(h, i);
    JoinCorrect(m, h, i);
    assert Joined(h, i) == h.(blocks := L.MergedNext(L.Marked(h.blocks, i), i));
  }

  lemma EndIsInside(m: Memory, h: L.Heap, reserve: nat)
    requires L.Ordered(h, reserve) && Linked(m, h)
    ensures h.end < KERNEL_HEAP_END <= |m| && h.end % 4 == 0
  {
  }

  lemma NotABlock(m: Memory, h: L.Heap, reserve: nat, a: nat)
    requires L.Ordered(h, reserve) && Linked(m, h) && Word(m, a) != MAGIC
    ensures Locate(h.blocks, a) == |h.blocks|
  {
    var i := Locate(h.blocks, a);
    if i < |h.blocks| { Words(m, h, reserve, i); }
  }

  lemma FoundBlock(m: Memory, h: L.Heap, reserve: nat, i: nat)
    requires L.Ordered(h, reserve) && Linked(m, h) && i < |h.blocks|
    ensures var b := h.blocks[i];
            && 0 < b.size && b.End() <= h.end < KERNEL_HEAP_END <= |m|
            && m[b.addr + 4] == b.size && (m[b.addr + 8] != 0) == b.free && TailOf(m, b) == m[b.End()]
  {
    Words(m, h, reserve, i);
    L.AllBelowEnd(h, reserve, i);
    assert L.SoundBlock(h.blocks[i]);
  }

  /** What ReleaseAndTrim needs, and what becomes of the invariant. */
  lemma ReleaseIsValidIff(m: Memory, h: L.Heap, reserve: nat, i: nat)
    requires L.Layout(reserve) && L.Sound(h, reserve) && L.TopRoom(h) && Linked(m, h) && i < |h.blocks|
    requires reserve == L.TAIL ==> L.Tiled(h)
    requires reserve == 0 ==> L.Mergeable(h, i, 0) && L.LinksClear(h, i)
    ensures L.Ordered(h, 0) && L.Mergeable(h, i, 0) && L.LinksClear(h, i)
    ensures Linked(FreeMemory(m, h, i, reserve), L.Free(h, i, reserve))
    ensures reserve == L.TAIL ==> L.Tiled(L.Free(h, i, reserve))
    ensures L.Sound(L.Free(h, i, reserve), reserve) && L.TopRoom(L.Free(h, i, reserve)) <==> reserve == 0 ==> L.TopStays(h, i)
  {
    hide L.Ordered, Linked, L.Free, FreeMemory, L.LinksClear, L.Tiled, L.Coalesced, L.TopInUse, L.TopStays, L.TopRoom;
    Weaker(h, reserve);
    if reserve == L.TAIL { R.TiledMergeable(h, i); R.FreeTiled(h, i); }
    FreeCorrect(m, h, i, reserve);
    L.FreeSound(h, i, reserve);
    if reserve == L.TAIL || L.TopStays(h, i) { L.FreeTopRoom(h, i, reserve); }
  }

  /** kfree accepts every pointer to the payload of a block in use, as kmalloc returns it. */
  lemma PayloadIsAccepted(m: Memory, h: L.Heap, reserve: nat, i: nat)
    requires L.Ordered(h, reserve) && Linked(m, h) && Guarded(m, h) && i < |h.blocks| && !h.blocks[i].free
    ensures var ptr := h.blocks[i].addr + L.HEADER;
            && Locate(h.blocks, HeaderOf(ptr)) == i == R.Find(h.blocks, h.blocks[i])
            && ptr < WORD_LIMIT && ptr % 4 == 0 && Plausible(m, h, ptr) && Judged(m, h, ptr).Released?
  {
    hide L.Ordered, HeaderAt, Linked, Word;
    var a := h.blocks[i].addr;
    FoundBlock(m, h, reserve, i);
    L.AllBelowEnd(h, reserve, i);
    L.BlockIsSound(h, reserve, i);
    assert HeaderOf(a + L.HEADER) == a;
    LocateFinds(h, reserve, i);
    FindFinds(h, reserve, i);
    assert TailOf(m, h.blocks[i]) == MAGIC;
  }

  lemma FindFinds(h: L.Heap, reserve: nat, i: nat)
    requires L.Ordered(h, reserve) && i < |h.blocks|
    ensures R.Find(h.blocks, h.blocks[i]) == i
  {
    var j := R.Find(h.blocks, h.blocks[i]);
    if j != i { L.Distinct(h, reserve, i, j); }
  }

  lemma NextTest(m: Memory, h: L.Heap, i: nat)
    requires L.Ordered(h, 0) && Linked(m, h) && i < |h.blocks|
    requires NextFits(h, i)
    ensures h.blocks[i].addr + L.HEADER <= |m|
    ensures var a := h.blocks[i].addr;
            var next := m[a + 12];
            && (next != 0 ==> next + L.HEADER <= |m|)
            && (next != 0 && next >= KERNEL_HEAP_START && next < h.end && m[next + 8] != 0
                <==> i + 1 < |h.blocks| && h.blocks[i + 1].free)
            && (i + 1 < |h.blocks| && h.blocks[i + 1].free ==>
                && Merges(m, a, next, Word(m, next + 12), Word(m, a + 4) + L.FOOTPRINT + Word(m, next + 4))
                && a + L.HEADER <= next < next + L.HEADER <= |m|)
  {
    hide L.Ordered, Linked, HeaderAt;
    Words(m, h, 0, i);
    if i + 1 < |h.blocks| {
      Words(m, h, 0, i + 1);
      L.AllBelowEnd(h, 0, i + 1);
      L.Apart(h, 0, i, i + 1);
      if h.blocks[i + 1].free { MergesAt(m, h, i); }
    }
  }

  lemma PreviousTest(m: Memory, h: L.Heap, i: nat)
    requires L.Ordered(h, 0) && Linked(m, h) && i < |h.blocks| && PreviousFits(h, i)
    ensures h.blocks[i].addr + L.HEADER <= |m|
    ensures var n := h.blocks[i].addr;
            var prev := m[n + 16];
            && (prev != 0 ==> prev + L.HEADER <= |m|)
            && (prev != 0 && prev >= KERNEL_HEAP_START && prev < h.end && m[prev + 8] != 0
                <==> 0 < i && h.blocks[i - 1].free)
            && (0 < i && h.blocks[i - 1].free ==>
                var size := Word(m, prev + 4) + L.FOOTPRINT + m[n + 4];
                && prev + L.HEADER <= n && Merges(m, prev, n, m[n + 12], size)
                && prev + L.HEADER + size != n + 12 && prev + L.HEADER + size != n + 16)
  {
    hide L.Ordered, Linked, HeaderAt;
    Words(m, h, 0, i);
    if 0 < i {
      Words(m, h, 0, i - 1);
      L.AllBelowEnd(h, 0, i - 1);
      if h.blocks[i - 1].free { PreviousSetting(m, h, i); }
    }
  }

  lemma HeadTest(m: Memory, h: L.Heap, head: nat)
    requires L.Ordered(h, 0) && Linked(m, h) && head == if h.blocks == [] then 0 else KERNEL_HEAP_START
    ensures head != 0 ==> head + L.HEADER <= |m|
    ensures head != 0 && m[head + 8] != 0 && m[head + 12] == 0 <==> |h.blocks| == 1 && h.blocks[0].free
  {
    if h.blocks != [] { Words(m, h, 0, 0); }
  }

  lemma LastTest(m: Memory, h: L.Heap, last: nat)
    requires L.Ordered(h, 0) && Linked(m, h) && last == if h.blocks == [] then 0 else h.blocks[|h.blocks| - 1].addr
    ensures last != 0 ==> last + L.HEADER <= |m|
    ensures last != 0 && m[last + 8] != 0 <==> h.blocks != [] && h.blocks[|h.blocks| - 1].free
  {
    if h.blocks != [] { Words(m, h, 0, |h.blocks| - 1); }
  }

  /** Lines 122 to 128 test what they mean to test, a wrap-around aside. */
  lemma AppendTest(end: nat, size: nat)
    requires end < KERNEL_HEAP_END && size < WORD_LIMIT && L.Guard(end, size) && !L.Wraps(end, size)
    ensures var newEnd := (end + L.FOOTPRINT + size) % WORD_LIMIT;
            && (newEnd < end || newEnd >= KERNEL_HEAP_END <==> end + L.FOOTPRINT + size >= KERNEL_HEAP_END)
            && (end + L.FOOTPRINT + size < KERNEL_HEAP_END ==> newEnd == end + L.FOOTPRINT + size)
  {
    L.AppendAcceptedIff(end, size);
  }

  /** The words of block k, as the search reads them. */
  lemma Words(m: Memory, h: L.Heap, reserve: nat, k: nat)
    requires L.Ordered(h, reserve) && Linked(m, h) && k < |h.blocks|
    ensures var b := h.blocks[k];
            && 0 < b.addr && b.addr + L.HEADER <= |m|
            && m[b.addr] == MAGIC && m[b.addr + 4] == b.size && (m[b.addr + 8] != 0) == b.free
            && m[b.addr + 12] == Next(h.blocks, k) && m[b.addr + 16] == Previous(h.blocks, k)
    ensures Next(h.blocks, k) == 0 <==> k == |h.blocks| - 1
    ensures Previous(h.blocks, k) == 0 <==> k == 0
  {
    Weaker(h, reserve);
    Neighbours(m, h, k);
    if k + 1 < |h.blocks| { Neighbours(m, h, k + 1); }
    if 0 < k { Neighbours(m, h, k - 1); }
  }

  /** What kmalloc returns: NULL, or the payload of the block served. */
  function Returned(out: L.Outcome): nat {
    if 0 <= out.index < |out.heap.blocks| then out.heap.blocks[out.index].addr + L.HEADER else 0
  }

  /** The pointer is the payload of a block that comes into use, alone, and is large enough. */
  ghost predicate HandedOut(h: L.Heap, h': L.Heap, request: nat, ptr: nat) {
    exists b :: && b in h'.blocks && !b.free && ptr == b.addr + L.HEADER && request <= b.size
                && b !in L.Live(h.blocks) && L.Live(h'.blocks) == L.Live(h.blocks) + {b}
  }

  lemma MallocHandsOut(m: Memory, h: L.Heap, request: nat, reserve: nat)
    requires L.Sound(h, reserve) && L.Layout(reserve) && request < WORD_LIMIT
    ensures var out := L.Malloc(h, request, reserve);
            && (Returned(out) == 0 <==> L.Refused(h, request, reserve))
            && (Returned(out) == 0 ==> out.heap == h && MallocMemory(m, h, request, reserve) == m)
            && (Returned(out) != 0 ==> HandedOut(h, out.heap, request, Returned(out)))
  {
    hide L.Refused;
    L.MallocSound(h, request, reserve);
    L.MallocFailsIff(h, request, reserve);
    L.MallocFresh(h, request, reserve);
    var out := L.Malloc(h, request, reserve);
    if out.index >= 0 {
      var b := out.heap.blocks[out.index];
      assert b in out.heap.blocks;
    }
  }

  /** kfree accepts what kmalloc returned, and the blocks in use are then what they were before. */
  lemma ReturnedIsAccepted(m: Memory, h: L.Heap, request: nat, reserve: nat)
    requires L.Sound(h, reserve) && L.Layout(reserve) && Linked(m, h) && Guarded(m, h) && request < WORD_LIMIT
    requires !L.Refused(h, request, reserve)
    ensures var out, m' := L.Malloc(h, request, reserve), MallocMemory(m, h, request, reserve);
            var ptr := Returned(out);
            && Judged(m', out.heap, ptr).Released?
            && var i := Locate(out.heap.blocks, HeaderOf(ptr));
            i < |out.heap.blocks| && L.Live(L.Free(out.heap, i, reserve).blocks) == L.Live(h.blocks)
  {
    hide L.Refused, L.Free, L.Ordered, Linked, Guarded, MallocMemory, Judged, Locate, L.Coalesced, L.TopInUse, L.Malloc;
    L.MallocFailsIff(h, request, reserve);
    L.MallocSound(h, request, reserve);
    L.MallocFresh(h, request, reserve);
    MallocCorrect(m, h, request, reserve);
    var out := L.Malloc(h, request, reserve);
    PayloadIsAccepted(MallocMemory(m, h, request, reserve), out.heap, reserve, out.index);
    L.FreeLive(out.heap, out.index, reserve);
  }

  /** What Split needs holds at a block of the list. */
  lemma ServeSetting(m: Memory, h: L.Heap, i: nat, size: nat, reserve: nat)
    requires L.Ordered(h, reserve) && L.Layout(reserve) && i < |h.blocks| && Linked(m, h) && size > 0
    ensures h.blocks[i].addr + L.HEADER < |m|
    ensures var a := h.blocks[i].addr;
            m[a + 4] >= size + L.FOOTPRINT + L.MIN_BLOCK_SIZE ==> Cuts(m, a, size, m[a + 4], m[a + 12], reserve)
  {
    Weaker(h, reserve);
    Neighbours(m, h, i);
    if L.Splits(h.blocks[i], size) { CutsAt(m, h, i, size, reserve); }
  }
}
