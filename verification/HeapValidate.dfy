/** heap_validate (src/kernel/mm/heap.c, lines 298 to 347) over arbitrary block headers: any addresses,
    any links, cycles included. */
module HeapValidate {
  import opened HeapMemory
  import L = HeapList
  import opened Machine

  /** What heap_validate prints. */
  datatype Report = Cycle | BadMagic | BadLink | OutsideRange | BeyondEnd | Valid

  /** A finite set of block headers by address, whose next pointers are NULL or lead to another one. */
  predicate Closed(m: map<nat, Header>, head: nat) {
    && 0 !in m && (head == 0 || head in m)
    && forall a :: a in m ==> m[a].next == 0 || m[a].next in m
  }

  /** n steps along next from a; 0 (NULL) from where the chain ends. */
  function Nth(m: map<nat, Header>, a: nat, n: nat): nat
    decreases n
  {
    if n == 0 then a else if a in m then Nth(m, m[a].next, n - 1) else 0
  }

  /** The chain comes back to a block. */
  ghost predicate Cyclic(m: map<nat, Header>, head: nat) {
    exists i: nat, j: nat :: i < j && Nth(m, head, i) == Nth(m, head, j) != 0
  }

  /** The tests of lines 319 to 340 on one block, in their order and in 32-bit arithmetic. */
  function Test(m: map<nat, Header>, a: nat, end: nat): Report
    requires Closed(m, a) && a in m
  {
    if m[a].magic != MAGIC then BadMagic
    else if m[a].next != 0 && m[m[a].next].prev != a then BadLink
    else if a < KERNEL_HEAP_START || a >= end then OutsideRange
    else if (a + L.HEADER + m[a].size) % WORD_LIMIT > end then BeyondEnd
    else Valid
  }

  /** Every block of the chain passes the tests. */
  ghost predicate AllPass(m: map<nat, Header>, head: nat, end: nat)
    requires Closed(m, head)
  {
    forall n: nat :: Nth(m, head, n) in m ==> Test(m, Nth(m, head, n), end).Valid?
  }

  /** The chain as it should be: magic numbers, back links that undo the links, and blocks inside the range
      of the heap. */
  ghost predicate SoundChain(m: map<nat, Header>, head: nat, end: nat)
    requires Closed(m, head)
  {
    forall n: nat :: Nth(m, head, n) in m ==> SoundHeader(m, Nth(m, head, n), end)
  }

  ghost predicate SoundHeader(m: map<nat, Header>, a: nat, end: nat)
    requires a in m
  {
    && m[a].magic == MAGIC && KERNEL_HEAP_START <= a < end && (a + L.HEADER + m[a].size) % WORD_LIMIT <= end
    && forall b :: b in m && m[a].next == b ==> m[b].prev == a
  }

  lemma AllPassIff(m: map<nat, Header>, head: nat, end: nat)
    requires Closed(m, head)
    ensures AllPass(m, head, end) <==> SoundChain(m, head, end)
  {
    if AllPass(m, head, end) {
      forall n: nat | Nth(m, head, n) in m ensures SoundHeader(m, Nth(m, head, n), end) {
        assert Test(m, Nth(m, head, n), end).Valid?;
      }
    }
    if SoundChain(m, head, end) {
      forall n: nat | Nth(m, head, n) in m ensures Test(m, Nth(m, head, n), end).Valid? {
        assert SoundHeader(m, Nth(m, head, n), end);
      }
    }
  }

  lemma {:induction false} NthIsBlock(m: map<nat, Header>, a: nat, n: nat)
    requires Closed(m, a)
    ensures Nth(m, a, n) == 0 || Nth(m, a, n) in m
    decreases n
  {
    if n > 0 && a in m { NthIsBlock(m, m[a].next, n - 1); }
  }

  lemma {:induction false} NthAdds(m: map<nat, Header>, a: nat, i: nat, j: nat)
    requires 0 !in m
    ensures Nth(m, a, i + j) == (if i > 0 && Nth(m, a, i) == 0 then 0 else Nth(m, Nth(m, a, i), j))
    decreases i
  {
    NullStays(m, j);
    if i == 0 {
    } else if a in m {
      NthAdds(m, m[a].next, i - 1, j);
    }
  }

  lemma {:induction false} NullStays(m: map<nat, Header>, n: nat)
    requires 0 !in m
    ensures Nth(m, 0, n) == 0
  {
  }

  lemma NextStep(m: map<nat, Header>, a: nat, n: nat)
    requires Closed(m, a)
    ensures Nth(m, a, n + 1) == if Nth(m, a, n) in m then m[Nth(m, a, n)].next else 0
  {
    NthAdds(m, a, n, 1);
    NthIsBlock(m, a, n);
    if n > 0 || a == 0 { NullStays(m, 1); }
    assert Nth(m, Nth(m, a, n), 1) == if Nth(m, a, n) in m then Nth(m, m[Nth(m, a, n)].next, 0) else 0;
  }

  /** Once the chain has ended it stays ended. */
  lemma EndsForGood(m: map<nat, Header>, a: nat, i: nat, j: nat)
    requires Closed(m, a) && i <= j && Nth(m, a, i) == 0
    ensures Nth(m, a, j) == 0
  {
    NthAdds(m, a, i, j - i);
    NullStays(m, j - i);
  }

  lemma StillGoing(m: map<nat, Header>, a: nat, i: nat, j: nat)
    requires Closed(m, a) && i <= j && Nth(m, a, j) != 0
    ensures Nth(m, a, i) in m
  {
    NthIsBlock(m, a, i);
    if Nth(m, a, i) == 0 { EndsForGood(m, a, i, j); }
  }

  // ---- The pigeonhole ------------------------------------------------------------------------

  /** More addresses than blocks: some block comes twice. */
  lemma {:induction false} TwiceVisited(visits: seq<nat>, among: set<nat>) returns (i: nat, j: nat)
    requires |visits| > |among| && forall k :: 0 <= k < |visits| ==> visits[k] in among
    ensures i < j < |visits| && visits[i] == visits[j]
    decreases |visits|
  {
    var last := |visits| - 1;
    var x := visits[last];
    if k :| 0 <= k < last && visits[k] == x {
      i, j := k, last;
    } else {
      forall k | 0 <= k < last ensures visits[..last][k] in among - {x} {
        assert visits[k] in among;
      }
      i, j := TwiceVisited(visits[..last], among - {x});
    }
  }

  /** A chain that outlasts the number of blocks repeats one of them. */
  lemma Repeats(m: map<nat, Header>, head: nat) returns (i: nat, j: nat)
    requires Closed(m, head) && Nth(m, head, |m|) != 0
    ensures i < j <= |m| && Nth(m, head, i) == Nth(m, head, j) != 0
  {
    var visits := seq(|m| + 1, k requires 0 <= k => Nth(m, head, k));
    forall k | 0 <= k < |visits| ensures visits[k] in m.Keys {
      StillGoing(m, head, k, |m|);
    }
    i, j := TwiceVisited(visits, m.Keys);
  }

  /** times * period, by addition. */
  function Multiple(period: nat, times: nat): nat {
    if times == 0 then 0 else Multiple(period, times - 1) + period
  }

  /** From a repeated block on, the chain is periodic. */
  lemma {:induction false} Periodic(m: map<nat, Header>, head: nat, i: nat, period: nat, n: nat, times: nat)
    requires Closed(m, head) && i <= n && Nth(m, head, i) == Nth(m, head, i + period) != 0
    ensures Nth(m, head, n + Multiple(period, times)) == Nth(m, head, n)
    decreases times
  {
    if times > 0 {
      Periodic(m, head, i, period, n, times - 1);
      PeriodLater(m, head, i, period, n + Multiple(period, times - 1));
    }
  }

  lemma PeriodLater(m: map<nat, Header>, head: nat, i: nat, period: nat, k: nat)
    requires Closed(m, head) && i <= k && Nth(m, head, i) == Nth(m, head, i + period) != 0
    ensures Nth(m, head, k + period) == Nth(m, head, k)
  {
    NthAdds(m, head, i, k - i);
    NthAdds(m, head, i + period, k - i);
    assert i + period + (k - i) == k + period;
  }

  lemma {:induction false} AtLeast(n: nat, period: nat)
    requires period > 0
    ensures Multiple(period, n) >= n
  {
    if n > 0 { AtLeast(n - 1, period); }
  }

  lemma CycleGoesOn(m: map<nat, Header>, head: nat, i: nat, j: nat, n: nat)
    requires Closed(m, head) && i < j && Nth(m, head, i) == Nth(m, head, j) != 0
    ensures Nth(m, head, n) in m
  {
    Periodic(m, head, i, j - i, i, n);
    AtLeast(n, j - i);
    StillGoing(m, head, n, i + Multiple(j - i, n));
  }

  /** A chain is cyclic exactly when it never ends. */
  lemma CyclicIffEndless(m: map<nat, Header>, head: nat)
    requires Closed(m, head)
    ensures Cyclic(m, head) <==> forall n: nat :: Nth(m, head, n) in m
    ensures Cyclic(m, head) <==> Nth(m, head, |m|) in m
  {
    if Cyclic(m, head) {
      var i: nat, j: nat :| i < j && Nth(m, head, i) == Nth(m, head, j) != 0;
      forall n: nat ensures Nth(m, head, n) in m {
        CycleGoesOn(m, head, i, j, n);
      }
    } else {
      var n := |m|;
      if Nth(m, head, n) in m {
        var i, j := Repeats(m, head);
        assert false;
      }
      assert Nth(m, head, n) !in m;
    }
  }

  /** The smallest multiple of `period` that is at least i and at least 1. */
  lemma {:induction false} MultipleFrom(i: nat, period: nat) returns (times: nat, t: nat)
    requires period > 0
    ensures t == Multiple(period, times) && t >= i && 1 <= t && t <= (if i == 0 then period else i + period - 1)
    decreases i
  {
    if i <= period {
      times, t := 1, period;
    } else {
      times, t := MultipleFrom(i - period, period);
      times, t := times + 1, t + period;
    }
  }

  /** On an endless chain the two pointers meet within as many steps as there are blocks. */
  lemma Meets(m: map<nat, Header>, head: nat) returns (t: nat)
    requires Closed(m, head) && Nth(m, head, |m|) != 0
    ensures 1 <= t <= |m| && Nth(m, head, t) == Nth(m, head, 2 * t)
  {
    var i, j := Repeats(m, head);
    var times: nat;
    times, t := MultipleFrom(i, j - i);
    Periodic(m, head, i, j - i, t, times);
  }

  // ---- heap_validate -------------------------------------------------------------------------

  /** Lines 301 to 314: Floyd's two pointers. */
  method HasCycle(m: map<nat, Header>, head: nat) returns (cycle: bool)
    requires Closed(m, head)
    ensures cycle <==> Cyclic(m, head)
  {
    var slow, fast := head, head;
    ghost var k: nat := 0;
    while fast != 0 && m[fast].next != 0
      invariant slow == Nth(m, head, k) && fast == Nth(m, head, 2 * k)
      invariant (fast == 0 || fast in m) && (slow == 0 || slow in m)
      invariant forall t :: 1 <= t <= k ==> Nth(m, head, t) != Nth(m, head, 2 * t)
      decreases |m| - k
    {
      NextStep(m, head, k);
      NextStep(m, head, 2 * k);
      NextStep(m, head, 2 * k + 1);
      assert Nth(m, head, 2 * k + 1) == m[fast].next;
      StillGoing(m, head, k + 1, 2 * k + 1);
      StillGoing(m, head, k, 2 * k + 1);
      if k >= |m| {
        StillGoing(m, head, |m|, 2 * k + 1);
        var t := Meets(m, head);
        assert false;
      }
      slow := m[slow].next;
      fast := m[m[fast].next].next;
      k := k + 1;
      if slow == fast {
        assert Nth(m, head, k) == Nth(m, head, 2 * k) != 0;
        return true;
      }
    }
    CyclicIffEndless(m, head);
    NextStep(m, head, 2 * k);
    return false;
  }

  /** heap_validate: a cycle exactly when the chain is cyclic; otherwise the first fault along the
      chain, and Valid exactly when there is none. */
  method Validate(m: map<nat, Header>, head: nat, end: nat) returns (report: Report)
    requires Closed(m, head)
    ensures report.Cycle? <==> Cyclic(m, head)
    ensures report.Valid? <==> !Cyclic(m, head) && AllPass(m, head, end)
    ensures !report.Cycle? && !report.Valid? ==>
              exists n: nat :: Nth(m, head, n) in m && Test(m, Nth(m, head, n), end) == report
                && forall t: nat :: t < n && Nth(m, head, t) in m ==> Test(m, Nth(m, head, t), end).Valid?
  {
    var cycle := HasCycle(m, head);
    if cycle {
      return Cycle;
    }
    var current := head;
    ghost var n: nat := 0;
    CyclicIffEndless(m, head);
    while current != 0
      invariant current == Nth(m, head, n) && (current == 0 || current in m) && n <= |m|
      invariant forall t: nat :: t < n && Nth(m, head, t) in m ==> Test(m, Nth(m, head, t), end).Valid?
      decreases |m| - n
    {
      if n == |m| { assert false; }
      assert Nth(m, head, n) in m;
      if m[current].magic != MAGIC {
        return BadMagic;
      }
      if m[current].next != 0 && m[m[current].next].prev != current {
        return BadLink;
      }
      if current < KERNEL_HEAP_START || current >= end {
        return OutsideRange;
      }
      if (current + L.HEADER + m[current].size) % WORD_LIMIT > end {
        return BeyondEnd;
      }
      NextStep(m, head, n);
      current := m[current].next;
      n := n + 1;
    }
    forall t: nat | Nth(m, head, t) in m ensures t < n {
      if n <= t { EndsForGood(m, head, n, t); }
    }
    return Valid;
  }

  // ---- On the heap that kmalloc and kfree keep -----------------------------------------------

  /** The headers of a heap. */
  ghost function HeadersOf(m: Memory, h: L.Heap): map<nat, Header> {
    map a: nat | a in Addresses(h.blocks) :: HeaderAt(m, a)
  }

  function Addresses(blocks: seq<L.Block>): set<nat> {
    set i | 0 <= i < |blocks| :: blocks[i].addr
  }

  function First(h: L.Heap): nat {
    if h.blocks == [] then 0 else h.blocks[0].addr
  }

  lemma SoundIsClosed(m: Memory, h: L.Heap)
    requires L.Ordered(h, 0) && Linked(m, h)
    ensures Closed(HeadersOf(m, h), First(h))
  {
    forall i | 0 <= i < |h.blocks|
      ensures h.blocks[i].addr != 0 && HeaderAt(m, h.blocks[i].addr) == Expected(h.blocks, i)
      ensures i + 1 < |h.blocks| ==> Next(h.blocks, i) in Addresses(h.blocks)
    {
      Neighbours(m, h, i);
    }
  }

  lemma HeaderListed(m: Memory, h: L.Heap, i: nat)
    requires L.Ordered(h, 0) && Linked(m, h) && i < |h.blocks|
    ensures h.blocks[i].addr in HeadersOf(m, h) && HeadersOf(m, h)[h.blocks[i].addr] == Expected(h.blocks, i)
    ensures 0 < h.blocks[i].addr
  {
    Neighbours(m, h, i);
  }

  lemma {:induction false} ChainIsBlocks(headers: map<nat, Header>, h: L.Heap, n: nat)
    requires Closed(headers, First(h))
    requires forall i :: 0 <= i < |h.blocks| ==> h.blocks[i].addr in headers && headers[h.blocks[i].addr].next == Next(h.blocks, i)
    ensures Nth(headers, First(h), n) == if n < |h.blocks| then h.blocks[n].addr else 0
  {
    if n > 0 {
      ChainIsBlocks(headers, h, n - 1);
      NextStep(headers, First(h), n - 1);
    }
  }

  /** The chain in memory is the list. */
  lemma ChainIsList(m: Memory, h: L.Heap, n: nat)
    requires L.Ordered(h, 0) && Linked(m, h)
    ensures Nth(HeadersOf(m, h), First(h), n) == if n < |h.blocks| then h.blocks[n].addr else 0
  {
    SoundIsClosed(m, h);
    forall i | 0 <= i < |h.blocks|
      ensures h.blocks[i].addr in HeadersOf(m, h) && HeadersOf(m, h)[h.blocks[i].addr].next == Next(h.blocks, i)
    {
      HeaderListed(m, h, i);
    }
    ChainIsBlocks(HeadersOf(m, h), h, n);
  }

  lemma BlockPasses(m: Memory, h: L.Heap, n: nat)
    requires L.Ordered(h, 0) && Linked(m, h) && n < |h.blocks| && Closed(HeadersOf(m, h), h.blocks[n].addr)
    requires h.blocks[n].addr in HeadersOf(m, h)
    ensures Test(HeadersOf(m, h), h.blocks[n].addr, h.end).Valid?
  {
    Neighbours(m, h, n);
    L.AllBelowEnd(h, 0, n);
    if n + 1 < |h.blocks| {
      Neighbours(m, h, n + 1);
      assert HeadersOf(m, h)[h.blocks[n + 1].addr] == HeaderAt(m, h.blocks[n + 1].addr);
    }
  }

  /** heap_validate finds nothing wrong with a heap that kmalloc and kfree keep. */
  lemma SoundHeapIsValid(m: Memory, h: L.Heap)
    requires L.Ordered(h, 0) && Linked(m, h)
    ensures Closed(HeadersOf(m, h), First(h)) && !Cyclic(HeadersOf(m, h), First(h))
    ensures AllPass(HeadersOf(m, h), First(h), h.end)
  {
    hide HeaderAt, Test, L.Ordered, Linked;
    SoundIsClosed(m, h);
    ChainIsList(m, h, |h.blocks|);
    CyclicIffEndless(HeadersOf(m, h), First(h));
    forall n: nat | Nth(HeadersOf(m, h), First(h), n) in HeadersOf(m, h)
      ensures Test(HeadersOf(m, h), Nth(HeadersOf(m, h), First(h), n), h.end).Valid?
    {
      ChainIsList(m, h, n);
      if n < |h.blocks| { BlockPasses(m, h, n); }
    }
  }

  /** What heap_validate finds of a header that was overwritten, its next pointer aside: a wrong magic
      number, a back link (other than the first block's) that does not lead back, and a size that leads
      beyond heap_end -- and nothing else. */
  lemma SpoiledIsFoundIff(m: Memory, h: L.Heap, i: nat, spoiled: Header)
    requires L.Ordered(h, 0) && Linked(m, h) && i < |h.blocks| && spoiled.next == Next(h.blocks, i)
    ensures var headers, a := HeadersOf(m, h)[h.blocks[i].addr := spoiled], h.blocks[i].addr;
            && Closed(headers, First(h)) && !Cyclic(headers, First(h))
            && (AllPass(headers, First(h), h.end)
                <==> && spoiled.magic == MAGIC
                     && (i > 0 ==> spoiled.prev == h.blocks[i - 1].addr)
                     && (a + L.HEADER + spoiled.size) % WORD_LIMIT <= h.end)
  {
    hide L.Ordered, Linked, HeaderAt, Test, HeadersOf, Unspoiled;
    var headers := HeadersOf(m, h)[h.blocks[i].addr := spoiled];
    SpoiledIsClosed(m, h, i, spoiled);
    forall n: nat
      ensures Nth(headers, First(h), n) == if n < |h.blocks| then h.blocks[n].addr else 0
    {
      SpoiledChain(m, h, i, spoiled, n);
    }
    CyclicIffEndless(headers, First(h));
    assert Nth(headers, First(h), |h.blocks|) == 0;
    forall j | 0 <= j < |h.blocks|
      ensures h.blocks[j].addr in headers
      ensures Test(headers, h.blocks[j].addr, h.end).Valid? <==> Unspoiled(h, i, spoiled, j)
    {
      SpoiledTest(m, h, i, spoiled, j);
    }
    ListPassesIff(headers, h);
    AllUnspoiledIff(h, i, spoiled);
  }

  /** Block j passes the tests when header i was overwritten. */
  predicate Unspoiled(h: L.Heap, i: nat, spoiled: Header, j: nat)
    requires i < |h.blocks| && j < |h.blocks|
  {
    if j == i then spoiled.magic == MAGIC && (h.blocks[i].addr + L.HEADER + spoiled.size) % WORD_LIMIT <= h.end
    else j + 1 == i ==> spoiled.prev == h.blocks[j].addr
  }

  lemma AllUnspoiledIff(h: L.Heap, i: nat, spoiled: Header)
    requires i < |h.blocks|
    ensures (forall j :: 0 <= j < |h.blocks| ==> Unspoiled(h, i, spoiled, j))
       <==> && spoiled.magic == MAGIC
            && (i > 0 ==> spoiled.prev == h.blocks[i - 1].addr)
            && (h.blocks[i].addr + L.HEADER + spoiled.size) % WORD_LIMIT <= h.end
  {
    if forall j :: 0 <= j < |h.blocks| ==> Unspoiled(h, i, spoiled, j) {
      assert Unspoiled(h, i, spoiled, i) && (i > 0 ==> Unspoiled(h, i, spoiled, i - 1));
    }
  }

  lemma ListPassesIff(headers: map<nat, Header>, h: L.Heap)
    requires Closed(headers, First(h))
    requires forall n: nat :: Nth(headers, First(h), n) == if n < |h.blocks| then h.blocks[n].addr else 0
    requires forall j :: 0 <= j < |h.blocks| ==> h.blocks[j].addr in headers
    ensures AllPass(headers, First(h), h.end) <==> forall j :: 0 <= j < |h.blocks| ==> Test(headers, h.blocks[j].addr, h.end).Valid?
  {
    if AllPass(headers, First(h), h.end) {
      forall j | 0 <= j < |h.blocks| ensures Test(headers, h.blocks[j].addr, h.end).Valid? {
        assert Nth(headers, First(h), j) == h.blocks[j].addr;
      }
    }
    if forall j :: 0 <= j < |h.blocks| ==> Test(headers, h.blocks[j].addr, h.end).Valid? {
      forall n: nat | Nth(headers, First(h), n) in headers ensures Test(headers, Nth(headers, First(h), n), h.end).Valid? {
        assert n < |h.blocks|;
      }
    }
  }

  lemma SpoiledIsClosed(m: Memory, h: L.Heap, i: nat, spoiled: Header)
    requires L.Ordered(h, 0) && Linked(m, h) && i < |h.blocks| && spoiled.next == Next(h.blocks, i)
    ensures Closed(HeadersOf(m, h)[h.blocks[i].addr := spoiled], First(h))
  {
    hide L.Ordered, Linked, HeaderAt;
    SoundIsClosed(m, h);
    HeaderListed(m, h, i);
  }

  lemma SpoiledChain(m: Memory, h: L.Heap, i: nat, spoiled: Header, n: nat)
    requires L.Ordered(h, 0) && Linked(m, h) && i < |h.blocks| && spoiled.next == Next(h.blocks, i)
    ensures var headers := HeadersOf(m, h)[h.blocks[i].addr := spoiled];
            Nth(headers, First(h), n) == if n < |h.blocks| then h.blocks[n].addr else 0
  {
    hide L.Ordered, Linked, HeaderAt;
    var headers := HeadersOf(m, h)[h.blocks[i].addr := spoiled];
    SpoiledIsClosed(m, h, i, spoiled);
    forall j | 0 <= j < |h.blocks|
      ensures h.blocks[j].addr in headers && headers[h.blocks[j].addr].next == Next(h.blocks, j)
    {
      HeaderListed(m, h, j);
      if j != i { L.Distinct(h, 0, i, j); }
    }
    ChainIsBlocks(headers, h, n);
  }

  lemma SpoiledTest(m: Memory, h: L.Heap, i: nat, spoiled: Header, j: nat)
    requires L.Ordered(h, 0) && Linked(m, h) && i < |h.blocks| && spoiled.next == Next(h.blocks, i) && j < |h.blocks|
    ensures var headers := HeadersOf(m, h)[h.blocks[i].addr := spoiled];
            && h.blocks[j].addr in headers && Closed(headers, h.blocks[j].addr)
            && (Test(headers, h.blocks[j].addr, h.end).Valid? <==> Unspoiled(h, i, spoiled, j))
  {
    hide L.Ordered, Linked, HeaderAt;
    SpoiledIsClosed(m, h, i, spoiled);
    HeaderListed(m, h, j);
    L.AllBelowEnd(h, 0, j);
    HeadersFit(h);
    if j != i { L.Distinct(h, 0, i, j); }
    if j + 1 < |h.blocks| {
      HeaderListed(m, h, j + 1);
      if j + 1 != i { L.Distinct(h, 0, i, j + 1); }
    }
  }

  lemma HeadersFit(h: L.Heap)
    requires L.Ordered(h, 0)
    ensures h.end < KERNEL_HEAP_END
  {
  }

  /** It does find the block that is its own successor. */
  lemma SelfLinkIsCyclic(m: map<nat, Header>, head: nat, a: nat, n: nat)
    requires Closed(m, head) && a in m && m[a].next == a && Nth(m, head, n) == a
    ensures Cyclic(m, head)
  {
    NextStep(m, head, n);
    assert Nth(m, head, n) == Nth(m, head, n + 1) != 0;
  }
}
