/**
 The libc allocator: malloc, calloc's allocation step and free over one growing heap.
 */
module Malloc {
  import opened Tiling
  import opened FreeList
  import opened MallocChain
  import opened Payloads

  const UNIT := 16
  const PAGE_SIZE := 4096
  const PAGE_UNITS := 256
  /** size_t arithmetic wraps at this value. */
  const WORD := 0x1_0000_0000_0000_0000
  const MAX_UNITS := 0x1000_0000_0000_0000

  /** Units taken from the heap for a request: payload rounded up, plus the header. */
  function UnitsFor(size: nat): nat {
    size / UNIT + 1 + if size % UNIT != 0 then 1 else 0
  }

  /** Block b may serve a request of n units; a clean request looks at the last free block only. */
  ghost predicate Fits(bs: Blocks, n: nat, clean: bool, b: nat) {
    && b in FreeSet(bs) && n <= bs[b].size
    && (clean ==> forall c :: c in FreeSet(bs) ==> c <= b)
  }

  /** b is the lowest block that fits, or 0 if none does. */
  ghost predicate FirstFit(bs: Blocks, n: nat, clean: bool, b: nat) {
    if b == 0 then
      forall c :: !Fits(bs, n, clean, c)
    else
      Fits(bs, n, clean, b) && forall c :: Fits(bs, n, clean, c) ==> b <= c
  }

  /** The payload of block b can hold size bytes. */
  ghost predicate HasRoom(bs: Blocks, size: nat, b: nat)
    requires b in bs
  {
    size <= (bs[b].size - 1) * UNIT
  }

  /** Free block b may serve a request of size bytes; a clean request is served by the last
      free block only. */
  ghost predicate Serves(bs: Blocks, size: nat, clean: bool, b: nat) {
    && b in FreeSet(bs) && HasRoom(bs, size, b)
    && (clean ==> forall c :: c in FreeSet(bs) ==> c <= b)
  }

  ghost predicate LowestServing(bs: Blocks, size: nat, clean: bool, b: nat) {
    Serves(bs, size, clean, b) && forall c :: Serves(bs, size, clean, c) ==> b <= c
  }

  /** Of a free block of whole units, n units are in use for size bytes: no unit is taken in
      vain, except that a single unit is not left over. */
  predicate Exact(whole: nat, n: nat, size: nat) {
    && n <= whole && size <= (n - 1) * UNIT
    && if n == whole then (n - 3) * UNIT < size else n + 2 <= whole && (n - 2) * UNIT < size
  }

  /** With g more bytes a free block of tail units holds size bytes, and with a page less it
      would not. */
  predicate LeastGrowth(tail: nat, size: nat, g: nat) {
    && g % PAGE_SIZE == 0 && size <= (tail + g / UNIT - 1) * UNIT
    && (tail + g / UNIT - PAGE_UNITS - 1) * UNIT < size
  }

  /** With the free block at start and g more bytes: the request gets that block if and only
      if the bytes are granted and the address space has them. */
  ghost predicate GrowsBy(bs: Blocks, last: nat, size: nat, granted: bool, ret: nat, last': nat, start: nat, g: nat) {
    && TailAt(bs, last, start) && start <= last && LeastGrowth(last - start, size, g)
    && (ret != 0 <==> granted && last + 1 + g / UNIT <= MAX_UNITS)
    && (ret != 0 ==> ret == start + 1 && last' == last + g / UNIT)
  }

  /** A request that no block serves gets the free block at the end of the heap, grown by as
      few pages as will do, if these can be had. */
  ghost predicate ServedByGrowth(bs: Blocks, last: nat, size: nat, granted: bool, ret: nat, last': nat) {
    exists start: nat, g: nat :: GrowsBy(bs, last, size, granted, ret, last', start, g)
  }

  /** A request in bytes is a number of units. */
  lemma UnitsEnough(size: nat, n: nat)
    requires 0 < size
    ensures UnitsFor(size) <= n <==> size <= (n - 1) * UNIT
  {
  }

  lemma FitsServes(bs: Blocks, size: nat, clean: bool)
    requires 0 < size
    ensures forall b :: Fits(bs, UnitsFor(size), clean, b) <==> Serves(bs, size, clean, b)
  {
    hide UnitsFor;
    forall b | b in FreeSet(bs) ensures UnitsFor(size) <= bs[b].size <==> HasRoom(bs, size, b) {
      UnitsEnough(size, bs[b].size);
    }
  }

  lemma FirstFitServes(bs: Blocks, size: nat, clean: bool, b: nat)
    requires 0 < size
    ensures FirstFit(bs, UnitsFor(size), clean, b) <==>
              if b == 0 then forall c :: !Serves(bs, size, clean, c) else LowestServing(bs, size, clean, b)
  {
    hide UnitsFor, Fits, Serves;
    FitsServes(bs, size, clean);
  }

  lemma ExactUnits(whole: nat, n: nat, size: nat)
    requires 0 < size && UnitsFor(size) <= whole && n == if whole <= UnitsFor(size) + 1 then whole else UnitsFor(size)
    ensures Exact(whole, n, size) && size <= (n - 1) * UNIT
  {
    hide UnitsFor;
    UnitsEnough(size, n);
    UnitsEnough(size, UnitsFor(size) - 1);
  }

  /** Start of the free block that ends where the block at start begins, else start. */
  function LowerStart(mem: Memory, start: nat): nat
    requires start < |mem| && mem[start].prev / 2 <= start
  {
    if mem[start].prev != 0 && mem[start].prev % 2 == 0 then start - mem[start].prev / 2 else start
  }

  /** Every header states the size and the used bit of its block. */
  ghost predicate Headers(mem: Memory, bs: Blocks) {
    forall b :: b in bs ==> b < |mem| && mem[b].next == Tag(bs[b])
  }

  lemma ChainHeaders(mem: Memory, first: nat, last: nat, bs: Blocks)
    requires Chain(mem, first, last, bs)
    ensures Headers(mem, bs)
  {
    forall b | b in bs ensures b < |mem| && mem[b].next == Tag(bs[b]) {
      assert Tagged(mem, bs, b);
    }
  }

  /** A block that is too small is passed: the next list entry is the new candidate. */
  lemma PassBlock(bs: Blocks, n: nat, clean: bool, b: nat, next: nat)
    requires b in FreeSet(bs) && bs[b].size < n && NextAfter(FreeSet(bs), b, next)
    requires forall c :: Fits(bs, n, clean, c) ==> b <= c
    ensures forall c :: Fits(bs, n, clean, c) ==> next != 0 && next - 1 <= c
  {
  }

  /** The prev word of a header tells whether the block below it is free, and where it starts. */
  lemma LowerNeighbour(mem: Memory, first: nat, last: nat, bs: Blocks, start: nat)
    requires Chain(mem, first, last, bs) && (start in bs || start == last)
    ensures start < |mem| && mem[start].prev / 2 <= start
    ensures var p := start - mem[start].prev / 2;
            if mem[start].prev == 0 || mem[start].prev % 2 == 1 then
              forall b :: b in FreeSet(bs) ==> End(bs, b) != start
            else
              p in FreeSet(bs) && End(bs, p) == start
  {
    if first < start {
      var p := Pred(bs, first, last, start);
      assert Tagged(mem, bs, p);
    }
  }

  /** The next word of a header tells whether the block above start is free. */
  lemma UpperNeighbour(mem: Memory, first: nat, last: nat, bs: Blocks, start: nat)
    requires Chain(mem, first, last, bs) && start in bs
    ensures End(bs, start) < |mem|
    ensures var e := End(bs, start);
            if mem[e].next == 0 || mem[e].next % 2 == 1 then
              e !in FreeSet(bs)
            else
              e in FreeSet(bs) && mem[e].next == 2 * bs[e].size && e + bs[e].size < |mem|
  {
    Succ(bs, first, last, start);
    var e := End(bs, start);
    if e in bs {
      assert Tagged(mem, bs, e);
    }
  }

  lemma ChainEnd(mem: Memory, first: nat, last: nat, bs: Blocks)
    requires Chain(mem, first, last, bs)
    ensures |mem| == last + 1 && 0 < first < last && last !in bs
    ensures forall b :: b in bs ==> first <= b && End(bs, b) <= last
  {
  }

  lemma LowestUnique(bs: Blocks, size: nat, clean: bool, b: nat)
    requires LowestServing(bs, size, clean, b)
    ensures forall c: nat :: LowestServing(bs, size, clean, c) ==> c == b
    ensures exists c :: Serves(bs, size, clean, c)
  {
  }

  lemma NoneServes(bs: Blocks, size: nat, clean: bool)
    requires forall c :: !Serves(bs, size, clean, c)
    ensures forall c: nat :: !LowestServing(bs, size, clean, c)
  {
  }

  lemma FirstFitFits(bs: Blocks, n: nat, clean: bool, b: nat)
    requires FirstFit(bs, n, clean, b) && b != 0
    ensures b in FreeSet(bs) && n <= bs[b].size
  {
  }

  lemma TailIsLast(mem: Memory, first: nat, last: nat, bs: Blocks, tail: nat)
    requires Chain(mem, first, last, bs) && tail in FreeSet(bs) && End(bs, tail) == last
    ensures 0 < tail && forall c :: c in FreeSet(bs) ==> c <= tail
  {
  }

  lemma TailTooSmall(mem: Memory, first: nat, last: nat, bs: Blocks, n: nat, clean: bool)
    requires Chain(mem, first, last, bs) && FirstFit(bs, n, clean, 0) && mem[last].prev % 2 == 0
    ensures mem[last].prev / 2 < n
  {
    var p := Pred(bs, first, last, last);
    assert Tagged(mem, bs, p);
    assert !Fits(bs, n, clean, p);
  }

  lemma ListRoom(mem: Memory, first: nat, last: nat, bs: Blocks, start: nat)
    requires Chain(mem, first, last, bs) && start in bs
    ensures forall b :: b in bs && b < start ==> b + 1 < start
  {
  }

  /** Bytes requested from the system for more units: size_t arithmetic, rounded up to pages. */
  function GrowthBytes(more: nat): nat {
    var sz := more * UNIT % WORD;
    if sz % PAGE_SIZE != 0 then (sz - sz % PAGE_SIZE + PAGE_SIZE) % WORD else sz
  }

  /** n bytes rounded up to pages, without wrap-around. */
  function Pages(n: nat): (g: nat)
    ensures g % PAGE_SIZE == 0 && n <= g < n + PAGE_SIZE
  {
    (n + PAGE_SIZE - 1) / PAGE_SIZE * PAGE_SIZE
  }

  lemma PagesLeast(tail: nat, size: nat, more: nat)
    requires 0 < size && 0 < more && UnitsFor(size) == tail + more
    ensures LeastGrowth(tail, size, Pages(more * UNIT))
  {
    hide UnitsFor, Pages;
    var g := Pages(more * UNIT);
    UnitsEnough(size, tail + g / UNIT);
    if PAGE_UNITS <= tail + g / UNIT {
      UnitsEnough(size, tail + g / UNIT - PAGE_UNITS);
    }
  }

  /** What the growth is without wrap-around; with it, no address space has the pages. */
  lemma GrowthPages(more: nat)
    requires 0 < more
    ensures if more * UNIT <= WORD - PAGE_SIZE then GrowthBytes(more) == Pages(more * UNIT) else WORD <= Pages(more * UNIT)
  {
    hide Pages;
    var n := more * UNIT;
    if n <= WORD - PAGE_SIZE {
      assert n % WORD == n;
      SamePages(n, if n % PAGE_SIZE != 0 then n - n % PAGE_SIZE + PAGE_SIZE else n, Pages(n));
    } else {
      SamePages(WORD - PAGE_SIZE + 1, WORD, Pages(WORD - PAGE_SIZE + 1));
    }
  }

  lemma SamePages(n: nat, g: nat, h: nat)
    requires g % PAGE_SIZE == 0 && n <= g < n + PAGE_SIZE && h % PAGE_SIZE == 0 && n <= h < n + PAGE_SIZE
    ensures g == h
  {
  }

  /** The growth is large enough exactly when the arithmetic does not wrap. */
  lemma GrowthEnough(more: nat)
    requires 0 < more <= MAX_UNITS + 1
    ensures GrowthBytes(more) % PAGE_SIZE == 0
    ensures more <= GrowthBytes(more) / UNIT <==> more * UNIT <= WORD - PAGE_SIZE
  {
    var sz := more * UNIT % WORD;
    if WORD <= more * UNIT {
      assert sz == more * UNIT - WORD;
    } else {
      assert sz == more * UNIT;
    }
    assert (sz - sz % PAGE_SIZE) % PAGE_SIZE == 0;
    assert WORD % PAGE_SIZE == 0;
  }

  /** The wrap is within reach: for the largest size that can be asked for, one page is
      requested from the system. */
  lemma GrowthWraps()
    ensures UnitsFor(WORD - 1) == MAX_UNITS + 1 && GrowthBytes(MAX_UNITS + 1) == 4096
  {
    assert (MAX_UNITS + 1) * UNIT == WORD + UNIT;
  }

  /** The system maps sz bytes above a heap of len units. */
  predicate Maps(granted: bool, len: nat, sz: nat) {
    granted && 0 < sz && len + sz / UNIT <= MAX_UNITS
  }

  /** Units missing for a request of n units, given the free block at the end of the heap. */
  function Shortfall(mem: Memory, last: nat, n: nat): int
    requires last < |mem|
  {
    if mem[last].prev % 2 == 0 then n - mem[last].prev / 2 else n
  }

  lemma ShortfallIs(mem: Memory, last: nat, n: nat)
    requires last < |mem|
    ensures Shortfall(mem, last, n) == n - if mem[last].prev % 2 == 0 then mem[last].prev / 2 else 0
  {
  }

  lemma WholePages(sz: nat)
    requires sz % PAGE_SIZE == 0
    ensures sz == UNIT * (sz / UNIT) && (sz / UNIT) % PAGE_UNITS == 0 && (0 < sz ==> 0 < sz / UNIT)
  {
    var k := sz / PAGE_SIZE;
    assert sz / UNIT == PAGE_UNITS * k;
  }

  /** The last prev word tells where the free block at the end of the heap starts. */
  lemma TailFound(mem: Memory, first: nat, last: nat, bs: Blocks, n: nat)
    requires Chain(mem, first, last, bs)
    ensures last < |mem| && mem[last].prev / 2 <= last
    ensures var start := LowerStart(mem, last);
            start <= last && TailAt(bs, last, start) && Shortfall(mem, last, n) == n - (last - start)
  {
    ChainEnd(mem, first, last, bs);
    LowerNeighbour(mem, first, last, bs, last);
  }

  /** The growth in the terms of the request. */
  lemma ByGrowth(mem: Memory, first: nat, last: nat, bs: Blocks, size: nat, granted: bool, ret: nat, last': nat)
    requires Chain(mem, first, last, bs) && 0 < size
    requires |mem| == last + 1 && mem[last].prev / 2 <= last
    requires var more := Shortfall(mem, last, UnitsFor(size));
             && 0 < more
             && (ret != 0 <==> Maps(granted, |mem|, GrowthBytes(more)) && more * UNIT <= WORD - PAGE_SIZE)
             && (ret != 0 ==> ret == LowerStart(mem, last) + 1 && last' == last + GrowthBytes(more) / UNIT)
    ensures ServedByGrowth(bs, last, size, granted, ret, last')
  {
    hide Chain, UnitsFor, GrowthBytes, LeastGrowth, LowerStart, TailAt, Shortfall;
    TailFound(mem, first, last, bs, UnitsFor(size));
    var start, more := LowerStart(mem, last), Shortfall(mem, last, UnitsFor(size));
    var g := Pages(more * UNIT);
    PagesLeast(last - start, size, more);
    GrowthPages(more);
    assert GrowsBy(bs, last, size, granted, ret, last', start, g);
  }

  /** After growth nothing but the block at the end of the heap can serve the request. */
  lemma GrownFit(bs: Blocks, cs: Blocks, n: nat, clean: bool, tail: nat, b: nat)
    requires FirstFit(bs, n, clean, 0) && FirstFit(cs, n, clean, b) && 0 < tail
    requires tail in FreeSet(cs) && forall c :: c in FreeSet(cs) ==> c <= tail
    requires forall c :: c in cs && c != tail ==> c in bs && cs[c] == bs[c]
    ensures b == if n <= cs[tail].size then tail else 0
  {
    assert Fits(cs, n, clean, tail) <==> n <= cs[tail].size;
    forall c | Fits(cs, n, clean, c) ensures c == tail {
      if c != tail {
        assert !clean;
        assert Fits(bs, n, clean, c);
      }
    }
  }

  class Heap {
    var mem: Memory
    var firstBlock: nat
    var lastBlock: nat
    var firstFree: nat
    var lastFree: nat
    ghost var blocks: Blocks

    ghost predicate ChainValid()
      reads this
    {
      && Chain(mem, firstBlock, lastBlock, blocks)
      && (lastBlock + 1) % PAGE_UNITS == 0 && |mem| <= MAX_UNITS
    }

    ghost predicate Valid()
      reads this
    {
      && ChainValid()
      && Separated(blocks)
      && Linked(mem, firstFree, lastFree, FreeSet(blocks))
    }

    /** The heap after a page of zeroes was mapped above the memory below. */
    constructor (below: Memory)
      requires 0 < |below| && |below| % PAGE_UNITS == 0 && |below| + PAGE_UNITS <= MAX_UNITS
      ensures Valid() && Used(blocks) == map[] && firstBlock == |below|
      ensures blocks == map[|below| := Block(PAGE_UNITS - 1, false)]
    {
      var first := |below|;
      var m := below + Zeros(PAGE_UNITS);
      m := SetNext(m, first, 2 * (PAGE_UNITS - 1));
      var last := first + m[first].next / 2;
      m := SetPrev(m, last, m[first].next);
      mem, firstBlock, lastBlock, firstFree, lastFree := m, first, last, first + 1, first + 1;
      blocks := map[first := Block(PAGE_UNITS - 1, false)];
      new;
      assert Tagged(mem, blocks, firstBlock);
      assert forall x {:trigger Covered(blocks, x)} :: firstBlock <= x < lastBlock ==> firstBlock in blocks && x < End(blocks, firstBlock);
      assert FreeSet(blocks) == {firstBlock};
      assert Entry(mem, FreeSet(blocks), firstBlock);
    }

    method DelFreeBlock(fb: nat, ghost free: set<nat>)
      requires Linked(mem, firstFree, lastFree, free) && 0 < fb && fb - 1 in free
      modifies this`mem, this`firstFree, this`lastFree
      ensures Linked(mem, firstFree, lastFree, free - {fb - 1})
      ensures OnlyLinks(old(mem), mem, free - {fb - 1})
      ensures |mem| == |old(mem)|
    {
      UnlinkLinked(mem, firstFree, lastFree, free, fb - 1);
      var p, n := mem[fb].prev, mem[fb].next;
      if p != 0 {
        mem := SetNext(mem, p, n);
      } else {
        firstFree := n;
      }
      if n != 0 {
        mem := SetPrev(mem, n, p);
      } else {
        lastFree := p;
      }
      assert mem == Unlinked(old(mem), p, n);
    }

    method FindBlock(n: nat, clean: bool) returns (block: nat)
      requires Headers(mem, blocks) && Linked(mem, firstFree, lastFree, FreeSet(blocks))
      ensures FirstFit(blocks, n, clean, block)
    {
      var fb := if clean then lastFree else firstFree;
      if fb == 0 {
        return 0;
      }
      block := fb - 1;
      while true
        invariant fb == block + 1 && block in FreeSet(blocks)
        invariant clean ==> forall c :: c in FreeSet(blocks) ==> c <= block
        invariant forall c :: Fits(blocks, n, clean, c) ==> block <= c
        decreases |mem| - block
      {
        assert Entry(mem, FreeSet(blocks), block);
        if mem[block].next % 2 == 0 && n <= mem[block].next / 2 {
          return;
        }
        PassBlock(blocks, n, clean, block, mem[fb].next);
        fb := mem[fb].next;
        if fb == 0 {
          return 0;
        }
        block := fb - 1;
      }
    }

    method FindFreeBlock(start: nat, ghost free: set<nat>) returns (next: nat, fb: nat)
      requires Linked(mem, firstFree, lastFree, free) && start !in free && 0 < start < |mem|
      requires forall f :: f in free && f < start ==> f + 1 < start
      ensures PrevBefore(free, start, fb) && NextAfter(free, start, next)
    {
      fb, next := lastFree, 0;
      while fb != 0 && start <= fb
        invariant fb == 0 || fb - 1 in free
        invariant NextAfter(free, if fb == 0 then 0 else fb - 1, next)
        invariant next == 0 || start < next - 1
        invariant fb == 0 ==> forall f :: f in free ==> start < f
      {
        assert Entry(mem, free, fb - 1);
        next := fb;
        fb := mem[fb].prev;
        assert fb != 0 ==> Entry(mem, free, fb - 1);
      }
    }

    /** Takes n units from the front of free block start, or all of it when at most one
        unit would be left. */
    method SplitBlock(start: nat, n: nat)
      requires Valid() && start in FreeSet(blocks) && 2 <= n <= blocks[start].size
      modifies this`mem, this`firstFree, this`lastFree, this`blocks
      ensures Valid()
      ensures start in blocks && blocks[start].size == if old(blocks)[start].size <= n + 1 then old(blocks)[start].size else n
      ensures Used(blocks) == Used(old(blocks))[start := Block(blocks[start].size, true)]
      ensures |mem| == |old(mem)| && KeepsPayloads(old(mem), mem, Used(old(blocks)), FOOT)
    {
      assert Tagged(mem, blocks, start);
      if mem[start].next / 2 - 1 <= n {
        TakeWhole(start);
      } else {
        TakeFront(start, n);
      }
    }

    method TakeWhole(start: nat)
      requires Valid() && start in FreeSet(blocks)
      modifies this`mem, this`firstFree, this`lastFree, this`blocks
      ensures Valid()
      ensures blocks == old(blocks)[start := Block(old(blocks)[start].size, true)]
      ensures Used(blocks) == Used(old(blocks))[start := blocks[start]]
      ensures |mem| == |old(mem)| && KeepsPayloads(old(mem), mem, Used(old(blocks)), FOOT)
    {
      hide Chain, Linked, Separated, KeepsPayloads, OnlyLinks;
      ghost var m0, bs, block := mem, blocks, Block(blocks[start].size, true);
      HeaderOf(mem, firstBlock, lastBlock, blocks, start);
      RetagStep(mem, firstBlock, lastBlock, blocks, start, true, firstFree, lastFree, FreeSet(blocks));
      AllocateSets(blocks, start);
      mem := SetNext(mem, start, mem[start].next + 1);
      mem := SetPrev(mem, start + mem[start].next / 2, mem[start].next);
      assert mem == TagBlock(m0, start, block.size, Tag(block));
      ghost var m1 := mem;
      blocks := blocks[start := block];
      DelFreeBlock(start + 1, FreeSet(bs));
      Relink(m1, mem, firstBlock, lastBlock, blocks);
      KeepsTrans(m0, m1, mem, Used(bs), Used(bs), Used(blocks), FOOT);
    }

    method TakeFront(start: nat, n: nat)
      requires Valid() && start in FreeSet(blocks) && 2 <= n && n + 2 <= blocks[start].size
      modifies this`mem, this`firstFree, this`lastFree, this`blocks
      ensures Valid()
      ensures blocks == SplitAt(old(blocks), start, n)
      ensures Used(blocks) == Used(old(blocks))[start := Block(n, true)]
      ensures |mem| == |old(mem)| && KeepsPayloads(old(mem), mem, Used(old(blocks)), FOOT)
    {
      hide Chain, Linked, Separated, KeepsPayloads, OnlyLinks;
      ghost var m0, bs, free := mem, blocks, FreeSet(blocks);
      HeaderOf(mem, firstBlock, lastBlock, blocks, start);
      var size := mem[start].next / 2;
      SplitStep(mem, firstBlock, lastBlock, blocks, start, n, firstFree, lastFree, free);
      SplitBlocks(mem, firstBlock, lastBlock, blocks, start, n);
      mem := SetNext(mem, start, 2 * n + 1);
      mem := SetPrev(mem, start + n, mem[start].next);
      mem := SetNext(mem, start + n, 2 * (size - n));
      mem := SetPrev(mem, start + size, mem[start + n].next);
      assert mem == SplitTags(m0, start, size, n);
      blocks := SplitAt(blocks, start, n);
      ghost var m1 := mem;
      MoveFreeBlock(start + 1, start + n + 1, free);
      Relink(m1, mem, firstBlock, lastBlock, blocks);
      KeepsTrans(m0, m1, mem, Used(bs), Used(bs), Used(blocks), FOOT);
    }

    method MoveFreeBlock(fb: nat, fb': nat, ghost free: set<nat>)
      requires Linked(mem, firstFree, lastFree, free) && 0 < fb < fb' < |mem| && fb - 1 in free
      requires forall c :: c in free && fb - 1 < c ==> fb' - 1 < c
      modifies this`mem, this`firstFree, this`lastFree
      ensures Linked(mem, firstFree, lastFree, free - {fb - 1} + {fb' - 1})
      ensures OnlyLinks(old(mem), mem, free - {fb - 1} + {fb' - 1})
      ensures |mem| == |old(mem)|
    {
      hide Linked, OnlyLinks;
      MoveLinked(mem, firstFree, lastFree, free, fb - 1, fb' - 1);
      mem := SetNext(mem, fb', mem[fb].next);
      mem := SetPrev(mem, fb', mem[fb].prev);
      if firstFree == fb {
        firstFree := fb';
      } else {
        mem := SetNext(mem, mem[fb].prev, fb');
      }
      if lastFree == fb {
        lastFree := fb';
      } else {
        mem := SetPrev(mem, mem[fb].next, fb');
      }
      assert mem == Moved(old(mem), old(firstFree), old(lastFree), fb, fb');
    }

    /** Enters the free block at start into the list, between the entries around it. */
    method InsertFreeBlock(start: nat, ghost free: set<nat>)
      requires Linked(mem, firstFree, lastFree, free) && start !in free && 0 < start < |mem| - 1
      requires forall f :: f in free && f < start ==> f + 1 < start
      modifies this`mem, this`firstFree, this`lastFree
      ensures Linked(mem, firstFree, lastFree, free + {start})
      ensures OnlyLinks(old(mem), mem, free + {start})
      ensures |mem| == |old(mem)|
    {
      hide Linked, OnlyLinks, NextAfter, PrevBefore;
      var fb := start + 1;
      var nextFree, prevFree := FindFreeBlock(start, free);
      InsertLinked(mem, firstFree, lastFree, free, start, prevFree, nextFree);
      mem := SetPrev(mem, fb, prevFree);
      if prevFree != 0 {
        mem := SetNext(mem, prevFree, fb);
      } else {
        firstFree := fb;
      }
      mem := SetNext(mem, fb, nextFree);
      if nextFree != 0 {
        mem := SetPrev(mem, nextFree, fb);
      } else {
        lastFree := fb;
      }
      assert mem == Inserted(old(mem), fb, prevFree, nextFree);
    }

    /** Joins start to the free block below it, or else enters it into the free list. */
    method MergeLower(start: nat, end: nat) returns (start': nat)
      requires ChainValid() && start in FreeSet(blocks) && end == End(blocks, start)
      requires Linked(mem, firstFree, lastFree, FreeSet(blocks) - {start})
      requires SeparatedBut(blocks, start)
      modifies this`mem, this`firstFree, this`lastFree, this`blocks
      ensures ChainValid() && start' in FreeSet(blocks) && end == End(blocks, start')
      ensures Linked(mem, firstFree, lastFree, FreeSet(blocks))
      ensures SeparatedAbove(blocks, start')
      ensures Used(blocks) == Used(old(blocks)) && KeepsPayloads(old(mem), mem, Used(blocks), FOOT)
      ensures |mem| == |old(mem)|
      ensures old(mem)[start].prev / 2 <= start && start' == LowerStart(old(mem), start)
      ensures start' == start || start !in blocks
      ensures forall b :: b in blocks && b != start' ==> b in old(blocks) && blocks[b] == old(blocks)[b]
    {
      hide Chain, Linked, KeepsPayloads, OnlyLinks;
      HeaderOf(mem, firstBlock, lastBlock, blocks, start);
      ghost var m0, bs := mem, blocks;
      LowerNeighbour(mem, firstBlock, lastBlock, blocks, start);
      if mem[start].prev != 0 && mem[start].prev % 2 == 0 {
        var prevStart := start - mem[start].prev / 2;
        JoinStep(mem, firstBlock, lastBlock, blocks, prevStart, firstFree, lastFree, FreeSet(blocks) - {start});
        JoinBlocks(mem, firstBlock, lastBlock, blocks, prevStart);
        mem := SetNext(mem, prevStart, 2 * (mem[start].prev / 2 + mem[start].next / 2));
        mem := SetPrev(mem, end, mem[prevStart].next);
        blocks := Joined(blocks, prevStart);
        start' := prevStart;
      } else {
        ListRoom(mem, firstBlock, lastBlock, blocks, start);
        InsertFreeBlock(start, FreeSet(blocks) - {start});
        assert FreeSet(blocks) - {start} + {start} == FreeSet(blocks);
        Relink(m0, mem, firstBlock, lastBlock, blocks);
        start' := start;
      }
    }

    /** Joins the free block above start to it, if there is one. */
    method MergeHigher(start: nat, end: nat)
      requires ChainValid() && start in FreeSet(blocks) && end == End(blocks, start)
      requires Linked(mem, firstFree, lastFree, FreeSet(blocks))
      requires SeparatedAbove(blocks, start)
      modifies this`mem, this`firstFree, this`lastFree, this`blocks
      ensures Valid() && start in FreeSet(blocks) && end <= End(blocks, start)
      ensures Used(blocks) == Used(old(blocks)) && KeepsPayloads(old(mem), mem, Used(blocks), FOOT)
      ensures |mem| == |old(mem)|
      ensures forall b :: b in blocks && b != start ==> b in old(blocks) && blocks[b] == old(blocks)[b]
    {
      hide Chain, Linked, KeepsPayloads, OnlyLinks;
      HeaderOf(mem, firstBlock, lastBlock, blocks, start);
      UpperNeighbour(mem, firstBlock, lastBlock, blocks, start);
      ghost var m0, us, free := mem, Used(blocks), FreeSet(blocks);
      KeepsSelf(mem, us, FOOT);
      if mem[end].next != 0 && mem[end].next % 2 == 0 {
        JoinTags(start, end);
        ghost var m1 := mem;
        DelFreeBlock(end + 1, free);
        Relink(m1, mem, firstBlock, lastBlock, blocks);
        KeepsTrans(m0, m1, mem, us, us, us, FOOT);
      }
    }

    /** The tags of two free neighbours become those of one block; the list still has both. */
    method JoinTags(start: nat, end: nat)
      requires ChainValid() && start in FreeSet(blocks) && end == End(blocks, start) && end in FreeSet(blocks)
      requires Linked(mem, firstFree, lastFree, FreeSet(blocks)) && SeparatedAbove(blocks, start)
      modifies this`mem, this`blocks
      ensures ChainValid() && Separated(blocks) && |mem| == |old(mem)|
      ensures Linked(mem, firstFree, lastFree, FreeSet(old(blocks))) && FreeSet(blocks) == FreeSet(old(blocks)) - {end}
      ensures start in FreeSet(blocks) && end < End(blocks, start)
      ensures Used(blocks) == Used(old(blocks)) && KeepsPayloads(old(mem), mem, Used(blocks), FOOT)
      ensures forall b :: b in blocks && b != start ==> b in old(blocks) && blocks[b] == old(blocks)[b]
    {
      hide Chain, Linked, KeepsPayloads;
      HeaderOf(mem, firstBlock, lastBlock, blocks, start);
      HeaderOf(mem, firstBlock, lastBlock, blocks, end);
      JoinStep(mem, firstBlock, lastBlock, blocks, start, firstFree, lastFree, FreeSet(blocks));
      JoinBlocks(mem, firstBlock, lastBlock, blocks, start);
      mem := SetNext(mem, start, 2 * (mem[start].next / 2 + mem[end].next / 2));
      mem := SetPrev(mem, start + mem[start].next / 2, mem[start].next);
      blocks := Joined(blocks, start);
    }

    /** Returns a block just marked free to the heap, joining it with its free neighbours. */
    method MergeBlock(start: nat, end: nat) returns (ghost start': nat)
      requires ChainValid() && start in FreeSet(blocks) && end == End(blocks, start)
      requires Linked(mem, firstFree, lastFree, FreeSet(blocks) - {start})
      requires SeparatedBut(blocks, start)
      modifies this`mem, this`firstFree, this`lastFree, this`blocks
      ensures Valid() && start' in FreeSet(blocks) && end <= End(blocks, start')
      ensures Used(blocks) == Used(old(blocks)) && KeepsPayloads(old(mem), mem, Used(blocks), FOOT)
      ensures |mem| == |old(mem)| && start < |mem| && old(mem)[start].prev / 2 <= start && start' == LowerStart(old(mem), start)
      ensures start' == start || start !in blocks
      ensures forall b :: b in blocks && b != start' ==> b in old(blocks) && blocks[b] == old(blocks)[b]
    {
      hide Chain, Linked, KeepsPayloads, Separated, SeparatedBut, SeparatedAbove;
      ghost var m0 := mem;
      HeaderOf(mem, firstBlock, lastBlock, blocks, start);
      var lower := MergeLower(start, end);
      ghost var m1 := mem;
      MergeHigher(lower, end);
      KeepsTrans(m0, m1, mem, Used(blocks), Used(blocks), Used(blocks), FOOT);
      start' := lower;
    }

    /** Maps k more units and gives them to the free block at the end of the heap. */
    method Grow(k: nat) returns (ghost tail: nat)
      requires Valid() && 0 < k && k % PAGE_UNITS == 0 && |mem| + k <= MAX_UNITS
      modifies this
      ensures Valid() && firstBlock == old(firstBlock) && lastBlock == old(lastBlock) + k
      ensures Used(blocks) == Used(old(blocks)) && KeepsPayloads(old(mem), mem, Used(blocks), FOOT)
      ensures tail in FreeSet(blocks) && End(blocks, tail) == lastBlock
      ensures old(lastBlock) < |old(mem)| && old(mem)[old(lastBlock)].prev / 2 <= old(lastBlock)
      ensures tail == LowerStart(old(mem), old(lastBlock))
      ensures forall b :: b in blocks && b != tail ==> b in old(blocks) && blocks[b] == old(blocks)[b]
    {
      hide Chain, Linked, Separated, SeparatedBut, KeepsPayloads;
      ghost var m0, bs := mem, blocks;
      LowerNeighbour(mem, firstBlock, lastBlock, blocks, lastBlock);
      ChainEnd(mem, firstBlock, lastBlock, blocks);
      GrowStep(mem, firstBlock, lastBlock, blocks, k, firstFree, lastFree);
      mem := mem + Zeros(k);
      mem := SetNext(mem, lastBlock, 2 * k);
      var end := lastBlock + mem[lastBlock].next / 2;
      mem := SetPrev(mem, end, mem[lastBlock].next);
      var start2 := lastBlock;
      lastBlock := end;
      blocks := blocks[start2 := Block(k, false)];
      ghost var m1 := mem;
      assert FreeSet(blocks) - {start2} == FreeSet(bs);
      tail := MergeBlock(start2, end);
      ChainEnd(mem, firstBlock, lastBlock, blocks);
      KeepsTrans(m0, m1, mem, Used(bs), Used(bs), Used(blocks), FOOT);
    }

    /** The second half of an allocation that found no block: grow the heap, search again. */
    method GrowAndFind(n: nat, clean: bool, granted: bool) returns (start: nat)
      requires Valid() && FirstFit(blocks, n, clean, 0) && 0 < n <= MAX_UNITS + 1
      modifies this
      ensures Valid() && firstBlock == old(firstBlock)
      ensures |old(mem)| <= |mem| && KeepsPayloads(old(mem), mem, Used(old(blocks)), FOOT)
      ensures Used(blocks) == Used(old(blocks))
      ensures start != 0 ==> start in FreeSet(blocks) && n <= blocks[start].size
      ensures old(lastBlock) < |old(mem)|
      ensures var more := Shortfall(old(mem), old(lastBlock), n);
              && 0 < more
              && (start != 0 <==> Maps(granted, |old(mem)|, GrowthBytes(more)) && more * UNIT <= WORD - PAGE_SIZE)
              && lastBlock == old(lastBlock) + if Maps(granted, |old(mem)|, GrowthBytes(more)) then GrowthBytes(more) / UNIT else 0
      ensures old(mem)[old(lastBlock)].prev / 2 <= old(lastBlock)
      ensures start != 0 ==> start == LowerStart(old(mem), old(lastBlock)) && End(blocks, start) == lastBlock
    {
      hide Chain, Linked, Separated, KeepsPayloads, FirstFit, GrowthBytes, Shortfall, LowerStart, TailAt;
      ghost var bs := blocks;
      ChainEnd(mem, firstBlock, lastBlock, blocks);
      KeepsSelf(mem, Used(blocks), FOOT);
      TailFound(mem, firstBlock, lastBlock, blocks, n);
      var more := n;
      if mem[lastBlock].prev % 2 == 0 {
        TailTooSmall(mem, firstBlock, lastBlock, blocks, n, clean);
        more := more - mem[lastBlock].prev / 2;
      }
      ShortfallIs(mem, lastBlock, n);
      var sz := GrowthBytes(more);
      GrowthEnough(more);
      WholePages(sz);
      if !Maps(granted, |mem|, sz) {
        return 0;
      }
      ghost var tail := Grow(sz / UNIT);
      ChainEnd(mem, firstBlock, lastBlock, blocks);
      ChainHeaders(mem, firstBlock, lastBlock, blocks);
      start := FindBlock(n, clean);
      TailIsLast(mem, firstBlock, lastBlock, blocks, tail);
      GrownFit(bs, blocks, n, clean, tail, start);
    }

    /** malloc (clean == false) and the allocation step of calloc (clean == true).  The
        system's answer to a request for more pages is the parameter granted. */
    method DoAlloc(size: nat, clean: bool, granted: bool) returns (ret: nat)
      requires Valid() && size < WORD
      modifies this
      ensures Valid() && firstBlock == old(firstBlock)
      ensures |old(mem)| <= |mem| && KeepsPayloads(old(mem), mem, Used(old(blocks)), FOOT)
      ensures ret == 0 ==> Used(blocks) == Used(old(blocks))
      ensures ret != 0 ==>
                && ret - 1 !in Used(old(blocks)) && ret - 1 in blocks
                && Used(blocks) == Used(old(blocks))[ret - 1 := blocks[ret - 1]]
                && HasRoom(blocks, size, ret - 1)
      ensures size == 0 ==> ret == 0 && mem == old(mem)
      ensures size != 0 ==> forall b: nat :: LowestServing(old(blocks), size, clean, b) ==>
                && ret == b + 1 && lastBlock == old(lastBlock)
                && Exact(old(blocks)[b].size, blocks[b].size, size)
      ensures size != 0 && (forall b :: !Serves(old(blocks), size, clean, b)) ==>
                && ServedByGrowth(old(blocks), old(lastBlock), size, granted, ret, lastBlock)
                && (ret != 0 ==> Exact(lastBlock - (ret - 1), blocks[ret - 1].size, size))
    {
      hide Chain, Linked, Separated, KeepsPayloads, FirstFit, GrowthBytes, Maps, LowestServing, Serves, Exact, ServedByGrowth, UnitsFor, Shortfall, LowerStart;
      ghost var m0, bs := mem, blocks;
      ChainEnd(mem, firstBlock, lastBlock, blocks);
      KeepsSelf(mem, Used(blocks), FOOT);
      if size == 0 {
        return 0;
      }
      var n := UnitsFor(size);
      ChainHeaders(mem, firstBlock, lastBlock, blocks);
      var start := FindBlock(n, clean);
      FirstFitServes(blocks, size, clean, start);
      UnitsEnough(size, 1);
      UnitsEnough(size, MAX_UNITS + 1);
      if start == 0 {
        NoneServes(blocks, size, clean);
        start := GrowAndFind(n, clean, granted);
        ByGrowth(m0, firstBlock, old(lastBlock), bs, size, granted, if start == 0 then 0 else start + 1, lastBlock);
        if start == 0 {
          return 0;
        }
      } else {
        FirstFitFits(blocks, n, clean, start);
        LowestUnique(blocks, size, clean, start);
      }
      ghost var m1, cs := mem, blocks;
      SplitBlock(start, n);
      ExactUnits(cs[start].size, blocks[start].size, size);
      KeepsTrans(m0, m1, mem, Used(bs), Used(bs), Used(cs), FOOT);
      ret := start + 1;
    }

    /** Returns the payload at ptr to the heap. */
    method Free(ptr: nat)
      requires Valid() && (ptr == 0 || ptr - 1 in Used(blocks))
      modifies this`mem, this`firstFree, this`lastFree, this`blocks
      ensures Valid()
      ensures ptr == 0 ==> Used(blocks) == Used(old(blocks)) && mem == old(mem)
      ensures ptr != 0 ==> Used(blocks) == Used(old(blocks)) - {ptr - 1}
      ensures |mem| == |old(mem)| && KeepsPayloads(old(mem), mem, Used(blocks), FOOT)
    {
      hide Chain, Linked, Separated, SeparatedBut, KeepsPayloads;
      if ptr == 0 {
        KeepsSelf(mem, Used(blocks), FOOT);
        return;
      }
      ghost var m0, bs := mem, blocks;
      var start := ptr - 1;
      HeaderOf(mem, firstBlock, lastBlock, blocks, start);
      RetagStep(mem, firstBlock, lastBlock, blocks, start, false, firstFree, lastFree, FreeSet(blocks));
      ReleaseSets(blocks, start);
      var end := start + mem[start].next / 2;
      mem := SetNext(mem, start, 2 * (mem[start].next / 2));
      mem := SetPrev(mem, end, mem[start].next);
      blocks := blocks[start := Block(blocks[start].size, false)];
      ghost var m1 := mem;
      assert FreeSet(blocks) - {start} == FreeSet(bs);
      ghost var lower := MergeBlock(start, end);
      KeepsTrans(m0, m1, mem, Used(blocks), Used(bs), Used(blocks), FOOT);
    }
  }
}
