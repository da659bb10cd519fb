/**
 The kernel heap: kmalloc, kfree and krealloc.
 */
module KernelHeap {
  import opened Basics
  import opened Tiling
  import opened HeapAreas
  import opened Payloads

  const HEAP_ALIGN := 16
  const PAGE_SIZE := 4096
  const PAGE_WORDS := 512
  const MAX_ALLOC := 2048 * 1024
  /** size_t arithmetic wraps at this value. */
  const WORD: nat := 0x1_0000_0000_0000_0000
  /** The largest size that can be rounded up without wrapping. */
  const LAST_SIZE: nat := WORD - HEAP_ALIGN

  function Align(n: nat, a: nat): nat
    requires 0 < a
  {
    if n % a != 0 then n - n % a + a else n
  }

  /** A size rounded up in size_t arithmetic. */
  function Rounded(n: nat): nat {
    if n % HEAP_ALIGN != 0 then (n - n % HEAP_ALIGN + HEAP_ALIGN) % WORD else n
  }

  /** Words of the area that serves a request of size bytes: the two tags are added. */
  function WordsFor(size: nat): nat {
    Align(size, HEAP_ALIGN) / 8 + 2
  }

  /** Of a free area of whole words, n are used for w: no more than needed, except that what
      is left has room for more than its two tags. */
  predicate Portion(whole: nat, n: nat, w: nat) {
    w <= n <= w + 2 && n % 2 == 0 && n <= whole && (n < whole ==> n == w && n + 4 <= whole)
  }

  /** h is the lowest free area of at least n words, or 0 if there is none. */
  ghost predicate LowestFit(bs: Blocks, n: nat, h: nat) {
    if h == 0 then
      forall c :: c in FreeSet(bs) ==> bs[c].size < n
    else
      && h in FreeSet(bs) && n <= bs[h].size
      && forall c :: c in FreeSet(bs) && n <= bs[c].size ==> h <= c
  }

  /** The areas in use other than that of the payload at addr. */
  ghost function Others(bs: Blocks, addr: nat): Blocks {
    if addr == 0 then Used(bs) else Used(bs) - {addr - 1}
  }

  /** A new area in use serves a request of size bytes; the others are unchanged. */
  ghost predicate Served(bs: Blocks, cs: Blocks, size: nat, ret: nat) {
    && 0 < ret && ret - 1 !in Used(bs) && ret - 1 in cs
    && Used(cs) == Used(bs)[ret - 1 := cs[ret - 1]]
    && WordsFor(size) <= cs[ret - 1].size <= WordsFor(size) + 2
  }

  /** The request of w words is served by the free area at the end of the heap, grown by as few
      pages as will do. */
  ghost predicate GrownFor(bs: Blocks, cs: Blocks, hi: nat, hi': nat, w: nat, ret: nat) {
    && 0 < ret <= hi + 1 && TailAt(bs, hi, ret - 1) && ret - 1 in cs && hi <= hi'
    && (hi' - hi) % PAGE_WORDS == 0 && w <= hi' - (ret - 1) < w + PAGE_WORDS
    && Portion(hi' - (ret - 1), cs[ret - 1].size, w)
  }

  datatype Resized = Kept | Shrunk | Grown | Moved

  /** Which way krealloc goes, for an area h and a request of w payload words. */
  function ResizeCase(bs: Blocks, h: nat, w: nat): Resized
    requires h in bs
  {
    if w + 2 <= bs[h].size then
      if bs[h].size - w < 8 then Kept else Shrunk
    else if End(bs, h) in FreeSet(bs) && w + 2 < bs[h].size + bs[End(bs, h)].size then Grown
    else Moved
  }

  /** n words at from, before, are n words at to, after. */
  ghost predicate Copied(mem: Words, mem': Words, from: nat, to: nat, n: int) {
    && 0 <= n && from + n <= |mem| && to + n <= |mem'|
    && mem'[to..to + n] == mem[from..from + n]
  }

  /** The area of addr has become that of ret.  The capacity is there unless the area was
      shrunk or the rounding of the size wrapped around. */
  ghost predicate Reallocated(mem: Words, mem': Words, bs: Blocks, cs: Blocks, addr: nat, ret: nat, newSize: nat, how: Resized)
    requires 0 < addr && addr - 1 in bs
  {
    && 0 < ret && ret - 1 in cs && (how != Moved ==> ret == addr)
    && (how == Moved ==> ret - 1 !in Used(bs))
    && Used(cs) == Others(bs, addr)[ret - 1 := cs[ret - 1]]
    && Copied(mem, mem', addr, ret, Min(bs[addr - 1].size, cs[ret - 1].size) - 2)
    && (newSize <= 8 * (cs[ret - 1].size - 2) <==> how != Shrunk && newSize <= LAST_SIZE)
  }

  /** c is the next multiple of 16. */
  predicate RoundsTo(size: nat, c: nat) {
    c % 16 == 0 && size <= c < size + 16
  }

  /** The area h, or together with a free area above it, has room for c bytes and two tags. */
  predicate Stays(bs: Blocks, h: nat, c: nat)
    requires h in bs
  {
    || c + 16 <= 8 * bs[h].size
    || (End(bs, h) in FreeSet(bs) && c + 16 < 8 * (bs[h].size + bs[End(bs, h)].size))
  }

  /** krealloc to size bytes, c when rounded: the area stays where it is exactly if there is
      room.  Fewer than 64 bytes to spare are kept, more are given back up to the bare payload
      size, and a larger area gets what it needs.  Otherwise the area moves, or the copy
      faults. */
  ghost predicate ResizedTo(bs: Blocks, cs: Blocks, addr: nat, ret: nat, fault: bool, size: nat, c: nat)
    requires 0 < addr && addr - 1 in bs
  {
    var old_ := 8 * bs[addr - 1].size;
    && RoundsTo(size, c) && (ret == addr <==> Stays(bs, addr - 1, c))
    && (fault <==> ret != addr && MAX_ALLOC < size)
    && (!fault ==>
          && 0 < ret && ret - 1 in cs
          && var new_ := 8 * cs[ret - 1].size;
             if ret != addr then c + 16 <= new_ <= c + 32
             else if old_ < c + 16 then new_ == c + 16
             else if old_ < c + 64 then new_ == old_
             else new_ == c)
  }

  /** krealloc is asked for a size whose rounding gives 0, for an area of 64 bytes or more. */
  predicate Wipes(bs: Blocks, addr: nat, newSize: nat)
    requires addr != 0 ==> addr - 1 in bs
  {
    addr != 0 && LAST_SIZE < newSize && 8 <= bs[addr - 1].size
  }

  /** The search may step over the area at h. */
  lemma SearchStep(mem: Words, hi: nat, bs: Blocks, n: nat, h: nat)
    requires Areas(mem, hi, bs) && h in bs && (bs[h].used || bs[h].size < n)
    requires forall c :: c in FreeSet(bs) && c < h ==> bs[c].size < n
    ensures Boundary(bs, hi, End(bs, h))
    ensures forall c :: c in FreeSet(bs) && c < End(bs, h) ==> bs[c].size < n
  {
    Succ(bs, 1, hi, h);
  }

  lemma HeaderTest(mem: Words, hi: nat, bs: Blocks, h: nat, n: nat)
    requires Areas(mem, hi, bs) && h in bs && 0 < n
    ensures h < |mem| && mem[h] != 0
    ensures mem[h] % 2 == 0 && 8 * n <= mem[h] <==> h in FreeSet(bs) && n <= bs[h].size
  {
    hide AreaWords;
    HeaderOf(mem, hi, bs, h);
    MarkBit(bs[h].size);
  }

  lemma NotFree(mem: Words, hi: nat, bs: Blocks, h: nat)
    requires Areas(mem, hi, bs) && Separated(bs) && h in FreeSet(bs)
    ensures End(bs, h) !in FreeSet(bs) && FreeAbove(bs, h, End(bs, h))
  {
  }

  /** The rounding of a size, as the code does it. */
  method RoundSize(newSize: nat) returns (size: nat)
    ensures size == Rounded(newSize)
  {
    size := newSize;
    if size % HEAP_ALIGN != 0 {
      size := size - size % HEAP_ALIGN;
      size := (size + HEAP_ALIGN) % WORD;
    }
  }

  lemma OthersOf(bs: Blocks, addr: nat)
    requires addr != 0
    ensures Others(bs, addr) == Used(bs) - {addr - 1}
  {
  }

  lemma OthersOfNull(bs: Blocks)
    ensures Others(bs, 0) == Used(bs)
  {
  }

  lemma AlignSize(n: nat)
    requires 0 < n
    ensures var m := Align(n, HEAP_ALIGN);
            && n <= m < n + HEAP_ALIGN && m % HEAP_ALIGN == 0 && m == 8 * (m / 8) && 2 <= m / 8
            && WordsFor(n) == WordsFor(m) == m / 8 + 2
  {
  }

  /** The least even number of words, tags included, that holds size bytes. */
  lemma WordsLeast(size: nat, n: nat)
    requires 0 < size && n % 2 == 0
    ensures WordsFor(size) % 2 == 0 && (WordsFor(size) <= n <==> size <= 8 * (n - 2))
  {
    AlignSize(size);
  }

  /** Rounding wraps to 0 for the fifteen largest sizes and is exact for all others. */
  lemma RoundedFacts(n: nat)
    requires 0 < n < WORD
    ensures var m := Rounded(n);
            && m % HEAP_ALIGN == 0 && m == 8 * (m / 8)
            && (if n <= LAST_SIZE then n <= m < n + HEAP_ALIGN && 2 <= m / 8 && WordsFor(n) == m / 8 + 2 else m == 0)
            && (n <= LAST_SIZE ==> (MAX_ALLOC < m <==> MAX_ALLOC < n))
  {
    AlignSize(n);
    assert LAST_SIZE % HEAP_ALIGN == 0;
  }

  lemma WipesWhen(bs: Blocks, addr: nat, newSize: nat)
    requires 0 < addr && addr - 1 in bs && 0 < newSize < WORD && 2 <= bs[addr - 1].size
    ensures Wipes(bs, addr, newSize) <==>
              Rounded(newSize) == 0 && ResizeCase(bs, addr - 1, Rounded(newSize) / 8) == Shrunk
    ensures LAST_SIZE < newSize && !Wipes(bs, addr, newSize) ==>
              ResizeCase(bs, addr - 1, Rounded(newSize) / 8) == Kept && bs[addr - 1].size < 8
  {
    RoundedFacts(newSize);
  }

  lemma NotWiped(bs: Blocks, addr: nat, newSize: nat)
    requires newSize <= LAST_SIZE && (addr != 0 ==> addr - 1 in bs)
    ensures !Wipes(bs, addr, newSize)
  {
  }

  lemma ReallocatedIntro(mem: Words, mem': Words, bs: Blocks, cs: Blocks, addr: nat, newSize: nat, how: Resized)
    requires 0 < addr && addr - 1 in Used(bs) && addr - 1 in cs && 0 < newSize < WORD && how != Moved
    requires Used(cs) == Others(bs, addr)[addr - 1 := cs[addr - 1]]
    requires Copied(mem, mem', addr, addr, Min(bs[addr - 1].size, cs[addr - 1].size) - 2)
    requires var w := Rounded(newSize) / 8; if how == Shrunk then cs[addr - 1].size == w else w + 2 <= cs[addr - 1].size
    requires LAST_SIZE < newSize ==> how == Kept && cs == bs && bs[addr - 1].size < 8
    ensures Reallocated(mem, mem', bs, cs, addr, addr, newSize, how)
  {
    hide Align, Rounded, WordsFor, Copied, Used, Others;
    RoundedFacts(newSize);
  }

  lemma ByMoving(mem: Words, mem': Words, bs: Blocks, cs: Blocks, addr: nat, ret: nat, newSize: nat)
    requires 0 < addr && addr - 1 in Used(bs) && 0 < ret && ret - 1 !in Used(bs) && ret - 1 in cs && 0 < newSize <= LAST_SIZE
    requires Used(cs) == Used(bs)[ret - 1 := cs[ret - 1]] - {addr - 1}
    requires ResizeCase(bs, addr - 1, Rounded(newSize) / 8) == Moved && Rounded(newSize) / 8 + 2 <= cs[ret - 1].size
    requires Copied(mem, mem', addr, ret, bs[addr - 1].size - 2)
    ensures Reallocated(mem, mem', bs, cs, addr, ret, newSize, Moved)
  {
    hide Align, Rounded, WordsFor, Copied, Used;
    RoundedFacts(newSize);
    assert Used(cs) == (Used(bs) - {addr - 1})[ret - 1 := cs[ret - 1]];
  }

  /** What krealloc leaves when the area does not move. */
  lemma InPlace(mem: Words, mem': Words, hi: nat, bs: Blocks, cs: Blocks, h: nat, how: Resized, w: nat)
    requires Areas(mem, hi, bs) && h in Used(bs) && |mem'| == |mem| && how == ResizeCase(bs, h, w) && how != Moved && (how == Shrunk ==> 2 <= w)
    requires how == Kept ==> mem' == mem && cs == bs
    requires how == Shrunk ==> Used(cs) == Used(bs)[h := Block(w, true)] && KeepsPayloads(mem, mem', Used(cs), FOOT)
    requires how == Grown ==> Used(cs) == Used(bs)[h := Block(w + 2, true)] && KeepsPayloads(mem, mem', Used(bs), FOOT)
    ensures h in cs && Used(cs) == Others(bs, h + 1)[h := cs[h]] && KeepsPayloads(mem, mem', Others(bs, h + 1), FOOT)
    ensures Copied(mem, mem', h + 1, h + 1, Min(bs[h].size, cs[h].size) - 2)
    ensures cs[h].size == match how case Kept => bs[h].size case Shrunk => w case _ => w + 2
    ensures how != Shrunk ==> w + 2 <= cs[h].size
  {
    hide Areas, KeepsPayloads;
    HeaderOf(mem, hi, bs, h);
    UsedIn(bs, h);
    var others := Used(bs) - {h};
    match how
    case Kept =>
      KeepsSelf(mem, others, FOOT);
      assert Used(cs) == others[h := cs[h]];
    case Shrunk =>
      UsedAt(bs, cs, h, Block(w, true));
      KeepsFewer(mem, mem', others, Used(cs), FOOT);
      PayloadCopied(mem, mem', Used(cs), h);
    case Grown =>
      UsedAt(bs, cs, h, Block(w + 2, true));
      KeepsFewer(mem, mem', others, Used(bs), FOOT);
      PayloadCopied(mem, mem', Used(bs), h);
  }

  /** The four ways in terms of the request. */
  lemma ResizedIs(bs: Blocks, cs: Blocks, addr: nat, ret: nat, fault: bool, newSize: nat, how: Resized)
    requires 0 < addr && addr - 1 in bs && 0 < newSize <= LAST_SIZE
    requires how == ResizeCase(bs, addr - 1, Rounded(newSize) / 8)
    requires if how == Moved then ret != addr && (fault <==> MAX_ALLOC < newSize) else ret == addr && !fault
    requires !fault ==>
               && 0 < ret && ret - 1 in cs
               && var w, n := Rounded(newSize) / 8, cs[ret - 1].size;
                  match how
                  case Kept => n == bs[addr - 1].size
                  case Shrunk => n == w
                  case Grown => n == w + 2
                  case Moved => w + 2 <= n <= w + 4
    ensures exists c: nat :: ResizedTo(bs, cs, addr, ret, fault, newSize, c)
  {
    hide Rounded, WordsFor;
    RoundedFacts(newSize);
    assert ResizedTo(bs, cs, addr, ret, fault, newSize, Rounded(newSize));
  }

  lemma PayloadCopied(mem: Words, mem': Words, us: Blocks, h: nat)
    requires h in us && 2 <= us[h].size && End(us, h) <= |mem| == |mem'| && KeepsPayloads(mem, mem', us, FOOT)
    ensures Copied(mem, mem', h + 1, h + 1, us[h].size - 2)
  {
    assert mem'[h + 1..h + 1 + (us[h].size - 2)] == mem[h + 1..h + 1 + (us[h].size - 2)];
  }

  lemma MarkBit(n: nat)
    ensures (8 * n) % 2 == 0 && (8 * n + 1) % 2 == 1
  {
    var k := 4 * n;
    Parity(k);
    assert 8 * n == 2 * k;
  }

  lemma Parity(k: nat)
    ensures (2 * k) % 2 == 0 && (2 * k + 1) % 2 == 1
  {
  }

  lemma InUseBit(mem: Words, hi: nat, bs: Blocks, h: nat)
    requires Areas(mem, hi, bs) && h < hi && (h in bs || mem[h] % 2 == 0)
    ensures h < |mem| && (mem[h] % 2 == 1 <==> h in Used(bs))
  {
    hide AreaWords;
    if h in bs {
      HeaderOf(mem, hi, bs, h);
      MarkBit(bs[h].size);
    }
  }

  lemma NotUsed(cs: Blocks, h: nat, us: Blocks)
    requires Used(cs) == us - {h}
    ensures h !in Used(cs)
  {
  }

  lemma GuardOutside(mem: Words, mem': Words, s: nat, e: nat, hi: nat)
    requires SameOutside(mem, mem', s, e) && e <= hi < |mem|
    ensures |mem'| == |mem| && mem'[hi] == mem[hi]
  {
  }

  lemma TagsInside(mem: Words, mem': Words, h: nat, w: nat, e: nat, hi: nat)
    requires h + w < e <= hi < |mem| == |mem'|
    requires if 0 < w then WritesTags(mem, mem', h, h + w, e) else WipesTags(mem, mem', h, e)
    ensures mem'[hi] == mem[hi]
  {
  }

  lemma UpperIs(mem: Words, hi: nat, bs: Blocks, h: nat)
    requires Areas(mem, hi, bs) && h in bs
    ensures var u, e := End(bs, h), UpperEnd(bs, h);
            e <= hi && if e == u then u !in FreeSet(bs) else u in FreeSet(bs) && e == End(bs, u)
  {
  }

  lemma UsedKept(bs: Blocks, cs: Blocks, h: nat, r: nat)
    requires Used(cs) == Used(bs) - {h} && r in Used(bs) && r != h
    ensures r in bs && r in cs && cs[r] == bs[r]
  {
    assert r in Used(cs);
  }

  lemma UsedPut(us: Blocks, us1: Blocks, r: nat, block: Block, h: nat)
    requires us1 == us[r := block] && h in us && r != h
    ensures h in us1 && us1[h] == us[h]
  {
  }

  lemma CopyKept(m1: Words, m2: Words, m3: Words, us1: Blocks, us3: Blocks, h: nat, r: nat, n: nat)
    requires |m1| == |m2| == |m3| && h in us1 && r in us1 && h != r && n + 2 <= us1[r].size
    requires End(us1, r) <= |m1| && us3 == us1 - {h} && h + 1 + n <= |m1|
    requires KeepsPayloads(m1, m2, us1 - {r}, FOOT) && KeepsPayloads(m2, m3, us3, FOOT)
    requires m2[r + 1..r + 1 + n] == m1[h + 1..h + 1 + n]
    ensures KeepsPayloads(m1, m3, us1 - {r, h}, FOOT)
    ensures Copied(m1, m3, h + 1, r + 1, n)
  {
    KeepsTrans(m1, m2, m3, us1 - {r, h}, us1 - {r}, us3, FOOT);
    forall u | r < u < r + 1 + n ensures m3[u] == m2[u] {
      assert us3[r] == us1[r];
    }
    assert m3[r + 1..r + 1 + n] == m2[r + 1..r + 1 + n];
  }

  lemma MoveKept(m0: Words, m1: Words, m3: Words, us: Blocks, us1: Blocks, h: nat, r: nat, n: nat)
    requires |m0| <= |m1| == |m3| && h in us && r !in us && r in us1 && us[h].size == n && 2 <= n
    requires us1 == us[r := us1[r]] && End(us, h) <= |m0|
    requires KeepsPayloads(m0, m1, us, FOOT) && KeepsPayloads(m1, m3, us1 - {r, h}, FOOT)
    requires Copied(m1, m3, h + 1, r + 1, n - 2)
    ensures KeepsPayloads(m0, m3, us - {h}, FOOT)
    ensures Copied(m0, m3, h + 1, r + 1, n - 2)
  {
    KeepsTrans(m0, m1, m3, us - {h}, us, us1 - {r, h}, FOOT);
    forall u | h < u < h + 1 + (n - 2) ensures m1[u] == m0[u] {
      assert us[h].size == n;
    }
    assert m1[h + 1..h + 1 + (n - 2)] == m0[h + 1..h + 1 + (n - 2)];
  }

  /** Resizing an area in use at the cost of the free space above it. */
  lemma ResizeUsed(mem: Words, mem': Words, hi: nat, bs: Blocks, h: nat, m: nat, e: nat)
    requires Areas(mem, hi, bs) && Separated(bs) && h in Used(bs)
    requires h + 2 <= m && m + 2 <= e && (m - h) % 2 == 0 && WritesTags(mem, mem', h, m, e)
    requires var u := End(bs, h); if e == u then u !in FreeSet(bs) else u in FreeSet(bs) && e == End(bs, u)
    ensures var cs := Replace(bs, h, e, map[h := Block(m - h, true), m := Block(e - m, false)]);
            && Areas(mem', hi, cs) && Separated(cs)
            && Used(cs) == Used(bs)[h := Block(m - h, true)]
            && (m <= End(bs, h) ==> KeepsPayloads(mem, mem', Used(cs), FOOT))
            && (End(bs, h) <= m ==> KeepsPayloads(mem, mem', Used(bs), FOOT))
  {
    hide Areas, Separated, Replace;
    hide KeepsPayloads;
    UpperFacts(mem, hi, bs, h, e);
    ResizeStep(mem, mem', hi, bs, h, m, e);
    if m <= End(bs, h) {
      KeepsPut(mem, mem', Used(bs), h, m - h, FOOT);
    }
    if End(bs, h) <= m {
      KeepsPut(mem, mem', Used(bs), h, bs[h].size, FOOT);
      assert Used(bs)[h := Block(bs[h].size, true)] == Used(bs);
    }
  }

  lemma UpperFacts(mem: Words, hi: nat, bs: Blocks, h: nat, e: nat)
    requires Areas(mem, hi, bs) && Separated(bs) && h in bs
    requires var u := End(bs, h); if e == u then u !in FreeSet(bs) else u in FreeSet(bs) && e == End(bs, u)
    ensures FreeAbove(bs, h, e) && Boundary(bs, hi, e) && e !in FreeSet(bs) && e <= hi && End(bs, h) <= e
    ensures (e - h) % 2 == 0
  {
    hide AreaWords;
    HeaderOf(mem, hi, bs, h);
    var u := End(bs, h);
    if e != u {
      HeaderOf(mem, hi, bs, u);
    }
  }

  lemma Multiple16(n: nat)
    requires n % 16 == 0
    ensures n == 8 * (n / 8) && (n / 8) % 2 == 0
  {
  }

  lemma WordsOf(n: nat)
    requires n % HEAP_ALIGN == 0
    ensures WordsFor(n) == n / 8 + 2
  {
  }

  lemma FitUnique(bs: Blocks, n: nat, h: nat)
    requires LowestFit(bs, n, h)
    ensures forall c: nat :: LowestFit(bs, n, c) ==> c == h
  {
  }

  /** After growth nothing but the area at the end of the heap can serve the request. */
  lemma OnlyTailFits(bs: Blocks, cs: Blocks, n: nat, s: nat)
    requires LowestFit(bs, n, 0) && 0 < s && s in cs && cs == bs[s := Block(cs[s].size, false)] && n <= cs[s].size
    ensures forall h: nat :: LowestFit(cs, n, h) ==> h == s
  {
    assert s in FreeSet(cs);
    forall c | c in FreeSet(cs) && n <= cs[c].size ensures c == s {
      assert c == s || c in FreeSet(bs);
    }
  }

  lemma ServedIs(bs: Blocks, cs: Blocks, size: nat, ret: nat, whole: nat)
    requires 0 < ret && ret - 1 !in Used(bs) && ret - 1 in cs && Used(cs) == Used(bs)[ret - 1 := cs[ret - 1]]
    requires Portion(whole, cs[ret - 1].size, WordsFor(size))
    ensures Served(bs, cs, size, ret)
  {
  }

  lemma FitUnused(bs: Blocks, n: nat, h: nat)
    requires LowestFit(bs, n, h) && h != 0
    ensures h !in Used(bs)
  {
  }

  lemma AlignPage(n: nat)
    requires 0 < n
    ensures var more := Align(n, PAGE_SIZE);
            n <= more < n + PAGE_SIZE && more == 8 * (more / 8) && (more / 8) % PAGE_WORDS == 0 && (more / 8) % 2 == 0
  {
    var more := Align(n, PAGE_SIZE);
    assert (n - n % PAGE_SIZE) % PAGE_SIZE == 0;
    assert more == PAGE_SIZE * (more / PAGE_SIZE);
    assert more / 8 == PAGE_WORDS * (more / PAGE_SIZE);
  }

  /** What the last area lacks, rounded up to pages, is the least growth that will do. */
  lemma LeastPages(totalSize: nat, hi: nat, s: nat)
    requires totalSize % HEAP_ALIGN == 0 && s <= hi && 8 * (hi - s) < totalSize
    ensures var more := Align(totalSize - 8 * (hi - s), PAGE_SIZE);
            && 0 < more && more == 8 * (more / 8) && (more / 8) % PAGE_WORDS == 0 && (more / 8) % 2 == 0
            && totalSize / 8 <= hi + more / 8 - s < totalSize / 8 + PAGE_WORDS
  {
    hide Align;
    AlignPage(totalSize - 8 * (hi - s));
  }

  lemma TailTooSmall(bs: Blocks, hi: nat, n: nat, s: nat)
    requires LowestFit(bs, n, 0) && TailAt(bs, hi, s) && s <= hi && 0 < n
    ensures hi - s < n
  {
  }

  /** A heap whose last footer is not in use ends with a free area. */
  lemma LastIsFree(mem: Words, hi: nat, bs: Blocks)
    requires Areas(mem, hi, bs) && mem[hi - 1] % 2 == 0
    ensures mem[hi - 1] != 0
  {
    var p := Pred(bs, 1, hi, hi);
    assert Tagged(mem, bs, p);
  }

  lemma UsedIn(bs: Blocks, h: nat)
    requires h in Used(bs)
    ensures h in bs && bs[h].used && Used(bs)[h] == bs[h]
  {
  }

  lemma StretchIntro(bs: Blocks, s: nat, h: nat, e: nat)
    requires h in bs
    requires if s == h then forall b :: b in FreeSet(bs) ==> End(bs, b) != h else s in FreeSet(bs) && End(bs, s) == h
    requires var u := End(bs, h); if e == u then u !in FreeSet(bs) else u in FreeSet(bs) && e == End(bs, u)
    ensures Stretch(bs, s, h, e)
  {
  }

  lemma FitFacts(bs: Blocks, n: nat, h: nat)
    requires LowestFit(bs, n, h) && h != 0
    ensures h in FreeSet(bs) && n <= bs[h].size
  {
  }

  lemma UsedAt(bs: Blocks, cs: Blocks, h: nat, block: Block)
    requires Used(cs) == Used(bs)[h := block]
    ensures h in cs && cs[h] == block
  {
    assert h in Used(cs);
  }

  class Heap {
    var mem: Words
    var heapSize: nat
    ghost var areas: Blocks

    /** Everything but the guard word above the last area is as it should be. */
    ghost predicate ValidBelow()
      reads this
    {
      && heapSize % 8 == 0 && |mem| % PAGE_WORDS == 0 && |mem| == heapSize / 8 + 1
      && Areas(mem, heapSize / 8, areas)
      && Separated(areas)
    }

    ghost function Guard(): nat
      requires ValidBelow()
      reads this
    {
      mem[heapSize / 8]
    }

    ghost predicate Valid()
      reads this
    {
      ValidBelow() && Guard() == 0
    }

    ghost predicate Intact()
      reads this
    {
      WellFormed(mem, heapSize / 8)
    }

    lemma ValidIntact()
      requires ValidBelow()
      ensures Intact() <==> Valid()
    {
    }

    /** One page, whose words are as system gives them, with one free area between the two
        guard words, which are not written. */
    constructor (system: nat -> nat)
      ensures heapSize == PAGE_SIZE - 8 && areas == map[1 := Block(PAGE_WORDS - 2, false)]
      ensures |mem| == PAGE_WORDS && mem[0] == system(0) && mem[PAGE_WORDS - 1] == system(PAGE_WORDS - 1)
      ensures Valid() <==> system(0) == 0 && system(PAGE_WORDS - 1) == 0
      ensures Intact() <==> Valid()
      ensures Used(areas) == map[]
    {
      var words: Words := seq(PAGE_WORDS, i requires 0 <= i => system(i));
      var size := PAGE_SIZE - 8;
      var footer := (size - 8) / 8;
      var heapStart := 1;
      words := words[heapStart := size - 8];
      words := words[footer := words[heapStart]];
      mem, heapSize := words, size;
      areas := map[1 := Block(PAGE_WORDS - 2, false)];
      new;
      OneBlock(1, PAGE_WORDS - 1, false);
      assert Tagged(mem, areas, 1);
      assert FreeSet(areas) == {1};
    }

    /** The first-fit search of heapAlloc. */
    method FindArea(totalSize: nat) returns (found: nat)
      requires ValidBelow() && totalSize % 8 == 0 && 0 < totalSize
      ensures LowestFit(areas, totalSize / 8, found)
    {
      hide Areas, Separated, AreaWords, Tag;
      var newHeader := 1;
      ghost var hi, n := heapSize / 8, totalSize / 8;
      AreasEnd(mem, hi, areas);
      while newHeader < heapSize / 8
        invariant Boundary(areas, hi, newHeader) && 0 < newHeader
        invariant forall c :: c in FreeSet(areas) && c < newHeader ==> areas[c].size < n
      {
        HeaderOf(mem, hi, areas, newHeader);
        HeaderTest(mem, hi, areas, newHeader, n);
        if mem[newHeader] % 2 == 0 && totalSize <= mem[newHeader] {
          return newHeader;
        } else if mem[newHeader] == 0 {
          break;
        }
        SearchStep(mem, hi, areas, n, newHeader);
        newHeader := newHeader + AreaWords(mem[newHeader]);
      }
      found := 0;
    }

    method HeapAlloc(size: nat) returns (ret: nat)
      requires ValidBelow() && size % HEAP_ALIGN == 0 && 0 < size
      modifies this`mem, this`areas
      ensures ValidBelow() && Guard() == old(Guard())
      ensures KeepsPayloads(old(mem), mem, Used(old(areas)), FOOT)
      ensures ret == 0 ==> LowestFit(old(areas), size / 8 + 2, 0) && mem == old(mem) && areas == old(areas)
      ensures ret != 0 ==>
                && 1 < ret && LowestFit(old(areas), size / 8 + 2, ret - 1) && ret - 1 in areas
                && Used(areas) == Used(old(areas))[ret - 1 := areas[ret - 1]]
                && Portion(old(areas)[ret - 1].size, areas[ret - 1].size, size / 8 + 2)
    {
      hide Areas, Separated, KeepsPayloads, LowestFit, Replace, Used;
      var totalSize := size + 16;
      ghost var hi, m0, bs := heapSize / 8, mem, areas;
      var newHeader := FindArea(totalSize);
      if newHeader == 0 {
        KeepsSelf(mem, Used(areas), FOOT);
        return 0;
      }
      FitFacts(bs, totalSize / 8, newHeader);
      HeaderOf(mem, hi, areas, newHeader);
      if mem[newHeader] - totalSize > HEAP_ALIGN {
        CutArea(newHeader, totalSize);
      } else {
        TakeArea(newHeader);
      }
      ret := newHeader + 1;
    }

    /** heapAlloc when enough is left for another area: the front is taken. */
    method CutArea(newHeader: nat, totalSize: nat)
      requires ValidBelow() && newHeader in FreeSet(areas) && totalSize % HEAP_ALIGN == 0
      requires HEAP_ALIGN < totalSize && totalSize + HEAP_ALIGN < 8 * areas[newHeader].size
      modifies this`mem, this`areas
      ensures ValidBelow() && Guard() == old(Guard())
      ensures Used(areas) == Used(old(areas))[newHeader := Block(totalSize / 8, true)]
      ensures newHeader in areas && areas[newHeader] == Block(totalSize / 8, true)
      ensures KeepsPayloads(old(mem), mem, Used(old(areas)), FOOT)
    {
      hide Areas, Separated, KeepsPayloads, Replace, Used, AreaWords, WritesTags;
      ghost var hi, m0, bs := heapSize / 8, mem, areas;
      HeaderOf(mem, hi, areas, newHeader);
      AreasEnd(mem, hi, areas);
      NotFree(mem, hi, areas, newHeader);
      ghost var e := End(areas, newHeader);
      Multiple16(totalSize);
      var freeHeader := newHeader + totalSize / 8;
      var m := WriteCut(newHeader, totalSize / 8, bs[newHeader].size);
      TagsInside(m0, m, newHeader, totalSize / 8, e, hi);
      ResizeStep(m0, m, hi, bs, newHeader, freeHeader, e);
      FreeUnused(bs, newHeader);
      mem := m;
      areas := Replace(bs, newHeader, e, map[newHeader := Block(freeHeader - newHeader, true), freeHeader := Block(e - freeHeader, false)]);
      UsedAt(bs, areas, newHeader, Block(totalSize / 8, true));
    }

    /** The stores that cut w words off a free area of n. */
    method WriteCut(newHeader: nat, w: nat, ghost n: nat) returns (m: Words)
      requires w % 2 == 0 && 2 < w && n % 2 == 0 && w + 2 < n && newHeader + n <= |mem| && mem[newHeader] == 8 * n
      ensures |m| == |mem| && WritesTags(mem, m, newHeader, newHeader + w, newHeader + n)
    {
      hide AreaWords;
      AreaWordsOf(n);
      AreaWordsOf(w);
      AreaWordsOf(n - w);
      m := mem;
      var totalSize := 8 * w;
      var oldSize := m[newHeader];
      var freeFooter := newHeader + AreaWords(m[newHeader]) - 1;
      m := m[newHeader := totalSize];
      var newFooter := newHeader + AreaWords(m[newHeader]) - 1;
      m := m[freeFooter := oldSize - totalSize];
      var freeHeader := freeFooter - AreaWords(m[freeFooter]) + 1;
      m := m[freeHeader := m[freeFooter]];
      m := m[newHeader := m[newHeader] + 1];
      m := m[newFooter := m[newHeader]];
    }

    /** heapAlloc otherwise: the area is taken whole. */
    method TakeArea(newHeader: nat)
      requires ValidBelow() && newHeader in FreeSet(areas)
      modifies this`mem, this`areas
      ensures ValidBelow() && Guard() == old(Guard())
      ensures Used(areas) == Used(old(areas))[newHeader := Block(old(areas)[newHeader].size, true)]
      ensures newHeader in areas && areas[newHeader] == Block(old(areas)[newHeader].size, true)
      ensures KeepsPayloads(old(mem), mem, Used(old(areas)), FOOT)
    {
      hide Areas, Separated, KeepsPayloads, Replace, Used, AreaWords;
      ghost var hi, m0, bs := heapSize / 8, mem, areas;
      HeaderOf(mem, hi, areas, newHeader);
      AreasEnd(mem, hi, areas);
      var m := mem;
      var newFooter := newHeader + AreaWords(m[newHeader]) - 1;
      m := m[newHeader := m[newHeader] + 1];
      m := m[newFooter := m[newHeader]];
      TakeStep(m0, m, hi, bs, newHeader);
      mem := m;
      areas := Replace(bs, newHeader, End(bs, newHeader), map[newHeader := Block(bs[newHeader].size, true)]);
      UsedAt(bs, areas, newHeader, Block(bs[newHeader].size, true));
    }

    /** kfree: a pointer that is not into the heap, or whose header is not marked as in use,
        is ignored.  The area above a released one must be readable: the guard word is 0, or
        the released area is not the last one. */
    method Kfree(addr: nat)
      requires ValidBelow()
      requires 1 < addr < 1 + heapSize / 8 ==> addr - 1 in areas || mem[addr - 1] % 2 == 0
      requires 1 < addr < 1 + heapSize / 8 && addr - 1 in Used(areas) ==> Guard() == 0 || End(areas, addr - 1) != heapSize / 8
      modifies this`mem, this`areas
      ensures ValidBelow() && Guard() == old(Guard())
      ensures 1 < addr < 1 + heapSize / 8 && addr - 1 in Used(old(areas)) ==>
                Used(areas) == Used(old(areas)) - {addr - 1} && mem[addr - 1] % 2 == 0
      ensures !(1 < addr < 1 + heapSize / 8 && addr - 1 in Used(old(areas))) ==> mem == old(mem) && areas == old(areas)
      ensures KeepsPayloads(old(mem), mem, Used(areas), FOOT)
    {
      hide Areas, Separated, KeepsPayloads, Used;
      KeepsSelf(mem, Used(areas), FOOT);
      if addr == 0 {
        return;
      } else if 1 < addr < 1 + heapSize / 8 {
        InUseBit(mem, heapSize / 8, areas, addr - 1);
        if mem[addr - 1] % 2 == 1 {
          HeapFree(addr - 1);
        }
      }
    }

    /** Releasing a payload once more has no effect, even if its area has been joined with
        others meanwhile. */
    method KfreeTwice(addr: nat)
      requires Valid() && 0 < addr && addr - 1 in Used(areas)
      modifies this`mem, this`areas
      ensures Valid() && Used(areas) == Used(old(areas)) - {addr - 1}
      ensures KeepsPayloads(old(mem), mem, Used(areas), FOOT)
    {
      hide Areas, Separated, KeepsPayloads, Used;
      InHeap(addr);
      UsedIn(areas, addr - 1);
      Kfree(addr);
      NotUsed(areas, addr - 1, Used(old(areas)));
      Kfree(addr);
    }

    /** heapFree on the header of an area in use: joins it with its free neighbours. */
    method HeapFree(header: nat)
      requires ValidBelow() && header in Used(areas) && (Guard() == 0 || End(areas, header) != heapSize / 8)
      modifies this`mem, this`areas
      ensures ValidBelow() && Guard() == old(Guard()) && header < |mem| && mem[header] % 2 == 0
      ensures Used(areas) == Used(old(areas)) - {header}
      ensures KeepsPayloads(old(mem), mem, Used(areas), FOOT)
    {
      hide Areas, Separated, KeepsPayloads, Replace, Used, Stretch, SameOutside, FreeSet;
      ghost var hi, m0, bs := heapSize / 8, mem, areas;
      UsedIn(areas, header);
      var m, footer := MergeHigher(header);
      ghost var s;
      m, s := MergeLower(header, footer, m);
      StretchIntro(bs, s, header, footer + 1);
      ReleaseStretch(m0, m, hi, bs, s, header, footer + 1);
      GuardOutside(m0, m, s, footer + 1, hi);
      mem := m;
      areas := Replace(bs, s, footer + 1, map[s := Block(footer + 1 - s, false)]);
    }

    /** The second half of heapFree: the words after joining with the area below. */
    method MergeLower(header: nat, footer: nat, m: Words) returns (m': Words, ghost s: nat)
      requires ValidBelow() && header in areas && SameOutside(mem, m, header, footer + 1)
      requires header < footer < |mem| && m[header] == 8 * (footer + 1 - header) == m[footer]
      ensures s <= header && |m'| == |mem| && SameOutside(mem, m', s, footer + 1)
      ensures m'[s] == 8 * (footer + 1 - s) == m'[footer] && m'[header] % 2 == 0
      ensures if s == header then forall b :: b in FreeSet(areas) ==> End(areas, b) != header
              else s in FreeSet(areas) && End(areas, s) == header
    {
      hide Areas, Separated, AreaWords;
      ghost var hi := heapSize / 8;
      m', s := m, header;
      var prevFooter := header - 1;
      LowerNeighbour(mem, hi, areas, header);
      if m[prevFooter] != 0 && m[prevFooter] % 2 == 0 {
        AreaWordsOf(m[prevFooter] / 8);
        var prevHeader := prevFooter - AreaWords(m[prevFooter]) + 1;
        HeaderOf(mem, hi, areas, prevHeader);
        m' := m'[prevHeader := m'[prevHeader] + m'[header]];
        m' := m'[footer := m'[prevHeader]];
        s := prevHeader;
      }
    }

    /** The first half of heapFree: the words after joining header with the area above. */
    method MergeHigher(header: nat) returns (m: Words, footer: nat)
      requires ValidBelow() && header in Used(areas) && (Guard() == 0 || End(areas, header) != heapSize / 8)
      ensures |m| == |mem| && SameOutside(mem, m, header, footer + 1)
      ensures header < footer < |mem| && m[header] == 8 * (footer + 1 - header) == m[footer]
      ensures var u := End(areas, header);
              if footer + 1 == u then u !in FreeSet(areas) else u in FreeSet(areas) && footer + 1 == End(areas, u)
    {
      hide Areas, Separated, AreaWords, SameOutside;
      ghost var hi := heapSize / 8;
      UsedIn(areas, header);
      HeaderOf(mem, hi, areas, header);
      ghost var u := End(areas, header);
      UpperNeighbour(mem, hi, areas, u);
      if u in FreeSet(areas) {
        HeaderOf(mem, hi, areas, u);
      }
      m, footer := WriteJoined(header, areas[header].size, if u in FreeSet(areas) then areas[u].size else 0);
    }

    /** The stores of that half for an area of n words with f free words above. */
    method WriteJoined(header: nat, ghost n: nat, ghost f: nat) returns (m: Words, footer: nat)
      requires n % 2 == 0 && 2 <= n && f % 2 == 0 && header + n < |mem| && header + n + f <= |mem| <= 1 + heapSize
      requires mem[header] == 8 * n + 1 == mem[header + n - 1]
      requires var tag := mem[header + n]; if 0 < f then tag == 8 * f else tag == 0 || tag % 2 == 1
      ensures |m| == |mem| && footer + 1 == header + n + f
      ensures SameOutside(mem, m, header, footer + 1) && m[header] == 8 * (n + f) == m[footer]
    {
      hide AreaWords;
      AreaWordsOf(n);
      AreaWordsOf(f);
      MarkBit(n);
      MarkBit(n + f);
      m := mem;
      m := m[header := m[header] - 1];
      footer := header + AreaWords(m[header]) - 1;
      var nextHeader := footer + 1;
      if nextHeader < 1 + heapSize && m[nextHeader] % 2 == 0 {
        var nextFooter := nextHeader + AreaWords(m[nextHeader]) - 1;
        m := m[header := m[header] + m[nextHeader]];
        m := m[nextFooter := m[header]];
        footer := nextFooter;
      }
      assert footer + 1 == header + n + f && ((m[footer] == 8 * n + 1 && f == 0) || m[footer] == 8 * (n + f));
      m := m[footer := m[footer] - m[footer] % 2];
    }

    /** The growth step of kmalloc. */
    method Grow(totalSize: nat, system: nat -> nat) returns (ghost s: nat)
      requires ValidBelow() && totalSize % HEAP_ALIGN == 0 && 0 < totalSize && LowestFit(areas, totalSize / 8, 0)
      modifies this
      ensures ValidBelow() && |old(mem)| < |mem| && heapSize > old(heapSize) && Guard() == system(heapSize / 8)
      ensures Used(areas) == Used(old(areas)) && KeepsPayloads(old(mem), mem, Used(areas), FOOT)
      ensures 0 < s <= old(heapSize) / 8 && TailAt(old(areas), old(heapSize) / 8, s)
      ensures areas == old(areas)[s := Block(heapSize / 8 - s, false)]
      ensures (heapSize / 8 - old(heapSize) / 8) % PAGE_WORDS == 0 && totalSize / 8 <= heapSize / 8 - s < totalSize / 8 + PAGE_WORDS
    {
      hide Areas, Separated, KeepsPayloads, AreaWords, Used, Align, Tag, LowestFit, TailAt;
      ghost var hi := heapSize / 8;
      var newHeader := LastArea();
      TailTooSmall(areas, hi, totalSize / 8, newHeader);
      var remaining := if newHeader == heapSize / 8 then totalSize else totalSize - mem[newHeader];
      var more := Align(remaining, PAGE_SIZE);
      LeastPages(totalSize, hi, newHeader);
      AddPages(newHeader, more, system);
      s := newHeader;
    }

    /** The last area gets more bytes of new pages. */
    method AddPages(newHeader: nat, more: nat, system: nat -> nat)
      requires ValidBelow() && 0 < newHeader <= heapSize / 8 && (heapSize / 8 - newHeader) % 2 == 0
      requires TailAt(areas, heapSize / 8, newHeader)
      requires newHeader < heapSize / 8 ==> mem[newHeader] == 8 * (heapSize / 8 - newHeader)
      requires 0 < more && more == 8 * (more / 8) && (more / 8) % PAGE_WORDS == 0 && (more / 8) % 2 == 0
      modifies this
      ensures ValidBelow() && heapSize == old(heapSize) + more && |mem| == |old(mem)| + more / 8
      ensures Guard() == system(heapSize / 8)
      ensures Used(areas) == Used(old(areas)) && KeepsPayloads(old(mem), mem, Used(areas), FOOT)
      ensures areas == old(areas)[newHeader := Block(heapSize / 8 - newHeader, false)]
    {
      hide Areas, Separated, KeepsPayloads, AreaWords, Used, Tag;
      ghost var hi, m0, bs := heapSize / 8, mem, areas;
      AreasEnd(mem, hi, areas);
      var m := Extend(newHeader, more / 8, system);
      GrowStep(m0, m, hi, bs, newHeader, more / 8);
      mem, heapSize := m, heapSize + more;
      areas := bs[newHeader := Block(hi + more / 8 - newHeader, false)];
    }

    /** The new pages behind the heap, k words as system gives them, and the two tags of the
        last area. */
    method Extend(newHeader: nat, k: nat, system: nat -> nat) returns (m: Words)
      requires 0 < newHeader < |mem| && (|mem| - 1 - newHeader) % 2 == 0 && 2 <= k && k % 2 == 0
      requires newHeader < |mem| - 1 ==> mem[newHeader] == 8 * (|mem| - 1 - newHeader)
      ensures |m| == |mem| + k && m[|m| - 1] == system(|m| - 1)
      ensures m[newHeader] == Tag(Block(|m| - 1 - newHeader, false)) == m[|m| - 2]
      ensures forall u :: 0 <= u < |mem| - 1 && u != newHeader ==> m[u] == mem[u]
    {
      hide AreaWords;
      var n: nat := |mem|;
      var pages: Words := seq(k, i requires 0 <= i => system(n + i));
      m := mem + pages;
      if newHeader == |mem| - 1 {
        m := m[newHeader := 0];
      }
      m := m[newHeader := m[newHeader] + 8 * k];
      AreaWordsOf(|m| - 1 - newHeader);
      var newFooter := newHeader + AreaWords(m[newHeader]) - 1;
      m := m[newFooter := m[newHeader]];
    }

    /** The area that receives new pages: the free area at the end, or the guard word after
        the last area, which becomes a header. */
    method LastArea() returns (newHeader: nat)
      requires ValidBelow()
      ensures 0 < newHeader <= heapSize / 8 < |mem| && (heapSize / 8 - newHeader) % 2 == 0
      ensures newHeader < heapSize / 8 ==> mem[newHeader] == 8 * (heapSize / 8 - newHeader)
      ensures TailAt(areas, heapSize / 8, newHeader)
    {
      hide Areas, Separated, AreaWords;
      ghost var hi := heapSize / 8;
      AreasEnd(mem, hi, areas);
      LowerNeighbour(mem, hi, areas, hi);
      var newArea := 1 + heapSize / 8;
      var lastFooter := newArea - 2;
      if mem[lastFooter] % 2 == 1 {
        newHeader := lastFooter + 1;
      } else {
        LastIsFree(mem, hi, areas);
        AreaWordsOf(mem[lastFooter] / 8);
        newHeader := lastFooter - AreaWords(mem[lastFooter]) + 1;
        HeaderOf(mem, hi, areas, newHeader);
      }
    }

    /** kmalloc.  The pages a growing heap gets are not cleared; the word that becomes the new
        guard decides whether the heap is well formed afterwards. */
    method Kmalloc(size: nat, system: nat -> nat) returns (ret: nat)
      requires ValidBelow()
      modifies this
      ensures ValidBelow() && |old(mem)| <= |mem| && KeepsPayloads(old(mem), mem, Used(old(areas)), FOOT)
      ensures old(heapSize) <= heapSize
      ensures Guard() == (if heapSize == old(heapSize) then old(Guard()) else system(heapSize / 8))
      ensures Intact() <==> Guard() == 0
      ensures ret == 0 <==> size == 0 || MAX_ALLOC < size
      ensures ret == 0 ==> mem == old(mem) && heapSize == old(heapSize) && areas == old(areas)
      ensures ret != 0 ==> Served(old(areas), areas, size, ret)
      ensures forall h: nat :: ret != 0 && h != 0 && LowestFit(old(areas), WordsFor(size), h) ==>
                ret == h + 1 && heapSize == old(heapSize) && Portion(old(areas)[h].size, areas[h].size, WordsFor(size))
      ensures ret != 0 && LowestFit(old(areas), WordsFor(size), 0) ==>
                GrownFor(old(areas), areas, old(heapSize) / 8, heapSize / 8, WordsFor(size), ret)
    {
      hide Areas, Separated, KeepsPayloads, LowestFit, Used, Served, GrownFor, WordsFor, Portion, TailAt;
      ghost var m0, bs, us := mem, areas, Used(areas);
      KeepsSelf(mem, us, FOOT);
      if size == 0 || MAX_ALLOC < size {
        return 0;
      }
      var size' := if size % HEAP_ALIGN != 0 then size - size % HEAP_ALIGN + HEAP_ALIGN else size;
      AlignSize(size);
      ret := HeapAlloc(size');
      if ret == 0 {
        ret := Retry(size, size', system);
      } else {
        FitUnique(bs, WordsFor(size), ret - 1);
        FitUnused(bs, WordsFor(size), ret - 1);
        FitFacts(bs, WordsFor(size), ret - 1);
        ServedIs(bs, areas, size, ret, bs[ret - 1].size);
      }
    }

    /** kmalloc when nothing fits: the heap grows, and the search is made again. */
    method Retry(size: nat, size': nat, system: nat -> nat) returns (ret: nat)
      requires ValidBelow() && LowestFit(areas, WordsFor(size), 0)
      requires 0 < size' && size' % HEAP_ALIGN == 0 && WordsFor(size) == size' / 8 + 2
      modifies this
      ensures ValidBelow() && |old(mem)| <= |mem| && KeepsPayloads(old(mem), mem, Used(old(areas)), FOOT)
      ensures old(heapSize) < heapSize && Guard() == system(heapSize / 8) && ret != 0
      ensures Served(old(areas), areas, size, ret)
      ensures GrownFor(old(areas), areas, old(heapSize) / 8, heapSize / 8, WordsFor(size), ret)
      ensures forall h: nat :: h != 0 ==> !LowestFit(old(areas), WordsFor(size), h)
    {
      hide Areas, Separated, KeepsPayloads, LowestFit, Used, WordsFor, Served, Portion, TailAt;
      ghost var m0, bs, us, w := mem, areas, Used(areas), WordsFor(size);
      FitUnique(bs, w, 0);
      ghost var s := Grow(size' + 16, system);
      OnlyTailFits(bs, areas, w, s);
      ghost var m1, bs1 := mem, areas;
      ret := HeapAlloc(size');
      KeepsTrans(m0, m1, mem, us, us, us, FOOT);
      FitUnused(bs1, w, ret - 1);
      ServedIs(bs, areas, size, ret, bs1[s].size);
    }

    /** The in-place shrink of krealloc.  The new tag is the new payload size itself; for the
        size 0 the tags of the area are lost. */
    method Shrink(curHeader: nat, newSize: nat)
      requires Valid() && curHeader in Used(areas) && newSize % HEAP_ALIGN == 0
      requires newSize + 4 * HEAP_ALIGN <= 8 * areas[curHeader].size
      modifies this`mem, this`areas
      ensures |mem| == |old(mem)| && heapSize / 8 < |mem| && mem[heapSize / 8] == 0
      ensures newSize != 0 ==>
                && Valid() && Used(areas) == Used(old(areas))[curHeader := Block(newSize / 8, true)]
                && KeepsPayloads(old(mem), mem, Used(areas), FOOT)
      ensures newSize == 0 ==> !Intact() && WipesTags(old(mem), mem, curHeader, UpperEnd(old(areas), curHeader))
    {
      hide Areas, Separated, KeepsPayloads, Replace, Used, WritesTags, WipesTags, UpperEnd, WellFormed;
      ghost var m0, bs, hi := mem, areas, heapSize / 8;
      UsedIn(areas, curHeader);
      var newHeader := curHeader + newSize / 8;
      ghost var e := UpperEnd(areas, curHeader);
      Multiple16(newSize);
      UpperIs(mem, hi, areas, curHeader);
      mem := ShrinkWords(curHeader, newSize / 8);
      if newSize == 0 {
        WipedBroken(m0, mem, hi, bs, curHeader, e);
      } else {
        ResizeUsed(m0, mem, hi, bs, curHeader, newHeader, e);
        areas := Replace(bs, curHeader, e, map[curHeader := Block(newHeader - curHeader, true), newHeader := Block(e - newHeader, false)]);
      }
    }

    /** The words after a shrink to w words. */
    method ShrinkWords(curHeader: nat, w: nat) returns (m: Words)
      requires Valid() && curHeader in areas && areas[curHeader].used && w % 2 == 0
      requires w + 8 <= areas[curHeader].size
      ensures var e := UpperEnd(areas, curHeader);
              && |m| == |mem| && curHeader + w + 2 <= e <= heapSize / 8 && m[heapSize / 8] == 0
              && (0 < w ==> WritesTags(mem, m, curHeader, curHeader + w, e))
              && (w == 0 ==> WipesTags(mem, m, curHeader, e))
    {
      hide Areas, Separated, AreaWords, WritesTags, WipesTags;
      ghost var hi := heapSize / 8;
      HeaderOf(mem, hi, areas, curHeader);
      UpperNeighbour(mem, hi, areas, End(areas, curHeader));
      ghost var e := End(areas, curHeader);
      if e in FreeSet(areas) {
        HeaderOf(mem, hi, areas, e);
        e := End(areas, e);
      }
      m := WriteShrunk(curHeader, w, areas[curHeader].size, e - End(areas, curHeader));
      TagsInside(mem, m, curHeader, w, e, hi);
    }

    /** The stores of a shrink of n words to w, with f free words above. */
    method WriteShrunk(curHeader: nat, w: nat, ghost n: nat, ghost f: nat) returns (m: Words)
      requires w % 2 == 0 && n % 2 == 0 && w + 8 <= n && f % 2 == 0 && 0 < curHeader
      requires curHeader + n < |mem| && curHeader + n + f <= |mem| && mem[curHeader] == 8 * n + 1
      requires var tag := mem[curHeader + n]; if 0 < f then tag == 8 * f else tag == 0 || tag % 2 == 1
      ensures |m| == |mem|
      ensures 0 < w ==> WritesTags(mem, m, curHeader, curHeader + w, curHeader + n + f)
      ensures w == 0 ==> WipesTags(mem, m, curHeader, curHeader + n + f)
    {
      hide AreaWords;
      AreaWordsOf(n);
      AreaWordsOf(w);
      AreaWordsOf(n - w);
      AreaWordsOf(f);
      m := mem;
      var newSize := 8 * w;
      var nextHeader := curHeader + AreaWords(m[curHeader]);
      var oldSize := 8 * AreaWords(m[curHeader]) - 16;
      var diff := oldSize - newSize + 16;
      m := m[curHeader := newSize + 1];
      var curFooter := curHeader + AreaWords(m[curHeader]) - 1;
      m := m[curFooter := m[curHeader]];
      var newHeader := curFooter + 1;
      if m[nextHeader] % 2 == 1 {
        m := m[newHeader := diff];
        var newFooter := newHeader + AreaWords(m[newHeader]) - 1;
        m := m[newFooter := m[newHeader]];
      } else {
        var nextFooter := nextHeader + AreaWords(m[nextHeader]) - 1;
        m := m[newHeader := m[nextHeader] + diff];
        m := m[nextFooter := m[newHeader]];
      }
    }

    /** The in-place growth of krealloc, into part of the free area above. */
    method Expand(curHeader: nat, newSize: nat)
      requires Valid() && curHeader in Used(areas) && newSize % HEAP_ALIGN == 0
      requires 8 * areas[curHeader].size < newSize + 16
      requires End(areas, curHeader) in FreeSet(areas)
      requires newSize + 16 < 8 * (areas[curHeader].size + areas[End(areas, curHeader)].size)
      modifies this`mem, this`areas
      ensures Valid() && |mem| == |old(mem)|
      ensures Used(areas) == Used(old(areas))[curHeader := Block(newSize / 8 + 2, true)]
      ensures KeepsPayloads(old(mem), mem, Used(old(areas)), FOOT)
    {
      hide Areas, Separated, KeepsPayloads, Replace, Used, WritesTags;
      ghost var m0, bs := mem, areas;
      UsedIn(areas, curHeader);
      Multiple16(newSize);
      var newHeader := curHeader + newSize / 8 + 2;
      var m;
      ghost var e;
      m, e := ExpandWords(curHeader, newSize / 8);
      TagsInside(m0, m, curHeader, newSize / 8 + 2, e, heapSize / 8);
      ResizeUsed(m0, m, heapSize / 8, bs, curHeader, newHeader, e);
      mem := m;
      areas := Replace(bs, curHeader, e, map[curHeader := Block(newHeader - curHeader, true), newHeader := Block(e - newHeader, false)]);
    }

    /** The words after a growth in place to w payload words. */
    method ExpandWords(curHeader: nat, w: nat) returns (m: Words, ghost e: nat)
      requires Valid() && curHeader in areas && areas[curHeader].used && w % 2 == 0
      requires areas[curHeader].size < w + 2 && End(areas, curHeader) in FreeSet(areas)
      requires w + 2 < areas[curHeader].size + areas[End(areas, curHeader)].size
      ensures |m| == |mem| && e == End(areas, End(areas, curHeader)) && curHeader + w + 4 <= e <= heapSize / 8
      ensures WritesTags(mem, m, curHeader, curHeader + w + 2, e)
    {
      hide Areas, Separated, AreaWords;
      ghost var hi := heapSize / 8;
      HeaderOf(mem, hi, areas, curHeader);
      m := mem;
      var newSize := 8 * w;
      var nextHeader := curHeader + AreaWords(m[curHeader]);
      HeaderOf(mem, hi, areas, nextHeader);
      AreaWordsOf(w + 2);
      var oldSize := 8 * AreaWords(m[curHeader]) - 16;
      var nextFooter := nextHeader + AreaWords(m[nextHeader]) - 1;
      e := nextFooter + 1;
      m := m[curHeader := newSize + 16 + 1];
      var newFooter := curHeader + AreaWords(m[curHeader]) - 1;
      m := m[newFooter := m[curHeader]];
      m := m[nextFooter := m[nextFooter] - (newSize - oldSize)];
      m := m[newFooter + 1 := m[nextFooter]];
    }

    /** krealloc by moving: allocate, copy the old payload, release the old area.  For a
        size that kmalloc refuses, the code goes on to copy to address 0: fault. */
    method Move(curHeader: nat, newSize: nat, system: nat -> nat) returns (ret: nat, fault: bool)
      requires Valid() && curHeader in Used(areas) && areas[curHeader].size < WordsFor(newSize) && 0 < newSize
      modifies this
      ensures ValidBelow() && old(heapSize) <= heapSize
      ensures Guard() == if heapSize == old(heapSize) then 0 else system(heapSize / 8)
      ensures fault <==> MAX_ALLOC < newSize
      ensures fault ==> ret == 0 && mem == old(mem) && areas == old(areas) && heapSize == old(heapSize)
      ensures !fault ==>
                && 0 < ret && ret - 1 !in Used(old(areas)) && ret - 1 in areas && WordsFor(newSize) <= areas[ret - 1].size <= WordsFor(newSize) + 2
                && Used(areas) == Used(old(areas))[ret - 1 := areas[ret - 1]] - {curHeader}
                && |old(mem)| <= |mem| && KeepsPayloads(old(mem), mem, Used(old(areas)) - {curHeader}, FOOT)
                && Copied(old(mem), mem, curHeader + 1, ret, old(areas)[curHeader].size - 2)
    {
      hide Areas, Separated, KeepsPayloads, LowestFit, Used, Align, AreaWords, SameOutside, CopyWords, Copied, WordsFor, WellFormed;
      UsedIn(areas, curHeader);
      ghost var m0, us, n := mem, Used(areas), areas[curHeader].size;
      HeaderOf(mem, heapSize / 8, areas, curHeader);
      var count := AreaWords(mem[curHeader]) - 2;
      ret := Kmalloc(newSize, system);
      fault := ret == 0;
      if fault {
        return;
      }
      ghost var m1, us1 := mem, Used(areas);
      UsedPut(us, us1, ret - 1, areas[ret - 1], curHeader);
      UsedIn(areas, curHeader);
      HeaderOf(mem, heapSize / 8, areas, curHeader);
      Transfer(curHeader, ret, count);
      MoveKept(m0, m1, mem, us, us1, curHeader, ret - 1, n);
    }

    /** The payload of one area in use is copied to another, and the first one is released. */
    method Transfer(curHeader: nat, ret: nat, count: nat)
      requires ValidBelow() && 0 < ret && ret - 1 in Used(areas) && curHeader in Used(areas) && ret - 1 != curHeader
      requires count + 2 == areas[curHeader].size <= areas[ret - 1].size
      requires Guard() == 0 || End(areas, curHeader) != heapSize / 8
      modifies this`mem, this`areas
      ensures ValidBelow() && Guard() == old(Guard()) && |mem| == |old(mem)|
      ensures Used(areas) == Used(old(areas)) - {curHeader} && ret - 1 in areas && areas[ret - 1] == old(areas)[ret - 1]
      ensures KeepsPayloads(old(mem), mem, Used(old(areas)) - {ret - 1, curHeader}, FOOT)
      ensures Copied(old(mem), mem, curHeader + 1, ret, count)
    {
      hide Areas, Separated, KeepsPayloads, Used, AreaWords, SameOutside, CopyWords, Copied;
      ghost var m1, bs, hi, r := mem, areas, heapSize / 8, ret - 1;
      var addr := curHeader + 1;
      UsedIn(areas, r);
      UsedIn(areas, curHeader);
      HeaderOf(mem, hi, areas, r);
      HeaderOf(mem, hi, areas, curHeader);
      mem := CopyWords(mem, addr, ret, count);
      GuardOutside(m1, mem, ret, ret + count, hi);
      PayloadWrite(m1, mem, hi, areas, r, count);
      ghost var m2 := mem;
      Kfree(addr);
      UsedKept(bs, areas, curHeader, r);
      CopyKept(m1, m2, mem, Used(bs), Used(areas), curHeader, r, count);
    }

    /** krealloc on an area in use, with the size already rounded. */
    method Resize(curHeader: nat, newSize: nat, system: nat -> nat) returns (ret: nat, fault: bool, ghost how: Resized)
      requires Valid() && curHeader in Used(areas) && newSize % HEAP_ALIGN == 0
      modifies this
      ensures how == ResizeCase(old(areas), curHeader, newSize / 8)
      ensures old(heapSize) <= heapSize && (how != Moved || fault ==> heapSize == old(heapSize))
      ensures !(how == Shrunk && newSize == 0) ==>
                ValidBelow() && Guard() == if heapSize == old(heapSize) then 0 else system(heapSize / 8)
      ensures fault <==> how == Moved && MAX_ALLOC < newSize
      ensures fault ==> ret == 0 && mem == old(mem) && areas == old(areas)
      ensures how != Moved ==> ret == curHeader + 1 && |mem| == |old(mem)|
      ensures how == Kept ==> mem == old(mem) && areas == old(areas)
      ensures how == Shrunk && newSize == 0 ==> !Intact() && WipesTags(old(mem), mem, curHeader, UpperEnd(old(areas), curHeader))
      ensures how == Shrunk && newSize != 0 ==>
                && Used(areas) == Used(old(areas))[curHeader := Block(newSize / 8, true)]
                && KeepsPayloads(old(mem), mem, Used(areas), FOOT)
      ensures how == Grown ==>
                && Used(areas) == Used(old(areas))[curHeader := Block(newSize / 8 + 2, true)]
                && KeepsPayloads(old(mem), mem, Used(old(areas)), FOOT)
      ensures how == Moved && !fault ==>
                && 0 < ret && ret - 1 !in Used(old(areas)) && ret - 1 in areas && newSize / 8 + 2 <= areas[ret - 1].size <= newSize / 8 + 4
                && Used(areas) == Used(old(areas))[ret - 1 := areas[ret - 1]] - {curHeader}
                && |old(mem)| <= |mem| && KeepsPayloads(old(mem), mem, Used(old(areas)) - {curHeader}, FOOT)
                && Copied(old(mem), mem, curHeader + 1, ret, old(areas)[curHeader].size - 2)
    {
      hide Areas, Separated, KeepsPayloads, Used, Copied, WellFormed, UpperEnd, WipesTags;
      UsedIn(areas, curHeader);
      Multiple16(newSize);
      var way := Choose(curHeader, newSize);
      ret, fault, how := curHeader + 1, false, way;
      match way
      case Kept =>
      case Shrunk =>
        Shrink(curHeader, newSize);
      case Moved =>
        WordsOf(newSize);
        ret, fault := Move(curHeader, newSize, system);
      case Grown =>
        Expand(curHeader, newSize);
    }

    /** The tests of krealloc. */
    method Choose(curHeader: nat, newSize: nat) returns (how: Resized)
      requires Valid() && curHeader in Used(areas) && newSize % HEAP_ALIGN == 0
      ensures how == ResizeCase(areas, curHeader, newSize / 8) && (how == Moved ==> 0 < newSize)
    {
      hide Areas, Separated, AreaWords;
      ghost var hi := heapSize / 8;
      HeaderOf(mem, hi, areas, curHeader);
      UpperNeighbour(mem, hi, areas, End(areas, curHeader));
      Multiple16(newSize);
      var nextHeader := curHeader + AreaWords(mem[curHeader]);
      var oldSize := 8 * AreaWords(mem[curHeader]) - 16;
      if newSize <= oldSize {
        var diff := oldSize - newSize + 16;
        return if diff < HEAP_ALIGN * 4 then Kept else Shrunk;
      }
      var moreNeeded := newSize - oldSize;
      if nextHeader in FreeSet(areas) {
        HeaderOf(mem, hi, areas, nextHeader);
      }
      if mem[nextHeader] % 2 == 1 || mem[nextHeader] / 16 * 16 <= moreNeeded {
        return Moved;
      }
      // The test leaves strictly more than moreNeeded, so the area above is always split.
      how := Grown;
    }

    /** krealloc.  A size so large that its rounding wraps to 0 destroys the heap, unless the
        area is smaller than 64 bytes.  Otherwise the contents survive as far as both
        payloads reach, no other payload is touched, and the new payload is large enough
        exactly when the area was not shrunk and the rounding did not wrap. */
    method Krealloc(addr: nat, newSize: nat, system: nat -> nat) returns (ret: nat, fault: bool)
      requires Valid() && (addr == 0 || addr - 1 in Used(areas)) && newSize < WORD
      modifies this
      ensures old(heapSize) <= heapSize
      ensures Intact() <==>
                !Wipes(old(areas), addr, newSize) && (heapSize == old(heapSize) || system(heapSize / 8) == 0)
      ensures Wipes(old(areas), addr, newSize) ==>
                !fault && ret == addr && WipesTags(old(mem), mem, addr - 1, UpperEnd(old(areas), addr - 1))
      ensures !Wipes(old(areas), addr, newSize) ==>
                && ValidBelow() && Guard() == (if heapSize == old(heapSize) then 0 else system(heapSize / 8))
                && |old(mem)| <= |mem| && KeepsPayloads(old(mem), mem, Others(old(areas), addr), FOOT)
      ensures addr == 0 ==> !fault && (ret == 0 <==> newSize == 0 || MAX_ALLOC < newSize)
      ensures addr == 0 && ret == 0 ==> mem == old(mem) && areas == old(areas)
      ensures addr == 0 && ret != 0 ==> Served(old(areas), areas, newSize, ret)
      ensures addr != 0 && newSize == 0 ==> !fault && ret == 0 && Used(areas) == Others(old(areas), addr)
      ensures addr != 0 && newSize != 0 && !Wipes(old(areas), addr, newSize) ==>
                var how := ResizeCase(old(areas), addr - 1, Rounded(newSize) / 8);
                && (fault <==> how == Moved && MAX_ALLOC < newSize)
                && (if fault then mem == old(mem) && areas == old(areas)
                    else Reallocated(old(mem), mem, old(areas), areas, addr, ret, newSize, how))
      ensures addr != 0 && 0 < newSize <= LAST_SIZE ==>
                exists c: nat :: ResizedTo(old(areas), areas, addr, ret, fault, newSize, c)
    {
      hide Areas, Separated, KeepsPayloads, Used, LowestFit, Align, Rounded, WordsFor, ResizeCase, Reallocated, Copied, Others, WellFormed, WipesTags, UpperEnd, Served, GrownFor, ResizedTo;
      fault := false;
      if addr == 0 {
        ret := Kmalloc(newSize, system);
        OthersOfNull(old(areas));
        return;
      }
      OthersOf(areas, addr);
      ghost var bs := areas;
      UsedIn(areas, addr - 1);
      if newSize == 0 {
        InHeap(addr);
        Kfree(addr);
        KeepsFewer(old(mem), mem, Others(bs, addr), Used(areas), FOOT);
        ValidIntact();
        ret := 0;
        return;
      }
      ret, fault := ResizeTo(addr, newSize, system);
    }

    /** krealloc of an area in use to a size that is not zero. */
    method ResizeTo(addr: nat, newSize: nat, system: nat -> nat) returns (ret: nat, fault: bool)
      requires Valid() && 0 < addr && addr - 1 in Used(areas) && 0 < newSize < WORD
      modifies this
      ensures old(heapSize) <= heapSize
      ensures Intact() <==>
                !Wipes(old(areas), addr, newSize) && (heapSize == old(heapSize) || system(heapSize / 8) == 0)
      ensures Wipes(old(areas), addr, newSize) ==>
                !fault && ret == addr && WipesTags(old(mem), mem, addr - 1, UpperEnd(old(areas), addr - 1))
      ensures !Wipes(old(areas), addr, newSize) ==>
                && ValidBelow() && Guard() == (if heapSize == old(heapSize) then 0 else system(heapSize / 8))
                && |old(mem)| <= |mem| && KeepsPayloads(old(mem), mem, Others(old(areas), addr), FOOT)
                && var how := ResizeCase(old(areas), addr - 1, Rounded(newSize) / 8);
                && (fault <==> how == Moved && MAX_ALLOC < newSize)
                && (if fault then mem == old(mem) && areas == old(areas)
                    else Reallocated(old(mem), mem, old(areas), areas, addr, ret, newSize, how))
      ensures newSize <= LAST_SIZE ==> exists c: nat :: ResizedTo(old(areas), areas, addr, ret, fault, newSize, c)
    {
      hide Areas, Separated, KeepsPayloads, Used, LowestFit, Align, Rounded, WordsFor, ResizeCase, Reallocated, Copied, Others, WellFormed, WipesTags, UpperEnd, Wipes, ResizedTo;
      ghost var m0, bs, h := mem, areas, addr - 1;
      OthersOf(areas, addr);
      UsedIn(areas, h);
      HeaderOf(mem, heapSize / 8, areas, h);
      var size := RoundSize(newSize);
      RoundedFacts(newSize);
      WipesWhen(bs, addr, newSize);
      ghost var how;
      ret, fault, how := Resize(addr - 1, size, system);
      if !Wipes(bs, addr, newSize) {
        ValidIntact();
        if fault {
          KeepsSelf(mem, Others(bs, addr), FOOT);
        } else if how == Moved {
          ByMoving(m0, mem, bs, areas, addr, ret, newSize);
        } else {
          InPlace(m0, mem, old(heapSize) / 8, bs, areas, h, how, size / 8);
          ReallocatedIntro(m0, mem, bs, areas, addr, newSize, how);
        }
      }
      if newSize <= LAST_SIZE {
        NotWiped(bs, addr, newSize);
        ResizedIs(bs, areas, addr, ret, fault, newSize, how);
      }
    }

    /** More words than the heap has force a move. */
    lemma TooLarge(h: nat, w: nat)
      requires ValidBelow() && h in areas && heapSize / 8 <= w
      ensures ResizeCase(areas, h, w) == Moved
    {
    }

    lemma InHeap(addr: nat)
      requires Valid() && 0 < addr && addr - 1 in Used(areas)
      ensures 1 < addr < 1 + heapSize / 8
    {
      AreasEnd(mem, heapSize / 8, areas);
    }
  }
}
