/**
 Clients of the kernel heap: whole runs of kmalloc, kfree, krealloc and stores.
 */
module KernelHeapClient {
  import opened Basics
  import opened Tiling
  import opened HeapAreas
  import opened KernelHeap
  import opened Payloads

  /** What clients do, each under the heap's lock or on its own payload.  An area is named by the
      address of its header.  A krealloc that moves gives the lock back in between: it is an
      Alloc, CopyWords and a Release, with anything from other clients in between. */
  datatype Op =
    | Alloc(size: nat)
    | Release(b: nat)
    | Realloc(b: nat, size: nat)
    | Store(b: nat, index: nat, value: nat)
    | CopyWord(from: nat, to: nat, index: nat)

  method DoAllocate(h: Heap, size: nat, system: nat -> nat, live: Shadow<nat>) returns (live': Shadow<nat>)
    requires h.Valid() && Agrees(h.mem, Used(h.areas), live, FOOT)
    modifies h
    ensures h.ValidBelow() && Agrees(h.mem, Used(h.areas), live', FOOT)
    ensures h.Guard() == 0 || (exists u: nat :: system(u) != 0)
    ensures h.Intact() <==> h.Guard() == 0
    ensures if size == 0 || MAX_ALLOC < size then live' == live
            else exists b :: b !in live && b in live' && live' == live[b := live'[b]] && size <= 8 * |live'[b]|
  {
    hide Areas, Separated, KeepsPayloads, Agrees, Used, LowestFit, Align, AreaWords, WellFormed;
    ghost var m0, us := h.mem, Used(h.areas);
    var ret := h.Kmalloc(size, system);
    AgreesKeys(m0, us, live, FOOT);
    AgreesAfter(m0, h.mem, us, us, live, live, FOOT);
    live' := live;
    if ret != 0 {
      var b := ret - 1;
      HeaderOf(h.mem, h.heapSize / 8, h.areas, b);
      AlignSize(size);
      var words := AreaWords(h.mem[b]);
      AgreesWith(h.mem, us, live, b, h.areas[b], FOOT);
      live' := live[b := h.mem[b + 1..b + words - 1]];
    }
  }

  method DoRelease(h: Heap, b: nat, live: Shadow<nat>) returns (live': Shadow<nat>)
    requires h.Valid() && Agrees(h.mem, Used(h.areas), live, FOOT) && b in live
    modifies h
    ensures h.Valid() && Agrees(h.mem, Used(h.areas), live', FOOT)
    ensures live' == live - {b}
  {
    hide Areas, Separated, KeepsPayloads, Agrees, Used;
    ghost var m0, us := h.mem, Used(h.areas);
    AgreesKeys(m0, us, live, FOOT);
    UsedIn(h.areas, b);
    h.InHeap(b + 1);
    h.Kfree(b + 1);
    live' := live - {b};
    AgreesAfter(m0, h.mem, us, Used(h.areas), live, live', FOOT);
  }

  /** s and t agree as far as both reach. */
  predicate CommonPrefix(s: seq<nat>, t: seq<nat>) {
    var n := Min(|s|, |t|);
    s[..n] == t[..n]
  }

  lemma ReallocAgrees(mem: Words, mem': Words, bs: Blocks, cs: Blocks, live: Shadow<nat>, b: nat, r: nat, newSize: nat, how: Resized)
    requires Agrees(mem, Used(bs), live, FOOT) && b in live && b in bs && |mem| <= |mem'|
    requires KeepsPayloads(mem, mem', Others(bs, b + 1), FOOT) && Reallocated(mem, mem', bs, cs, b + 1, r + 1, newSize, how)
    requires 2 <= cs[r].size && End(cs, r) <= |mem'|
    ensures var content := mem'[r + 1..End(cs, r) - 1];
            && Agrees(mem', Used(cs), (live - {b})[r := content], FOOT)
            && CommonPrefix(live[b], content) && r !in live - {b}
  {
    hide KeepsPayloads, Used, Agrees;
    AgreesAt(mem, Used(bs), live, b, FOOT);
    AgreesKeys(mem, Used(bs), live, FOOT);
    UsedIn(bs, b);
    var others := Used(bs) - {b};
    AgreesAfter(mem, mem', Used(bs), others, live, live - {b}, FOOT);
    AgreesWith(mem', others, live - {b}, r, cs[r], FOOT);
    var content := mem'[r + 1..End(cs, r) - 1];
    var n := Min(bs[b].size, cs[r].size) - 2;
    PrefixOf(mem, b + 1, bs[b].size - 2, n);
    PrefixOf(mem', r + 1, cs[r].size - 2, n);
  }

  lemma PrefixOf(mem: Words, a: nat, k: nat, n: nat)
    requires n <= k && a + k <= |mem|
    ensures mem[a..a + k][..n] == mem[a..a + n]
  {
  }

  /** How a run ends: regularly, with a copy to address 0, or with a heap that is no longer
      well formed. */
  datatype Outcome = Finished | Faulted | Corrupted

  /** krealloc on a live area. */
  method DoResize(h: Heap, b: nat, size: nat, system: nat -> nat, live: Shadow<nat>) returns (live': Shadow<nat>, outcome: Outcome)
    requires h.Valid() && Agrees(h.mem, Used(h.areas), live, FOOT) && b in live && size < WORD
    modifies h
    ensures outcome == Corrupted <==> !h.Intact()
    ensures outcome == Corrupted ==> LAST_SIZE < size || exists u: nat :: system(u) != 0
    ensures outcome != Corrupted ==> h.Valid() && Agrees(h.mem, Used(h.areas), live', FOOT)
    ensures outcome == Faulted ==> live' == live && MAX_ALLOC < size
    ensures outcome == Finished && size == 0 ==> live' == live - {b}
    ensures outcome == Finished && size != 0 ==>
              exists r :: r in live' && r !in live - {b} && live' == (live - {b})[r := live'[r]] && CommonPrefix(live[b], live'[r])
  {
    hide Areas, Separated, KeepsPayloads, Agrees, Used, Reallocated, Others, Align, WordsFor, Rounded, ResizeCase, CommonPrefix, AreaWords, WellFormed, WipesTags, UpperEnd, ResizedTo;
    ghost var m0, us, bs := h.mem, Used(h.areas), h.areas;
    AgreesKeys(m0, us, live, FOOT);
    UsedIn(bs, b);
    OthersOf(bs, b + 1);
    HeaderOf(h.mem, h.heapSize / 8, h.areas, b);
    var wiped := LAST_SIZE < size && 8 <= AreaWords(h.mem[b]);
    var ret, fault := h.Krealloc(b + 1, size, system);
    live' := live;
    if wiped {
      outcome := Corrupted;
      return;
    }
    if h.mem[h.heapSize / 8] != 0 {
      outcome := Corrupted;
      return;
    }
    outcome := if fault then Faulted else Finished;
    if fault {
      AgreesAfter(m0, h.mem, us, us, live, live', FOOT);
    } else if size == 0 {
      live' := live - {b};
      AgreesAfter(m0, h.mem, us, Used(h.areas), live, live', FOOT);
    } else {
      ghost var how := ResizeCase(bs, b, Rounded(size) / 8);
      ReallocatedAt(m0, h.mem, bs, h.areas, b + 1, ret, size, how);
      var r: nat := ret - 1;
      HeaderOf(h.mem, h.heapSize / 8, h.areas, r);
      ReallocAgrees(m0, h.mem, bs, h.areas, live, b, r, size, how);
      var words := AreaWords(h.mem[r]);
      live' := (live - {b})[r := h.mem[r + 1..r + words - 1]];
    }
  }

  lemma ReallocatedAt(mem: Words, mem': Words, bs: Blocks, cs: Blocks, addr: nat, ret: nat, newSize: nat, how: Resized)
    requires 0 < addr && addr - 1 in bs && Reallocated(mem, mem', bs, cs, addr, ret, newSize, how)
    ensures 0 < ret && ret - 1 in cs
  {
  }

  method DoStore(h: Heap, b: nat, index: nat, value: nat, live: Shadow<nat>) returns (live': Shadow<nat>)
    requires h.Valid() && Agrees(h.mem, Used(h.areas), live, FOOT) && b in live && index < |live[b]|
    modifies h
    ensures h.Valid() && Agrees(h.mem, Used(h.areas), live', FOOT)
    ensures live' == live[b := Updated(live[b], index, value)]
  {
    hide Areas, Separated, Agrees, Used;
    ghost var m0 := h.mem;
    AgreesAt(h.mem, Used(h.areas), live, b, FOOT);
    UsedIn(h.areas, b);
    h.mem := h.mem[b + 1 + index := value];
    OneWord(m0, b + 1 + index, value);
    PayloadStore(m0, h.mem, h.heapSize / 8, h.areas, b, index);
    live' := live[b := Updated(live[b], index, value)];
    StoreAgrees(m0, h.mem, Used(h.areas), live, b, index, value, FOOT);
  }

  /** One word of a copy from one live payload to another. */
  method DoCopy(h: Heap, from: nat, to: nat, index: nat, live: Shadow<nat>) returns (live': Shadow<nat>)
    requires h.Valid() && Agrees(h.mem, Used(h.areas), live, FOOT)
    requires from in live && to in live && index < |live[from]| && index < |live[to]|
    modifies h
    ensures h.Valid() && Agrees(h.mem, Used(h.areas), live', FOOT)
    ensures live' == live[to := Updated(live[to], index, live[from][index])]
  {
    hide Areas, Separated, Agrees, Used;
    AgreesAt(h.mem, Used(h.areas), live, from, FOOT);
    live' := DoStore(h, to, index, h.mem[from + 1 + index], live);
  }

  lemma OneWord(mem: Words, a: nat, value: nat)
    requires a < |mem|
    ensures SameOutside(mem, mem[a := value], a, a + 1)
  {
  }

  lemma PayloadStore(mem: Words, mem': Words, hi: nat, bs: Blocks, b: nat, index: nat)
    requires Areas(mem, hi, bs) && b in bs && index + 2 < bs[b].size && SameOutside(mem, mem', b + 1 + index, b + 2 + index)
    ensures Areas(mem', hi, bs) && KeepsPayloads(mem, mem', Used(bs) - {b}, FOOT)
  {
    hide Areas, KeepsPayloads;
    PayloadWrite(mem, mem', hi, bs, b, index + 1);
  }

  /** Releasing what was just allocated without growing the heap restores the partition. */
  method AllocateRelease(h: Heap, size: nat)
    requires h.Valid() && 0 < size <= MAX_ALLOC
    requires exists b: nat :: b != 0 && LowestFit(h.areas, WordsFor(size), b)
    modifies h
    ensures h.Valid() && h.areas == old(h.areas)
  {
    hide Areas, Tiles, Separated, KeepsPayloads, LowestFit, Used, Align, WordsFor;
    ghost var bs, hi := h.areas, h.heapSize / 8;
    AreasTile(h.mem, hi, bs);
    var ptr := h.Kmalloc(size, _ => 0);
    UsedPutIn(bs, h.areas, ptr - 1);
    h.InHeap(ptr);
    UsedIn(h.areas, ptr - 1);
    h.Kfree(ptr);
    AreasTile(h.mem, h.heapSize / 8, h.areas);
    assert Used(h.areas) == Used(bs);
    CanonicalForm(bs, h.areas, 1, hi);
  }

  lemma UsedPutIn(bs: Blocks, cs: Blocks, r: nat)
    requires r in cs && Used(cs) == Used(bs)[r := cs[r]]
    ensures r in Used(cs)
  {
  }

  ghost predicate Clean(system: nat -> nat) {
    forall u: nat :: system(u) == 0
  }

  /** Any run of client operations from a fresh heap, up to a fault or the loss of the heap's
      structure, if there is one.  Neither can happen when the system's pages are clean and
      krealloc is asked for no more than kmalloc grants. */
  method Run(ops: seq<Op>, system: nat -> nat) returns (h: Heap, live: Shadow<nat>, outcome: Outcome)
    ensures outcome != Corrupted ==> h.Valid() && Agrees(h.mem, Used(h.areas), live, FOOT)
    ensures outcome == Corrupted <==> !h.Intact()
    ensures Clean(system) && (forall op :: op in ops && op.Realloc? ==> op.size % WORD <= LAST_SIZE) ==> outcome != Corrupted
    ensures (forall op :: op in ops && op.Realloc? ==> op.size % WORD <= MAX_ALLOC) ==> outcome != Faulted
  {
    h := new Heap(system);
    live, outcome := map[], Finished;
    if h.mem[0] != 0 || h.mem[PAGE_WORDS - 1] != 0 {
      outcome := Corrupted;
      return;
    }
    for i := 0 to |ops|
      invariant fresh(h) && h.Valid() && h.Intact() && Agrees(h.mem, Used(h.areas), live, FOOT) && outcome == Finished
    {
      hide Areas, Separated, Agrees, WellFormed;
      match ops[i]
      case Alloc(size) =>
        live := DoAllocate(h, size, system, live);
        if h.mem[h.heapSize / 8] != 0 {
          outcome := Corrupted;
          return;
        }
      case Release(b) =>
        if b in live {
          live := DoRelease(h, b, live);
          h.ValidIntact();
        }
      case Realloc(b, size) =>
        if b in live {
          assert ops[i] in ops;
          live, outcome := DoResize(h, b, size % WORD, system, live);
          if outcome != Finished {
            return;
          }
        }
      case Store(b, index, value) =>
        if b in live && index < |live[b]| {
          live := DoStore(h, b, index, value, live);
          h.ValidIntact();
        }
      case CopyWord(from, to, index) =>
        if from in live && to in live && index < |live[from]| && index < |live[to]| {
          live := DoCopy(h, from, to, index, live);
          h.ValidIntact();
        }
    }
  }

  // ----- Where krealloc fails -----

  /** A shrink to 64 bytes leaves less than 64. */
  method ShrinkExample() returns (h: Heap, p: nat)
    ensures h.Valid() && 0 < p && p - 1 in h.areas && 8 * (h.areas[p - 1].size - 2) < 64
  {
    hide Areas, Separated, KeepsPayloads, Used, LowestFit, Copied;
    h := new Heap(_ => 0);
    ghost var bs: Blocks := h.areas;
    p := h.Kmalloc(112, _ => 0);
    UsedPutIn(bs, h.areas, p - 1);
    var fault;
    p, fault := h.Krealloc(p, 64, _ => 0);
  }

  /** One byte more than the limit of 2 MiB, for an area that cannot grow in place. */
  method FaultExample() returns (h: Heap, fault: bool)
    ensures h.Valid() && fault
  {
    hide Separated, KeepsPayloads, Used, Copied;
    h := new Heap(_ => 0);
    ghost var bs: Blocks := h.areas;
    OnlyFit(bs, WordsFor(16));
    var p := h.Kmalloc(16, _ => 0);
    UsedPutIn(bs, h.areas, p - 1);
    h.TooLarge(p - 1, Rounded(2097153) / 8);
    p, fault := h.Krealloc(p, 2097153, _ => 0);
  }

  /** The largest size destroys the heap without a fault. */
  method WipeExample() returns (h: Heap, fault: bool)
    ensures !h.Intact() && !fault
  {
    hide Areas, Separated, KeepsPayloads, Used, LowestFit, Copied, WellFormed;
    h := new Heap(_ => 0);
    ghost var bs: Blocks := h.areas;
    var p := h.Kmalloc(112, _ => 0);
    UsedPutIn(bs, h.areas, p - 1);
    p, fault := h.Krealloc(p, WORD - 1, _ => 0);
  }

  /** A first page that does not come with zeroes. */
  method DirtyExample() returns (h: Heap)
    ensures !h.Intact()
  {
    hide Areas;
    h := new Heap(_ => 1);
  }

  /** A request that makes a well-formed heap grow into pages that do not. */
  method DirtyGrowthExample() returns (h: Heap, p: nat)
    ensures !h.Intact() && p != 0
  {
    hide Areas, Separated, KeepsPayloads, Used, LowestFit, WellFormed;
    h := new Heap(_ => 0);
    p := h.Kmalloc(8000, _ => 1);
    HeaderOf(h.mem, h.heapSize / 8, h.areas, p - 1);
  }

  lemma OnlyFit(bs: Blocks, n: nat)
    requires bs == map[1 := Block(PAGE_WORDS - 2, false)] && n <= PAGE_WORDS - 2
    ensures LowestFit(bs, n, 1)
  {
    assert FreeSet(bs) == {1};
  }
}
