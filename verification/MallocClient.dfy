/**
 Clients of the libc allocator: whole runs of allocations, stores and releases.
 */
module MallocClient {
  import opened Tiling
  import opened FreeList
  import opened MallocChain
  import opened Malloc
  import opened Payloads

  /** What a client does.  Release and Store name a block by the address of its header. */
  datatype Op =
    | Alloc(size: nat, clean: bool, granted: bool)
    | Release(b: nat)
    | Store(b: nat, index: nat, value: Unit)

  /** A store into a payload disturbs neither the chain nor the free list. */
  lemma StoreKeeps(mem: Memory, first: nat, last: nat, bs: Blocks, fl: nat, ll: nat, b: nat, u: nat, value: Unit)
    requires Chain(mem, first, last, bs) && Linked(mem, fl, ll, FreeSet(bs))
    requires b in Used(bs) && b < u < End(bs, b)
    ensures u < |mem|
    ensures Chain(mem[u := value], first, last, bs) && Linked(mem[u := value], fl, ll, FreeSet(bs))
  {
    var m := mem[u := value];
    assert u !in bs && u < last;
    forall c | c in bs ensures Tagged(m, bs, c) {
      Succ(bs, first, last, c);
      assert Tagged(mem, bs, c);
    }
    forall f | f in FreeSet(bs) ensures f + 1 < |mem| && m[f + 1] == mem[f + 1] {
      assert f != b;
      assert f + 1 < End(bs, f) <= last;
    }
    LinkedFrame(mem, m, fl, ll, FreeSet(bs));
  }

  /** Nor does it disturb another payload. */
  lemma StoreApart(mem: Memory, first: nat, last: nat, bs: Blocks, b: nat, u: nat, value: Unit)
    requires Chain(mem, first, last, bs) && b in Used(bs) && b < u < End(bs, b) && u < |mem|
    ensures KeepsPayloads(mem, mem[u := value], Used(bs) - {b}, FOOT)
  {
    var us := Used(bs) - {b};
    forall c, v | c in us && c < v < End(us, c) - FOOT && v < |mem| ensures mem[u := value][v] == mem[v] {
      assert c in bs && bs[c] == us[c] && c != b;
    }
  }

  method DoAllocate(h: Heap, size: nat, clean: bool, granted: bool, live: Shadow<Unit>) returns (live': Shadow<Unit>)
    requires h.Valid() && Agrees(h.mem, Used(h.blocks), live, FOOT) && size < WORD
    modifies h
    ensures h.Valid() && Agrees(h.mem, Used(h.blocks), live', FOOT)
    ensures live' == live || exists b ::
              b !in live && b in live' && live' == live[b := live'[b]] && size <= |live'[b]| * UNIT
  {
    hide Chain, Linked, Separated, KeepsPayloads, Agrees;
    ghost var m0, us := h.mem, Used(h.blocks);
    var ret := h.DoAlloc(size, clean, granted);
    AgreesKeys(m0, us, live, FOOT);
    AgreesAfter(m0, h.mem, us, us, live, live, FOOT);
    live' := live;
    if ret != 0 {
      var b := ret - 1;
      HeaderOf(h.mem, h.firstBlock, h.lastBlock, h.blocks, b);
      var units := h.mem[b].next / 2;
      AgreesWith(h.mem, us, live, b, h.blocks[b], FOOT);
      live' := live[b := h.mem[b + 1..b + units]];
    }
  }

  method DoRelease(h: Heap, b: nat, live: Shadow<Unit>) returns (live': Shadow<Unit>)
    requires h.Valid() && Agrees(h.mem, Used(h.blocks), live, FOOT) && b in live
    modifies h
    ensures h.Valid() && Agrees(h.mem, Used(h.blocks), live', FOOT)
    ensures live' == live - {b}
  {
    hide Chain, Linked, Separated, KeepsPayloads, Agrees;
    ghost var m0, us := h.mem, Used(h.blocks);
    AgreesKeys(m0, us, live, FOOT);
    h.Free(b + 1);
    live' := live - {b};
    AgreesAfter(m0, h.mem, us, Used(h.blocks), live, live', FOOT);
  }

  method DoStore(h: Heap, b: nat, index: nat, value: Unit, live: Shadow<Unit>) returns (live': Shadow<Unit>)
    requires h.Valid() && Agrees(h.mem, Used(h.blocks), live, FOOT) && b in live && index < |live[b]|
    modifies h
    ensures h.Valid() && Agrees(h.mem, Used(h.blocks), live', FOOT)
    ensures live' == live[b := Updated(live[b], index, value)]
  {
    hide Chain, Linked, Separated, Agrees, KeepsPayloads;
    ghost var m0 := h.mem;
    AgreesAt(h.mem, Used(h.blocks), live, b, FOOT);
    StoreKeeps(h.mem, h.firstBlock, h.lastBlock, h.blocks, h.firstFree, h.lastFree, b, b + 1 + index, value);
    StoreApart(h.mem, h.firstBlock, h.lastBlock, h.blocks, b, b + 1 + index, value);
    h.mem := h.mem[b + 1 + index := value];
    live' := live[b := Updated(live[b], index, value)];
    StoreAgrees(m0, h.mem, Used(h.blocks), live, b, index, value, FOOT);
  }

  /** Any run of client operations from a fresh heap.  An operation on a name that is not
      live is not performed; everything else is, in any order and with any sizes. */
  method Run(below: Memory, ops: seq<Op>) returns (h: Heap, live: Shadow<Unit>)
    requires 0 < |below| && |below| % PAGE_UNITS == 0 && |below| + PAGE_UNITS <= MAX_UNITS
    ensures h.Valid() && Agrees(h.mem, Used(h.blocks), live, FOOT)
  {
    h := new Heap(below);
    live := map[];
    for i := 0 to |ops|
      invariant fresh(h) && h.Valid() && Agrees(h.mem, Used(h.blocks), live, FOOT)
    {
      hide Chain, Linked, Separated, Agrees;
      match ops[i]
      case Alloc(size, clean, granted) =>
        live := DoAllocate(h, size % WORD, clean, granted, live);
      case Release(b) =>
        if b in live {
          live := DoRelease(h, b, live);
        }
      case Store(b, index, value) =>
        if b in live && index < |live[b]| {
          live := DoStore(h, b, index, value, live);
        }
    }
  }

  /** Releasing what was just allocated without growing the heap restores the partition. */
  method AllocateRelease(h: Heap, size: nat, clean: bool)
    requires h.Valid() && 0 < size < WORD
    requires exists b: nat :: LowestServing(h.blocks, size, clean, b)
    modifies h
    ensures h.Valid() && h.blocks == old(h.blocks)
  {
    hide Tiles, Chain, Linked, Separated, KeepsPayloads, LowestServing, ServedByGrowth, Exact;
    ghost var bs := h.blocks;
    ChainTiles(h.mem, h.firstBlock, h.lastBlock, h.blocks);
    var ptr := h.DoAlloc(size, clean, false);
    h.Free(ptr);
    ChainTiles(h.mem, h.firstBlock, h.lastBlock, h.blocks);
    assert Used(h.blocks) == Used(bs);
    CanonicalForm(bs, h.blocks, h.firstBlock, h.lastBlock);
  }
}
