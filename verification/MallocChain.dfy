/**
 The block chain of the libc allocator in memory: every block carries its tag
 (size and used bit) in its own header and again in the header of its successor.
 */
module MallocChain {
  import opened Sequences
  import opened Tiling
  import opened FreeList
  import opened Payloads

  /** Blocks have no footer. */
  const FOOT := 0

  function Tag(b: Block): nat {
    2 * b.size + if b.used then 1 else 0
  }

  /** The header after the block at b, by the size in its next word. */
  function NextBlock(mem: Memory, b: nat): nat
    requires b < |mem|
  {
    b + mem[b].next / 2
  }

  /** The tag of block b is stored in its header and in the header that follows it. */
  ghost predicate Tagged(mem: Memory, bs: Blocks, b: nat)
    requires b in bs && b < |mem| && End(bs, b) < |mem|
  {
    mem[b].next == Tag(bs[b]) == mem[End(bs, b)].prev
  }

  /** Memory ends with the sentinel header at last; the blocks tile [first, last). */
  ghost predicate Chain(mem: Memory, first: nat, last: nat, bs: Blocks) {
    && 1 <= first < last && |mem| == last + 1
    && Tiles(bs, first, last)
    && (forall b :: b in bs ==> 2 <= bs[b].size)
    && mem[first].prev == 0 && mem[last].next == 0
    && (forall b {:trigger Tagged(mem, bs, b)} {:trigger bs[b]} :: b in bs ==> Tagged(mem, bs, b))
  }

  /** What the code reads from the header of block b. */
  lemma HeaderOf(mem: Memory, first: nat, last: nat, bs: Blocks, b: nat)
    requires Chain(mem, first, last, bs) && b in bs
    ensures 0 < b && b + 1 < End(bs, b) < |mem|
    ensures mem[b].next == Tag(bs[b]) == mem[End(bs, b)].prev
    ensures NextBlock(mem, b) == End(bs, b)
  {
    assert Tagged(mem, bs, b);
  }

  // ----- What stays when only list links change -----

  lemma LinksAvoidHeaders(mem: Memory, mem': Memory, first: nat, last: nat, bs: Blocks, free: set<nat>)
    requires Chain(mem, first, last, bs) && OnlyLinks(mem, mem', free)
    requires forall f :: f in free ==> f in bs
    ensures Chain(mem', first, last, bs)
  {
    assert forall f :: f in free ==> f + 1 !in bs && f + 1 < End(bs, f) <= last;
    forall b | b in bs ensures Tagged(mem', bs, b) {
      Succ(bs, first, last, b);
      assert Tagged(mem, bs, b);
    }
  }

  lemma LinksAvoidPayloads(mem: Memory, mem': Memory, first: nat, last: nat, bs: Blocks, free: set<nat>)
    requires Chain(mem, first, last, bs) && OnlyLinks(mem, mem', free)
    requires forall f :: f in free ==> f in bs && !bs[f].used
    ensures KeepsPayloads(mem, mem', Used(bs), FOOT)
  {
    forall b, u | b in Used(bs) && b < u < End(Used(bs), b) && u < |mem| ensures mem'[u] == mem[u] {
      assert b in bs && bs[b].used;
      assert u - 1 !in free;
    }
  }

  // ----- Header updates -----

  function TagBlock(mem: Memory, b: nat, size: nat, tag: nat): Memory
    requires b + size < |mem|
  {
    SetPrev(SetNext(mem, b, tag), b + size, tag)
  }

  lemma RetagChain(mem: Memory, first: nat, last: nat, bs: Blocks, b: nat, used: bool)
    requires Chain(mem, first, last, bs) && b in bs
    ensures var block := Block(bs[b].size, used);
            Chain(TagBlock(mem, b, block.size, Tag(block)), first, last, bs[b := block])
  {
    var block := Block(bs[b].size, used);
    var m, cs := TagBlock(mem, b, block.size, Tag(block)), bs[b := block];
    RetagTiles(bs, first, last, b, used);
    forall c | c in cs ensures Tagged(m, cs, c) {
      assert Tagged(mem, bs, c);
      assert c != b ==> End(bs, c) != End(bs, b);
    }
  }

  function SplitTags(mem: Memory, b: nat, size: nat, n: nat): (m: Memory)
    requires 0 < n < size && b + size < |mem|
    ensures |m| == |mem|
    ensures m[b] == mem[b].(next := Tag(Block(n, true)))
    ensures m[b + n] == Unit(Tag(Block(n, true)), Tag(Block(size - n, false)))
    ensures m[b + size] == mem[b + size].(prev := Tag(Block(size - n, false)))
    ensures forall u :: 0 <= u < |mem| && u != b && u != b + n && u != b + size ==> m[u] == mem[u]
  {
    var m1 := SetNext(mem, b, Tag(Block(n, true)));
    var m2 := SetPrev(m1, b + n, m1[b].next);
    var m3 := SetNext(m2, b + n, Tag(Block(size - n, false)));
    SetPrev(m3, b + size, m3[b + n].next)
  }

  lemma SplitChain(mem: Memory, first: nat, last: nat, bs: Blocks, b: nat, n: nat)
    requires Chain(mem, first, last, bs) && b in bs && 2 <= n && n + 2 <= bs[b].size
    ensures Chain(SplitTags(mem, b, bs[b].size, n), first, last, SplitAt(bs, b, n))
  {
    SplitTiles(bs, first, last, b, n);
    var m, cs := SplitTags(mem, b, bs[b].size, n), SplitAt(bs, b, n);
    assert Tagged(m, cs, b) && Tagged(m, cs, b + n);
    forall c | c in bs && c != b ensures Tagged(m, cs, c) {
      SplitOther(mem, m, first, last, bs, b, n, c);
    }
  }

  lemma SplitOther(mem: Memory, m: Memory, first: nat, last: nat, bs: Blocks, b: nat, n: nat, c: nat)
    requires Chain(mem, first, last, bs) && b in bs && 2 <= n && n + 2 <= bs[b].size
    requires m == SplitTags(mem, b, bs[b].size, n)
    requires c in bs && c != b
    ensures c in SplitAt(bs, b, n) && SplitAt(bs, b, n)[c] == bs[c]
    ensures Tagged(m, SplitAt(bs, b, n), c)
  {
    assert Tagged(mem, bs, c);
    assert c != b + n;
    assert End(bs, c) != End(bs, b) && End(bs, c) != b + n;
  }

  lemma JoinChain(mem: Memory, first: nat, last: nat, bs: Blocks, b: nat)
    requires Chain(mem, first, last, bs) && b in bs && End(bs, b) in bs
    ensures var block := Block(bs[b].size + bs[End(bs, b)].size, false);
            && b + block.size < |mem|
            && Chain(TagBlock(mem, b, block.size, Tag(block)), first, last, Joined(bs, b))
  {
    var e := End(bs, b);
    var block := Block(bs[b].size + bs[e].size, false);
    var m, cs := TagBlock(mem, b, block.size, Tag(block)), Joined(bs, b);
    JoinTiles(bs, first, last, b);
    forall c | c in cs ensures Tagged(m, cs, c) {
      if c != b {
        assert Tagged(mem, bs, c);
        assert End(bs, c) != End(bs, e);
      }
    }
  }

  lemma AppendChain(mem: Memory, first: nat, last: nat, bs: Blocks, n: nat, fresh_: Memory)
    requires Chain(mem, first, last, bs) && 2 <= n && |fresh_| == n
    requires fresh_[n - 1].next == 0
    ensures Chain(TagBlock(mem + fresh_, last, n, Tag(Block(n, false))), first, last + n, bs[last := Block(n, false)])
  {
    var m, cs := TagBlock(mem + fresh_, last, n, Tag(Block(n, false))), bs[last := Block(n, false)];
    AppendTiles(bs, first, last, n, false);
    forall c | c in cs ensures Tagged(m, cs, c) {
      if c != last {
        assert Tagged(mem, bs, c);
      }
    }
  }

  // ----- Header updates leave links and payloads alone -----

  lemma TagKeepsPayloads(mem: Memory, first: nat, last: nat, bs: Blocks, b: nat, size: nat, tag: nat)
    requires Chain(mem, first, last, bs)
    requires b in bs || (exists f :: f in bs && !bs[f].used && f < b < End(bs, f))
    requires b + size in bs || b + size == last || (exists f :: f in bs && !bs[f].used && f < b + size < End(bs, f))
    ensures KeepsPayloads(mem, TagBlock(mem, b, size, tag), Used(bs), FOOT)
  {
    var m := TagBlock(mem, b, size, tag);
    forall c, u | c in Used(bs) && c < u < End(Used(bs), c) && u < |mem| ensures m[u] == mem[u] {
      assert c in bs && bs[c].used;
      assert u != b && u != b + size;
    }
  }

  lemma SplitKeepsPayloads(mem: Memory, first: nat, last: nat, bs: Blocks, b: nat, n: nat)
    requires Chain(mem, first, last, bs) && b in bs && !bs[b].used && 0 < n < bs[b].size
    ensures KeepsPayloads(mem, SplitTags(mem, b, bs[b].size, n), Used(bs), FOOT)
  {
    var m := SplitTags(mem, b, bs[b].size, n);
    forall c, u | c in Used(bs) && c < u < End(Used(bs), c) && u < |mem| ensures m[u] == mem[u] {
      assert c in bs && bs[c].used && c != b;
    }
  }

  /** Relinking free blocks keeps the chain and every payload. */
  lemma Relink(mem: Memory, mem': Memory, first: nat, last: nat, bs: Blocks)
    requires Chain(mem, first, last, bs) && OnlyLinks(mem, mem', FreeSet(bs))
    ensures Chain(mem', first, last, bs) && KeepsPayloads(mem, mem', Used(bs), FOOT)
  {
    LinksAvoidHeaders(mem, mem', first, last, bs, FreeSet(bs));
    LinksAvoidPayloads(mem, mem', first, last, bs, FreeSet(bs));
  }

  // ----- The three changes of the partition, with free list and payloads -----

  /** Block b changes its used bit. */
  lemma RetagStep(mem: Memory, first: nat, last: nat, bs: Blocks, b: nat, used: bool, fl: nat, ll: nat, free: set<nat>)
    requires Chain(mem, first, last, bs) && b in bs
    requires Linked(mem, fl, ll, free) && forall f :: f in free ==> f in bs
    ensures var block := Block(bs[b].size, used);
            var m := TagBlock(mem, b, block.size, Tag(block));
            && Chain(m, first, last, bs[b := block])
            && Linked(m, fl, ll, free)
            && KeepsPayloads(mem, m, Used(bs), FOOT)
  {
    var block := Block(bs[b].size, used);
    var m := TagBlock(mem, b, block.size, Tag(block));
    RetagChain(mem, first, last, bs, b, used);
    Succ(bs, first, last, b);
    TagKeepsPayloads(mem, first, last, bs, b, block.size, Tag(block));
    TagAvoidsLinks(mem, first, last, bs, b, block.size, Tag(block), free);
    LinkedFrame(mem, m, fl, ll, free);
  }

  lemma TagAvoidsLinks(mem: Memory, first: nat, last: nat, bs: Blocks, b: nat, size: nat, tag: nat, free: set<nat>)
    requires Chain(mem, first, last, bs) && b in bs && (b + size in bs || b + size == last)
    requires forall f :: f in free ==> f in bs
    ensures forall f :: f in free ==> f + 1 < |mem| && TagBlock(mem, b, size, tag)[f + 1] == mem[f + 1]
  {
    forall f | f in free ensures f + 1 < |mem| && TagBlock(mem, b, size, tag)[f + 1] == mem[f + 1] {
      assert f + 1 < End(bs, f) <= last;
      assert f + 1 !in bs;
    }
  }

  /** Blocks b and the one after it become one free block. */
  lemma JoinStep(mem: Memory, first: nat, last: nat, bs: Blocks, b: nat, fl: nat, ll: nat, free: set<nat>)
    requires Chain(mem, first, last, bs) && b in bs && End(bs, b) in bs
    requires Linked(mem, fl, ll, free) && forall f :: f in free ==> f in bs
    ensures var block := Block(bs[b].size + bs[End(bs, b)].size, false);
            && b + block.size < |mem|
            && var m := TagBlock(mem, b, block.size, Tag(block));
               && Chain(m, first, last, Joined(bs, b))
               && Linked(m, fl, ll, free)
               && KeepsPayloads(mem, m, Used(bs), FOOT)
  {
    var block := Block(bs[b].size + bs[End(bs, b)].size, false);
    JoinChain(mem, first, last, bs, b);
    var m := TagBlock(mem, b, block.size, Tag(block));
    Succ(bs, first, last, End(bs, b));
    TagKeepsPayloads(mem, first, last, bs, b, block.size, Tag(block));
    TagAvoidsLinks(mem, first, last, bs, b, block.size, Tag(block), free);
    LinkedFrame(mem, m, fl, ll, free);
  }

  /** The partition facts of a join, read off the chain. */
  lemma JoinBlocks(mem: Memory, first: nat, last: nat, bs: Blocks, b: nat)
    requires Chain(mem, first, last, bs) && b in FreeSet(bs) && End(bs, b) in FreeSet(bs)
    ensures FreeSet(Joined(bs, b)) == FreeSet(bs) - {End(bs, b)}
    ensures Used(Joined(bs, b)) == Used(bs)
    ensures SeparatedBut(bs, End(bs, b)) ==> SeparatedAbove(Joined(bs, b), b)
    ensures SeparatedAbove(bs, b) ==> Separated(Joined(bs, b))
  {
    JoinSets(bs, first, last, b);
  }

  /** The partition facts of a split, read off the chain. */
  lemma SplitBlocks(mem: Memory, first: nat, last: nat, bs: Blocks, b: nat, n: nat)
    requires Chain(mem, first, last, bs) && b in FreeSet(bs) && 0 < n < bs[b].size
    ensures b + n !in bs && b + bs[b].size <= last
    ensures forall f :: f in bs && b < f ==> b + n < f
    ensures var cs := SplitAt(bs, b, n);
            && FreeSet(cs) == FreeSet(bs) - {b} + {b + n}
            && Used(cs) == Used(bs)[b := Block(n, true)]
            && (Separated(bs) ==> Separated(cs))
  {
    SplitSets(bs, first, last, b, n);
  }

  /** Free block b is cut after n units. */
  lemma SplitStep(mem: Memory, first: nat, last: nat, bs: Blocks, b: nat, n: nat, fl: nat, ll: nat, free: set<nat>)
    requires Chain(mem, first, last, bs) && b in FreeSet(bs) && 2 <= n && n + 2 <= bs[b].size
    requires Linked(mem, fl, ll, free) && forall f :: f in free ==> f in bs
    ensures var m := SplitTags(mem, b, bs[b].size, n);
            && Chain(m, first, last, SplitAt(bs, b, n))
            && Linked(m, fl, ll, free)
            && KeepsPayloads(mem, m, Used(bs), FOOT)
  {
    var m := SplitTags(mem, b, bs[b].size, n);
    SplitChain(mem, first, last, bs, b, n);
    SplitKeepsPayloads(mem, first, last, bs, b, n);
    forall f | f in free ensures f + 1 < |mem| && m[f + 1] == mem[f + 1] {
      assert f + 1 < End(bs, f) <= last;
      assert f + 1 !in bs;
    }
    LinkedFrame(mem, m, fl, ll, free);
  }

  function Zeros(n: nat): Memory {
    seq(n, _ => Unit(0, 0))
  }

  /** The heap grows by n units: the old sentinel becomes the header of a free block. */
  lemma GrowStep(mem: Memory, first: nat, last: nat, bs: Blocks, n: nat, fl: nat, ll: nat)
    requires Chain(mem, first, last, bs) && Linked(mem, fl, ll, FreeSet(bs)) && Separated(bs) && 2 <= n
    ensures var m, cs := TagBlock(mem + Zeros(n), last, n, Tag(Block(n, false))), bs[last := Block(n, false)];
            && Chain(m, first, last + n, cs)
            && last !in bs && FreeSet(cs) == FreeSet(bs) + {last} && Used(cs) == Used(bs)
            && SeparatedBut(cs, last)
            && Linked(m, fl, ll, FreeSet(bs))
            && KeepsPayloads(mem, m, Used(bs), FOOT)
  {
    var m, cs := TagBlock(mem + Zeros(n), last, n, Tag(Block(n, false))), bs[last := Block(n, false)];
    AppendChain(mem, first, last, bs, n, Zeros(n));
    AppendSets(bs, first, last, n);
    GrowKeeps(mem, first, last, bs, n);
    LinkedFrame(mem, m, fl, ll, FreeSet(bs));
  }

  lemma GrowKeeps(mem: Memory, first: nat, last: nat, bs: Blocks, n: nat)
    requires Chain(mem, first, last, bs) && 2 <= n
    ensures var m := TagBlock(mem + Zeros(n), last, n, Tag(Block(n, false)));
            && (forall f :: f in bs ==> f + 1 < |mem| && m[f + 1] == mem[f + 1])
            && KeepsPayloads(mem, m, Used(bs), FOOT)
  {
    hide Covered;
    var m := TagBlock(mem + Zeros(n), last, n, Tag(Block(n, false)));
    assert forall u :: 0 <= u < last ==> m[u] == mem[u];
    forall b, u | b in Used(bs) && b < u < End(Used(bs), b) && u < |mem| ensures m[u] == mem[u] {
      assert End(bs, b) <= last;
    }
  }

  lemma ChainTiles(mem: Memory, first: nat, last: nat, bs: Blocks)
    requires Chain(mem, first, last, bs)
    ensures Tiles(bs, first, last) && first < last
  {
  }

  // ----- The chain as the code walks it -----

  /** The blocks met from b upwards by adding to each address the size in its next word. */
  ghost function WalkUp(mem: Memory, first: nat, last: nat, bs: Blocks, b: nat): (s: seq<nat>)
    requires Chain(mem, first, last, bs) && (b in bs || b == last)
    decreases last - b
  {
    if b == last then [] else
      HeaderOf(mem, first, last, bs, b);
      Succ(bs, first, last, b);
      [b] + WalkUp(mem, first, last, bs, NextBlock(mem, b))
  }

  lemma {:induction false} WalkUpIs(mem: Memory, first: nat, last: nat, bs: Blocks, b: nat)
    requires Chain(mem, first, last, bs) && (b in bs || b == last)
    ensures WalkUp(mem, first, last, bs, b) == Walk(bs, first, last, b)
    decreases last - b
  {
    hide Chain, Tiles, NextBlock;
    ChainTiles(mem, first, last, bs);
    if b != last {
      HeaderOf(mem, first, last, bs, b);
      Succ(bs, first, last, b);
      TilesRange(bs, first, last, b);
      WalkUpIs(mem, first, last, bs, End(bs, b));
    }
  }

  /** Walking the chain from the first block meets every block once, in address order, and
      their sizes add up to the whole heap. */
  lemma ChainWalk(mem: Memory, first: nat, last: nat, bs: Blocks)
    requires Chain(mem, first, last, bs)
    ensures first in bs
    ensures var s := WalkUp(mem, first, last, bs, first);
            && Increasing(s)
            && (forall c :: c in s <==> c in bs)
            && TotalSize(bs, s) == last - first
  {
    WalkAll(bs, first, last);
    WalkUpIs(mem, first, last, bs, first);
  }
}
