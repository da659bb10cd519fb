/**
 Partitions of an address range into blocks.

 Both allocators of the system (the libc heap and the kernel heap) keep a chain of
 blocks that must cover their whole range with no gap and no overlap.  A partition is
 a map from the start address of each block to its size and its used bit; what it
 means to be a partition is said unit by unit, without mentioning any order, and the
 successor, the predecessor, the in-order walk and the total size are derived.
 */
module Tiling {
  import opened Sequences

  datatype Block = Block(size: nat, used: bool)

  type Blocks = map<nat, Block>

  function End(bs: Blocks, b: nat): nat
    requires b in bs
  {
    b + bs[b].size
  }

  ghost predicate Covered(bs: Blocks, x: nat) {
    exists b :: b in bs && b <= x < End(bs, b)
  }

  ghost predicate InRange(bs: Blocks, lo: nat, hi: nat) {
    forall b :: b in bs ==> lo <= b < End(bs, b) <= hi
  }

  ghost predicate Disjoint(bs: Blocks) {
    forall b, c :: b in bs && c in bs && b < c ==> End(bs, b) <= c
  }

  /** Every unit of [lo, hi) lies in exactly one block, and no block leaves the range. */
  ghost predicate Tiles(bs: Blocks, lo: nat, hi: nat) {
    && InRange(bs, lo, hi)
    && Disjoint(bs)
    && forall x {:trigger Covered(bs, x)} :: lo <= x < hi ==> Covered(bs, x)
  }

  function FreeSet(bs: Blocks): set<nat> {
    set b | b in bs && !bs[b].used
  }

  /** The blocks in use: what an allocator owes to its clients. */
  function Used(bs: Blocks): Blocks {
    map b | b in bs && bs[b].used :: bs[b]
  }

  /** No two free blocks touch: every coalescing that was possible has been done. */
  ghost predicate Separated(bs: Blocks) {
    forall b, c :: b in FreeSet(bs) && c in FreeSet(bs) ==> End(bs, b) != c
  }

  /** The range up to last ends with the free block at start, or start is last and it ends with
      a block in use. */
  ghost predicate TailAt(bs: Blocks, last: nat, start: nat) {
    if start == last then forall b :: b in FreeSet(bs) ==> End(bs, b) != last
    else start in FreeSet(bs) && End(bs, start) == last
  }

  // ----- Neighbours -----

  lemma Succ(bs: Blocks, lo: nat, hi: nat, b: nat)
    requires Tiles(bs, lo, hi) && b in bs
    ensures End(bs, b) == hi || End(bs, b) in bs
  {
    if End(bs, b) < hi {
      assert Covered(bs, End(bs, b));
      var c :| c in bs && c <= End(bs, b) < End(bs, c);
    }
  }

  lemma Pred(bs: Blocks, lo: nat, hi: nat, b: nat) returns (p: nat)
    requires Tiles(bs, lo, hi) && lo < b && (b in bs || b == hi)
    ensures p in bs && End(bs, p) == b
  {
    assert Covered(bs, b - 1);
    p :| p in bs && p <= b - 1 < End(bs, p);
  }

  // ----- The blocks in order -----

  /** The blocks met by going from b to the end of each block in turn. */
  ghost function Walk(bs: Blocks, lo: nat, hi: nat, b: nat): (s: seq<nat>)
    requires Tiles(bs, lo, hi) && (b in bs || b == hi)
    decreases hi - b
  {
    if b == hi then [] else
      Succ(bs, lo, hi, b);
      [b] + Walk(bs, lo, hi, End(bs, b))
  }

  ghost function TotalSize(bs: Blocks, s: seq<nat>): nat
    requires forall b :: b in s ==> b in bs
  {
    if s == [] then 0 else bs[s[0]].size + TotalSize(bs, s[1..])
  }

  lemma {:induction false} WalkIs(bs: Blocks, lo: nat, hi: nat, b: nat)
    requires Tiles(bs, lo, hi) && (b in bs || b == hi)
    ensures var s := Walk(bs, lo, hi, b);
            && Increasing(s)
            && (forall c :: c in s <==> c in bs && b <= c)
            && TotalSize(bs, s) == hi - b
    decreases hi - b
  {
    if b != hi {
      Succ(bs, lo, hi, b);
      WalkIs(bs, lo, hi, End(bs, b));
      WalkStep(bs, lo, hi, b, Walk(bs, lo, hi, End(bs, b)));
    }
  }

  lemma WalkStep(bs: Blocks, lo: nat, hi: nat, b: nat, t: seq<nat>)
    requires Tiles(bs, lo, hi) && b in bs && Increasing(t)
    requires forall c :: c in t <==> c in bs && End(bs, b) <= c
    ensures Increasing([b] + t)
    ensures forall c :: c in [b] + t <==> c in bs && b <= c
    ensures TotalSize(bs, [b] + t) == bs[b].size + TotalSize(bs, t)
  {
    assert ([b] + t)[1..] == t;
    forall i | 0 <= i < |t| ensures b < t[i] {
      assert t[i] in t;
    }
    forall c ensures c in [b] + t <==> c in bs && b <= c {
      assert c in [b] + t <==> c == b || c in t;
    }
  }

  /** The walk from the bottom meets every block once, in address order, and the sizes
      add up to the whole range. */
  lemma WalkAll(bs: Blocks, lo: nat, hi: nat)
    requires Tiles(bs, lo, hi) && lo < hi
    ensures lo in bs
    ensures var s := Walk(bs, lo, hi, lo);
            && Increasing(s)
            && (forall c :: c in s <==> c in bs)
            && TotalSize(bs, s) == hi - lo
  {
    assert Covered(bs, lo);
    WalkIs(bs, lo, hi, lo);
  }

  // ----- Operations on partitions -----

  lemma RetagTiles(bs: Blocks, lo: nat, hi: nat, b: nat, used: bool)
    requires Tiles(bs, lo, hi) && b in bs
    ensures Tiles(bs[b := Block(bs[b].size, used)], lo, hi)
  {
    var cs := bs[b := Block(bs[b].size, used)];
    assert forall c :: c in bs <==> c in cs;
    assert forall c :: c in bs ==> End(cs, c) == End(bs, c);
    forall x | lo <= x < hi ensures Covered(cs, x) {
      assert Covered(bs, x);
      var c :| c in bs && c <= x < End(bs, c);
      assert c in cs && c <= x < End(cs, c);
    }
  }

  function SplitAt(bs: Blocks, b: nat, n: nat): Blocks
    requires b in bs && n < bs[b].size
  {
    bs[b := Block(n, true)][b + n := Block(bs[b].size - n, false)]
  }

  lemma SplitTiles(bs: Blocks, lo: nat, hi: nat, b: nat, n: nat)
    requires Tiles(bs, lo, hi) && b in bs && 0 < n < bs[b].size
    ensures b + n !in bs
    ensures Tiles(SplitAt(bs, b, n), lo, hi)
  {
    var cs := SplitAt(bs, b, n);
    assert InRange(cs, lo, hi) && Disjoint(cs) by { SplitOrder(bs, lo, hi, b, n); }
    forall x | lo <= x < hi ensures Covered(cs, x) {
      assert Covered(bs, x);
      var c :| c in bs && c <= x < End(bs, c);
      var d := if c != b || x < b + n then c else b + n;
      assert b + n !in bs;
      assert d in cs && d <= x < End(cs, d);
    }
  }

  lemma SplitOrder(bs: Blocks, lo: nat, hi: nat, b: nat, n: nat)
    requires InRange(bs, lo, hi) && Disjoint(bs) && b in bs && 0 < n < bs[b].size
    ensures InRange(SplitAt(bs, b, n), lo, hi) && Disjoint(SplitAt(bs, b, n))
  {
    var cs := SplitAt(bs, b, n);
    assert b + n !in bs;
    forall c, d | c in cs && d in cs && c < d ensures End(cs, c) <= d {
      var c0 := if c == b + n then b else c;
      var d0 := if d == b + n then b else d;
      assert c0 in bs && d0 in bs;
      assert c0 < d0 ==> End(cs, c) <= End(bs, c0);
    }
  }

  function Joined(bs: Blocks, b: nat): Blocks
    requires b in bs && End(bs, b) in bs
  {
    bs[b := Block(bs[b].size + bs[End(bs, b)].size, false)] - {End(bs, b)}
  }

  lemma JoinTiles(bs: Blocks, lo: nat, hi: nat, b: nat)
    requires Tiles(bs, lo, hi) && b in bs && End(bs, b) in bs
    ensures Tiles(Joined(bs, b), lo, hi)
    ensures b in Joined(bs, b) && End(Joined(bs, b), b) == End(bs, End(bs, b))
  {
    var cs, e := Joined(bs, b), End(bs, b);
    assert InRange(cs, lo, hi) && Disjoint(cs) by { JoinOrder(bs, lo, hi, b); }
    forall x | lo <= x < hi ensures Covered(cs, x) {
      assert Covered(bs, x);
      var c :| c in bs && c <= x < End(bs, c);
      var d := if c == e then b else c;
      assert d in cs && d <= x < End(cs, d);
    }
  }

  lemma JoinOrder(bs: Blocks, lo: nat, hi: nat, b: nat)
    requires InRange(bs, lo, hi) && Disjoint(bs) && b in bs && End(bs, b) in bs
    ensures InRange(Joined(bs, b), lo, hi) && Disjoint(Joined(bs, b))
  {
    var cs, e := Joined(bs, b), End(bs, b);
    forall c, d | c in cs && d in cs && c < d ensures End(cs, c) <= d {
      assert c in bs && d in bs && d != e;
      if c == b { assert e < d; }
    }
  }

  lemma AppendTiles(bs: Blocks, lo: nat, hi: nat, n: nat, used: bool)
    requires Tiles(bs, lo, hi) && lo <= hi && 0 < n
    ensures hi !in bs
    ensures Tiles(bs[hi := Block(n, used)], lo, hi + n)
  {
    var cs := bs[hi := Block(n, used)];
    assert hi !in bs;
    assert forall c :: c in bs ==> c in cs && End(cs, c) == End(bs, c);
    forall x | lo <= x < hi + n ensures Covered(cs, x) {
      if x < hi {
        assert Covered(bs, x);
        var c :| c in bs && c <= x < End(bs, c);
        assert c in cs && c <= x < End(cs, c);
      } else {
        assert hi in cs && hi <= x < End(cs, hi);
      }
    }
  }

  // ----- Free and used blocks after an operation -----

  /** Free blocks may touch only where s is one of the two. */
  ghost predicate SeparatedBut(bs: Blocks, s: nat) {
    forall b, c :: b in FreeSet(bs) && c in FreeSet(bs) && End(bs, b) == c ==> b == s || c == s
  }

  /** Free blocks may touch only at the end of s. */
  ghost predicate SeparatedAbove(bs: Blocks, s: nat) {
    forall b, c :: b in FreeSet(bs) && c in FreeSet(bs) && End(bs, b) == c ==> b == s
  }

  lemma AllocateSets(bs: Blocks, b: nat)
    requires b in FreeSet(bs)
    ensures var cs := bs[b := Block(bs[b].size, true)];
            && FreeSet(cs) == FreeSet(bs) - {b}
            && Used(cs) == Used(bs)[b := cs[b]]
            && (Separated(bs) ==> Separated(cs))
  {
    var cs := bs[b := Block(bs[b].size, true)];
    assert FreeSet(cs) == FreeSet(bs) - {b};
    assert forall c :: c in FreeSet(cs) ==> End(cs, c) == End(bs, c);
  }

  lemma ReleaseSets(bs: Blocks, b: nat)
    requires b in bs && bs[b].used
    ensures var cs := bs[b := Block(bs[b].size, false)];
            && FreeSet(cs) == FreeSet(bs) + {b}
            && Used(cs) == Used(bs) - {b}
            && (Separated(bs) ==> SeparatedBut(cs, b))
  {
    var cs := bs[b := Block(bs[b].size, false)];
    assert FreeSet(cs) == FreeSet(bs) + {b};
    assert forall c :: c in FreeSet(cs) ==> End(cs, c) == End(bs, c);
  }

  lemma SplitSets(bs: Blocks, lo: nat, hi: nat, b: nat, n: nat)
    requires Tiles(bs, lo, hi) && b in FreeSet(bs) && 0 < n < bs[b].size
    ensures b + n !in bs
    ensures var cs := SplitAt(bs, b, n);
            && FreeSet(cs) == FreeSet(bs) - {b} + {b + n}
            && Used(cs) == Used(bs)[b := Block(n, true)]
            && (Separated(bs) ==> Separated(cs))
  {
    var cs := SplitAt(bs, b, n);
    assert b + n !in bs;
    assert FreeSet(cs) == FreeSet(bs) - {b} + {b + n};
    if Separated(bs) {
      forall c, d | c in FreeSet(cs) && d in FreeSet(cs) ensures End(cs, c) != d {
        var c0 := if c == b + n then b else c;
        assert c0 in FreeSet(bs) && End(cs, c) == End(bs, c0);
        assert d in FreeSet(bs) || (d == b + n && b in FreeSet(bs));
      }
    }
  }

  lemma JoinSets(bs: Blocks, lo: nat, hi: nat, b: nat)
    requires Tiles(bs, lo, hi) && b in FreeSet(bs) && End(bs, b) in FreeSet(bs)
    ensures FreeSet(Joined(bs, b)) == FreeSet(bs) - {End(bs, b)}
    ensures Used(Joined(bs, b)) == Used(bs)
    ensures SeparatedBut(bs, End(bs, b)) ==> SeparatedAbove(Joined(bs, b), b)
    ensures SeparatedAbove(bs, b) ==> Separated(Joined(bs, b))
  {
    var cs := Joined(bs, b);
    assert FreeSet(cs) == FreeSet(bs) - {End(bs, b)};
    assert End(cs, b) == End(bs, End(bs, b));
    assert forall c :: c in FreeSet(cs) && c != b ==> End(cs, c) == End(bs, c);
  }

  lemma AppendSets(bs: Blocks, lo: nat, hi: nat, n: nat)
    requires Tiles(bs, lo, hi) && Separated(bs)
    ensures hi !in bs
    ensures var cs := bs[hi := Block(n, false)];
            FreeSet(cs) == FreeSet(bs) + {hi} && Used(cs) == Used(bs) && SeparatedBut(cs, hi)
  {
    var cs := bs[hi := Block(n, false)];
    assert FreeSet(cs) == FreeSet(bs) + {hi};
    assert forall b :: b in bs ==> End(cs, b) == End(bs, b);
  }

  // ----- Replacing a stretch of blocks -----

  /** s is the start of a block or the end of the range. */
  predicate Boundary(bs: Blocks, hi: nat, s: nat) {
    s in bs || s == hi
  }

  /** The blocks of [s, e) give way to those of part. */
  function Replace(bs: Blocks, s: nat, e: nat, part: Blocks): Blocks {
    (map b | b in bs && !(s <= b < e) :: bs[b]) + part
  }

  lemma ReplaceTiles(bs: Blocks, lo: nat, hi: nat, s: nat, e: nat, part: Blocks)
    requires Tiles(bs, lo, hi) && Tiles(part, s, e) && lo <= s <= e <= hi
    requires Boundary(bs, hi, s) && Boundary(bs, hi, e)
    ensures Tiles(Replace(bs, s, e, part), lo, hi)
  {
    var cs := Replace(bs, s, e, part);
    ReplaceOrder(bs, lo, hi, s, e, part);
    forall x | lo <= x < hi ensures Covered(cs, x) {
      if s <= x < e {
        assert Covered(part, x);
        var c :| c in part && c <= x < End(part, c);
        assert c in cs && c <= x < End(cs, c);
      } else {
        assert Covered(bs, x);
        var c :| c in bs && c <= x < End(bs, c);
        assert c in cs && c <= x < End(cs, c);
      }
    }
  }

  lemma ReplaceOrder(bs: Blocks, lo: nat, hi: nat, s: nat, e: nat, part: Blocks)
    requires InRange(bs, lo, hi) && Disjoint(bs) && InRange(part, s, e) && Disjoint(part) && lo <= s <= e <= hi
    requires Boundary(bs, hi, s) && Boundary(bs, hi, e)
    ensures InRange(Replace(bs, s, e, part), lo, hi) && Disjoint(Replace(bs, s, e, part))
    ensures forall b :: b in bs && b < s ==> End(bs, b) <= s
  {
    var cs := Replace(bs, s, e, part);
    assert forall b :: b in bs && b < s ==> End(bs, b) <= s;
    forall b, c | b in cs && c in cs && b < c ensures End(cs, b) <= c {
      assert b in part || b in bs;
      assert c in part || c in bs;
    }
  }

  lemma OneBlock(s: nat, e: nat, used: bool)
    requires s < e
    ensures Tiles(map[s := Block(e - s, used)], s, e)
  {
    var part := map[s := Block(e - s, used)];
    forall x | s <= x < e ensures Covered(part, x) {
      assert s in part && s <= x < End(part, s);
    }
  }

  lemma TwoBlocks(s: nat, m: nat, e: nat, used: bool, used': bool)
    requires s < m < e
    ensures Tiles(map[s := Block(m - s, used), m := Block(e - m, used')], s, e)
  {
    var part := map[s := Block(m - s, used), m := Block(e - m, used')];
    forall x | s <= x < e ensures Covered(part, x) {
      var c := if x < m then s else m;
      assert c in part && c <= x < End(part, c);
    }
  }

  /** The joints of a replacement: the old blocks that touch a free part are not free. */
  ghost predicate Joints(bs: Blocks, s: nat, e: nat, part: Blocks) {
    && (forall b, c :: b in FreeSet(bs) && c in FreeSet(bs) && End(bs, b) == c ==> s <= b < e || s <= c < e)
    && (s in FreeSet(part) ==> forall b :: b in FreeSet(bs) ==> End(bs, b) != s)
    && (forall b :: b in FreeSet(part) && End(part, b) == e ==> e !in FreeSet(bs))
  }

  lemma ReplaceApart(bs: Blocks, lo: nat, hi: nat, s: nat, e: nat, part: Blocks, b: nat, c: nat)
    requires InRange(bs, lo, hi) && InRange(part, s, e) && Separated(part) && Joints(bs, s, e, part)
    requires forall d :: d in bs && d < s ==> End(bs, d) <= s
    requires b in FreeSet(Replace(bs, s, e, part)) && c in FreeSet(Replace(bs, s, e, part))
    ensures End(Replace(bs, s, e, part), b) != c
  {
    if b in part {
      assert b in FreeSet(part);
      if c in part {
        assert c in FreeSet(part);
      } else {
        assert c in FreeSet(bs);
      }
    } else {
      assert b in FreeSet(bs);
      if c in part {
        assert c in FreeSet(part);
      } else {
        assert c in FreeSet(bs);
      }
    }
  }

  lemma ReplaceSeparated(bs: Blocks, lo: nat, hi: nat, s: nat, e: nat, part: Blocks)
    requires InRange(bs, lo, hi) && Disjoint(bs) && InRange(part, s, e) && Separated(part)
    requires Boundary(bs, hi, s) && lo <= s <= e <= hi && Joints(bs, s, e, part)
    ensures Separated(Replace(bs, s, e, part))
  {
    hide Joints, Separated;
    forall b, c | b in FreeSet(Replace(bs, s, e, part)) && c in FreeSet(Replace(bs, s, e, part))
      ensures End(Replace(bs, s, e, part), b) != c
    {
      ReplaceApart(bs, lo, hi, s, e, part, b, c);
    }
    SeparatedIntro(Replace(bs, s, e, part));
  }

  lemma SeparatedIntro(bs: Blocks)
    requires forall b, c :: b in FreeSet(bs) && c in FreeSet(bs) ==> End(bs, b) != c
    ensures Separated(bs)
  {
  }

  lemma ReplaceUsed(bs: Blocks, s: nat, e: nat, part: Blocks)
    requires forall b :: b in part ==> s <= b < e
    ensures Used(Replace(bs, s, e, part)) == Replace(Used(bs), s, e, Used(part))
  {
  }

  /** In a stretch where only h may be in use, replacing the used blocks replaces h. */
  lemma StretchUsed(bs: Blocks, s: nat, e: nat, h: nat, part: Blocks)
    requires forall b :: b in bs && s <= b < e ==> b == h || !bs[b].used
    requires s <= h < e && forall b :: b in part ==> s <= b < e
    ensures Used(Replace(bs, s, e, part)) == (Used(bs) - {h}) + Used(part)
    ensures Replace(Used(bs), s, e, map[]) == Used(bs) - {h}
  {
    hide Used, Replace;
    ReplaceUsed(bs, s, e, part);
    StretchGone(bs, s, e, h);
    ReplacePlus(Used(bs), s, e, Used(part));
  }

  lemma StretchGone(bs: Blocks, s: nat, e: nat, h: nat)
    requires s <= h < e && forall b :: b in bs && s <= b < e ==> b == h || !bs[b].used
    ensures Replace(Used(bs), s, e, map[]) == Used(bs) - {h}
  {
  }

  lemma ReplacePlus(us: Blocks, s: nat, e: nat, part: Blocks)
    ensures Replace(us, s, e, part) == Replace(us, s, e, map[]) + part
  {
  }

  lemma ReplaceStretch(bs: Blocks, lo: nat, hi: nat, s: nat, e: nat, h: nat, part: Blocks)
    requires Tiles(bs, lo, hi) && Tiles(part, s, e) && lo <= s <= h < e <= hi
    requires Boundary(bs, hi, s) && Boundary(bs, hi, e)
    requires Separated(part) && Joints(bs, s, e, part)
    requires forall b :: b in bs && s <= b < e ==> b == h || !bs[b].used
    ensures var cs := Replace(bs, s, e, part);
            && Tiles(cs, lo, hi) && Separated(cs)
            && Used(cs) == (Used(bs) - {h}) + Used(part)
    ensures Replace(Used(bs), s, e, map[]) == Used(bs) - {h}
  {
    hide Separated, Joints, Covered, Disjoint;
    ReplaceTiles(bs, lo, hi, s, e, part);
    ReplaceSeparated(bs, lo, hi, s, e, part);
    StretchUsed(bs, s, e, h, part);
  }

  lemma TilesRange(bs: Blocks, lo: nat, hi: nat, b: nat)
    requires Tiles(bs, lo, hi) && b in bs
    ensures lo <= b < End(bs, b) <= hi
    ensures forall c :: c in bs && b <= c < End(bs, b) ==> c == b
  {
  }

  lemma FreeUnused(bs: Blocks, h: nat)
    requires h in FreeSet(bs)
    ensures h !in Used(bs) && Used(bs) - {h} == Used(bs)
  {
  }

  lemma PutBack(us: Blocks, h: nat, block: Block)
    ensures (us - {h}) + map[h := block] == us[h := block]
  {
  }

  lemma TakeJoints(bs: Blocks, h: nat, part: Blocks)
    requires Separated(bs) && h in bs && part == map[h := Block(bs[h].size, true)]
    ensures Separated(part) && Joints(bs, h, End(bs, h), part) && Used(part) == part
  {
    assert FreeSet(part) == {};
  }

  lemma ResizeJoints(bs: Blocks, h: nat, m: nat, e: nat, part: Blocks)
    requires Separated(bs) && h < m < e && e !in FreeSet(bs)
    requires part == map[h := Block(m - h, true), m := Block(e - m, false)]
    ensures Separated(part) && Joints(bs, h, e, part) && Used(part) == map[h := Block(m - h, true)]
  {
    assert FreeSet(part) == {m};
  }

  lemma ReleaseJoints(bs: Blocks, s: nat, e: nat, part: Blocks)
    requires Separated(bs) && s < e && part == map[s := Block(e - s, false)]
    requires e !in FreeSet(bs) && forall b :: b in FreeSet(bs) ==> End(bs, b) != s
    ensures Separated(part) && Joints(bs, s, e, part) && Used(part) == map[]
  {
    assert FreeSet(part) == {s};
  }

  /** A free block is taken whole. */
  lemma TakeBlocks(bs: Blocks, lo: nat, hi: nat, h: nat)
    requires Tiles(bs, lo, hi) && Separated(bs) && h in FreeSet(bs)
    ensures var cs := Replace(bs, h, End(bs, h), map[h := Block(bs[h].size, true)]);
            Separated(cs) && Used(cs) == Used(bs)[h := Block(bs[h].size, true)]
    ensures Replace(Used(bs), h, End(bs, h), map[]) == Used(bs)
  {
    var e, part := End(bs, h), map[h := Block(bs[h].size, true)];
    hide Separated, Joints, Tiles;
    hide Replace, Used;
    TakeJoints(bs, h, part);
    TilesRange(bs, lo, hi, h);
    OneBlock(h, e, true);
    Succ(bs, lo, hi, h);
    ReplaceStretch(bs, lo, hi, h, e, h, part);
    FreeUnused(bs, h);
    PutBack(Used(bs), h, part[h]);
  }

  /** Block h and the free blocks above it up to e become a block in use and a free rest. */
  lemma ResizeBlocks(bs: Blocks, lo: nat, hi: nat, h: nat, m: nat, e: nat)
    requires Tiles(bs, lo, hi) && Separated(bs) && h in bs && h < m < e <= hi
    requires forall b :: b in bs && h < b < e ==> !bs[b].used
    requires Boundary(bs, hi, e) && e !in FreeSet(bs)
    ensures var cs := Replace(bs, h, e, map[h := Block(m - h, true), m := Block(e - m, false)]);
            Separated(cs) && Used(cs) == Used(bs)[h := Block(m - h, true)]
    ensures Replace(Used(bs), h, e, map[]) == Used(bs) - {h}
  {
    var part := map[h := Block(m - h, true), m := Block(e - m, false)];
    hide Separated, Joints, Tiles;
    hide Replace, Used;
    TilesRange(bs, lo, hi, h);
    ResizeJoints(bs, h, m, e, part);
    TwoBlocks(h, m, e, true, false);
    ReplaceStretch(bs, lo, hi, h, e, h, part);
    PutBack(Used(bs), h, part[h]);
  }

  /** Block h and its free neighbours become one free block. */
  lemma ReleaseBlocks(bs: Blocks, lo: nat, hi: nat, s: nat, h: nat, e: nat)
    requires Tiles(bs, lo, hi) && Separated(bs) && h in Used(bs) && lo <= s <= h < e <= hi
    requires Boundary(bs, hi, s) && Boundary(bs, hi, e)
    requires forall b :: b in bs && s <= b < e ==> b == h || !bs[b].used
    requires e !in FreeSet(bs) && forall b :: b in FreeSet(bs) ==> End(bs, b) != s
    ensures var cs := Replace(bs, s, e, map[s := Block(e - s, false)]);
            Separated(cs) && Used(cs) == Used(bs) - {h}
    ensures Replace(Used(bs), s, e, map[]) == Used(bs) - {h}
  {
    var part := map[s := Block(e - s, false)];
    hide Separated, Joints, Tiles;
    ReleaseJoints(bs, s, e, part);
    OneBlock(s, e, false);
    ReplaceStretch(bs, lo, hi, s, e, h, part);
    assert (Used(bs) - {h}) + map[] == Used(bs) - {h};
  }

  // ----- The canonical form -----

  lemma UsedShared(bs: Blocks, cs: Blocks)
    requires Used(bs) == Used(cs)
    ensures forall b :: b in bs && bs[b].used ==> b in cs && cs[b] == bs[b]
    ensures forall b :: b in cs && cs[b].used ==> b in bs && cs[b] == bs[b]
  {
    forall b | b in bs && bs[b].used ensures b in cs && cs[b] == bs[b] {
      assert b in Used(bs);
      assert b in Used(cs);
    }
    forall b | b in cs && cs[b].used ensures b in bs && cs[b] == bs[b] {
      assert b in Used(cs);
      assert b in Used(bs);
    }
  }

  /** Equal used blocks and full coalescing leave no freedom: a free block of one
      partition starts where a free block of the other does, and reaches as far. */
  lemma FreeBlockAgrees(bs: Blocks, cs: Blocks, lo: nat, hi: nat, b: nat)
    requires Tiles(bs, lo, hi) && Tiles(cs, lo, hi)
    requires Separated(bs) && Separated(cs)
    requires Used(bs) == Used(cs)
    requires b in FreeSet(bs)
    ensures b in FreeSet(cs) && bs[b].size <= cs[b].size
  {
    UsedShared(bs, cs);
    assert Covered(cs, b);
    var c :| c in cs && c <= b < End(cs, c);
    assert c in FreeSet(cs);
    assert lo < b ==> (exists p :: p in bs && bs[p].used && End(bs, p) == b) by {
      if lo < b { var p := Pred(bs, lo, hi, b); assert p !in FreeSet(bs); }
    }
    assert End(cs, b) == hi || End(cs, b) in Used(cs) by {
      Succ(cs, lo, hi, b);
      assert End(cs, b) !in FreeSet(cs);
    }
  }

  /** A fully coalesced partition is determined by the blocks in use. */
  lemma CanonicalForm(bs: Blocks, cs: Blocks, lo: nat, hi: nat)
    requires Tiles(bs, lo, hi) && Tiles(cs, lo, hi)
    requires Separated(bs) && Separated(cs)
    requires Used(bs) == Used(cs)
    ensures bs == cs
  {
    UsedShared(bs, cs);
    forall b | b in bs ensures b in cs && bs[b] == cs[b] {
      if !bs[b].used {
        FreeBlockAgrees(bs, cs, lo, hi, b);
        FreeBlockAgrees(cs, bs, lo, hi, b);
      }
    }
    forall b | b in cs ensures b in bs {
      if !cs[b].used {
        FreeBlockAgrees(cs, bs, lo, hi, b);
      }
    }
  }
}
