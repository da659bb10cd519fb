/**
 The kernel heap in memory: areas with a header and a footer word.

 Memory is an array of 8-byte words.  Word 0 is the zero word below the heap, the areas
 tile [1, hi), and word hi, the last one, is the guard word above them.  Sizes are stored
 in bytes; an area of n words stores 8 * n, plus 1 when in use, in its first and in its
 last word.
 */
module HeapAreas {
  import opened Sequences
  import opened Tiling
  import opened Payloads

  /** Areas end with one word of footer. */
  const FOOT := 1

  type Words = seq<nat>

  function Tag(b: Block): nat {
    8 * b.size + if b.used then 1 else 0
  }

  /** The size in a tag, with the flag bits masked off, in words. */
  function AreaWords(tag: nat): nat {
    tag / 16 * 2
  }

  lemma AreaWordsOf(n: nat)
    requires n % 2 == 0
    ensures AreaWords(8 * n) == n && AreaWords(8 * n + 1) == n
  {
  }

  ghost predicate Tagged(mem: Words, bs: Blocks, b: nat)
    requires b in bs && 0 < bs[b].size && End(bs, b) <= |mem|
  {
    mem[b] == Tag(bs[b]) == mem[End(bs, b) - 1]
  }

  /** Sizes are whole multiples of 16 bytes. */
  ghost predicate Aligned(bs: Blocks) {
    forall b :: b in bs ==> 2 <= bs[b].size && bs[b].size % 2 == 0
  }

  /** The heap below its upper guard word. */
  ghost predicate Areas(mem: Words, hi: nat, bs: Blocks) {
    && 1 < hi && |mem| == hi + 1
    && Tiles(bs, 1, hi) && Aligned(bs)
    && mem[0] == 0
    && (forall b {:trigger Tagged(mem, bs, b)} {:trigger bs[b]} :: b in bs ==> Tagged(mem, bs, b))
  }

  /** Outside [s, e) nothing changes. */
  ghost predicate SameOutside(mem: Words, mem': Words, s: nat, e: nat) {
    |mem'| == |mem| && forall u :: 0 <= u < |mem| && !(s <= u < e) ==> mem'[u] == mem[u]
  }

  lemma HeaderOf(mem: Words, hi: nat, bs: Blocks, b: nat)
    requires Areas(mem, hi, bs) && b in bs
    ensures 0 < b && 2 <= bs[b].size && bs[b].size % 2 == 0 && End(bs, b) <= hi < |mem|
    ensures AreaWords(mem[b]) == bs[b].size
    ensures mem[b] == Tag(bs[b]) == mem[End(bs, b) - 1]
    ensures Boundary(bs, hi, End(bs, b))
  {
    assert Tagged(mem, bs, b);
    AreaWordsOf(bs[b].size);
    Succ(bs, 1, hi, b);
  }

  lemma AreasEnd(mem: Words, hi: nat, bs: Blocks)
    requires Areas(mem, hi, bs)
    ensures 1 < hi && |mem| == hi + 1 && hi !in bs && 1 in bs && 0 !in bs
    ensures mem[0] == 0
    ensures forall b :: b in bs ==> 1 <= b && End(bs, b) <= hi
  {
    assert Covered(bs, 1);
  }

  /** The word below an area tells whether the area below it is free, and where it starts. */
  lemma LowerNeighbour(mem: Words, hi: nat, bs: Blocks, b: nat)
    requires Areas(mem, hi, bs) && Boundary(bs, hi, b)
    ensures 0 < b < |mem|
    ensures var f := mem[b - 1];
            if f == 0 || f % 2 == 1 then
              forall c :: c in FreeSet(bs) ==> End(bs, c) != b
            else
              f % 16 == 0 && f / 8 < b && b - f / 8 in FreeSet(bs) && End(bs, b - f / 8) == b
  {
    if 1 < b {
      var p := Pred(bs, 1, hi, b);
      assert Tagged(mem, bs, p);
    }
  }

  /** The first word at a boundary tells whether a free area starts there. */
  lemma UpperNeighbour(mem: Words, hi: nat, bs: Blocks, e: nat)
    requires Areas(mem, hi, bs) && Boundary(bs, hi, e) && (e == hi ==> mem[e] == 0)
    ensures e < |mem|
    ensures if e in FreeSet(bs) then
              mem[e] == 8 * bs[e].size && 2 <= bs[e].size && bs[e].size % 2 == 0
            else mem[e] == 0 || mem[e] % 2 == 1
    ensures e == hi ==> mem[e] == 0
    ensures e !in FreeSet(bs) && mem[e] % 2 == 0 ==> e == hi
  {
    if e in bs {
      assert Tagged(mem, bs, e);
    }
  }

  /** Rewriting whole areas, tags included, keeps the heap well formed. */
  lemma ReplaceAreas(mem: Words, mem': Words, hi: nat, bs: Blocks, s: nat, e: nat, part: Blocks)
    requires Areas(mem, hi, bs) && SameOutside(mem, mem', s, e)
    requires Boundary(bs, hi, s) && Boundary(bs, hi, e) && 1 <= s <= e <= hi
    requires Tiles(part, s, e) && Aligned(part)
    requires forall b :: b in part ==> 2 <= part[b].size && End(part, b) <= e && Tagged(mem', part, b)
    ensures Areas(mem', hi, Replace(bs, s, e, part))
  {
    hide Tiles, Boundary;
    var cs := Replace(bs, s, e, part);
    ReplaceTiles(bs, 1, hi, s, e, part);
    forall b | b in cs ensures 2 <= cs[b].size && cs[b].size % 2 == 0 && End(cs, b) <= hi && Tagged(mem', cs, b) {
      TilesRange(cs, 1, hi, b);
      if b in part {
        assert Tagged(mem', part, b);
      } else {
        OutsideTagged(mem, mem', hi, bs, s, e, b);
      }
    }
  }

  lemma OutsideTagged(mem: Words, mem': Words, hi: nat, bs: Blocks, s: nat, e: nat, b: nat)
    requires Areas(mem, hi, bs) && SameOutside(mem, mem', s, e) && Boundary(bs, hi, s) && e <= hi
    requires b in bs && !(s <= b < e)
    ensures 2 <= bs[b].size && bs[b].size % 2 == 0 && End(bs, b) <= hi && Tagged(mem', bs, b)
  {
    assert Tagged(mem, bs, b);
    assert b < s ==> End(bs, b) <= s;
  }

  /** Areas in use outside the rewritten stretch keep their payloads. */
  lemma ReplaceKeeps(mem: Words, mem': Words, hi: nat, bs: Blocks, s: nat, e: nat)
    requires Areas(mem, hi, bs) && SameOutside(mem, mem', s, e) && Boundary(bs, hi, s)
    ensures KeepsPayloads(mem, mem', Replace(Used(bs), s, e, map[]), FOOT)
  {
    var us := Replace(Used(bs), s, e, map[]);
    forall b, u | b in us && b < u < End(us, b) - 1 && u < |mem| ensures mem'[u] == mem[u] {
      assert b in bs && bs[b] == us[b];
      assert b < s ==> End(bs, b) <= s;
    }
  }

  /** [s, e) becomes a single area. */
  lemma PutOne(mem: Words, mem': Words, hi: nat, bs: Blocks, s: nat, e: nat, used: bool)
    requires Areas(mem, hi, bs) && SameOutside(mem, mem', s, e)
    requires Boundary(bs, hi, s) && Boundary(bs, hi, e) && 1 <= s && s + 2 <= e <= hi && (e - s) % 2 == 0
    requires mem'[s] == Tag(Block(e - s, used)) == mem'[e - 1]
    ensures Areas(mem', hi, Replace(bs, s, e, map[s := Block(e - s, used)]))
  {
    OneBlock(s, e, used);
    ReplaceAreas(mem, mem', hi, bs, s, e, map[s := Block(e - s, used)]);
  }

  /** [s, e) becomes an area in use followed by a free one. */
  lemma PutTwo(mem: Words, mem': Words, hi: nat, bs: Blocks, s: nat, m: nat, e: nat)
    requires Areas(mem, hi, bs) && SameOutside(mem, mem', s, e)
    requires Boundary(bs, hi, s) && Boundary(bs, hi, e) && 1 <= s && s + 2 <= m && m + 2 <= e <= hi
    requires (m - s) % 2 == 0 && (e - m) % 2 == 0
    requires mem'[s] == Tag(Block(m - s, true)) == mem'[m - 1]
    requires mem'[m] == Tag(Block(e - m, false)) == mem'[e - 1]
    ensures Areas(mem', hi, Replace(bs, s, e, map[s := Block(m - s, true), m := Block(e - m, false)]))
  {
    hide Areas, Tiles, SameOutside, Replace;
    TwoBlocks(s, m, e, true, false);
    ReplaceAreas(mem, mem', hi, bs, s, e, map[s := Block(m - s, true), m := Block(e - m, false)]);
  }

  // ----- The changes of the heap -----

  /** The areas of [h, e) other than h are free. */
  ghost predicate FreeAbove(bs: Blocks, h: nat, e: nat) {
    forall b :: b in bs && h < b < e ==> !bs[b].used
  }

  /** [h, e) becomes one area in use. */
  lemma TakeStep(mem: Words, mem': Words, hi: nat, bs: Blocks, h: nat)
    requires Areas(mem, hi, bs) && Separated(bs) && h in FreeSet(bs)
    requires SameOutside(mem, mem', h, End(bs, h)) && 2 <= bs[h].size && End(bs, h) <= hi
    requires mem'[h] == Tag(Block(bs[h].size, true)) == mem'[End(bs, h) - 1]
    ensures var cs := Replace(bs, h, End(bs, h), map[h := Block(bs[h].size, true)]);
            && Areas(mem', hi, cs) && Separated(cs)
            && Used(cs) == Used(bs)[h := Block(bs[h].size, true)]
            && KeepsPayloads(mem, mem', Used(bs), FOOT)
  {
    hide Areas, Tiles, Separated, KeepsPayloads, SameOutside;
    HeaderOf(mem, hi, bs, h);
    PutOne(mem, mem', hi, bs, h, End(bs, h), true);
    AreasTile(mem, hi, bs);
    TakeBlocks(bs, 1, hi, h);
    ReplaceKeeps(mem, mem', hi, bs, h, End(bs, h));
  }

  /** The four tags of an area in use [h, m) and a free area [m, e) are written, nothing else. */
  ghost predicate WritesTags(mem: Words, mem': Words, h: nat, m: nat, e: nat)
    requires h < m < e
  {
    && |mem'| == |mem| && e <= |mem|
    && mem'[h] == Tag(Block(m - h, true)) == mem'[m - 1]
    && mem'[m] == Tag(Block(e - m, false)) == mem'[e - 1]
    && forall u :: 0 <= u < |mem| && u != h && u != m - 1 && u != m && u != e - 1 ==> mem'[u] == mem[u]
  }

  /** Area h, in use or free, and the free area above it, if the stretch reaches that far,
      become an area in use up to m and a free rest. */
  lemma ResizeStep(mem: Words, mem': Words, hi: nat, bs: Blocks, h: nat, m: nat, e: nat)
    requires Areas(mem, hi, bs) && Separated(bs) && h in bs && FreeAbove(bs, h, e)
    requires h + 2 <= m && m + 2 <= e <= hi && End(bs, h) <= e && (m - h) % 2 == 0 && (e - m) % 2 == 0
    requires Boundary(bs, hi, e) && e !in FreeSet(bs)
    requires WritesTags(mem, mem', h, m, e)
    ensures var cs := Replace(bs, h, e, map[h := Block(m - h, true), m := Block(e - m, false)]);
            && Areas(mem', hi, cs) && Separated(cs)
            && Used(cs) == Used(bs)[h := Block(m - h, true)]
            && KeepsPayloads(mem, mem', Used(bs) - {h}, FOOT)
  {
    hide Areas, Tiles, Separated, KeepsPayloads;
    AreasEnd(mem, hi, bs);
    PutTwo(mem, mem', hi, bs, h, m, e);
    AreasTile(mem, hi, bs);
    ResizeBlocks(bs, 1, hi, h, m, e);
    ReplaceKeeps(mem, mem', hi, bs, h, e);
  }

  /** Area h and its free neighbours become one free area. */
  lemma ReleaseStep(mem: Words, mem': Words, hi: nat, bs: Blocks, s: nat, h: nat, e: nat)
    requires Areas(mem, hi, bs) && Separated(bs) && h in Used(bs) && s <= h < e
    requires Boundary(bs, hi, s) && Boundary(bs, hi, e) && s + 2 <= e <= hi && (e - s) % 2 == 0 && 1 <= s
    requires forall b :: b in bs && s <= b < e ==> b == h || !bs[b].used
    requires e !in FreeSet(bs) && forall b :: b in FreeSet(bs) ==> End(bs, b) != s
    requires SameOutside(mem, mem', s, e)
    requires mem'[s] == Tag(Block(e - s, false)) == mem'[e - 1]
    ensures var cs := Replace(bs, s, e, map[s := Block(e - s, false)]);
            && Areas(mem', hi, cs) && Separated(cs)
            && Used(cs) == Used(bs) - {h}
            && KeepsPayloads(mem, mem', Used(cs), FOOT)
  {
    hide Areas, Tiles, Separated, KeepsPayloads, SameOutside;
    PutOne(mem, mem', hi, bs, s, e, false);
    AreasTile(mem, hi, bs);
    ReleaseBlocks(bs, 1, hi, s, h, e);
    ReplaceKeeps(mem, mem', hi, bs, s, e);
  }

  /** The heap is well formed, whatever its partition: the code can go on working with it. */
  ghost predicate WellFormed(mem: Words, hi: nat) {
    hi < |mem| && mem[hi] == 0 && exists bs :: Areas(mem, hi, bs) && Separated(bs)
  }

  /** The partition is determined by the headers, from below. */
  lemma {:induction false} SameHeaders(mem: Words, mem': Words, hi: nat, bs: Blocks, cs: Blocks, b: nat)
    requires Areas(mem, hi, bs) && Areas(mem', hi, cs) && b in bs
    requires forall u :: 0 <= u <= b && u < |mem| ==> mem'[u] == mem[u]
    ensures b in cs && cs[b] == bs[b]
    decreases b
  {
    hide Areas, AreaWords;
    AreasEnd(mem, hi, bs);
    AreasEnd(mem', hi, cs);
    if b != 1 {
      AreasTile(mem, hi, bs);
      var q := Pred(bs, 1, hi, b);
      SameHeaders(mem, mem', hi, bs, cs, q);
      HeaderOf(mem', hi, cs, q);
    }
    HeaderOf(mem, hi, bs, b);
    HeaderOf(mem', hi, cs, b);
  }

  /** The end of area h and of the free area above it, if there is one. */
  function UpperEnd(bs: Blocks, h: nat): nat
    requires h in bs
  {
    var u := End(bs, h);
    if u in FreeSet(bs) then End(bs, u) else u
  }

  /** Instead of an area in use, the tags of a free area [h, e) are written, and the word
      below it becomes 1. */
  ghost predicate WipesTags(mem: Words, mem': Words, h: nat, e: nat) {
    && |mem'| == |mem| && 0 < h && h + 2 <= e <= |mem|
    && mem'[h - 1] == 1 && mem'[h] == 8 * (e - h) == mem'[e - 1]
    && forall u :: 0 <= u < |mem| && u != h - 1 && u != h && u != e - 1 ==> mem'[u] == mem[u]
  }

  /** After that no partition fits the words. */
  lemma WipedBroken(mem: Words, mem': Words, hi: nat, bs: Blocks, h: nat, e: nat)
    requires Areas(mem, hi, bs) && h in bs && WipesTags(mem, mem', h, e)
    ensures !WellFormed(mem', hi)
  {
    if WellFormed(mem', hi) {
      var cs :| Areas(mem', hi, cs) && Separated(cs);
      WipedTiling(mem, mem', hi, bs, cs, h, e);
    }
  }

  lemma WipedTiling(mem: Words, mem': Words, hi: nat, bs: Blocks, cs: Blocks, h: nat, e: nat)
    requires Areas(mem, hi, bs) && h in bs && WipesTags(mem, mem', h, e)
    ensures !Areas(mem', hi, cs)
  {
    hide Areas, AreaWords;
    if Areas(mem', hi, cs) {
      AreasTile(mem, hi, bs);
      HeaderOf(mem, hi, bs, h);
      if h == 1 {
        AreasEnd(mem', hi, cs);
      } else {
        var p := Pred(bs, 1, hi, h);
        HeaderOf(mem, hi, bs, p);
        SameHeaders(mem, mem', hi, bs, cs, p);
        HeaderOf(mem', hi, cs, p);
      }
    }
  }

  lemma AreasTile(mem: Words, hi: nat, bs: Blocks)
    requires Areas(mem, hi, bs)
    ensures Tiles(bs, 1, hi)
  {
  }

  /** [s, e) is area h with the free areas that touch it, and no more. */
  ghost predicate Stretch(bs: Blocks, s: nat, h: nat, e: nat)
    requires h in bs
  {
    && (if s == h then forall b :: b in FreeSet(bs) ==> End(bs, b) != h else s in FreeSet(bs) && End(bs, s) == h)
    && (var u := End(bs, h); if e == u then u !in FreeSet(bs) else u in FreeSet(bs) && e == End(bs, u))
  }

  lemma StretchFacts(mem: Words, hi: nat, bs: Blocks, s: nat, h: nat, e: nat)
    requires Areas(mem, hi, bs) && Separated(bs) && h in Used(bs) && Stretch(bs, s, h, e)
    ensures Boundary(bs, hi, s) && Boundary(bs, hi, e) && 1 <= s <= h && h + 2 <= e <= hi && (e - s) % 2 == 0
    ensures forall b :: b in bs && s <= b < e ==> b == h || !bs[b].used
    ensures e !in FreeSet(bs) && forall b :: b in FreeSet(bs) ==> End(bs, b) != s
  {
    hide Areas, Tiles, InRange, Disjoint, Covered, AreaWords;
    HeaderOf(mem, hi, bs, h);
    var u := End(bs, h);
    if e != u {
      HeaderOf(mem, hi, bs, u);
    }
    if s != h {
      HeaderOf(mem, hi, bs, s);
    }
    AreasTile(mem, hi, bs);
    StretchMembers(bs, 1, hi, s, h, e);
  }

  lemma StretchMembers(bs: Blocks, lo: nat, hi: nat, s: nat, h: nat, e: nat)
    requires Tiles(bs, lo, hi) && h in Used(bs) && Stretch(bs, s, h, e)
    ensures forall b :: b in bs && s <= b < e ==> b == h || !bs[b].used
  {
    forall b | b in bs && s <= b < e ensures b == h || !bs[b].used {
      assert s != h && b < h ==> b == s;
      assert b < End(bs, h) && h <= b ==> b == h;
      assert e != End(bs, h) && End(bs, h) <= b ==> b == End(bs, h);
    }
  }

  lemma ReleaseStretch(mem: Words, mem': Words, hi: nat, bs: Blocks, s: nat, h: nat, e: nat)
    requires Areas(mem, hi, bs) && Separated(bs) && h in Used(bs) && Stretch(bs, s, h, e)
    requires SameOutside(mem, mem', s, e) && s < e <= |mem'|
    requires mem'[s] == 8 * (e - s) == mem'[e - 1]
    ensures var cs := Replace(bs, s, e, map[s := Block(e - s, false)]);
            && Areas(mem', hi, cs) && Separated(cs)
            && Used(cs) == Used(bs) - {h}
            && KeepsPayloads(mem, mem', Used(cs), FOOT)
    ensures e <= hi
  {
    hide Areas, Separated, KeepsPayloads, Replace, Stretch, SameOutside;
    StretchFacts(mem, hi, bs, s, h, e);
    ReleaseStep(mem, mem', hi, bs, s, h, e);
  }

  /** The heap grows by k words: they go to the free area at its end, or become one. */
  lemma GrowStep(mem: Words, mem': Words, hi: nat, bs: Blocks, s: nat, k: nat)
    requires Areas(mem, hi, bs) && Separated(bs) && 2 <= k && k % 2 == 0
    requires if s == hi then forall b :: b in FreeSet(bs) ==> End(bs, b) != hi else s in FreeSet(bs) && End(bs, s) == hi
    requires |mem'| == hi + k + 1 && s < hi + k
    requires mem'[s] == Tag(Block(hi + k - s, false)) == mem'[hi + k - 1]
    requires forall u :: 0 <= u < hi && u != s ==> mem'[u] == mem[u]
    ensures var cs := bs[s := Block(hi + k - s, false)];
            && Areas(mem', hi + k, cs) && Separated(cs) && Used(cs) == Used(bs)
            && KeepsPayloads(mem, mem', Used(bs), FOOT)
  {
    hide Separated, KeepsPayloads;
    AreasEnd(mem, hi, bs);
    assert 1 <= s <= hi && (hi - s) % 2 == 0 by {
      if s != hi { HeaderOf(mem, hi, bs, s); }
    }
    GrowTiles(bs, 1, hi, s, k);
    GrowTags(mem, mem', hi, bs, s, k);
    GrowSets(bs, 1, hi, s, k);
    GrowKeeps(mem, mem', hi, bs, s);
  }

  lemma GrowTags(mem: Words, mem': Words, hi: nat, bs: Blocks, s: nat, k: nat)
    requires Areas(mem, hi, bs) && 1 <= s <= hi && 2 <= k && |mem'| == hi + k + 1
    requires s == hi || (s in bs && End(bs, s) == hi)
    requires mem'[s] == Tag(Block(hi + k - s, false)) == mem'[hi + k - 1]
    requires forall u :: 0 <= u < hi && u != s ==> mem'[u] == mem[u]
    requires Tiles(bs[s := Block(hi + k - s, false)], 1, hi + k)
    ensures var cs := bs[s := Block(hi + k - s, false)];
            forall b {:trigger Tagged(mem', cs, b)} :: b in cs ==> Tagged(mem', cs, b)
  {
    var cs := bs[s := Block(hi + k - s, false)];
    forall b | b in cs ensures Tagged(mem', cs, b) {
      if b != s {
        assert Tagged(mem, bs, b);
        assert b < s && End(bs, b) <= s;
      }
    }
  }

  lemma GrowTiles(bs: Blocks, lo: nat, hi: nat, s: nat, k: nat)
    requires Tiles(bs, lo, hi) && lo <= s <= hi && 0 < k
    requires s == hi || (s in bs && End(bs, s) == hi)
    ensures Tiles(bs[s := Block(hi + k - s, false)], lo, hi + k)
  {
    var cs := bs[s := Block(hi + k - s, false)];
    forall x | lo <= x < hi + k ensures Covered(cs, x) {
      if s <= x {
        assert s in cs && s <= x < End(cs, s);
      } else {
        assert Covered(bs, x);
        var c :| c in bs && c <= x < End(bs, c);
        assert c in cs && c <= x < End(cs, c);
      }
    }
  }

  lemma GrowSets(bs: Blocks, lo: nat, hi: nat, s: nat, k: nat)
    requires InRange(bs, lo, hi) && Disjoint(bs) && Separated(bs) && 0 < k
    requires if s == hi then forall b :: b in FreeSet(bs) ==> End(bs, b) != hi else s in FreeSet(bs) && End(bs, s) == hi
    ensures var cs := bs[s := Block(hi + k - s, false)];
            Separated(cs) && Used(cs) == Used(bs)
  {
    var cs := bs[s := Block(hi + k - s, false)];
    assert Used(cs) == Used(bs);
    forall b, c | b in FreeSet(cs) && c in FreeSet(cs) ensures End(cs, b) != c {
      assert b in FreeSet(bs) || b == s;
      assert c in FreeSet(bs) || c == s;
      assert c in FreeSet(bs) ==> c < hi;
      assert s != hi ==> s in FreeSet(bs);
    }
    SeparatedIntro(cs);
  }

  lemma GrowKeeps(mem: Words, mem': Words, hi: nat, bs: Blocks, s: nat)
    requires Areas(mem, hi, bs) && s !in Used(bs) && Boundary(bs, hi, s) && hi < |mem'|
    requires forall u :: 0 <= u < hi && u != s ==> mem'[u] == mem[u]
    ensures KeepsPayloads(mem, mem', Used(bs), FOOT)
  {
    forall b, u | b in Used(bs) && b < u < End(Used(bs), b) - 1 ensures mem'[u] == mem[u] {
      assert b in bs && End(bs, b) <= hi;
      assert u != s;
    }
  }

  /** Areas start at odd words, so payloads are 16-byte aligned. */
  lemma {:induction false} OddStarts(mem: Words, hi: nat, bs: Blocks, b: nat)
    requires Areas(mem, hi, bs) && Boundary(bs, hi, b)
    ensures b % 2 == 1
    decreases b
  {
    AreasEnd(mem, hi, bs);
    if b != 1 {
      var p := Pred(bs, 1, hi, b);
      HeaderOf(mem, hi, bs, p);
      OddStarts(mem, hi, bs, p);
    }
  }

  /** Writing inside a payload disturbs no tag and no other payload. */
  lemma PayloadWrite(mem: Words, mem': Words, hi: nat, bs: Blocks, r: nat, n: nat)
    requires Areas(mem, hi, bs) && r in bs && SameOutside(mem, mem', r + 1, r + 1 + n) && n + 2 <= bs[r].size
    ensures Areas(mem', hi, bs) && KeepsPayloads(mem, mem', Used(bs) - {r}, FOOT)
  {
    assert Tagged(mem, bs, r);
    forall b | b in bs ensures Tagged(mem', bs, b) {
      assert Tagged(mem, bs, b);
    }
    var us := Used(bs) - {r};
    forall b, u | b in us && b < u < End(us, b) - 1 && u < |mem| ensures mem'[u] == mem[u] {
      assert b in bs && bs[b] == us[b] && b != r;
    }
  }

  /** memcpy between disjoint stretches. */
  function CopyWords(mem: Words, from: nat, to: nat, n: nat): (m: Words)
    requires from + n <= |mem| && to + n <= |mem|
    ensures |m| == |mem| && m[to..to + n] == mem[from..from + n]
    ensures SameOutside(mem, m, to, to + n)
  {
    mem[..to] + mem[from..from + n] + mem[to + n..]
  }

  // ----- The heap as the code walks it -----

  /** The areas met from b upwards by adding to each address the size in its header. */
  ghost function WalkUp(mem: Words, hi: nat, bs: Blocks, b: nat): (s: seq<nat>)
    requires Areas(mem, hi, bs) && Boundary(bs, hi, b)
    decreases hi - b
  {
    if b == hi then [] else
      HeaderOf(mem, hi, bs, b);
      [b] + WalkUp(mem, hi, bs, b + AreaWords(mem[b]))
  }

  lemma {:induction false} WalkUpIs(mem: Words, hi: nat, bs: Blocks, b: nat)
    requires Areas(mem, hi, bs) && Boundary(bs, hi, b)
    ensures WalkUp(mem, hi, bs, b) == Walk(bs, 1, hi, b)
    decreases hi - b
  {
    hide Areas, Tiles, AreaWords;
    AreasTile(mem, hi, bs);
    if b != hi {
      HeaderOf(mem, hi, bs, b);
      WalkUpIs(mem, hi, bs, End(bs, b));
    }
  }

  /** Walking from the first header meets every area once, in address order, ends exactly
      at the guard word, and the sizes add up to the whole heap. */
  lemma HeapWalk(mem: Words, hi: nat, bs: Blocks)
    requires Areas(mem, hi, bs)
    ensures 1 in bs
    ensures var s := WalkUp(mem, hi, bs, 1);
            && Increasing(s)
            && (forall c :: c in s <==> c in bs)
            && TotalSize(bs, s) == hi - 1
  {
    WalkAll(bs, 1, hi);
    WalkUpIs(mem, hi, bs, 1);
  }
}
