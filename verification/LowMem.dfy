/**
 Low physical memory: a bitmap of free pages in segments of 16, for devices that can
 only address the first 16 MiB.
 */
module LowMem {

  const PAGE_SIZE := 4096
  const BITS_PER_SEG := 16
  const LOWMEM_SIZE := 0x0100_0000
  const SEGMENTS := LOWMEM_SIZE / PAGE_SIZE / BITS_PER_SEG

  predicate Bit(w: bv16, k: bv5)
    requires k < 16
  {
    (w >> k) & 1 == 1
  }

  function Mask(n: bv5): bv16
    requires n <= 16
  {
    (1 << n) - 1
  }

  // ----- Single bits of a segment -----

  lemma MaskBit(n: bv5, k: bv5)
    requires n <= 16 && k < 16
    ensures Bit(Mask(n), k) <==> k < n
  {
  }

  lemma ShiftRightBit(w: bv16, i: bv5, k: bv5)
    requires i <= k < 16
    ensures Bit(w >> i, k - i) <==> Bit(w, k)
  {
  }

  lemma AndBit(v: bv16, w: bv16, k: bv5)
    requires k < 16
    ensures Bit(v & w, k) <==> Bit(v, k) && Bit(w, k)
  {
  }

  lemma SetBit(w: bv16, i: bv5, k: bv5)
    requires i < 16 && k < 16
    ensures Bit(w | (1 << i), k) <==> Bit(w, k) || i == k
  {
  }

  lemma AllOnes(k: bv5)
    requires k < 16
    ensures Bit(0xFFFF, k)
  {
  }

  /** Two segments with the same bits are the same word. */
  lemma SameBits(v: bv16, w: bv16)
    requires forall k: bv5 :: k < 16 ==> (Bit(v, k) <==> Bit(w, k))
    ensures v == w
  {
    hide Bit;
    assert forall k: bv5 :: k < 8 ==> (Bit(v, k) <==> Bit(w, k));
    assert forall k: bv5 :: 8 <= k < 16 ==> (Bit(v, k) <==> Bit(w, k));
    LowBits(v, w);
    HighBits(v, w);
    Halves(v, w);
  }

  lemma LowBits(v: bv16, w: bv16)
    requires forall k: bv5 :: k < 8 ==> (Bit(v, k) <==> Bit(w, k))
    ensures v & 0xFF == w & 0xFF
  {
    assert Bit(v, 0) == Bit(w, 0) && Bit(v, 1) == Bit(w, 1) && Bit(v, 2) == Bit(w, 2) && Bit(v, 3) == Bit(w, 3);
    assert Bit(v, 4) == Bit(w, 4) && Bit(v, 5) == Bit(w, 5) && Bit(v, 6) == Bit(w, 6) && Bit(v, 7) == Bit(w, 7);
  }

  lemma HighBits(v: bv16, w: bv16)
    requires forall k: bv5 :: 8 <= k < 16 ==> (Bit(v, k) <==> Bit(w, k))
    ensures v & 0xFF00 == w & 0xFF00
  {
    assert Bit(v, 8) == Bit(w, 8) && Bit(v, 9) == Bit(w, 9) && Bit(v, 10) == Bit(w, 10) && Bit(v, 11) == Bit(w, 11);
    assert Bit(v, 12) == Bit(w, 12) && Bit(v, 13) == Bit(w, 13) && Bit(v, 14) == Bit(w, 14) && Bit(v, 15) == Bit(w, 15);
  }

  lemma Halves(v: bv16, w: bv16)
    requires v & 0xFF == w & 0xFF && v & 0xFF00 == w & 0xFF00
    ensures v == w
  {
  }

  function Shifted(n: bv5, i: bv5): bv16
    requires n <= 16 && i <= 16
  {
    Mask(n) << i
  }

  predicate AllSet(w: bv16, i: bv5, n: bv5)
    requires n <= 16 && i <= 16
  {
    (w >> i) & Mask(n) == Mask(n)
  }

  function Without(v: bv16, w: bv16): bv16 {
    v & !w
  }

  lemma ShiftedBit(n: bv5, i: bv5, k: bv5)
    requires n <= 16 && i <= 16 - n && k < 16
    ensures Bit(Shifted(n, i), k) <==> i <= k < i + n
  {
  }

  lemma WithoutBit(v: bv16, w: bv16, k: bv5)
    requires k < 16
    ensures Bit(Without(v, w), k) <==> Bit(v, k) && !Bit(w, k)
  {
  }

  lemma ClearBit(w: bv16, i: bv5, n: bv5, k: bv5)
    requires n <= 16 && i <= 16 - n && k < 16
    ensures Bit(Without(w, Shifted(n, i)), k) <==> Bit(w, k) && !(i <= k < i + n)
  {
    hide Bit, Shifted, Without;
    ShiftedBit(n, i, k);
    WithoutBit(w, Shifted(n, i), k);
  }

  lemma TestBit(w: bv16, i: bv5, n: bv5, k: bv5)
    requires n <= 16 && i <= 16 - n && i <= k < i + n && AllSet(w, i, n)
    ensures Bit(w, k)
  {
    hide Bit, Mask;
    AndBit(w >> i, Mask(n), k - i);
    MaskBit(n, k - i);
    ShiftRightBit(w, i, k);
  }

  lemma OneMore(w: bv16, i: bv5, n: bv5)
    requires n < 16 && i < 16 - n && AllSet(w, i, n) && Bit(w, i + n)
    ensures AllSet(w, i, n + 1)
  {
  }

  lemma {:induction false} BitsTest(w: bv16, i: bv5, n: bv5)
    requires n <= 16 && i <= 16 - n
    requires forall k: bv5 :: i <= k < i + n ==> Bit(w, k)
    ensures AllSet(w, i, n)
    decreases n
  {
    if n != 0 {
      BitsTest(w, i, n - 1);
      OneMore(w, i, n - 1);
    }
  }

  // ----- The operations on a segment, with bit positions as numbers -----

  predicate On(w: bv16, j: nat)
    requires j < 16
  {
    Bit(w, j as bv5)
  }

  lemma Exact(j: nat)
    requires j <= 16
    ensures (j as bv5) as nat == j
  {
  }

  lemma Order(a: bv5, b: bv5)
    ensures a < b <==> a as nat < b as nat
  {
  }

  lemma Plus(a: bv5, b: bv5)
    requires a as nat + b as nat <= 16
    ensures (a + b) as nat == a as nat + b as nat && a <= 16 - b && b <= 16
  {
  }

  lemma Position(j: nat, i: nat, n: nat)
    requires j < 16 && i + n <= 16
    ensures var jb, ib, nb := j as bv5, i as bv5, n as bv5;
            && jb < 16 && nb <= 16 && ib <= 16 - nb && jb as nat == j
            && (ib <= jb < ib + nb <==> i <= j < i + n)
  {
    Exact(j);
    Exact(i);
    Exact(n);
    var jb, ib, nb := j as bv5, i as bv5, n as bv5;
    Plus(ib, nb);
    Order(jb, ib);
    Order(jb, ib + nb);
    Order(jb, 16);
  }

  lemma SamePosition(j: nat, i: nat)
    requires j < 16 && i < 16
    ensures j as bv5 == i as bv5 <==> j == i
  {
    assert (j as bv5) as nat == j && (i as bv5) as nat == i;
  }

  /** The allocator's test for n free pages from bit i. */
  predicate Test(w: bv16, i: nat, n: nat)
    requires i + n <= 16
  {
    AllSet(w, i as bv5, n as bv5)
  }

  /** The segment after the allocator has taken n pages from bit i. */
  function Clear(w: bv16, i: nat, n: nat): bv16
    requires i + n <= 16
  {
    Without(w, Shifted(n as bv5, i as bv5))
  }

  lemma TestOn(w: bv16, i: nat, n: nat, j: nat)
    requires i + n <= 16 && i <= j < i + n && Test(w, i, n)
    ensures On(w, j)
  {
    hide Bit, AllSet;
    Position(j, i, n);
    TestBit(w, i as bv5, n as bv5, j as bv5);
  }

  lemma OnTest(w: bv16, i: nat, n: nat)
    requires i + n <= 16
    requires forall j :: i <= j < i + n ==> On(w, j)
    ensures Test(w, i, n)
  {
    hide Bit, AllSet;
    Position(0, i, n);
    forall k: bv5 | i as bv5 <= k < i as bv5 + n as bv5 ensures Bit(w, k) {
      Position(k as nat, i, n);
      assert On(w, k as nat);
    }
    BitsTest(w, i as bv5, n as bv5);
  }

  /** The shift-and-mask test looks at exactly the bits i up to i + n. */
  lemma TestIff(w: bv16, i: nat, n: nat)
    requires i + n <= 16
    ensures Test(w, i, n) <==> forall j :: i <= j < i + n ==> On(w, j)
  {
    hide On, Test;
    if Test(w, i, n) {
      forall j | i <= j < i + n ensures On(w, j) {
        TestOn(w, i, n, j);
      }
    }
    if forall j :: i <= j < i + n ==> On(w, j) {
      OnTest(w, i, n);
    }
  }

  /** Taking a run clears exactly its bits. */
  lemma ClearOn(w: bv16, i: nat, n: nat, j: nat)
    requires i + n <= 16 && j < 16
    ensures On(Clear(w, i, n), j) <==> On(w, j) && !(i <= j < i + n)
  {
    hide Bit, Without, Shifted;
    Position(j, i, n);
    ClearBit(w, i as bv5, n as bv5, j as bv5);
  }

  /** The segment after page i of it has been freed. */
  function Set(w: bv16, i: nat): bv16
    requires i < 16
  {
    w | (1 << i)
  }

  lemma SetOn(w: bv16, i: nat, j: nat)
    requires i < 16 && j < 16
    ensures On(Set(w, i), j) <==> On(w, j) || i == j
  {
    SamePosition(j, i);
    SetBit(w, i as bv5, j as bv5);
  }

  lemma AllOn(j: nat)
    requires j < 16
    ensures On(0xFFFF, j)
  {
    AllOnes(j as bv5);
  }

  lemma SameOn(v: bv16, w: bv16)
    requires forall j :: 0 <= j < 16 ==> (On(v, j) <==> On(w, j))
    ensures v == w
  {
    hide Bit;
    forall k: bv5 | k < 16 ensures Bit(v, k) <==> Bit(w, k) {
      assert On(v, k as nat) <==> On(w, k as nat);
    }
    SameBits(v, w);
  }

  // ----- Pages -----

  type Bitmap = seq<bv16>

  /** Page p is free. */
  predicate Free(bm: Bitmap, p: nat) {
    p / 16 < |bm| && On(bm[p / 16], p % 16)
  }

  /** A free run of n pages starts at p and lies inside one segment. */
  ghost predicate Fits(bm: Bitmap, n: nat, p: nat) {
    p % 16 + n <= 16 && p / 16 < |bm| && forall q :: p <= q < p + n ==> Free(bm, q)
  }

  ghost predicate Lowest(bm: Bitmap, n: nat, p: nat) {
    Fits(bm, n, p) && forall q: nat :: q < p ==> !Fits(bm, n, q)
  }

  /** Exactly the pages of [p, e) stop being free. */
  ghost predicate Taken(bm: Bitmap, bm': Bitmap, p: nat, e: nat) {
    |bm'| == |bm| && forall q: nat :: Free(bm', q) <==> Free(bm, q) && !(p <= q < e)
  }

  /** Exactly the pages of [p, e) become free. */
  ghost predicate Freed(bm: Bitmap, bm': Bitmap, p: nat, e: nat) {
    |bm'| == |bm| && forall q: nat :: Free(bm', q) <==> Free(bm, q) || p <= q < e
  }

  lemma Parts(s: nat, j: nat)
    requires j < 16
    ensures (16 * s + j) / 16 == s && (16 * s + j) % 16 == j
  {
  }

  lemma TestFits(bm: Bitmap, s: nat, i: nat, n: nat)
    requires s < |bm| && i + n <= 16 && i < 16
    ensures Test(bm[s], i, n) <==> Fits(bm, n, 16 * s + i)
  {
    hide On, Test;
    TestIff(bm[s], i, n);
    Parts(s, i);
    forall j: nat | j < 16 ensures Free(bm, 16 * s + j) <==> On(bm[s], j) {
      Parts(s, j);
    }
    forall q | 16 * s + i <= q < 16 * s + i + n ensures Free(bm, q) <==> On(bm[s], q - 16 * s) {
      Parts(s, q - 16 * s);
    }
    if Fits(bm, n, 16 * s + i) {
      forall j | i <= j < i + n ensures On(bm[s], j) {
        assert Free(bm, 16 * s + j);
      }
    }
  }

  /** One segment word decides about its 16 pages and no others. */
  lemma FreeUpdate(bm: Bitmap, s: nat, w: bv16, q: nat)
    requires s < |bm|
    ensures Free(bm[s := w], q) <==> if 16 * s <= q < 16 * s + 16 then On(w, q - 16 * s) else Free(bm, q)
    ensures 16 * s <= q < 16 * s + 16 ==> (Free(bm, q) <==> On(bm[s], q - 16 * s))
  {
    hide On;
    assert q == 16 * (q / 16) + q % 16;
  }

  lemma TakenAt(bm: Bitmap, s: nat, i: nat, n: nat)
    requires s < |bm| && i + n <= 16
    ensures Taken(bm, bm[s := Clear(bm[s], i, n)], 16 * s + i, 16 * s + i + n)
  {
    hide On, Clear, Free;
    var w, p := Clear(bm[s], i, n), 16 * s + i;
    forall q: nat ensures Free(bm[s := w], q) <==> Free(bm, q) && !(p <= q < p + n) {
      FreeUpdate(bm, s, w, q);
      if 16 * s <= q < 16 * s + 16 {
        ClearOn(bm[s], i, n, q - 16 * s);
      }
    }
  }

  lemma FreedBit(bm: Bitmap, s: nat, i: nat)
    requires s < |bm| && i < 16
    ensures Freed(bm, bm[s := Set(bm[s], i)], 16 * s + i, 16 * s + i + 1)
  {
    hide On, Set, Free;
    var bm' := bm[s := Set(bm[s], i)];
    forall q: nat ensures Free(bm', q) <==> Free(bm, q) || 16 * s + i <= q < 16 * s + i + 1 {
      FreeUpdate(bm, s, Set(bm[s], i), q);
      if 16 * s <= q < 16 * s + 16 {
        SetOn(bm[s], i, q - 16 * s);
      }
    }
    assert |bm'| == |bm|;
  }

  lemma FreedSegment(bm: Bitmap, s: nat)
    requires s < |bm|
    ensures Freed(bm, bm[s := 0xFFFF], 16 * s, 16 * s + 16)
  {
    hide On, Free;
    forall q: nat ensures Free(bm[s := 0xFFFF], q) <==> Free(bm, q) || 16 * s <= q < 16 * s + 16 {
      FreeUpdate(bm, s, 0xFFFF, q);
      if 16 * s <= q < 16 * s + 16 {
        AllOn(q - 16 * s);
      }
    }
  }

  // ----- The allocator -----

  lemma NoFit(bm: Bitmap, n: nat, s: nat, i: nat)
    requires i < 16 && 16 < i + n
    ensures !Fits(bm, n, 16 * s + i)
  {
    Parts(s, i);
  }

  /** allocLowPhysPages: the lowest free run inside one segment is taken.  A run at page 0
      is taken too, but its address reads as failure. */
  method AllocLowPhysPages(bitmap: array<bv16>, nrofPages: nat) returns (ret: nat)
    requires bitmap.Length == SEGMENTS
    modifies bitmap
    ensures forall p: nat :: Lowest(old(bitmap[..]), nrofPages, p) ==>
              ret == p * 4096 && Taken(old(bitmap[..]), bitmap[..], p, p + nrofPages)
    ensures (forall p: nat :: !Fits(old(bitmap[..]), nrofPages, p)) ==> ret == 0 && bitmap[..] == old(bitmap[..])
    ensures 0 < nrofPages && !Free(old(bitmap[..]), 0) ==>
              (ret == 0 <==> forall p: nat :: !Fits(old(bitmap[..]), nrofPages, p))
  {
    hide Free, Test, Clear;
    ghost var bm := bitmap[..];
    if nrofPages > BITS_PER_SEG {
      return 0;
    }
    var curSeg := 0;
    while curSeg < SEGMENTS
      invariant 0 <= curSeg <= SEGMENTS && bitmap[..] == bm
      invariant forall q: nat :: q < 16 * curSeg ==> !Fits(bm, nrofPages, q)
    {
      var val := bitmap[curSeg];
      bitmap[curSeg] := 0;
      var i := 0;
      while i <= BITS_PER_SEG - nrofPages
        invariant 0 <= i <= BITS_PER_SEG - nrofPages + 1 && (nrofPages == 0 ==> i == 0)
        invariant bitmap[..] == bm[curSeg := 0]
        invariant forall q: nat :: q < 16 * curSeg + i ==> !Fits(bm, nrofPages, q)
      {
        TestFits(bm, curSeg, i, nrofPages);
        if Test(val, i, nrofPages) {
          TakenAt(bm, curSeg, i, nrofPages);
          LowestUnique(bm, nrofPages, 16 * curSeg + i);
          ret := (curSeg * BITS_PER_SEG + i) * PAGE_SIZE;
          bitmap[curSeg] := Clear(val, i, nrofPages);
          assert bitmap[..] == bm[curSeg := Clear(val, i, nrofPages)];
          return;
        }
        i := i + 1;
      }
      forall q: nat | q < 16 * curSeg + 16 ensures !Fits(bm, nrofPages, q) {
        if 16 * curSeg + i <= q {
          NoFit(bm, nrofPages, curSeg, q - 16 * curSeg);
        }
      }
      bitmap[curSeg] := val;
      assert bitmap[..] == bm;
      curSeg := curSeg + 1;
    }
    ret := 0;
  }

  lemma LowestUnique(bm: Bitmap, n: nat, p: nat)
    requires Lowest(bm, n, p)
    ensures forall q: nat :: Lowest(bm, n, q) ==> q == p
    ensures 0 < n && !Free(bm, 0) ==> p != 0
  {
  }

  /** Where deallocLowPhysPages stops: a request of a segment or more is rounded up to a
      whole segment. */
  function FreedEnd(page: nat, n: nat): (e: nat)
    ensures if n < 16 then e == page + n else e % 16 == 0 && page + n <= e < page + n + 16
  {
    if n < 16 then page + n else (page + n + 15) / 16 * 16
  }

  lemma FreedMore(bm: Bitmap, bm1: Bitmap, bm2: Bitmap, p: nat, m: nat, e: nat)
    requires Freed(bm, bm1, p, m) && Freed(bm1, bm2, m, e) && p <= m <= e
    ensures Freed(bm, bm2, p, e)
  {
    forall q: nat ensures Free(bm2, q) <==> Free(bm, q) || p <= q < e {
      assert Free(bm1, q) <==> Free(bm, q) || p <= q < m;
    }
  }

  /** deallocLowPhysPages: the pages are freed, up to FreedEnd. */
  method DeallocLowPhysPages(bitmap: array<bv16>, startPage: nat, nrofPages: nat)
    requires startPage / PAGE_SIZE + nrofPages <= 16 * bitmap.Length
    modifies bitmap
    ensures Freed(old(bitmap[..]), bitmap[..], startPage / PAGE_SIZE, FreedEnd(startPage / PAGE_SIZE, nrofPages))
  {
    hide Free, Set;
    ghost var bm := bitmap[..];
    var page := startPage / PAGE_SIZE;
    var seg, bit, i := page / BITS_PER_SEG, page % BITS_PER_SEG, 0;
    ghost var bit0 := bit;
    while i < nrofPages
      invariant 0 <= bit < 16 && 16 * seg + bit == page + i
      invariant i <= nrofPages || (nrofPages >= 16 && bit == 0 && i < nrofPages + 16)
      invariant nrofPages >= 16 && bit != 0 ==> bit == bit0 + i
      invariant Freed(bm, bitmap[..], page, page + i)
    {
      ghost var bm1 := bitmap[..];
      if bit == 0 && nrofPages >= BITS_PER_SEG {
        FreedSegment(bm1, seg);
        bitmap[seg] := 0xFFFF;
        assert bitmap[..] == bm1[seg := 0xFFFF];
        FreedMore(bm, bm1, bitmap[..], page, page + i, page + i + 16);
        i := i + BITS_PER_SEG;
        seg := seg + 1;
      } else {
        FreedBit(bm1, seg, bit);
        bitmap[seg] := Set(bitmap[seg], bit);
        assert bitmap[..] == bm1[seg := Set(bm1[seg], bit)];
        FreedMore(bm, bm1, bitmap[..], page, page + i, page + i + 1);
        i := i + 1;
        bit := bit + 1;
        if bit == BITS_PER_SEG {
          bit := 0;
          seg := seg + 1;
        }
      }
    }
  }

  /** Exactly the pages named are freed if and only if the request is shorter than a
      segment, or ends at one, or what follows up to the segment's end was free anyway. */
  lemma ExactIff(bm: Bitmap, bm': Bitmap, page: nat, n: nat)
    requires Freed(bm, bm', page, FreedEnd(page, n))
    ensures Freed(bm, bm', page, page + n) <==>
              n < 16 || (page + n) % 16 == 0 || forall q :: page + n <= q < FreedEnd(page, n) ==> Free(bm, q)
  {
    hide Free;
    if Freed(bm, bm', page, page + n) {
      forall q | page + n <= q < FreedEnd(page, n) ensures Free(bm, q) {
        assert Free(bm', q) <==> Free(bm, q) || page <= q < page + n;
      }
    }
  }

  /** Freeing 17 pages from page 16 frees page 47 as well. */
  lemma FreesTooMany(bm: Bitmap, bm': Bitmap)
    requires Freed(bm, bm', 16, FreedEnd(16, 17)) && !Free(bm, 47)
    ensures !Freed(bm, bm', 16, 16 + 17)
  {
    assert Free(bm', 47);
  }

  /** Bitmaps with the same free pages are the same. */
  lemma SameFree(bm: Bitmap, bm': Bitmap)
    requires |bm| == |bm'| && forall q: nat :: Free(bm, q) <==> Free(bm', q)
    ensures bm == bm'
  {
    hide On;
    forall s | 0 <= s < |bm| ensures bm[s] == bm'[s] {
      forall j: nat | j < 16 ensures On(bm[s], j) <==> On(bm'[s], j) {
        Parts(s, j);
        assert Free(bm, 16 * s + j) <==> Free(bm', 16 * s + j);
      }
      SameOn(bm[s], bm'[s]);
    }
  }

  // ----- A page freed while another CPU allocates -----

  datatype When = Before | Inside | After

  /** A segment from which one CPU takes n pages at bit i while another CPU frees page j: before
      the exchange that empties the word, between it and the store, or after the store. */
  function FreeDuring(w: bv16, i: nat, n: nat, j: nat, when: When): (r: bv16)
    requires i + n <= 16 && j < 16
  {
    match when
    case Before =>
      var val := Set(w, j);
      Clear(val, i, n)
    case Inside =>
      var val, emptied := w, 0;
      var freed := Set(emptied, j);
      var stored := Clear(val, i, n);
      stored
    case After =>
      var val := w;
      Set(Clear(val, i, n), j)
  }

  /** The page is lost exactly when it is freed in between; no other page is affected. */
  lemma FreeLostIff(w: bv16, i: nat, n: nat, j: nat, when: When, k: nat)
    requires i + n <= 16 && j < 16 && k < 16 && !On(w, j) && !(i <= j < i + n)
    ensures var r := FreeDuring(w, i, n, j, when);
            On(r, k) <==> (if k == j then when != Inside else On(w, k) && !(i <= k < i + n))
  {
    hide On, Set, Clear;
    SetOn(w, j, k);
    ClearOn(w, i, n, k);
    ClearOn(Set(w, j), i, n, k);
    SetOn(Clear(w, i, n), j, k);
  }

  // ----- Runs of clients -----

  lemma {:induction false} LowestExists(bm: Bitmap, n: nat, p: nat)
    requires Fits(bm, n, p)
    ensures exists q: nat :: Lowest(bm, n, q)
    decreases p
  {
    hide Fits;
    if !Lowest(bm, n, p) {
      var q: nat :| q < p && Fits(bm, n, q);
      LowestExists(bm, n, q);
    }
  }

  /** Pages handed to a client and not yet given back. */
  datatype Held = Held(page: nat, count: nat)

  predicate Has(h: Held, q: nat) {
    h.page <= q < h.page + h.count
  }

  /** A run as the allocator gives it out. */
  predicate InSegment(h: Held) {
    0 < h.count && h.page % 16 + h.count <= 16
  }

  ghost predicate SomeHas(live: seq<Held>, q: nat) {
    exists i :: 0 <= i < |live| && Has(live[i], q)
  }

  /** Every page that was free at the start is now either free or held by exactly one
      client, and no other page is either. */
  ghost predicate Conserved(start: Bitmap, bm: Bitmap, live: seq<Held>) {
    && |bm| == |start|
    && (forall q: nat :: Free(start, q) <==> Free(bm, q) || SomeHas(live, q))
    && (forall q: nat :: Free(bm, q) ==> !SomeHas(live, q))
    && (forall i, j, q: nat :: 0 <= i < j < |live| && Has(live[i], q) ==> !Has(live[j], q))
    && (forall i :: 0 <= i < |live| ==> InSegment(live[i]) && live[i].page + live[i].count <= 16 * |bm|)
  }

  lemma SnocHas(live: seq<Held>, h: Held, q: nat)
    ensures SomeHas(live + [h], q) <==> SomeHas(live, q) || Has(h, q)
  {
    assert (live + [h])[|live|] == h;
    if SomeHas(live, q) {
      var i :| 0 <= i < |live| && Has(live[i], q);
      assert Has((live + [h])[i], q);
    }
  }

  lemma TakenConserved(start: Bitmap, bm: Bitmap, bm': Bitmap, live: seq<Held>, h: Held)
    requires Conserved(start, bm, live) && InSegment(h) && Fits(bm, h.count, h.page)
    requires Taken(bm, bm', h.page, h.page + h.count)
    ensures Conserved(start, bm', live + [h])
  {
    hide Free;
    var live' := live + [h];
    forall q: nat ensures Free(start, q) <==> Free(bm', q) || SomeHas(live', q)
                  ensures Free(bm', q) ==> !SomeHas(live', q) {
      SnocHas(live, h, q);
      assert Has(h, q) ==> Free(bm, q);
    }
    forall i, j, q: nat | 0 <= i < j < |live'| && Has(live'[i], q) ensures !Has(live'[j], q) {
      assert live'[i] == live[i] && SomeHas(live, q);
      assert Has(h, q) ==> Free(bm, q);
    }
  }

  lemma WithoutHas(live: seq<Held>, k: nat, q: nat)
    requires k < |live|
    requires forall i :: 0 <= i < |live| && i != k && Has(live[i], q) ==> !Has(live[k], q)
    ensures SomeHas(live[..k] + live[k + 1..], q) <==> SomeHas(live, q) && !Has(live[k], q)
  {
    var live' := live[..k] + live[k + 1..];
    if SomeHas(live', q) {
      var i :| 0 <= i < |live'| && Has(live'[i], q);
      assert Has(live[if i < k then i else i + 1], q);
    }
    if SomeHas(live, q) && !Has(live[k], q) {
      var i :| 0 <= i < |live| && Has(live[i], q);
      assert Has(live'[if i < k then i else i - 1], q);
    }
  }

  lemma FreedConserved(start: Bitmap, bm: Bitmap, bm': Bitmap, live: seq<Held>, k: nat)
    requires Conserved(start, bm, live) && k < |live|
    requires Freed(bm, bm', live[k].page, live[k].page + live[k].count)
    ensures Conserved(start, bm', live[..k] + live[k + 1..])
  {
    hide Free;
    var live' := live[..k] + live[k + 1..];
    forall q: nat ensures Free(start, q) <==> Free(bm', q) || SomeHas(live', q)
                  ensures Free(bm', q) ==> !SomeHas(live', q) {
      WithoutHas(live, k, q);
      assert Has(live[k], q) ==> SomeHas(live, q);
    }
    forall i, j, q: nat | 0 <= i < j < |live'| && Has(live'[i], q) ensures !Has(live'[j], q) {
      assert live'[i] == live[if i < k then i else i + 1] && live'[j] == live[if j < k then j else j + 1];
    }
  }

  datatype Op = Take(count: nat) | Give(index: nat)

  /** Runs that start at page 0: their address reads as failure, so nobody holds them. */
  ghost predicate AtZero(lost: seq<Held>) {
    forall i :: 0 <= i < |lost| ==> lost[i].page == 0
  }

  /** Any run of clients.  Every page that was free at the start is free, held by one client,
      or lost in a run at page 0, which happens at most once, and only if page 0 was free. */
  method Run(bitmap: array<bv16>, ops: seq<Op>) returns (live: seq<Held>, ghost lost: seq<Held>)
    requires bitmap.Length == SEGMENTS
    modifies bitmap
    ensures Conserved(old(bitmap[..]), bitmap[..], lost + live)
    ensures AtZero(lost) && |lost| <= 1 && (lost != [] ==> Free(old(bitmap[..]), 0))
  {
    ghost var start := bitmap[..];
    live, lost := [], [];
    for i := 0 to |ops|
      invariant Conserved(start, bitmap[..], lost + live) && AtZero(lost)
    {
      hide Free, Conserved, AtZero;
      match ops[i]
      case Take(count) =>
        live, lost := TakePages(bitmap, count, live, lost, start);
      case Give(index) =>
        if index < |live| {
          live := GivePages(bitmap, index, live, lost, start);
        }
    }
    LostOnce(start, bitmap[..], live, lost);
  }

  lemma LostOnce(start: Bitmap, bm: Bitmap, live: seq<Held>, lost: seq<Held>)
    requires Conserved(start, bm, lost + live) && AtZero(lost)
    ensures |lost| <= 1 && (lost != [] ==> Free(start, 0))
  {
    hide Free;
    var all := lost + live;
    forall i | 0 <= i < |lost| ensures Has(all[i], 0) {
      assert all[i] == lost[i] && InSegment(all[i]);
    }
    if lost != [] {
      var last := |lost| - 1;
      assert Has(all[0], 0) && Has(all[last], 0);
      assert last == 0;
    }
  }

  /** allocLowPhysPages for a client, which takes 0 for failure. */
  method TakePages(bitmap: array<bv16>, count: nat, live: seq<Held>, ghost lost: seq<Held>, ghost start: Bitmap)
    returns (live': seq<Held>, ghost lost': seq<Held>)
    requires bitmap.Length == SEGMENTS && Conserved(start, bitmap[..], lost + live) && AtZero(lost)
    modifies bitmap
    ensures Conserved(start, bitmap[..], lost' + live') && AtZero(lost')
    ensures live' == live || (|live'| == |live| + 1 && live'[..|live|] == live && live'[|live|].count == count)
    ensures lost' != lost <==> count != 0 && Fits(old(bitmap[..]), count, 0)
    ensures count != 0 ==>
              (live' == live <==> Fits(old(bitmap[..]), count, 0) || forall p: nat :: !Fits(old(bitmap[..]), count, p))
  {
    hide Free, Fits, Taken, Conserved;
    ghost var bm := bitmap[..];
    var ret := AllocLowPhysPages(bitmap, count);
    live', lost' := live, lost;
    if count == 0 {
      EmptyLowest(bm);
      EmptyTaken(bm, bitmap[..]);
      return;
    }
    ZeroLowest(bm, count);
    if ret != 0 {
      ghost var p: nat :| Fits(bm, count, p);
      LowestExists(bm, count, p);
      ghost var q: nat :| Lowest(bm, count, q);
      var h := Held(ret / PAGE_SIZE, count);
      FitsSegment(bm, h.count, h.page);
      TakenConserved(start, bm, bitmap[..], lost + live, h);
      live' := live + [h];
      assert lost + live + [h] == lost + live';
    } else if Fits(bm, count, 0) {
      FitsSegment(bm, count, 0);
      TakenConserved(start, bm, bitmap[..], lost + live, Held(0, count));
      MoveFirst(start, bitmap[..], lost + live, Held(0, count));
      lost' := [Held(0, count)] + lost;
      assert [Held(0, count)] + (lost + live) == lost' + live;
    } else {
      NoneFits(bm, count, ret);
    }
  }

  lemma ZeroLowest(bm: Bitmap, n: nat)
    ensures Fits(bm, n, 0) ==> Lowest(bm, n, 0)
    ensures forall p: nat :: Lowest(bm, n, p) && p != 0 ==> !Fits(bm, n, 0)
  {
  }

  /** A result of 0 that is not a run at page 0 means that there is no run. */
  lemma NoneFits(bm: Bitmap, n: nat, ret: nat)
    requires !Fits(bm, n, 0) && ret == 0
    requires forall p: nat :: Lowest(bm, n, p) ==> ret == p * PAGE_SIZE
    ensures forall p: nat :: !Fits(bm, n, p)
  {
    forall p: nat ensures !Fits(bm, n, p) {
      if Fits(bm, n, p) {
        LowestExists(bm, n, p);
      }
    }
  }

  lemma MoveFirst(start: Bitmap, bm: Bitmap, live: seq<Held>, h: Held)
    requires Conserved(start, bm, live + [h])
    ensures Conserved(start, bm, [h] + live)
  {
    hide Free;
    var s, s' := live + [h], [h] + live;
    forall q: nat ensures SomeHas(s', q) <==> SomeHas(s, q) {
      SnocHas(live, h, q);
      ConsHas(live, h, q);
    }
    assert forall i :: 0 <= i < |live| ==> s[i] == live[i] == s'[i + 1];
    forall i, j, q: nat | 0 <= i < j < |s'| && Has(s'[i], q) ensures !Has(s'[j], q) {
      assert s'[j] == s[j - 1];
      assert if i == 0 then s'[i] == s[|live|] else s'[i] == s[i - 1];
    }
    forall i | 0 <= i < |s'| ensures InSegment(s'[i]) && s'[i].page + s'[i].count <= 16 * |bm| {
      assert if i == 0 then s'[i] == s[|live|] else s'[i] == s[i - 1];
    }
  }

  lemma ConsHas(live: seq<Held>, h: Held, q: nat)
    ensures SomeHas([h] + live, q) <==> SomeHas(live, q) || Has(h, q)
  {
    assert ([h] + live)[0] == h;
    if SomeHas(live, q) {
      var i :| 0 <= i < |live| && Has(live[i], q);
      assert Has(([h] + live)[i + 1], q);
    }
  }

  lemma EmptyLowest(bm: Bitmap)
    requires bm != []
    ensures Lowest(bm, 0, 0)
  {
  }

  lemma EmptyTaken(bm: Bitmap, bm': Bitmap)
    requires Taken(bm, bm', 0, 0)
    ensures bm' == bm
  {
    hide Free;
    SameFree(bm, bm');
  }

  method GivePages(bitmap: array<bv16>, k: nat, live: seq<Held>, ghost lost: seq<Held>, ghost start: Bitmap)
    returns (live': seq<Held>)
    requires bitmap.Length == SEGMENTS && Conserved(start, bitmap[..], lost + live) && k < |live|
    modifies bitmap
    ensures Conserved(start, bitmap[..], lost + live')
    ensures live' == live[..k] + live[k + 1..]
    ensures Freed(old(bitmap[..]), bitmap[..], live[k].page, live[k].page + live[k].count)
  {
    hide Free;
    ghost var bm, all := bitmap[..], lost + live;
    var h := live[k];
    assert all[|lost| + k] == h;
    SegmentEnd(h);
    DeallocLowPhysPages(bitmap, h.page * PAGE_SIZE, h.count);
    FreedConserved(start, bm, bitmap[..], all, |lost| + k);
    live' := live[..k] + live[k + 1..];
    assert all[..|lost| + k] + all[|lost| + k + 1..] == lost + live';
  }

  /** Giving back a run that lies in one segment never frees more than the run. */
  lemma SegmentEnd(h: Held)
    requires InSegment(h)
    ensures FreedEnd(h.page, h.count) == h.page + h.count
  {
  }

  /** Giving back what was just taken restores the bitmap. */
  method TakeGive(bitmap: array<bv16>, count: nat)
    requires bitmap.Length == SEGMENTS && 0 < count
    requires exists p: nat :: Fits(bitmap[..], count, p)
    modifies bitmap
    ensures bitmap[..] == old(bitmap[..])
  {
    hide Free, Fits;
    ghost var bm := bitmap[..];
    ghost var p: nat :| Fits(bm, count, p);
    LowestExists(bm, count, p);
    ghost var q: nat :| Lowest(bm, count, q);
    FitsSegment(bm, count, q);
    var ret := AllocLowPhysPages(bitmap, count);
    ghost var taken := bitmap[..];
    SegmentEnd(Held(q, count));
    DeallocLowPhysPages(bitmap, ret, count);
    TakenFreed(bm, taken, bitmap[..], q, count);
  }

  lemma TakenFreed(bm: Bitmap, bm1: Bitmap, bm2: Bitmap, p: nat, n: nat)
    requires Fits(bm, n, p) && Taken(bm, bm1, p, p + n) && Freed(bm1, bm2, p, p + n)
    ensures bm2 == bm
  {
    hide Free;
    forall q: nat ensures Free(bm2, q) <==> Free(bm, q) {
      assert Free(bm1, q) <==> Free(bm, q) && !(p <= q < p + n);
    }
    SameFree(bm2, bm);
  }

  lemma FitsSegment(bm: Bitmap, n: nat, p: nat)
    requires Fits(bm, n, p)
    ensures p % 16 + n <= 16 && p + n <= 16 * |bm|
  {
  }
}
