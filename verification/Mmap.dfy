/**
 The doubly linked list of memory entries of a process, and the code that adds to it and
 searches it.
 */
module Mmap {
  import opened MemoryMap

  class MemoryEntry {
    var vaddr: nat
    var size: nat
    var flags: nat
    var next: MemoryEntry?
    var prev: MemoryEntry?

    constructor (vaddr: nat, size: nat, flags: nat)
      ensures this.vaddr == vaddr && this.size == size && this.flags == flags
      ensures next == null && prev == null
    {
      this.vaddr, this.size, this.flags := vaddr, size, flags;
      next, prev := null, null;
    }

    ghost predicate Is(e: Entry)
      reads this
    {
      vaddr == e.start && size == e.size && flags == e.flags
    }
  }

  ghost predicate Distinct(s: seq<MemoryEntry>) {
    forall i, j :: 0 <= i < j < |s| ==> s[i] != s[j]
  }

  /** The nodes of s hold the entries es. */
  ghost predicate Shows(s: seq<MemoryEntry>, es: seq<Entry>)
    reads s
  {
    |s| == |es| && forall i :: 0 <= i < |s| ==> s[i].Is(es[i])
  }

  /** Neighbours in s point at each other. */
  ghost predicate Segment(s: seq<MemoryEntry>)
    reads s
  {
    && (forall i {:trigger s[i].next} :: 0 <= i < |s| - 1 ==> s[i].next == s[i + 1])
    && (forall i {:trigger s[i].prev} :: 0 < i < |s| ==> s[i].prev == s[i - 1])
  }

  ghost predicate Ends(s: seq<MemoryEntry>, first: MemoryEntry?, last: MemoryEntry?)
    reads s
  {
    if s == [] then first == null && last == null
    else first == s[0] && s[0].prev == null && last == s[|s| - 1] && s[|s| - 1].next == null
  }

  /** Links the last node of a to the first node of b. */
  method Link(x: MemoryEntry, y: MemoryEntry, ghost a: seq<MemoryEntry>, ghost va: seq<Entry>, ghost b: seq<MemoryEntry>, ghost vb: seq<Entry>)
    requires a != [] && b != [] && x == a[|a| - 1] && y == b[0] && Distinct(a + b)
    requires Segment(a) && Segment(b) && Shows(a, va) && Shows(b, vb)
    modifies x`next, y`prev
    ensures Segment(a + b) && Segment(a) && Segment(b) && Shows(a, va) && Shows(b, vb)
    ensures a[0].prev == old(a[0].prev)
    ensures b[|b| - 1].next == old(b[|b| - 1].next)
  {
    assert forall i :: 0 <= i < |a| ==> (a + b)[i] == a[i];
    assert forall i :: 0 <= i < |b| ==> (a + b)[|a| + i] == b[i];
    x.next := y;
    y.prev := x;
    LinkedJoin(a, b);
  }

  /** The first entry above loses its first overlap addresses. */
  method TrimFront(y: MemoryEntry, overlap: nat, ghost a: seq<MemoryEntry>, ghost va: seq<Entry>, ghost b: seq<MemoryEntry>, ghost vb: seq<Entry>)
    requires b != [] && y == b[0] && Distinct(a + b) && Segment(a + b) && Shows(a, va) && Shows(b, vb)
    requires overlap < y.size
    modifies y`vaddr, y`size
    ensures Segment(a + b) && Shows(a, va) && vb != []
    ensures Shows(b, [Entry(vb[0].start + overlap, vb[0].size - overlap, vb[0].flags)] + vb[1..])
  {
    assert forall i :: 0 <= i < |a| ==> (a + b)[i] == a[i];
    assert forall i :: 0 <= i < |b| ==> (a + b)[|a| + i] == b[i];
    y.vaddr := y.vaddr + overlap;
    y.size := y.size - overlap;
  }

  lemma ShowsLength(s: seq<MemoryEntry>, es: seq<Entry>)
    requires Shows(s, es)
    ensures |s| == |es|
  {
  }

  lemma ShowsAt(s: seq<MemoryEntry>, es: seq<Entry>, k: nat)
    requires Shows(s, es) && k < |s|
    ensures |es| == |s| && s[k].Is(es[k])
  {
  }

  lemma ShowsHead(s: seq<MemoryEntry>, es: seq<Entry>)
    requires Shows(s, es) && s != []
    ensures es != [] && s[0].Is(es[0])
  {
  }

  lemma TrimEmpty(es: seq<Entry>, limit: nat)
    requires es == []
    ensures Trim(es, limit) == []
  {
  }

  lemma TrimStep(es: seq<Entry>, limit: nat)
    requires es != []
    ensures Trim(es, limit) ==
              if limit <= es[0].start then es
              else if limit < Limit(es[0]) then [Entry(limit, Limit(es[0]) - limit, es[0].flags)] + es[1..]
              else Trim(es[1..], limit)
  {
  }

  lemma SegmentTail(a: seq<MemoryEntry>, b: seq<MemoryEntry>, vb: seq<Entry>)
    requires b != [] && Segment(b) && Shows(b, vb) && Distinct(a + b)
    ensures |vb| == |b| && (|b| > 1 ==> b[0].next == b[1])
    ensures Segment(b[1..]) && Shows(b[1..], vb[1..]) && Distinct(a + b[1..])
  {
    forall i | 0 <= i < |b| - 2 ensures b[1..][i].next == b[1..][i + 1] {
      assert b[i + 1].next == b[i + 2];
    }
    forall i | 0 < i < |b| - 1 ensures b[1..][i].prev == b[1..][i - 1] {
      assert b[i + 1].prev == b[i];
    }
    forall i, j | 0 <= i < j < |a + b[1..]| ensures (a + b[1..])[i] != (a + b[1..])[j] {
      var i', j' := if i < |a| then i else i + 1, if j < |a| then j else j + 1;
      assert (a + b)[i'] != (a + b)[j'];
    }
  }

  lemma LinkedJoin(a: seq<MemoryEntry>, b: seq<MemoryEntry>)
    requires Segment(a) && Segment(b) && a != [] && b != []
    requires a[|a| - 1].next == b[0] && b[0].prev == a[|a| - 1]
    ensures Segment(a + b)
  {
  }

  lemma ShowsJoin(a: seq<MemoryEntry>, va: seq<Entry>, b: seq<MemoryEntry>, vb: seq<Entry>)
    requires Shows(a, va) && Shows(b, vb)
    ensures Shows(a + b, va + vb)
  {
  }

  class Process {
    var firstMemEntry: MemoryEntry?
    var lastMemEntry: MemoryEntry?
    ghost var entries: seq<MemoryEntry>

    ghost predicate Valid()
      reads this, entries
    {
      Distinct(entries) && Segment(entries) && Ends(entries, firstMemEntry, lastMemEntry)
    }

    /** A process without mappings. */
    constructor ()
      ensures Valid() && entries == []
    {
      firstMemEntry, lastMemEntry, entries := null, null, [];
    }

    method FindLowerHigher(newStart: nat, ghost es: seq<Entry>)
      returns (lower: MemoryEntry?, higher: MemoryEntry?, ghost i: nat)
      requires Valid() && Shows(entries, es)
      ensures i == CountLower(es, newStart) && |entries| == |es|
      ensures lower == (if CountLower(es, newStart) == 0 then null else entries[CountLower(es, newStart) - 1])
      ensures higher == (if CountLower(es, newStart) == |entries| then null else entries[CountLower(es, newStart)])
    {
      var cur := firstMemEntry;
      lower, higher, i := null, null, 0;
      while cur != null
        invariant i <= |entries| && cur == (if i < |entries| then entries[i] else null)
        invariant lower == (if i == 0 then null else entries[i - 1]) && higher == null
        invariant forall k :: 0 <= k < i ==> es[k].start <= newStart
        decreases |entries| - i
      {
        if newStart < cur.vaddr {
          higher := cur;
          break;
        }
        lower := cur;
        cur := cur.next;
        i := i + 1;
      }
    }

    method GetEntry(addr: nat, ghost es: seq<Entry>) returns (cur: MemoryEntry?, ghost k: nat)
      requires Valid() && Shows(entries, es)
      ensures cur == null ==> forall f: nat :: !Maps(es, addr, f)
      ensures cur != null ==> k < |entries| && cur == entries[k] && es[k].start <= addr < Limit(es[k])
      ensures cur != null ==> Maps(es, addr, cur.flags)
    {
      cur, k := firstMemEntry, 0;
      while cur != null
        invariant k <= |entries| && cur == (if k < |entries| then entries[k] else null)
        invariant forall j :: 0 <= j < k ==> !(es[j].start <= addr < Limit(es[j]))
        decreases |entries| - k
      {
        if cur.vaddr <= addr < cur.vaddr + cur.size {
          assert es[k].start <= addr < Limit(es[k]);
          break;
        }
        cur := cur.next;
        k := k + 1;
      }
    }

    /** The list is cut in two: a, from the first entry to tail, and b, the entries above. */
    ghost predicate Cut(a: seq<MemoryEntry>, va: seq<Entry>, b: seq<MemoryEntry>, vb: seq<Entry>)
      reads this, a, b
    {
      && Distinct(a + b)
      && a != [] && Segment(a) && Shows(a, va) && a[0].prev == null && firstMemEntry == a[0]
      && Segment(b) && Shows(b, vb)
      && (b != [] ==> b[|b| - 1].next == null && lastMemEntry == b[|b| - 1])
    }

    /** The last part of mmapCreateEntry: tail, the end of the part before, is linked to what
        remains of the entries above after removing everything below newEnd. */
    method LinkHigher(tail: MemoryEntry, higher: MemoryEntry?, newEnd: nat,
                      ghost a: seq<MemoryEntry>, ghost va: seq<Entry>, ghost b: seq<MemoryEntry>, ghost vb: seq<Entry>)
      requires Cut(a, va, b, vb) && tail == a[|a| - 1] && higher == (if b == [] then null else b[0])
      modifies this, tail, b
      ensures Valid() && Shows(entries, va + Trim(vb, newEnd))
      ensures forall x :: x in entries ==> x in a || x in b
    {
      hide Segment, Distinct, Trim, Shows, Cut;
      var cur, done := higher, false;
      ghost var k := 0;
      CutLength(a, va, b, vb);
      assert b[0..] == b && vb[0..] == vb;
      while true
        invariant k <= |b| == |vb| && cur == (if k < |b| then b[k] else null)
        invariant Cut(a, va, b[k..], vb[k..]) && Trim(vb, newEnd) == Trim(vb[k..], newEnd)
        decreases |b| - k
      {
        cur, done := LinkNext(tail, cur, newEnd, a, va, b[k..], vb[k..]);
        if done {
          return;
        }
        assert b[k..][1..] == b[k + 1..] && vb[k..][1..] == vb[k + 1..];
        k := k + 1;
      }
    }

    lemma CutLength(a: seq<MemoryEntry>, va: seq<Entry>, b: seq<MemoryEntry>, vb: seq<Entry>)
      requires Cut(a, va, b, vb)
      ensures |vb| == |b|
    {
    }

    /** One round: tail is linked to the next entry above, which may stay, lose its front, or
        go away. */
    method LinkNext(tail: MemoryEntry, higher: MemoryEntry?, newEnd: nat,
                    ghost a: seq<MemoryEntry>, ghost va: seq<Entry>, ghost b: seq<MemoryEntry>, ghost vb: seq<Entry>)
      returns (next: MemoryEntry?, done: bool)
      requires Cut(a, va, b, vb) && tail == a[|a| - 1] && higher == (if b == [] then null else b[0])
      modifies this, tail, b
      ensures done ==> Valid() && Shows(entries, va + Trim(vb, newEnd)) && forall x :: x in entries ==> x in a || x in b
      ensures !done ==>
                && |b| == |vb| != 0 && next == (if |b| == 1 then null else b[1])
                && Cut(a, va, b[1..], vb[1..]) && Trim(vb, newEnd) == Trim(vb[1..], newEnd)
    {
      hide Segment, Distinct, Trim, Shows, Ends;
      next, done := null, true;
      ShowsLength(b, vb);
      if higher == null {
        assert a + b == a;
        Finish(tail, a, va);
        TrimEmpty(vb, newEnd);
        assert va + [] == va;
        return;
      }
      Link(tail, higher, a, va, b, vb);
      ShowsHead(b, vb);
      TrimStep(vb, newEnd);
      entries := a + b;
      var highStart := higher.vaddr;
      if newEnd <= highStart {
        ShowsJoin(a, va, b, vb);
        JoinedValid(a, b);
        return;
      }
      var overlapSize := newEnd - highStart;
      if overlapSize < higher.size {
        TrimFront(higher, overlapSize, a, va, b, vb);
        ShowsJoin(a, va, b, Trim(vb, newEnd));
        JoinedValid(a, b);
        return;
      }
      next, done := higher.next, false;
      SegmentTail(a, b, vb);
    }

    lemma JoinedValid(a: seq<MemoryEntry>, b: seq<MemoryEntry>)
      requires entries == a + b && a != [] && b != [] && Distinct(a + b) && Segment(a + b)
      requires a[0].prev == null && firstMemEntry == a[0] && b[|b| - 1].next == null && lastMemEntry == b[|b| - 1]
      ensures Valid()
    {
      hide Segment, Distinct;
      assert (a + b)[0] == a[0] && (a + b)[|a + b| - 1] == b[|b| - 1];
    }

    /** No entry starts at or below the new one. */
    method PlaceFirst(new_: MemoryEntry, ghost es: seq<Entry>, ghost e: Entry)
      requires Valid() && Shows(entries, es) && new_ !in entries && new_.Is(e)
      modifies this`firstMemEntry, new_`prev
      ensures Cut([new_], [e], entries, es)
    {
      new_.prev := null;
      firstMemEntry := new_;
      assert forall i :: 0 <= i < |entries| ==> ([new_] + entries)[i + 1] == entries[i];
    }

    /** The new entry follows lower, which stays as it is. */
    method PlaceAfter(lower: MemoryEntry, new_: MemoryEntry, ghost i: nat, ghost es: seq<Entry>, ghost e: Entry)
      requires Valid() && Shows(entries, es) && new_ !in entries && new_.Is(e)
      requires 0 < i <= |entries| && lower == entries[i - 1]
      modifies new_`prev, lower`next
      ensures Cut(entries[..i] + [new_], es[..i] + [e], entries[i..], es[i..])
    {
      new_.prev := lower;
      lower.next := new_;
      assert forall k :: 0 <= k < |entries| - i ==> entries[i..][k] == entries[i + k];
    }

    /** lower grows to cover the request. */
    method MergeInto(lower: MemoryEntry, size: nat, ghost i: nat, ghost es: seq<Entry>)
      requires Valid() && Shows(entries, es)
      requires 0 < i <= |entries| && lower == entries[i - 1]
      modifies lower`size
      ensures lower.size == size
      ensures Cut(entries[..i], es[..i - 1] + [es[i - 1].(size := size)], entries[i..], es[i..])
    {
      lower.size := size;
    }

    /** lower keeps its first addresses, and the new entry follows it. */
    method CutLower(lower: MemoryEntry, new_: MemoryEntry, size: nat, ghost i: nat, ghost es: seq<Entry>, ghost e: Entry)
      requires Valid() && Shows(entries, es) && new_ !in entries && new_.Is(e)
      requires 0 < i <= |entries| && lower == entries[i - 1]
      modifies new_`prev, lower`next, lower`size
      ensures Cut(entries[..i] + [new_], es[..i - 1] + [es[i - 1].(size := size)] + [e], entries[i..], es[i..])
    {
      hide Segment, Distinct, Shows, Ends;
      ShowsLength(entries, es);
      MergeInto(lower, size, i, es);
      CutExtend(lower, new_, entries[..i], es[..i - 1] + [es[i - 1].(size := size)], entries[i..], es[i..], e);
    }

    method CutExtend(tail: MemoryEntry, new_: MemoryEntry, ghost a: seq<MemoryEntry>, ghost va: seq<Entry>,
                     ghost b: seq<MemoryEntry>, ghost vb: seq<Entry>, ghost e: Entry)
      requires Cut(a, va, b, vb) && tail == a[|a| - 1] && new_ !in a && new_ !in b && new_.Is(e)
      modifies new_`prev, tail`next
      ensures Cut(a + [new_], va + [e], b, vb)
    {
      assert forall i :: 0 <= i < |a| ==> (a + b)[i] == a[i];
      assert forall i :: 0 <= i < |b| ==> (a + b)[|a| + i] == b[i];
      new_.prev := tail;
      tail.next := new_;
    }

    /** The new entry takes the place of lower, which it covers from the start. */
    method ReplaceLower(lower: MemoryEntry, new_: MemoryEntry, ghost i: nat, ghost es: seq<Entry>, ghost e: Entry)
      requires Valid() && Shows(entries, es) && new_ !in entries && new_.Is(e)
      requires 0 < i <= |entries| && lower == entries[i - 1]
      modifies this`firstMemEntry, new_`prev, entries[..i]`next
      ensures Cut(entries[..i - 1] + [new_], es[..i - 1] + [e], entries[i..], es[i..])
    {
      ghost var a, b := entries[..i - 1] + [new_], entries[i..];
      DistinctReplace(entries, i, new_);
      assert forall k :: 0 <= k < |b| ==> b[k] == entries[i + k];
      assert forall k :: 0 <= k < i - 1 ==> a[k] == entries[k];
      lower.next := new_;
      var prev := lower.prev;
      new_.prev := prev;
      if prev != null {
        prev.next := new_;
      } else {
        firstMemEntry := new_;
      }
      assert Segment(b) && Shows(b, es[i..]);
      assert Segment(a) && Shows(a, es[..i - 1] + [e]);
    }

    lemma DistinctReplace(s: seq<MemoryEntry>, i: nat, x: MemoryEntry)
      requires Distinct(s) && 0 < i <= |s| && x !in s
      ensures Distinct(s[..i - 1] + [x] + s[i..])
    {
    }

    /** What lower covered above the new entry becomes an entry of its own. */
    method AppendUpper(tail: MemoryEntry, lh: MemoryEntry, higher: MemoryEntry?, ghost a: seq<MemoryEntry>, ghost va: seq<Entry>,
                       ghost b: seq<MemoryEntry>, ghost vb: seq<Entry>, ghost e: Entry)
      requires Cut(a, va, b, vb) && tail == a[|a| - 1] && lh !in a && lh !in b && lh.Is(e)
      requires higher == (if b == [] then null else b[0])
      modifies this`lastMemEntry, tail`next, lh`prev, lh`next, (if higher == null then {} else {higher})`prev
      ensures Cut(a + [lh], va + [e], b, vb)
    {
      assert forall i :: 0 <= i < |a| ==> (a + b)[i] == a[i];
      assert forall i :: 0 <= i < |b| ==> (a + b)[|a| + i] == b[i];
      lh.prev := tail;
      tail.next := lh;
      lh.next := higher;
      if higher != null {
        higher.prev := lh;
      } else {
        lastMemEntry := lh;
      }
    }

    /** The middle part of mmapCreateEntry: how the new entry meets lower. */
    method Place(new_: MemoryEntry, lower: MemoryEntry?, higher: MemoryEntry?, newStart: nat, newEnd: nat,
                 ghost i: nat, ghost es: seq<Entry>, ghost r: Request)
      returns (tail: MemoryEntry, limit: nat, ghost a: seq<MemoryEntry>)
      requires Valid() && Shows(entries, es) && new_ !in entries && (es != [] || Accepted(es, r))
      requires new_.Is(Entry(StoredStart(es, r), r.size, r.flags)) && newStart == r.start && newEnd == r.start + r.size
      requires i == CountLower(es, r.start)
      requires lower == (if i == 0 then null else entries[i - 1]) && higher == (if i == |entries| then null else entries[i])
      modifies this`firstMemEntry, this`lastMemEntry, new_, entries
      ensures Cut(a, Placed(es, r).0, entries[i..], es[i..]) && tail == a[|a| - 1] && limit == Placed(es, r).1
      ensures tail in a && forall x :: x in a ==> x in entries || x == new_ || fresh(x)
    {
      hide Segment, Distinct, Shows, Ends, Cut, HintFits, LowPart, StoredStart;
      ghost var e := Entry(StoredStart(es, r), r.size, r.flags);
      ShowsLength(entries, es);
      tail, limit := new_, newEnd;
      if lower == null {
        PlaceFirst(new_, es, e);
        a := [new_];
        assert entries[0..] == entries && es[0..] == es;
        return;
      }
      ShowsAt(entries, es, i - 1);
      var lowStart := lower.vaddr;
      var lowEnd := lowStart + lower.size;
      if lowEnd < newStart || (newStart == lowEnd && lower.flags != new_.flags) {
        PlaceAfter(lower, new_, i, es, e);
        a := entries[..i] + [new_];
      } else if lower.flags == new_.flags {
        MergeInto(lower, (if lowEnd < newEnd then newEnd else lowEnd) - lowStart, i, es);
        tail, limit := lower, lower.vaddr + lower.size;
        a := entries[..i];
      } else {
        tail, a := PlaceInside(new_, lower, higher, newStart, newEnd, i, es, e);
      }
    }

    /** The new entry lies in lower, whose flags differ: lower is cut, replaced or split. */
    method PlaceInside(new_: MemoryEntry, lower: MemoryEntry, higher: MemoryEntry?, newStart: nat, newEnd: nat,
                       ghost i: nat, ghost es: seq<Entry>, ghost e: Entry)
      returns (tail: MemoryEntry, ghost a: seq<MemoryEntry>)
      requires Valid() && Shows(entries, es) && new_ !in entries && new_.Is(e) && |es| == |entries|
      requires 0 < i <= |entries| && lower == entries[i - 1] && higher == (if i == |entries| then null else entries[i])
      requires lower.Is(es[i - 1]) && es[i - 1].start <= newStart < Limit(es[i - 1])
      modifies this`firstMemEntry, this`lastMemEntry, new_, entries
      ensures var l := es[i - 1];
              var above := if newEnd < Limit(l) then [Entry(newEnd, Limit(l) - newEnd, l.flags)] else [];
              Cut(a, es[..i - 1] + LowPart(l, newStart) + [e] + above, entries[i..], es[i..])
      ensures tail == a[|a| - 1]
      ensures tail in a && forall x :: x in a ==> x in entries || x == new_ || fresh(x)
    {
      hide Segment, Distinct, Shows, Ends, Cut, LowPart;
      var flags, lowEnd := lower.flags, lower.vaddr + lower.size;
      tail := new_;
      a := PlaceAbove(new_, lower, newStart, i, es, e);
      ghost var va := es[..i - 1] + LowPart(es[i - 1], newStart) + [e];
      assert va + [] == va;
      if newEnd < lowEnd {
        var lh := new MemoryEntry(newEnd, lowEnd - newEnd, flags);
        AppendUpper(new_, lh, higher, a, va, entries[i..], es[i..], Entry(newEnd, lowEnd - newEnd, flags));
        tail, a := lh, a + [lh];
      }
    }

    /** lower keeps what it has below the new entry, or goes away. */
    method PlaceAbove(new_: MemoryEntry, lower: MemoryEntry, newStart: nat, ghost i: nat, ghost es: seq<Entry>, ghost e: Entry)
      returns (ghost a: seq<MemoryEntry>)
      requires Valid() && Shows(entries, es) && new_ !in entries && new_.Is(e) && |es| == |entries|
      requires 0 < i <= |entries| && lower == entries[i - 1]
      requires lower.Is(es[i - 1]) && es[i - 1].start <= newStart
      modifies this`firstMemEntry, new_`prev, entries[..i]`next, lower`size
      ensures a == (if newStart == es[i - 1].start then entries[..i - 1] else entries[..i]) + [new_]
      ensures Cut(a, es[..i - 1] + LowPart(es[i - 1], newStart) + [e], entries[i..], es[i..])
    {
      hide Segment, Distinct, Shows, Ends, Cut;
      var llSize := newStart - lower.vaddr;
      if llSize == 0 {
        ReplaceLower(lower, new_, i, es, e);
        a := entries[..i - 1] + [new_];
        assert es[..i - 1] + [] + [e] == es[..i - 1] + [e];
      } else {
        CutLower(lower, new_, llSize, i, es, e);
        a := entries[..i] + [new_];
      }
    }

    /** mmapCreateEntry, including getVaddr.  The address out is what the caller is told. */
    method CreateEntry(vaddr: nat, size: nat, flags: nat, fixed: bool, ghost es: seq<Entry>)
      returns (out: nat, ghost r: Request)
      requires Valid() && Shows(entries, es) && (vaddr == 0 ==> entries != [])
      modifies this, entries
      ensures |es| == old(|entries|)
      ensures r == Request(if vaddr == 0 then Limit(es[|es| - 1]) else vaddr, size, flags, fixed)
      ensures (es != [] || Accepted(es, r)) && out == StoredStart(es, r)
      ensures Valid() && Shows(entries, Create(es, r))
      ensures forall x :: x in entries ==> x in old(entries) || fresh(x)
    {
      hide Segment, Distinct, Shows, HintFits, Trim, Cut, Placed, CountLower;
      ShowsLength(entries, es);
      var newStart := vaddr;
      var new_ := new MemoryEntry(vaddr, size, flags);
      if vaddr == 0 {
        ShowsAt(entries, es, |es| - 1);
        new_.vaddr := lastMemEntry.vaddr + lastMemEntry.size;
        newStart := new_.vaddr;
      }
      r := Request(newStart, size, flags, fixed);
      var lower, higher;
      ghost var i;
      lower, higher, i := FindLowerHigher(newStart, es);
      GetVaddr(lower, higher, new_, fixed, i, es, r);
      out := new_.vaddr;
      var newEnd := newStart + size;
      var tail, limit;
      ghost var a;
      tail, limit, a := Place(new_, lower, higher, newStart, newEnd, i, es, r);
      LinkHigher(tail, higher, limit, a, Placed(es, r).0, entries[i..], es[i..]);
    }

    /** A hint that does not fit is replaced by the end of the last entry. */
    method GetVaddr(lower: MemoryEntry?, higher: MemoryEntry?, entry: MemoryEntry, fixed: bool,
                    ghost i: nat, ghost es: seq<Entry>, ghost r: Request)
      requires Valid() && Shows(entries, es) && entry !in entries && fixed == r.fixed
      requires entry.vaddr == r.start && entry.size == r.size
      requires i == CountLower(es, r.start)
      requires lower == (if i == 0 then null else entries[i - 1]) && higher == (if i == |entries| then null else entries[i])
      modifies entry`vaddr
      ensures (es != [] || Accepted(es, r)) && entry.vaddr == StoredStart(es, r)
    {
      if fixed {
        return;
      }
      var newEnd := entry.vaddr + entry.size;
      var lowEnd := if lower != null then lower.vaddr + lower.size else entry.vaddr;
      var highStart := if higher != null then higher.vaddr else newEnd;
      if lowEnd <= entry.vaddr && newEnd <= highStart {
        return;
      }
      entry.vaddr := lastMemEntry.vaddr + lastMemEntry.size;
    }

    method Finish(tail: MemoryEntry, ghost a: seq<MemoryEntry>, ghost va: seq<Entry>)
      requires a != [] && tail == a[|a| - 1] && Distinct(a) && Segment(a) && Shows(a, va)
      requires a[0].prev == null && firstMemEntry == a[0]
      modifies this`lastMemEntry, this`entries, tail`next
      ensures Valid() && entries == a && Shows(entries, va)
    {
      tail.next := null;
      lastMemEntry := tail;
      entries := a;
    }
  }

  /** Any run of accepted requests on a new process: the linked list shows, for every address,
      the flags of the latest request that covers it. */
  method Run(rs: seq<Request>) returns (p: Process, ghost es: seq<Entry>)
    requires AllAccepted([], rs) && forall i :: 0 <= i < |rs| ==> rs[i].start != 0
    ensures p.Valid() && Shows(p.entries, es) && Ordered(es)
    ensures forall a: nat, f: nat :: Maps(es, a, f) <==> LastWord([], rs, a, f)
  {
    hide Shows, Segment, Distinct, Ends, Create, Maps, LastWord, Ordered, Accepted;
    p := new Process();
    es := [];
    ShowsNone();
    EmptyOrdered();
    for i := 0 to |rs|
      invariant fresh(p) && p.Valid() && Shows(p.entries, es)
      invariant forall k :: 0 <= k < |p.entries| ==> fresh(p.entries[k])
      invariant AllAccepted([], rs[..i]) && es == CreateAll([], rs[..i])
    {
      PrefixAccepted([], rs, i + 1);
      assert rs[..i + 1][..i] == rs[..i];
      var r := rs[i];
      ghost var r';
      var out;
      ghost var before := p.entries;
      out, r' := p.CreateEntry(r.start, r.size, r.flags, r.fixed, es);
      forall k | 0 <= k < |p.entries| ensures fresh(p.entries[k]) {
        assert p.entries[k] in p.entries;
        if p.entries[k] in before {
          var j :| 0 <= j < |before| && before[j] == p.entries[k];
        }
      }
      es := Create(es, r);
    }
    assert rs[..|rs|] == rs;
    RunMaps([], rs);
  }

  lemma ShowsNone()
    ensures Shows([], [])
  {
  }

  lemma {:induction false} PrefixAccepted(es: seq<Entry>, rs: seq<Request>, i: nat)
    requires AllAccepted(es, rs) && i <= |rs|
    ensures AllAccepted(es, rs[..i])
    decreases |rs|
  {
    if i < |rs| {
      PrefixAccepted(es, rs[..|rs| - 1], i);
      assert rs[..|rs| - 1][..i] == rs[..i];
    } else {
      assert rs[..i] == rs;
    }
  }
}
