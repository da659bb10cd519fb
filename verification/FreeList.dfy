/**
 The doubly linked free list that the libc allocator threads through its free blocks.

 Memory is counted in 16-byte units of two words.  A free block whose header is at unit b
 keeps its list links in unit b + 1, and a link holds the address of such a unit, or 0.
 */
module FreeList {
  import opened Sequences

  /** One 16-byte unit.  The two words are (prev, next) both in a block header and in the
      links of a free block; in a payload they belong to the client. */
  datatype Unit = Unit(prev: nat, next: nat)

  type Memory = seq<Unit>

  function SetPrev(mem: Memory, u: nat, v: nat): Memory
    requires u < |mem|
  {
    mem[u := mem[u].(prev := v)]
  }

  function SetNext(mem: Memory, u: nat, v: nat): Memory
    requires u < |mem|
  {
    mem[u := mem[u].(next := v)]
  }

  /** Link n designates the lowest member of free above x (0 if there is none). */
  ghost predicate NextAfter(free: set<nat>, x: nat, n: nat) {
    if n == 0 then
      forall c :: c in free ==> c <= x
    else
      && n - 1 in free && x < n - 1
      && forall c :: c in free && x < c ==> n - 1 <= c
  }

  /** Link p designates the highest member of free below x (0 if there is none). */
  ghost predicate PrevBefore(free: set<nat>, x: nat, p: nat) {
    if p == 0 then
      forall c :: c in free ==> x <= c
    else
      && p - 1 in free && p - 1 < x
      && forall c :: c in free && c < x ==> c <= p - 1
  }

  /** The links stored in free block b lead to its neighbours in address order. */
  ghost predicate Entry(mem: Memory, free: set<nat>, b: nat)
    requires b + 1 < |mem|
  {
    && NextAfter(free, b, mem[b + 1].next)
    && PrevBefore(free, b, mem[b + 1].prev)
  }

  /** The links in mem and the two list heads form the list of exactly the blocks in
      free, in increasing address order, in both directions. */
  ghost predicate Linked(mem: Memory, first: nat, last: nat, free: set<nat>) {
    && 0 !in free
    && (forall b :: b in free ==> b + 1 < |mem|)
    && NextAfter(free, 0, first)
    && PrevBefore(free, |mem|, last)
    && (forall b {:trigger Entry(mem, free, b)} :: b in free ==> Entry(mem, free, b))
  }

  /** Only units that hold links of blocks in free may differ. */
  ghost predicate OnlyLinks(mem: Memory, mem': Memory, free: set<nat>) {
    && |mem'| == |mem|
    && forall u :: 0 <= u < |mem| && (u == 0 || u - 1 !in free) ==> mem'[u] == mem[u]
  }

  // ----- Walking the list -----

  /** What a client of the list sees by following next links from a link. */
  ghost function Forward(mem: Memory, first: nat, last: nat, free: set<nat>, fb: nat): (s: seq<nat>)
    requires Linked(mem, first, last, free)
    requires fb == 0 || fb - 1 in free
    decreases if fb == 0 then 0 else |mem| + 1 - fb
  {
    if fb == 0 then [] else
      assert Entry(mem, free, fb - 1);
      [fb - 1] + Forward(mem, first, last, free, mem[fb].next)
  }

  /** What it sees by following prev links, first seen last. */
  ghost function Backward(mem: Memory, first: nat, last: nat, free: set<nat>, fb: nat): (s: seq<nat>)
    requires Linked(mem, first, last, free)
    requires fb == 0 || fb - 1 in free
  {
    if fb == 0 then [] else
      assert Entry(mem, free, fb - 1);
      Backward(mem, first, last, free, mem[fb].prev) + [fb - 1]
  }

  lemma EntryNext(mem: Memory, first: nat, last: nat, free: set<nat>, b: nat)
    requires Linked(mem, first, last, free) && b in free
    ensures b + 1 < |mem| && Entry(mem, free, b)
    ensures var n := mem[b + 1].next;
            && (n == 0 || (n - 1 in free && b < n - 1))
            && forall c :: c in free ==> (b < c <==> n != 0 && n - 1 <= c)
  {
    assert Entry(mem, free, b);
  }

  lemma {:induction false} ForwardIs(mem: Memory, first: nat, last: nat, free: set<nat>, fb: nat)
    requires Linked(mem, first, last, free)
    requires fb == 0 || fb - 1 in free
    ensures var s := Forward(mem, first, last, free, fb);
            Increasing(s) && forall c :: c in s <==> c in free && fb != 0 && fb - 1 <= c
    decreases if fb == 0 then 0 else |mem| + 1 - fb
  {
    if fb != 0 {
      hide NextAfter, PrevBefore, Increasing;
      var n := mem[fb].next;
      EntryNext(mem, first, last, free, fb - 1);
      ForwardIs(mem, first, last, free, n);
      var t := Forward(mem, first, last, free, n);
      forall i | 0 <= i < |t| ensures fb - 1 < t[i] {
        assert t[i] in t;
      }
      IncreasingCons(fb - 1, t);
    }
  }

  lemma EntryPrev(mem: Memory, first: nat, last: nat, free: set<nat>, b: nat)
    requires Linked(mem, first, last, free) && b in free
    ensures b + 1 < |mem| && Entry(mem, free, b)
    ensures var p := mem[b + 1].prev;
            && (p == 0 || (p - 1 in free && p - 1 < b))
            && forall c :: c in free ==> (c < b <==> p != 0 && c <= p - 1)
  {
    assert Entry(mem, free, b);
  }

  lemma {:induction false} BackwardIs(mem: Memory, first: nat, last: nat, free: set<nat>, fb: nat)
    requires Linked(mem, first, last, free)
    requires fb == 0 || fb - 1 in free
    ensures var s := Backward(mem, first, last, free, fb);
            Increasing(s) && forall c :: c in s <==> c in free && fb != 0 && c <= fb - 1
  {
    if fb != 0 {
      hide NextAfter, PrevBefore, Increasing;
      var p := mem[fb].prev;
      EntryPrev(mem, first, last, free, fb - 1);
      BackwardIs(mem, first, last, free, p);
      var t := Backward(mem, first, last, free, p);
      forall i | 0 <= i < |t| ensures t[i] < fb - 1 {
        assert t[i] in t;
      }
      IncreasingSnoc(t, fb - 1);
    }
  }

  /** The list, read from either end, is the free blocks in increasing address order. */
  lemma ListIsFreeSet(mem: Memory, first: nat, last: nat, free: set<nat>)
    requires Linked(mem, first, last, free)
    ensures var s := Forward(mem, first, last, free, first);
            && Increasing(s)
            && (forall c :: c in s <==> c in free)
            && Backward(mem, first, last, free, last) == s
  {
    ForwardIs(mem, first, last, free, first);
    BackwardIs(mem, first, last, free, last);
    IncreasingUnique(Forward(mem, first, last, free, first), Backward(mem, first, last, free, last));
  }

  // ----- How neighbours change when a set loses or gains one member -----

  lemma NextRemove(free: set<nat>, b: nat, n: nat, x: nat, l: nat)
    requires NextAfter(free, x, l) && NextAfter(free, b, n) && b in free
    ensures NextAfter(free - {b}, x, if l == b + 1 then n else l)
  {
  }

  lemma PrevRemove(free: set<nat>, b: nat, p: nat, x: nat, l: nat)
    requires PrevBefore(free, x, l) && PrevBefore(free, b, p) && b in free
    ensures PrevBefore(free - {b}, x, if l == b + 1 then p else l)
  {
  }

  lemma NextInsert(free: set<nat>, b: nat, n: nat, x: nat, l: nat)
    requires NextAfter(free, x, l) && NextAfter(free, b, n) && b !in free
    ensures NextAfter(free + {b}, x, if x < b && l == n then b + 1 else l)
  {
  }

  lemma PrevInsert(free: set<nat>, b: nat, p: nat, x: nat, l: nat)
    requires PrevBefore(free, x, l) && PrevBefore(free, b, p) && b !in free
    ensures PrevBefore(free + {b}, x, if b < x && l == p then b + 1 else l)
  {
  }

  lemma HeadsRemove(free: set<nat>, b: nat, p: nat, n: nat, first: nat, last: nat, hi: nat)
    requires 0 !in free && b in free && (forall c :: c in free ==> c < hi)
    requires NextAfter(free, 0, first) && PrevBefore(free, hi, last)
    requires NextAfter(free, b, n) && PrevBefore(free, b, p)
    ensures NextAfter(free - {b}, 0, if p == 0 then n else first)
    ensures PrevBefore(free - {b}, hi, if n == 0 then p else last)
  {
    assert first == b + 1 <==> p == 0;
    assert last == b + 1 <==> n == 0;
    NextRemove(free, b, n, 0, first);
    PrevRemove(free, b, p, hi, last);
  }

  lemma HeadsInsert(free: set<nat>, b: nat, p: nat, n: nat, first: nat, last: nat, hi: nat)
    requires 0 !in free && b !in free && 0 < b < hi && (forall c :: c in free ==> c < hi)
    requires NextAfter(free, 0, first) && PrevBefore(free, hi, last)
    requires NextAfter(free, b, n) && PrevBefore(free, b, p)
    ensures NextAfter(free + {b}, 0, if p == 0 then b + 1 else first)
    ensures PrevBefore(free + {b}, hi, if n == 0 then b + 1 else last)
  {
    assert first == n <==> p == 0;
    assert last == p <==> n == 0;
    NextInsert(free, b, n, 0, first);
    PrevInsert(free, b, p, hi, last);
  }

  // ----- Link updates -----

  function Unlinked(mem: Memory, p: nat, n: nat): Memory
    requires p < |mem| && n < |mem|
  {
    var m1 := if p != 0 then SetNext(mem, p, n) else mem;
    if n != 0 then SetPrev(m1, n, p) else m1
  }

  lemma UnlinkEntry(mem: Memory, free: set<nat>, b: nat, c: nat)
    requires b + 1 < |mem| && c + 1 < |mem| && b in free && c in free && c != b
    requires mem[b + 1].prev < |mem| && mem[b + 1].next < |mem|
    requires Entry(mem, free, b) && Entry(mem, free, c)
    ensures Entry(Unlinked(mem, mem[b + 1].prev, mem[b + 1].next), free - {b}, c)
  {
    var p, n := mem[b + 1].prev, mem[b + 1].next;
    assert c + 1 == p <==> mem[c + 1].next == b + 1;
    assert c + 1 == n <==> mem[c + 1].prev == b + 1;
    NextRemove(free, b, n, c, mem[c + 1].next);
    PrevRemove(free, b, p, c, mem[c + 1].prev);
  }

  lemma UnlinkLinked(mem: Memory, first: nat, last: nat, free: set<nat>, b: nat)
    requires Linked(mem, first, last, free) && b in free
    ensures var p, n := mem[b + 1].prev, mem[b + 1].next;
            && p < |mem| && n < |mem|
            && Linked(Unlinked(mem, p, n), if p == 0 then n else first, if n == 0 then p else last, free - {b})
            && OnlyLinks(mem, Unlinked(mem, p, n), free - {b})
  {
    var p, n := mem[b + 1].prev, mem[b + 1].next;
    assert Entry(mem, free, b);
    var m := Unlinked(mem, p, n);
    HeadsRemove(free, b, p, n, first, last, |mem|);
    assert OnlyLinks(mem, m, free - {b});
    forall c | c in free - {b} ensures Entry(m, free - {b}, c) {
      assert Entry(mem, free, c);
      UnlinkEntry(mem, free, b, c);
    }
  }

  function Inserted(mem: Memory, fb: nat, p: nat, n: nat): (m: Memory)
    requires fb < |mem| && p < |mem| && n < |mem|
    ensures |m| == |mem|
  {
    var m1 := SetPrev(mem, fb, p);
    var m2 := if p != 0 then SetNext(m1, p, fb) else m1;
    var m3 := SetNext(m2, fb, n);
    if n != 0 then SetPrev(m3, n, fb) else m3
  }

  lemma InsertEntry(mem: Memory, free: set<nat>, b: nat, p: nat, n: nat, c: nat)
    requires b + 1 < |mem| && c + 1 < |mem| && b !in free && c in free && p < |mem| && n < |mem|
    requires PrevBefore(free, b, p) && NextAfter(free, b, n) && Entry(mem, free, c)
    ensures Entry(Inserted(mem, b + 1, p, n), free + {b}, c)
  {
    assert c + 1 == p <==> c < b && mem[c + 1].next == n;
    assert c + 1 == n <==> b < c && mem[c + 1].prev == p;
    NextInsert(free, b, n, c, mem[c + 1].next);
    PrevInsert(free, b, p, c, mem[c + 1].prev);
  }

  lemma InsertSelf(mem: Memory, free: set<nat>, b: nat, p: nat, n: nat)
    requires b + 1 < |mem| && b !in free && p < |mem| && n < |mem|
    requires PrevBefore(free, b, p) && NextAfter(free, b, n)
    ensures Entry(Inserted(mem, b + 1, p, n), free + {b}, b)
    ensures OnlyLinks(mem, Inserted(mem, b + 1, p, n), free + {b})
  {
    assert p != b + 1 && n != b + 1;
    assert Inserted(mem, b + 1, p, n)[b + 1] == Unit(p, n);
    NextInsert(free, b, n, b, n);
    PrevInsert(free, b, p, b, p);
  }

  lemma InsertLinked(mem: Memory, first: nat, last: nat, free: set<nat>, b: nat, p: nat, n: nat)
    requires Linked(mem, first, last, free) && b !in free && 0 < b < |mem| - 1
    requires PrevBefore(free, b, p) && NextAfter(free, b, n)
    ensures p < |mem| && n < |mem|
    ensures Linked(Inserted(mem, b + 1, p, n), if p == 0 then b + 1 else first, if n == 0 then b + 1 else last, free + {b})
    ensures OnlyLinks(mem, Inserted(mem, b + 1, p, n), free + {b})
  {
    InsertSelf(mem, free, b, p, n);
    forall c | c in free ensures Entry(Inserted(mem, b + 1, p, n), free + {b}, c) {
      assert Entry(mem, free, c);
      InsertEntry(mem, free, b, p, n, c);
    }
    InsertHeads(mem, Inserted(mem, b + 1, p, n), first, last, free, b, p, n);
  }

  lemma InsertHeads(mem: Memory, m: Memory, first: nat, last: nat, free: set<nat>, b: nat, p: nat, n: nat)
    requires Linked(mem, first, last, free) && b !in free && 0 < b < |mem| - 1
    requires PrevBefore(free, b, p) && NextAfter(free, b, n) && |m| == |mem|
    requires forall c {:trigger Entry(m, free + {b}, c)} :: c in free || c == b ==> Entry(m, free + {b}, c)
    ensures Linked(m, if p == 0 then b + 1 else first, if n == 0 then b + 1 else last, free + {b})
  {
    HeadsInsert(free, b, p, n, first, last, |mem|);
  }

  function Moved(mem: Memory, first: nat, last: nat, fb: nat, fb': nat): Memory
    requires fb < |mem| && fb' < |mem|
    requires first != fb ==> mem[fb].prev < |mem|
    requires last != fb ==> mem[fb].next < |mem|
  {
    var m1 := SetPrev(SetNext(mem, fb', mem[fb].next), fb', mem[fb].prev);
    var m2 := if first == fb then m1 else SetNext(m1, mem[fb].prev, fb');
    if last == fb then m2 else SetPrev(m2, mem[fb].next, fb')
  }

  lemma MovedIs(mem: Memory, first: nat, last: nat, fb: nat, fb': nat)
    requires fb < |mem| && 0 < fb' < |mem| && fb != fb'
    requires first == fb <==> mem[fb].prev == 0
    requires last == fb <==> mem[fb].next == 0
    requires mem[fb].prev < |mem| && mem[fb].next < |mem|
    requires mem[fb].prev != fb && mem[fb].next != fb && mem[fb].prev != fb' && mem[fb].next != fb'
    requires mem[fb].prev == mem[fb].next ==> mem[fb].prev == 0
    ensures Moved(mem, first, last, fb, fb') == Inserted(Unlinked(mem, mem[fb].prev, mem[fb].next), fb', mem[fb].prev, mem[fb].next)
  {
  }

  lemma MoveFacts(mem: Memory, first: nat, last: nat, free: set<nat>, b: nat, b': nat)
    requires Linked(mem, first, last, free) && b in free && b < b' < |mem| - 1
    requires forall c :: c in free && b < c ==> b' < c
    ensures b + 1 < |mem|
    ensures var p, n := mem[b + 1].prev, mem[b + 1].next;
            && (first == b + 1 <==> p == 0) && (last == b + 1 <==> n == 0)
            && p < b + 1 && (n == 0 || b' + 1 < n < |mem|)
            && PrevBefore(free - {b}, b', p) && NextAfter(free - {b}, b', n)
  {
    assert Entry(mem, free, b);
  }

  /** A list entry may move up in memory as long as it passes no other entry. */
  lemma MoveLinked(mem: Memory, first: nat, last: nat, free: set<nat>, b: nat, b': nat)
    requires Linked(mem, first, last, free) && b in free && b < b' < |mem| - 1
    requires forall c :: c in free && b < c ==> b' < c
    ensures first != b + 1 ==> 0 < mem[b + 1].prev <= b
    ensures last != b + 1 ==> b' + 1 < mem[b + 1].next < |mem|
    ensures var m := Moved(mem, first, last, b + 1, b' + 1);
            && Linked(m, if first == b + 1 then b' + 1 else first, if last == b + 1 then b' + 1 else last, free - {b} + {b'})
            && OnlyLinks(mem, m, free - {b} + {b'})
  {
    hide Linked, Moved, Inserted, Unlinked, Entry, PrevBefore, NextAfter;
    var p, n := mem[b + 1].prev, mem[b + 1].next;
    MoveFacts(mem, first, last, free, b, b');
    UnlinkLinked(mem, first, last, free, b);
    var m := Unlinked(mem, p, n);
    InsertLinked(m, if p == 0 then n else first, if n == 0 then p else last, free - {b}, b', p, n);
    MovedIs(mem, first, last, b + 1, b' + 1);
  }

  /** The list does not read anything else. */
  lemma LinkedFrame(mem: Memory, mem': Memory, first: nat, last: nat, free: set<nat>)
    requires Linked(mem, first, last, free)
    requires |mem| <= |mem'|
    requires forall b :: b in free ==> mem'[b + 1] == mem[b + 1]
    requires PrevBefore(free, |mem'|, last)
    ensures Linked(mem', first, last, free)
  {
    forall b | b in free ensures Entry(mem', free, b) {
      assert Entry(mem, free, b);
    }
  }
}
