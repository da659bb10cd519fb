/**
 The address space of a process as a list of entries, and what adding an entry means.

 An entry covers the addresses [start, start + size).  The list is in address order and
 no two entries overlap; entries of size 0 may occur and cover nothing.
 */
module MemoryMap {

  datatype Entry = Entry(start: nat, size: nat, flags: nat)

  function Limit(e: Entry): nat {
    e.start + e.size
  }

  ghost predicate Ordered(es: seq<Entry>) {
    forall i, j :: 0 <= i < j < |es| ==> Limit(es[i]) <= es[j].start
  }

  /** Address a is mapped with flags f. */
  ghost predicate Maps(es: seq<Entry>, a: nat, f: nat) {
    exists i :: 0 <= i < |es| && es[i].start <= a < Limit(es[i]) && es[i].flags == f
  }

  /** es' is es with [start, start + size) mapped to flags and everything else as before. */
  ghost predicate Overwrites(es: seq<Entry>, es': seq<Entry>, start: nat, size: nat, flags: nat) {
    forall a: nat, f: nat :: Maps(es', a, f) <==> if start <= a < start + size then f == flags else Maps(es, a, f)
  }

  /** The number of leading entries that start at or below x. */
  function CountLower(es: seq<Entry>, x: nat): (i: nat)
    ensures i <= |es|
    ensures forall k :: 0 <= k < i ==> es[k].start <= x
    ensures i < |es| ==> x < es[i].start
  {
    if es == [] || x < es[0].start then 0 else 1 + CountLower(es[1..], x)
  }

  /** The entries above the new one, without what it covers. */
  function Trim(es: seq<Entry>, limit: nat): seq<Entry> {
    if es == [] || limit <= es[0].start then es
    else
      var overlap := limit - es[0].start;
      if overlap < es[0].size then
        [Entry(limit, es[0].size - overlap, es[0].flags)] + es[1..]
      else
        Trim(es[1..], limit)
  }

  /** The hint of a request fits between its neighbours. */
  predicate HintFits(es: seq<Entry>, start: nat, size: nat) {
    var i := CountLower(es, start);
    && (i == 0 || Limit(es[i - 1]) <= start)
    && (i == |es| || start + size <= es[i].start)
  }

  /** A request: fixed ones overwrite, others take the hint when it fits. */
  datatype Request = Request(start: nat, size: nat, flags: nat, fixed: bool)

  /** The address stored in the new entry. */
  function StoredStart(es: seq<Entry>, r: Request): nat
    requires es != [] || r.fixed || HintFits(es, r.start, r.size)
  {
    if r.fixed || HintFits(es, r.start, r.size) then r.start else Limit(es[|es| - 1])
  }

  /** What an entry keeps below x. */
  function LowPart(e: Entry, x: nat): seq<Entry>
    requires e.start <= x
  {
    if x == e.start then [] else [e.(size := x - e.start)]
  }

  /** The part of the list up to the new entry, and the address up to which it reaches. */
  function Placed(es: seq<Entry>, r: Request): (seq<Entry>, nat)
    requires es != [] || r.fixed || HintFits(es, r.start, r.size)
  {
    var i, new_, newEnd := CountLower(es, r.start), Entry(StoredStart(es, r), r.size, r.flags), r.start + r.size;
    if i == 0 then
      ([new_], newEnd)
    else
      var lower := es[i - 1];
      if Limit(lower) < r.start || (r.start == Limit(lower) && lower.flags != r.flags) then
        (es[..i] + [new_], newEnd)
      else if lower.flags == r.flags then
        var merged := lower.(size := (if newEnd > Limit(lower) then newEnd else Limit(lower)) - lower.start);
        (es[..i - 1] + [merged], Limit(merged))
      else
        var above := if newEnd < Limit(lower) then [Entry(newEnd, Limit(lower) - newEnd, lower.flags)] else [];
        (es[..i - 1] + LowPart(lower, r.start) + [new_] + above, newEnd)
  }

  /** The list after a request. */
  function Create(es: seq<Entry>, r: Request): seq<Entry>
    requires es != [] || r.fixed || HintFits(es, r.start, r.size)
  {
    var (placed, limit) := Placed(es, r);
    placed + Trim(es[CountLower(es, r.start)..], limit)
  }

  // ----- Lists and the maps they stand for -----

  lemma MapsConcat(s: seq<Entry>, t: seq<Entry>, a: nat, f: nat)
    ensures Maps(s + t, a, f) <==> Maps(s, a, f) || Maps(t, a, f)
  {
    if Maps(s, a, f) {
      var i :| 0 <= i < |s| && s[i].start <= a < Limit(s[i]) && s[i].flags == f;
      assert (s + t)[i] == s[i];
    }
    if Maps(t, a, f) {
      var i :| 0 <= i < |t| && t[i].start <= a < Limit(t[i]) && t[i].flags == f;
      assert (s + t)[|s| + i] == t[i];
    }
  }

  lemma MapsOne(e: Entry, a: nat, f: nat)
    ensures Maps([e], a, f) <==> e.start <= a < Limit(e) && f == e.flags
  {
    assert [e][0] == e;
  }

  lemma OrderedConcat(s: seq<Entry>, t: seq<Entry>, m: nat)
    requires Ordered(s) && Ordered(t)
    requires forall i :: 0 <= i < |s| ==> Limit(s[i]) <= m
    requires forall i :: 0 <= i < |t| ==> m <= t[i].start
    ensures Ordered(s + t)
  {
  }

  /** Trimming removes exactly the addresses below the limit. */
  lemma {:induction false} TrimMaps(es: seq<Entry>, limit: nat, a: nat, f: nat)
    requires Ordered(es)
    ensures Maps(Trim(es, limit), a, f) <==> limit <= a && Maps(es, a, f)
  {
    if es == [] || limit <= es[0].start {
      if Maps(es, a, f) {
        var i :| 0 <= i < |es| && es[i].start <= a < Limit(es[i]) && es[i].flags == f;
        assert i == 0 || Limit(es[0]) <= es[i].start;
      }
    } else {
      assert es == [es[0]] + es[1..];
      MapsConcat([es[0]], es[1..], a, f);
      MapsOne(es[0], a, f);
      if limit - es[0].start < es[0].size {
        var h := Entry(limit, Limit(es[0]) - limit, es[0].flags);
        MapsConcat([h], es[1..], a, f);
        MapsOne(h, a, f);
        AllAbove(es[1..], Limit(es[0]), a, f);
      } else {
        TrimMaps(es[1..], limit, a, f);
      }
    }
  }

  lemma AllAbove(es: seq<Entry>, limit: nat, a: nat, f: nat)
    requires forall i :: 0 <= i < |es| ==> limit <= es[i].start
    ensures Maps(es, a, f) ==> limit <= a
  {
  }

  lemma AllBelow(es: seq<Entry>, limit: nat, a: nat, f: nat)
    requires forall i :: 0 <= i < |es| ==> Limit(es[i]) <= limit
    ensures Maps(es, a, f) ==> a < limit
  {
  }

  lemma {:induction false} TrimOrdered(es: seq<Entry>, limit: nat)
    requires Ordered(es)
    ensures Ordered(Trim(es, limit))
    ensures forall i :: 0 <= i < |Trim(es, limit)| ==> limit <= Trim(es, limit)[i].start
  {
    if es == [] || limit <= es[0].start {
      forall i | 0 <= i < |es| ensures limit <= es[i].start {
        assert i == 0 || Limit(es[0]) <= es[i].start;
      }
    } else if limit - es[0].start < es[0].size {
      OrderedConcat([Entry(limit, Limit(es[0]) - limit, es[0].flags)], es[1..], Limit(es[0]));
    } else {
      TrimOrdered(es[1..], limit);
    }
  }

  // ----- An accepted request overwrites -----

  /** The request is stored at the address it asked for. */
  predicate Accepted(es: seq<Entry>, r: Request) {
    r.fixed || HintFits(es, r.start, r.size)
  }

  /** The list cut at the entry that starts at or below x. */
  lemma CutAt(es: seq<Entry>, i: nat, a: nat, f: nat)
    requires Ordered(es) && 0 < i <= |es|
    ensures Maps(es, a, f) <==> Maps(es[..i - 1], a, f) || Maps([es[i - 1]], a, f) || Maps(es[i..], a, f)
    ensures Maps(es[..i - 1], a, f) ==> a < es[i - 1].start
    ensures Maps(es[i..], a, f) ==> Limit(es[i - 1]) <= a
  {
    assert es == es[..i - 1] + [es[i - 1]] + es[i..];
    MapsConcat(es[..i - 1] + [es[i - 1]], es[i..], a, f);
    MapsConcat(es[..i - 1], [es[i - 1]], a, f);
    AllBelow(es[..i - 1], es[i - 1].start, a, f);
    AllAbove(es[i..], Limit(es[i - 1]), a, f);
  }

  lemma {:induction false} PlacedMaps(es: seq<Entry>, r: Request, a: nat, f: nat)
    requires Ordered(es) && Accepted(es, r)
    ensures var i := CountLower(es, r.start);
            var (placed, limit) := Placed(es, r);
            && r.start + r.size <= limit
            && (Maps(placed, a, f) || (limit <= a && Maps(es[i..], a, f)) <==>
                if r.start <= a < r.start + r.size then f == r.flags else Maps(es, a, f))
  {
    hide Maps, Ordered;
    var i, newEnd := CountLower(es, r.start), r.start + r.size;
    var new_ := Entry(r.start, r.size, r.flags);
    MapsOne(new_, a, f);
    if i == 0 {
      assert es[0..] == es;
      if Maps(es, a, f) && es != [] { FirstAbove(es, r.start, a, f); }
      EmptyMaps(a, f);
    } else {
      var lower := es[i - 1];
      CutAt(es, i, a, f);
      MapsOne(lower, a, f);
      EmptyMaps(a, f);
      assert i == |es| ==> es[i..] == [];
      if i < |es| && Maps(es[i..], a, f) { SuffixAbove(es, i, r.start, a, f); }
      if Limit(lower) < r.start || (r.start == Limit(lower) && lower.flags != r.flags) {
        MapsConcat(es[..i], [new_], a, f);
        assert es[..i] == es[..i - 1] + [lower];
        MapsConcat(es[..i - 1], [lower], a, f);
      } else if lower.flags == r.flags {
        var merged := lower.(size := (if newEnd > Limit(lower) then newEnd else Limit(lower)) - lower.start);
        MapsConcat(es[..i - 1], [merged], a, f);
        MapsOne(merged, a, f);
      } else {
        SplitMaps(es[..i - 1], lower, new_, a, f);
      }
    }
  }

  lemma FirstAbove(es: seq<Entry>, x: nat, a: nat, f: nat)
    requires Ordered(es) && es != [] && x < es[0].start && Maps(es, a, f)
    ensures x < a
  {
    var k :| 0 <= k < |es| && es[k].start <= a < Limit(es[k]) && es[k].flags == f;
    assert k == 0 || Limit(es[0]) <= es[k].start;
  }

  lemma SuffixAbove(es: seq<Entry>, i: nat, x: nat, a: nat, f: nat)
    requires Ordered(es) && i < |es| && x < es[i].start && Maps(es[i..], a, f)
    ensures x < a
  {
    FirstAbove(es[i..], x, a, f);
  }

  lemma EmptyMaps(a: nat, f: nat)
    ensures !Maps([], a, f)
  {
  }

  /** Cutting a new entry out of lower leaves lower's flags outside it. */
  lemma SplitMaps(pre: seq<Entry>, lower: Entry, new_: Entry, a: nat, f: nat)
    requires lower.start <= new_.start < Limit(lower)
    ensures var below := if new_.start == lower.start then [] else [lower.(size := new_.start - lower.start)];
            var above := if Limit(new_) < Limit(lower) then [Entry(Limit(new_), Limit(lower) - Limit(new_), lower.flags)] else [];
            Maps(pre + below + [new_] + above, a, f) <==>
              || Maps(pre, a, f)
              || (if new_.start <= a < Limit(new_) then f == new_.flags
                  else lower.start <= a < Limit(lower) && f == lower.flags)
  {
    var below := if new_.start == lower.start then [] else [lower.(size := new_.start - lower.start)];
    var above := if Limit(new_) < Limit(lower) then [Entry(Limit(new_), Limit(lower) - Limit(new_), lower.flags)] else [];
    MapsConcat(pre + below + [new_], above, a, f);
    MapsConcat(pre + below, [new_], a, f);
    MapsConcat(pre, below, a, f);
    MapsOne(new_, a, f);
    if below != [] { MapsOne(below[0], a, f); }
    if above != [] { MapsOne(above[0], a, f); }
  }

  /** Adding an entry is map update. */
  lemma {:induction false} CreateOverwrites(es: seq<Entry>, r: Request)
    requires Ordered(es) && Accepted(es, r)
    ensures Overwrites(es, Create(es, r), r.start, r.size, r.flags)
  {
    var i := CountLower(es, r.start);
    var (placed, limit) := Placed(es, r);
    forall a: nat, f: nat
      ensures Maps(Create(es, r), a, f) <==> if r.start <= a < r.start + r.size then f == r.flags else Maps(es, a, f)
    {
      PlacedMaps(es, r, a, f);
      TrimMaps(es[i..], limit, a, f);
      MapsConcat(placed, Trim(es[i..], limit), a, f);
    }
  }

  ghost predicate Below(es: seq<Entry>, m: nat) {
    forall i :: 0 <= i < |es| ==> Limit(es[i]) <= m
  }

  ghost predicate Above(es: seq<Entry>, m: nat) {
    forall i :: 0 <= i < |es| ==> m <= es[i].start
  }

  /** What is in order and ends below m may be followed by an entry that starts at or above it. */
  lemma Follow(s: seq<Entry>, m: nat, e: Entry)
    requires Ordered(s) && Below(s, m) && m <= e.start
    ensures Ordered(s + [e]) && Below(s + [e], Limit(e))
  {
  }

  lemma PrefixBelow(es: seq<Entry>, i: nat)
    requires Ordered(es) && 0 < i <= |es|
    ensures Ordered(es[..i - 1]) && Below(es[..i - 1], es[i - 1].start)
    ensures Ordered(es[..i]) && Below(es[..i], Limit(es[i - 1]))
    ensures Ordered(es[i..]) && Above(es[i..], Limit(es[i - 1]))
  {
  }

  lemma SplitOrdered(pre: seq<Entry>, lower: Entry, new_: Entry)
    requires Ordered(pre) && Below(pre, lower.start) && lower.start <= new_.start < Limit(lower)
    ensures var below := if new_.start == lower.start then [] else [lower.(size := new_.start - lower.start)];
            var above := if Limit(new_) < Limit(lower) then [Entry(Limit(new_), Limit(lower) - Limit(new_), lower.flags)] else [];
            var placed := pre + below + [new_] + above;
            Ordered(placed) && Below(placed, if Limit(new_) < Limit(lower) then Limit(lower) else Limit(new_))
  {
    hide Ordered, Below;
    var below := if new_.start == lower.start then [] else [lower.(size := new_.start - lower.start)];
    var above := if Limit(new_) < Limit(lower) then [Entry(Limit(new_), Limit(lower) - Limit(new_), lower.flags)] else [];
    if below != [] {
      Follow(pre, lower.start, below[0]);
    }
    assert below == [] ==> pre + below == pre;
    Follow(pre + below, new_.start, new_);
    if above != [] {
      Follow(pre + below + [new_], Limit(new_), above[0]);
    }
    assert above == [] ==> pre + below + [new_] + above == pre + below + [new_];
  }

  /** The list stays in order, without overlap. */
  lemma {:induction false} CreateOrdered(es: seq<Entry>, r: Request)
    requires Ordered(es) && Accepted(es, r)
    ensures Ordered(Create(es, r))
  {
    hide Ordered, Below, Above;
    var i, newEnd := CountLower(es, r.start), r.start + r.size;
    var new_ := Entry(r.start, r.size, r.flags);
    if i == 0 {
      assert es[0..] == es;
      EmptyOrdered();
      Follow([], 0, new_);
      assert [] + [new_] == [new_];
      ThenTrim([new_], es, newEnd);
    } else {
      var lower := es[i - 1];
      PrefixBelow(es, i);
      if Limit(lower) < r.start || (r.start == Limit(lower) && lower.flags != r.flags) {
        Follow(es[..i], Limit(lower), new_);
        ThenTrim(es[..i] + [new_], es[i..], newEnd);
      } else if lower.flags == r.flags {
        var merged := lower.(size := (if newEnd > Limit(lower) then newEnd else Limit(lower)) - lower.start);
        Follow(es[..i - 1], lower.start, merged);
        ThenTrim(es[..i - 1] + [merged], es[i..], Limit(merged));
      } else {
        SplitOrdered(es[..i - 1], lower, new_);
        var (placed, limit) := Placed(es, r);
        if newEnd < Limit(lower) {
          TrimNothing(es[i..], newEnd, Limit(lower));
          Joined(placed, es[i..], Limit(lower));
        } else {
          ThenTrim(placed, es[i..], newEnd);
        }
      }
    }
  }

  lemma EmptyOrdered()
    ensures Ordered([]) && Below([], 0)
  {
  }

  lemma Joined(s: seq<Entry>, t: seq<Entry>, m: nat)
    requires Ordered(s) && Below(s, m) && Ordered(t) && Above(t, m)
    ensures Ordered(s + t)
  {
  }

  lemma TrimNothing(es: seq<Entry>, limit: nat, m: nat)
    requires Above(es, m) && limit <= m
    ensures Trim(es, limit) == es
  {
  }

  lemma ThenTrim(s: seq<Entry>, t: seq<Entry>, m: nat)
    requires Ordered(s) && Below(s, m) && Ordered(t)
    ensures Ordered(s + Trim(t, m))
  {
    TrimOrdered(t, m);
  }

  // ----- A rejected hint does not -----

  ghost predicate Positive(es: seq<Entry>) {
    forall i :: 0 <= i < |es| ==> 0 < es[i].size
  }

  /** Everything lies below the end of the last entry. */
  lemma LastLimit(es: seq<Entry>, s: seq<Entry>, a: nat, f: nat)
    requires Ordered(es) && es != [] && (forall e :: e in s ==> e in es) && Maps(s, a, f)
    ensures a < Limit(es[|es| - 1])
  {
    var k :| 0 <= k < |s| && s[k].start <= a < Limit(s[k]) && s[k].flags == f;
    assert s[k] in s;
    var j :| 0 <= j < |es| && es[j] == s[k];
    assert j == |es| - 1 || Limit(es[j]) <= es[|es| - 1].start;
  }

  lemma LimitOf(es: seq<Entry>, k: nat)
    requires Ordered(es) && k < |es|
    ensures Limit(es[k]) <= Limit(es[|es| - 1])
  {
    assert k == |es| - 1 || Limit(es[k]) <= es[|es| - 1].start;
  }

  lemma MapsAt(es: seq<Entry>, k: nat, a: nat)
    requires k < |es| && es[k].start <= a < Limit(es[k])
    ensures Maps(es, a, es[k].flags)
  {
  }

  lemma Witness(es: seq<Entry>, es': seq<Entry>, start: nat, size: nat, flags: nat, a: nat, f: nat)
    requires !(Maps(es', a, f) <==> if start <= a < start + size then f == flags else Maps(es, a, f))
    ensures !Overwrites(es, es', start, size, flags)
  {
  }

  /** The entry below the request takes it in. */
  predicate Merges(es: seq<Entry>, r: Request) {
    var i := CountLower(es, r.start);
    0 < i && r.start <= Limit(es[i - 1]) && es[i - 1].flags == r.flags
  }

  /** What the other requests leave of the list below and above the new entry. */
  function Around(es: seq<Entry>, r: Request): (seq<Entry>, seq<Entry>) {
    var i, newEnd := CountLower(es, r.start), r.start + r.size;
    var rest := Trim(es[i..], newEnd);
    if i == 0 || Limit(es[i - 1]) <= r.start then (es[..i], rest)
    else
      var lower := es[i - 1];
      var above := if newEnd < Limit(lower) then [Entry(newEnd, Limit(lower) - newEnd, lower.flags)] else [];
      (es[..i - 1] + LowPart(lower, r.start), above + rest)
  }

  lemma {:induction false} CreateAround(es: seq<Entry>, r: Request)
    requires (es != [] || Accepted(es, r)) && !Merges(es, r)
    ensures var (below, above) := Around(es, r);
            Create(es, r) == below + [Entry(StoredStart(es, r), r.size, r.flags)] + above
  {
    hide HintFits, CountLower, Trim;
    var i, new_ := CountLower(es, r.start), Entry(StoredStart(es, r), r.size, r.flags);
    if i == 0 {
      assert es[..0] + [new_] == [new_];
    }
  }

  /** A merged request, accepted or not, does what a fixed one does. */
  lemma {:induction false} MergedIsFixed(es: seq<Entry>, r: Request)
    requires es != [] && Merges(es, r)
    ensures Create(es, r) == Create(es, r.(fixed := true))
  {
    hide HintFits, CountLower, Trim;
  }

  lemma {:induction false} AroundOrdered(es: seq<Entry>, r: Request)
    requires Ordered(es) && !Merges(es, r)
    ensures var (below, above) := Around(es, r);
            && Create(es, r.(fixed := true)) == below + [Entry(r.start, r.size, r.flags)] + above
            && Ordered(below + [Entry(r.start, r.size, r.flags)] + above)
  {
    hide Ordered, Create;
    CreateAround(es, r.(fixed := true));
    CreateOrdered(es, r.(fixed := true));
  }

  /** Around the new entry nothing changes but that its range is cut out. */
  lemma {:induction false} AroundMaps(es: seq<Entry>, r: Request, a: nat, f: nat)
    requires Ordered(es) && !Merges(es, r)
    ensures var (below, above) := Around(es, r);
            Maps(below, a, f) || Maps(above, a, f) <==> !(r.start <= a < r.start + r.size) && Maps(es, a, f)
  {
    var (below, above) := Around(es, r);
    var new_ := Entry(r.start, r.size, r.flags);
    AroundOrdered(es, r);
    CreateOverwrites(es, r.(fixed := true));
    hide Create, Around, Ordered, Maps;
    MapsConcat(below + [new_], above, a, f);
    MapsConcat(below, [new_], a, f);
    MapsOne(new_, a, f);
    if new_.start <= a < Limit(new_) { NotInside(below, new_, above, a, f); }
  }

  lemma NotInside(below: seq<Entry>, e: Entry, above: seq<Entry>, a: nat, f: nat)
    requires Ordered(below + [e] + above) && e.start <= a < Limit(e)
    ensures !Maps(below, a, f) && !Maps(above, a, f)
  {
    var s := below + [e] + above;
    assert s[|below|] == e;
    assert forall k :: 0 <= k < |below| ==> s[k] == below[k];
    assert forall k :: 0 <= k < |above| ==> s[|below| + 1 + k] == above[k];
  }

  /** The map after a rejected hint that was not merged: the range of the hint is cut out,
      and the new entry lies behind everything else. */
  lemma {:induction false} RejectedMaps(es: seq<Entry>, r: Request, a: nat, f: nat)
    requires Ordered(es) && es != [] && !Accepted(es, r) && !Merges(es, r)
    ensures var out := Limit(es[|es| - 1]);
            && StoredStart(es, r) == out
            && (Maps(Create(es, r), a, f) <==>
                  if out <= a < out + r.size then f == r.flags
                  else !(r.start <= a < r.start + r.size) && Maps(es, a, f))
  {
    hide Maps, Ordered, Create;
    var (below, above) := Around(es, r);
    var new_ := Entry(Limit(es[|es| - 1]), r.size, r.flags);
    CreateAround(es, r);
    AroundMaps(es, r, a, f);
    MapsConcat(below + [new_], above, a, f);
    MapsConcat(below, [new_], a, f);
    MapsOne(new_, a, f);
    if Maps(es, a, f) { LastLimit(es, es, a, f); }
  }

  /** A rejected hint that was merged leaves the range reported to the caller unmapped. */
  lemma {:induction false} RejectedMerge(es: seq<Entry>, r: Request, a: nat, f: nat)
    requires Ordered(es) && es != [] && !Accepted(es, r) && Merges(es, r)
    ensures r.start < StoredStart(es, r)
    ensures var last := StoredStart(es, r) + r.size; last <= a ==> !Maps(Create(es, r), a, f)
    ensures 0 < r.size ==> !Maps(Create(es, r), StoredStart(es, r) + r.size - 1, f)
  {
    var i, out := CountLower(es, r.start), Limit(es[|es| - 1]);
    assert r.start < out by {
      assert i == |es| || Limit(es[i - 1]) <= es[i].start;
      if i < |es| { LimitOf(es, i); }
      LimitOf(es, i - 1);
    }
    MergedIsFixed(es, r);
    CreateOverwrites(es, r.(fixed := true));
    hide Maps, Create, Ordered;
    if Maps(es, a, f) { LastLimit(es, es, a, f); }
    if 0 < r.size && Maps(es, out + r.size - 1, f) { LastLimit(es, es, out + r.size - 1, f); }
  }

  ghost predicate Unmapped(es: seq<Entry>, start: nat, size: nat) {
    forall a: nat, f: nat :: start <= a < start + size ==> !Maps(es, a, f)
  }

  /** The range reported to the caller, and nothing else, is overwritten exactly when the
      request was fixed, its hint fitted, it was empty, or its hint was rejected for empty
      entries only and not merged. */
  lemma {:induction false} CorrectIff(es: seq<Entry>, r: Request)
    requires Ordered(es) && es != []
    ensures Overwrites(es, Create(es, r), StoredStart(es, r), r.size, r.flags) <==>
              Accepted(es, r) || r.size == 0 || (!Merges(es, r) && Unmapped(es, r.start, r.size))
  {
    hide Maps, Ordered, Create, Merges, HintFits;
    var out := Limit(es[|es| - 1]);
    if Accepted(es, r) {
      CreateOverwrites(es, r);
    } else if Merges(es, r) {
      if r.size == 0 {
        MergedIsFixed(es, r);
        CreateOverwrites(es, r.(fixed := true));
      } else {
        RejectedMerge(es, r, out + r.size - 1, r.flags);
        Witness(es, Create(es, r), out, r.size, r.flags, out + r.size - 1, r.flags);
      }
    } else {
      RejectedIff(es, r);
    }
  }

  lemma {:induction false} RejectedIff(es: seq<Entry>, r: Request)
    requires Ordered(es) && es != [] && !Accepted(es, r) && !Merges(es, r)
    ensures Overwrites(es, Create(es, r), StoredStart(es, r), r.size, r.flags) <==> Unmapped(es, r.start, r.size)
  {
    hide Maps, Ordered, Create, Merges, HintFits;
    var out := Limit(es[|es| - 1]);
    forall a: nat, f: nat ensures Maps(es, a, f) ==> a < out {
      if Maps(es, a, f) { LastLimit(es, es, a, f); }
    }
    if Unmapped(es, r.start, r.size) {
      forall a: nat, f: nat
        ensures Maps(Create(es, r), a, f) <==> if out <= a < out + r.size then f == r.flags else Maps(es, a, f) {
        RejectedMaps(es, r, a, f);
      }
    } else {
      var a: nat, f: nat :| r.start <= a < r.start + r.size && Maps(es, a, f);
      RejectedMaps(es, r, a, f);
      Witness(es, Create(es, r), out, r.size, r.flags, a, f);
    }
  }

  /** Without empty entries and empty requests: exactly when the request was fixed or its hint
      fitted. */
  lemma {:induction false} CorrectIffAccepted(es: seq<Entry>, r: Request)
    requires Ordered(es) && Positive(es) && es != [] && 0 < r.size
    ensures Overwrites(es, Create(es, r), StoredStart(es, r), r.size, r.flags) <==> Accepted(es, r)
  {
    CorrectIff(es, r);
    if !Accepted(es, r) {
      var i := CountLower(es, r.start);
      if 0 < i && r.start < Limit(es[i - 1]) {
        MapsAt(es, i - 1, r.start);
      } else {
        MapsAt(es, i, es[i].start);
      }
    }
  }

  // ----- Order and size -----

  lemma {:induction false} TrimPositive(es: seq<Entry>, limit: nat)
    requires Positive(es)
    ensures Positive(Trim(es, limit))
  {
    if es != [] && es[0].start < limit && es[0].size <= limit - es[0].start {
      TrimPositive(es[1..], limit);
    }
  }

  lemma {:induction false} AroundPositive(es: seq<Entry>, r: Request)
    requires Positive(es)
    ensures var (below, above) := Around(es, r); Positive(below) && Positive(above)
  {
    TrimPositive(es[CountLower(es, r.start)..], r.start + r.size);
  }

  /** No request that is not empty makes an empty entry. */
  lemma {:induction false} CreatePositive(es: seq<Entry>, r: Request)
    requires Positive(es) && 0 < r.size && (es != [] || Accepted(es, r))
    ensures Positive(Create(es, r))
  {
    if Merges(es, r) {
      TrimPositive(es[CountLower(es, r.start)..], Placed(es, r).1);
    } else {
      CreateAround(es, r);
      AroundPositive(es, r);
    }
  }

  /** The request covers the last entry, its start included, up to its end. */
  predicate CoversLast(es: seq<Entry>, r: Request)
    requires es != []
  {
    var last := es[|es| - 1];
    last.start < r.start + r.size && Limit(last) <= r.start + r.size
  }

  /** The list is in order afterwards exactly when the request was accepted or merged, or
      covers the last entry. */
  lemma {:induction false} OrderIff(es: seq<Entry>, r: Request)
    requires Ordered(es) && es != []
    ensures Ordered(Create(es, r)) <==> Accepted(es, r) || Merges(es, r) || CoversLast(es, r)
  {
    hide Create, Merges, HintFits;
    if Accepted(es, r) {
      CreateOrdered(es, r);
    } else if Merges(es, r) {
      MergedIsFixed(es, r);
      CreateOrdered(es, r.(fixed := true));
    } else {
      RejectedOrder(es, r);
    }
  }

  lemma {:induction false} RejectedOrder(es: seq<Entry>, r: Request)
    requires Ordered(es) && es != [] && !Accepted(es, r) && !Merges(es, r)
    ensures Ordered(Create(es, r)) <==> CoversLast(es, r)
  {
    var (below, above) := Around(es, r);
    var out, old_ := Limit(es[|es| - 1]), Entry(r.start, r.size, r.flags);
    var new_ := Entry(out, r.size, r.flags);
    CreateAround(es, r);
    AroundOrdered(es, r);
    AroundLimits(es, r);
    AroundEmpty(es, r);
    RejectedReason(es, r);
    hide Create, Around, Merges, HintFits;
    if above == [] {
      Swap(below, old_, new_, out);
      assert below + [new_] + [] == below + [new_];
    } else {
      var s := below + [new_] + above;
      assert s[|below|] == new_ && s[|below| + 1] == above[0];
    }
  }

  lemma Swap(below: seq<Entry>, e: Entry, e': Entry, m: nat)
    requires Ordered(below + [e] + []) && Below(below, m) && e'.start == m
    ensures Ordered(below + [e'])
  {
    var s := below + [e] + [];
    assert forall k :: 0 <= k < |below| ==> s[k] == below[k];
  }

  /** A hint is rejected for an entry that it overlaps, even if that one is empty. */
  lemma {:induction false} RejectedReason(es: seq<Entry>, r: Request)
    requires Ordered(es) && es != [] && !Accepted(es, r)
    ensures 0 < r.size || r.start < Limit(es[|es| - 1])
  {
    var i := CountLower(es, r.start);
    if 0 < i { LimitOf(es, i - 1); }
  }

  lemma {:induction false} TrimLimits(es: seq<Entry>, limit: nat, m: nat)
    requires Below(es, m)
    ensures Below(Trim(es, limit), m)
  {
    if es != [] && es[0].start < limit && es[0].size <= limit - es[0].start {
      TrimLimits(es[1..], limit, m);
    }
  }

  lemma BelowParts(es: seq<Entry>, i: nat)
    requires Ordered(es) && es != [] && i <= |es|
    ensures var m := Limit(es[|es| - 1]);
            Below(es[..i], m) && Below(es[i..], m) && (0 < i ==> Below(es[..i - 1], m) && Limit(es[i - 1]) <= m)
  {
    forall k | 0 <= k < |es| ensures Limit(es[k]) <= Limit(es[|es| - 1]) {
      LimitOf(es, k);
    }
  }

  /** The parts of an entry that is cut end no later than it does. */
  lemma CutParts(e: Entry, start: nat, end: nat, m: nat)
    requires e.start <= start <= Limit(e) <= m && start <= end
    ensures Below(LowPart(e, start), m)
    ensures Below(if end < Limit(e) then [Entry(end, Limit(e) - end, e.flags)] else [], m)
  {
  }

  /** What is left ends no later than the old list. */
  lemma {:induction false} AroundLimits(es: seq<Entry>, r: Request)
    requires Ordered(es) && es != []
    ensures var (below, above) := Around(es, r);
            Below(below, Limit(es[|es| - 1])) && Below(above, Limit(es[|es| - 1]))
  {
    hide Ordered, Trim, Below, LowPart;
    var i, m, newEnd := CountLower(es, r.start), Limit(es[|es| - 1]), r.start + r.size;
    BelowParts(es, i);
    TrimLimits(es[i..], newEnd, m);
    if 0 < i && r.start < Limit(es[i - 1]) {
      var lower := es[i - 1];
      CutParts(lower, r.start, newEnd, m);
      BelowJoin(es[..i - 1], LowPart(lower, r.start), m);
      BelowJoin(if newEnd < Limit(lower) then [Entry(newEnd, Limit(lower) - newEnd, lower.flags)] else [], Trim(es[i..], newEnd), m);
    }
  }

  lemma BelowJoin(s: seq<Entry>, t: seq<Entry>, m: nat)
    requires Below(s, m) && Below(t, m)
    ensures Below(s + t, m)
  {
  }

  lemma {:induction false} TrimsAll(es: seq<Entry>, limit: nat)
    requires Ordered(es)
    ensures Trim(es, limit) == [] <==>
              es == [] || (es[|es| - 1].start < limit && Limit(es[|es| - 1]) <= limit)
  {
    if es != [] {
      var n := |es| - 1;
      assert n == 0 || Limit(es[0]) <= es[n].start;
      if es[0].start < limit && es[0].size <= limit - es[0].start {
        TrimsAll(es[1..], limit);
      }
    }
  }

  /** Nothing is left above exactly when the request covers the last entry, or there was
      nothing above its start. */
  lemma {:induction false} AroundEmpty(es: seq<Entry>, r: Request)
    requires Ordered(es) && es != [] && !Accepted(es, r) && !Merges(es, r)
    ensures Around(es, r).1 == [] <==> CoversLast(es, r)
  {
    hide Trim;
    var i, newEnd := CountLower(es, r.start), r.start + r.size;
    var rest := es[i..];
    TrimsAll(rest, newEnd);
    if i == |es| {
      assert r.start < Limit(es[i - 1]);
    } else {
      assert rest[|rest| - 1] == es[|es| - 1];
      if 0 < i { LimitOf(es, i - 1); }
    }
  }

  /** A rejected hint that loses the order: an anonymous mapping asked for across two others. */
  lemma {:induction false} OrderLost()
    ensures var es, r := [Entry(4096, 4096, 51), Entry(16384, 8192, 51)], Request(12288, 8192, 50, false);
            Ordered(es) && !Ordered(Create(es, r))
  {
    var es, r := [Entry(4096, 4096, 51), Entry(16384, 8192, 51)], Request(12288, 8192, 50, false);
    assert CountLower(es, 12288) == 1 by {
      assert CountLower(es[1..], 12288) == 0;
    }
    OrderIff(es, r);
  }

  /** Reaching the end of the list is not enough if the last entry is empty and starts there. */
  lemma {:induction false} OrderLostBehind()
    ensures var es, r := [Entry(4096, 4096, 51), Entry(12288, 4096, 51), Entry(16384, 0, 50)], Request(4096, 12288, 49, false);
            Ordered(es) && Limit(es[2]) <= r.start + r.size && !Ordered(Create(es, r))
  {
    var es, r := [Entry(4096, 4096, 51), Entry(12288, 4096, 51), Entry(16384, 0, 50)], Request(4096, 12288, 49, false);
    assert CountLower(es, 4096) == 1 by {
      assert CountLower(es[1..], 4096) == 0;
    }
    OrderIff(es, r);
  }

  /** A request without an address goes behind the last entry, which is always accepted. */
  lemma {:induction false} NullAccepted(es: seq<Entry>, size: nat, flags: nat, fixed: bool)
    requires Ordered(es) && es != []
    ensures Accepted(es, Request(Limit(es[|es| - 1]), size, flags, fixed))
  {
    var start := Limit(es[|es| - 1]);
    AllLower(es, start);
  }

  lemma {:induction false} AllLower(es: seq<Entry>, x: nat)
    requires Ordered(es) && (es == [] || es[|es| - 1].start <= x)
    ensures CountLower(es, x) == |es|
  {
    if es != [] {
      assert |es| == 1 || Limit(es[0]) <= es[|es| - 1].start;
      AllLower(es[1..], x);
    }
  }

  /** A rejected hint for one anonymous page inside a mapping of the same kind: the caller is
      told address 16384, which stays unmapped. */
  lemma RejectedExample()
    ensures var es, r := [Entry(4096, 12288, 51)], Request(8192, 4096, 51, false);
            StoredStart(es, r) == 16384 && Create(es, r) == es && !Maps(Create(es, r), 16384, 51)
  {
    var es, r := [Entry(4096, 12288, 51)], Request(8192, 4096, 51, false);
    assert CountLower(es, 8192) == 1 by {
      assert CountLower(es[1..], 8192) == 0;
    }
    assert es[..0] + [Entry(4096, 12288, 51)] + [] == es;
  }

  // ----- Runs -----

  /** Every request is accepted by the list its predecessors leave. */
  predicate AllAccepted(es: seq<Entry>, rs: seq<Request>)
    decreases |rs|, 0
  {
    rs == [] || var before := rs[..|rs| - 1];
                AllAccepted(es, before) && Accepted(CreateAll(es, before), rs[|rs| - 1])
  }

  function CreateAll(es: seq<Entry>, rs: seq<Request>): seq<Entry>
    requires AllAccepted(es, rs)
    decreases |rs|, 1
  {
    if rs == [] then es else Create(CreateAll(es, rs[..|rs| - 1]), rs[|rs| - 1])
  }

  /** The latest request that covers a gave it flags f; without one, a was so mapped before. */
  ghost predicate LastWord(es: seq<Entry>, rs: seq<Request>, a: nat, f: nat) {
    if rs == [] then Maps(es, a, f)
    else
      var r := rs[|rs| - 1];
      if r.start <= a < r.start + r.size then f == r.flags else LastWord(es, rs[..|rs| - 1], a, f)
  }

  /** After any run of accepted requests the list is in order, and an address has the flags
      of the latest request that covers it. */
  lemma {:induction false} RunMaps(es: seq<Entry>, rs: seq<Request>)
    requires Ordered(es) && AllAccepted(es, rs)
    ensures Ordered(CreateAll(es, rs))
    ensures forall a: nat, f: nat :: Maps(CreateAll(es, rs), a, f) <==> LastWord(es, rs, a, f)
    decreases |rs|
  {
    if rs != [] {
      hide Maps, Ordered, Create;
      var before, r := rs[..|rs| - 1], rs[|rs| - 1];
      RunMaps(es, before);
      CreateOrdered(CreateAll(es, before), r);
      CreateOverwrites(CreateAll(es, before), r);
    }
  }
}
