/**
 The entries of the list of mappings after a request: what is left of the old ones, and when
 a request becomes part of one.
 */
module MapEntries {
  import opened MemoryMap

  /** What a request for addresses from x on leaves of e below x.  An empty entry at x stays. */
  function LowRest(e: Entry, x: nat): seq<Entry> {
    if Limit(e) <= x then [e]
    else if e.start < x then [e.(size := x - e.start)]
    else []
  }

  /** What a request for the addresses from x up to end leaves of e above end. */
  function HighRest(e: Entry, x: nat, end: nat): seq<Entry> {
    if x < e.start && end <= e.start then [e]
    else if end < Limit(e) then [Entry(end, Limit(e) - end, e.flags)]
    else []
  }

  function LowRests(es: seq<Entry>, x: nat): seq<Entry> {
    if es == [] then [] else LowRest(es[0], x) + LowRests(es[1..], x)
  }

  function HighRests(es: seq<Entry>, x: nat, end: nat): seq<Entry> {
    if es == [] then [] else HighRest(es[0], x, end) + HighRests(es[1..], x, end)
  }

  /** Entry k has the flags of the request and reaches its start, and the next entry starts
      above it. */
  predicate JoinsAt(es: seq<Entry>, r: Request, k: nat) {
    && k < |es| && es[k].flags == r.flags && es[k].start <= r.start <= Limit(es[k])
    && (k + 1 < |es| ==> r.start < es[k + 1].start)
  }

  // ----- What is left, entry by entry -----

  lemma {:induction false} LowConcat(s: seq<Entry>, t: seq<Entry>, x: nat)
    ensures LowRests(s + t, x) == LowRests(s, x) + LowRests(t, x)
  {
    if s == [] {
      assert s + t == t;
    } else {
      assert (s + t)[1..] == s[1..] + t;
      LowConcat(s[1..], t, x);
    }
  }

  lemma {:induction false} HighConcat(s: seq<Entry>, t: seq<Entry>, x: nat, end: nat)
    ensures HighRests(s + t, x, end) == HighRests(s, x, end) + HighRests(t, x, end)
  {
    if s == [] {
      assert s + t == t;
    } else {
      assert (s + t)[1..] == s[1..] + t;
      HighConcat(s[1..], t, x, end);
    }
  }

  /** Below the request everything stays. */
  lemma {:induction false} AllLow(es: seq<Entry>, x: nat, end: nat)
    requires Below(es, x) && x <= end
    ensures LowRests(es, x) == es && HighRests(es, x, end) == []
  {
    if es != [] {
      AllLow(es[1..], x, end);
    }
  }

  /** Of what starts above the start of the request, nothing is left below it. */
  lemma {:induction false} NoneLow(es: seq<Entry>, x: nat)
    requires Above(es, x + 1)
    ensures LowRests(es, x) == []
  {
    if es != [] {
      NoneLow(es[1..], x);
    }
  }

  lemma {:induction false} AllHigh(es: seq<Entry>, x: nat, end: nat)
    requires Above(es, x + 1) && Above(es, end)
    ensures HighRests(es, x, end) == es
  {
    if es != [] {
      AllHigh(es[1..], x, end);
    }
  }

  /** The loop over the higher entries stops early, but what is left is the same. */
  lemma {:induction false} TrimIsHigh(es: seq<Entry>, x: nat, end: nat)
    requires Ordered(es) && Above(es, x + 1)
    ensures Trim(es, end) == HighRests(es, x, end)
  {
    if es != [] {
      var e := es[0];
      if end <= e.start {
        AllHigh(es, x, end);
      } else if end < Limit(e) {
        AllHigh(es[1..], x, end);
      } else {
        TrimIsHigh(es[1..], x, end);
      }
    }
  }

  lemma {:induction false} RestAbove(es: seq<Entry>, i: nat, x: nat)
    requires Ordered(es) && i <= |es| && (i < |es| ==> x < es[i].start)
    ensures Ordered(es[i..]) && Above(es[i..], x + 1)
  {
    forall k | 0 <= k < |es[i..]| ensures x + 1 <= es[i..][k].start {
      assert k == 0 || Limit(es[i]) <= es[i + k].start;
    }
  }

  lemma {:induction false} AroundIs(es: seq<Entry>, r: Request)
    requires Ordered(es)
    ensures Around(es, r) == (LowRests(es, r.start), HighRests(es, r.start, r.start + r.size))
  {
    hide Trim, Ordered, Below, Above, LowRests, HighRests;
    var i, x, end := CountLower(es, r.start), r.start, r.start + r.size;
    RestAbove(es, i, x);
    NoneLow(es[i..], x);
    TrimIsHigh(es[i..], x, end);
    assert es == es[..i] + es[i..];
    LowConcat(es[..i], es[i..], x);
    HighConcat(es[..i], es[i..], x, end);
    LowerIs(es, i, x, end);
    var (below, above) := Around(es, r);
    assert below == LowRests(es[..i], x) + [];
    assert above == HighRests(es[..i], x, end) + Trim(es[i..], end);
  }

  /** What is left of the entries that start at or below the request. */
  lemma {:induction false} LowerIs(es: seq<Entry>, i: nat, x: nat, end: nat)
    requires Ordered(es) && i <= |es| && x <= end && (0 < i ==> es[i - 1].start <= x)
    ensures if i == 0 || Limit(es[i - 1]) <= x then
              LowRests(es[..i], x) == es[..i] && HighRests(es[..i], x, end) == []
            else
              && LowRests(es[..i], x) == es[..i - 1] + LowPart(es[i - 1], x)
              && HighRests(es[..i], x, end) == HighRest(es[i - 1], x, end)
  {
    if 0 < i {
      hide Ordered, Below;
      PrefixBelow(es, i);
      var lower := es[i - 1];
      if Limit(lower) <= x {
        BelowMore(es[..i], Limit(lower), x);
        AllLow(es[..i], x, end);
      } else {
        BelowMore(es[..i - 1], lower.start, x);
        AllLow(es[..i - 1], x, end);
        assert es[..i] == es[..i - 1] + [lower];
        LowConcat(es[..i - 1], [lower], x);
        HighConcat(es[..i - 1], [lower], x, end);
        assert [lower][1..] == [];
      }
    }
  }

  lemma BelowMore(es: seq<Entry>, m: nat, m': nat)
    requires Below(es, m) && m <= m'
    ensures Below(es, m')
  {
  }

  // ----- The list after a request -----

  /** A hint fits if and only if every entry ends at or below its start, or starts above that
      and not below its end. */
  lemma {:induction false} HintIff(es: seq<Entry>, start: nat, size: nat)
    requires Ordered(es)
    ensures HintFits(es, start, size) <==>
              forall e :: e in es ==> Limit(e) <= start || (start < e.start && start + size <= e.start)
  {
    var i := CountLower(es, start);
    if HintFits(es, start, size) {
      forall e | e in es ensures Limit(e) <= start || (start < e.start && start + size <= e.start) {
        var k :| 0 <= k < |es| && es[k] == e;
        if k < i {
          assert k == i - 1 || Limit(es[k]) <= es[i - 1].start;
        } else {
          assert k == i || Limit(es[i]) <= es[k].start;
        }
      }
    } else if 0 < i && start < Limit(es[i - 1]) {
      assert es[i - 1] in es;
    } else {
      assert es[i] in es;
    }
  }

  lemma {:induction false} JoinsIff(es: seq<Entry>, r: Request)
    requires Ordered(es)
    ensures Merges(es, r) <==> exists k: nat :: JoinsAt(es, r, k)
    ensures forall k: nat :: JoinsAt(es, r, k) ==> CountLower(es, r.start) == k + 1
  {
    var i := CountLower(es, r.start);
    if Merges(es, r) {
      assert JoinsAt(es, r, i - 1);
    }
  }

  /** A request that joins no entry: the old entries, cut where the request lies, and a new
      one between them. */
  lemma {:induction false} NewEntry(es: seq<Entry>, r: Request)
    requires Ordered(es) && (es != [] || Accepted(es, r)) && forall k: nat :: !JoinsAt(es, r, k)
    ensures Create(es, r) ==
            LowRests(es, r.start) + [Entry(StoredStart(es, r), r.size, r.flags)] + HighRests(es, r.start, r.start + r.size)
  {
    JoinsIff(es, r);
    CreateAround(es, r);
    AroundIs(es, r);
  }

  /** A request that joins entry k: that entry grows as far as the request reaches, the others
      above it are cut there, and the list does not get longer. */
  lemma {:induction false} JoinedEntry(es: seq<Entry>, r: Request, k: nat)
    requires Ordered(es) && JoinsAt(es, r, k)
    ensures var limit := if Limit(es[k]) < r.start + r.size then r.start + r.size else Limit(es[k]);
            Create(es, r) ==
              es[..k] + [Entry(es[k].start, limit - es[k].start, r.flags)] + HighRests(es[k + 1..], r.start, limit)
    ensures |Create(es, r)| <= |es|
  {
    JoinsIff(es, r);
    RestAbove(es, k + 1, r.start);
    var limit := if Limit(es[k]) < r.start + r.size then r.start + r.size else Limit(es[k]);
    TrimIsHigh(es[k + 1..], r.start, limit);
    TrimShorter(es[k + 1..], limit);
  }

  lemma {:induction false} TrimShorter(es: seq<Entry>, limit: nat)
    ensures |Trim(es, limit)| <= |es|
  {
    if es != [] && es[0].start < limit && es[0].size <= limit - es[0].start {
      TrimShorter(es[1..], limit);
    }
  }

  // ----- When a request becomes part of an entry -----

  /** Entry e covers what d covered and the whole request. */
  predicate CoversBoth(e: Entry, d: Entry, r: Request) {
    e.start <= d.start && Limit(d) <= Limit(e) && e.start <= r.start && r.start + r.size <= Limit(e)
  }

  ghost predicate NoneCovers(es: seq<Entry>, d: Entry, r: Request) {
    forall e :: e in es ==> !CoversBoth(e, d, r)
  }

  /** An entry of the flags of the request that reaches its start takes it in if and only if
      no other entry starts there. */
  lemma {:induction false} JoinedIff(es: seq<Entry>, r: Request, k: nat)
    requires Ordered(es) && k < |es| && 0 < es[k].size && 0 < r.size
    requires es[k].flags == r.flags && es[k].start <= r.start <= Limit(es[k])
    ensures (exists e :: e in Create(es, r) && CoversBoth(e, es[k], r)) <==>
              k + 1 == |es| || r.start != es[k + 1].start
  {
    hide Create, Merges, HintFits;
    assert k + 1 < |es| ==> Limit(es[k]) <= es[k + 1].start;
    if k + 1 == |es| || r.start < es[k + 1].start {
      JoinedEntry(es, r, k);
      assert CoversBoth(Create(es, r)[k], es[k], r);
    } else {
      NotJoined(es, r, k);
    }
  }

  lemma {:induction false} NotJoined(es: seq<Entry>, r: Request, k: nat)
    requires Ordered(es) && k + 1 < |es| && 0 < es[k].size && 0 < r.size
    requires es[k].start <= r.start == Limit(es[k]) == es[k + 1].start
    ensures NoneCovers(Create(es, r), es[k], r)
  {
    hide Create, Merges, HintFits, LowRests, HighRests;
    var d, end := es[k], r.start + r.size;
    if j: nat :| JoinsAt(es, r, j) {
      JoinedEntry(es, r, j);
      var limit := if Limit(es[j]) < end then end else Limit(es[j]);
      PrefixBelow(es, j + 1);
      assert k < j && Limit(d) <= es[j].start;
      HighAbove(es[j + 1..], r.start, limit);
    } else {
      NewEntry(es, r);
      LimitOf(es, k);
      LowBelow(es, r.start);
      HighAbove(es, r.start, end);
    }
  }

  lemma {:induction false} LowBelow(es: seq<Entry>, x: nat)
    ensures Below(LowRests(es, x), x)
  {
    if es != [] {
      LowBelow(es[1..], x);
    }
  }

  lemma {:induction false} HighAbove(es: seq<Entry>, x: nat, end: nat)
    ensures Above(HighRests(es, x, end), end)
  {
    if es != [] {
      HighAbove(es[1..], x, end);
    }
  }

  /** A page that replaces one of other flags does not join the entry below it. */
  lemma {:induction false} NotJoinedExample()
    ensures var es, r := [Entry(4096, 4096, 51), Entry(8192, 4096, 50)], Request(8192, 4096, 51, true);
            Ordered(es) && Create(es, r) == [Entry(4096, 4096, 51), Entry(8192, 4096, 51)]
  {
    var es, r := [Entry(4096, 4096, 51), Entry(8192, 4096, 50)], Request(8192, 4096, 51, true);
    NewEntry(es, r);
    assert es[1..] == [es[1]] && es[1..][1..] == [];
    assert LowRests(es[1..], 8192) == [] && HighRests(es[1..], 8192, 12288) == [];
  }

  /** The heap of a process grows by a page: still one entry. */
  lemma {:induction false} JoinedExample()
    ensures var es, r := [Entry(4096, 4096, 51)], Request(8192, 4096, 51, true);
            Create(es, r) == [Entry(4096, 8192, 51)]
  {
    JoinedEntry([Entry(4096, 4096, 51)], Request(8192, 4096, 51, true), 0);
  }
}
