/**
 The multilevel feedback queues of the scheduler, one set per CPU, with work stealing.

 A ready list is the sequence its forward chain stands for.
 */
module Scheduler {

  const LEVELS := 8
  const TIMESLICE_BASE := 100
  const U32 := 0x1_0000_0000

  datatype Thread = Thread(priority: nat, fixedPriority: bool, affinity: nat, remaining: int)

  datatype Cpu = Cpu(readyList: seq<seq<nat>>, nrofReady: nat, load: nat, active: bool)

  /** Where each queued thread is: the index of its CPU, and its level. */
  type Places = map<nat, (nat, nat)>

  function Total(lists: seq<seq<nat>>): nat {
    if lists == [] then 0 else |lists[0]| + Total(lists[1..])
  }

  function Timeslice(priority: nat): nat {
    if priority == 0 then TIMESLICE_BASE else 2 * Timeslice(priority - 1)
  }

  /** The priority with which a thread is queued again, from what is left of its slice. */
  function NewPriority(t: Thread): nat {
    var slice := Timeslice(t.priority);
    if t.fixedPriority || 0 < t.remaining < slice / 2 then t.priority
    else if t.remaining < 1 then if t.priority < LEVELS - 1 then t.priority + 1 else t.priority
    else if t.priority > 1 then t.priority - 1 else t.priority
  }

  ghost predicate ThreadOk(t: Thread) {
    t.priority < LEVELS && (!t.fixedPriority ==> 1 <= t.priority)
  }

  lemma NewPriorityOk(t: Thread)
    requires ThreadOk(t)
    ensures ThreadOk(t.(priority := NewPriority(t)))
  {
  }

  /** A thread after slices of which rs was left, one after the other. */
  function After(t: Thread, rs: seq<int>): Thread {
    if rs == [] then t
    else
      var u := After(t, rs[..|rs| - 1]).(remaining := rs[|rs| - 1]);
      u.(priority := NewPriority(u))
  }

  /** A thread that uses up every slice sinks one level each time, down to the last one. */
  lemma {:induction false} Sinks(t: Thread, rs: seq<int>)
    requires ThreadOk(t) && !t.fixedPriority && forall i :: 0 <= i < |rs| ==> rs[i] < 1
    ensures After(t, rs).priority == if t.priority + |rs| < LEVELS then t.priority + |rs| else LEVELS - 1
    ensures !After(t, rs).fixedPriority
  {
    if rs != [] {
      Sinks(t, rs[..|rs| - 1]);
    }
  }

  /** A thread that leaves at least half of every slice it gets rises one level each time, up
      to level 1. */
  lemma {:induction false} Rises(t: Thread, rs: seq<int>)
    requires ThreadOk(t) && !t.fixedPriority
    requires forall i :: 0 <= i < |rs| ==> Timeslice(After(t, rs[..i]).priority) / 2 <= rs[i]
    ensures After(t, rs).priority == if |rs| < t.priority then t.priority - |rs| else 1
    ensures !After(t, rs).fixedPriority
  {
    if rs != [] {
      var before := rs[..|rs| - 1];
      assert forall i :: 0 <= i < |before| ==> before[..i] == rs[..i];
      Rises(t, before);
      LongerSlice(0, After(t, before).priority);
    }
  }

  lemma {:induction false} LongerSlice(p: nat, q: nat)
    requires p <= q
    ensures TIMESLICE_BASE <= Timeslice(p) <= Timeslice(q)
  {
    if p < q {
      LongerSlice(p, q - 1);
    } else if 0 < p {
      LongerSlice(p - 1, p - 1);
    }
  }

  /** A thread that blocks with less than half of every slice left keeps its level. */
  lemma {:induction false} Stays(t: Thread, rs: seq<int>)
    requires ThreadOk(t) && !t.fixedPriority
    requires forall i :: 0 <= i < |rs| ==> 0 < rs[i] < Timeslice(After(t, rs[..i]).priority) / 2
    ensures After(t, rs).priority == t.priority && !After(t, rs).fixedPriority
  {
    if rs != [] {
      var before := rs[..|rs| - 1];
      assert forall i :: 0 <= i < |before| ==> before[..i] == rs[..i];
      Stays(t, before);
    }
  }

  /** The slices of the eight levels, in jiffies. */
  const SLICES: seq<nat> := [100, 200, 400, 800, 1600, 3200, 6400, 12800]

  lemma SliceOf(l: nat)
    requires l < LEVELS
    ensures Timeslice(l) == SLICES[l]
  {
    assert Timeslice(3) == 800 && Timeslice(6) == 8 * Timeslice(3);
  }

  /** From the last level but one, the only way is one down; from level 3, slices of which
      nothing, a third and all is left. */
  lemma {:induction false} LevelExample()
    ensures After(Thread(6, false, 0, 0), [0, 0]).priority == 7
    ensures var t := Thread(3, false, 0, 0);
            && After(t, [0]).priority == 4
            && After(t, [0, 500]).priority == 4
            && After(t, [0, 500, 1600]).priority == 3
  {
    Sinks(Thread(6, false, 0, 0), [0, 0]);
    var t := Thread(3, false, 0, 0);
    SliceOf(3);
    SliceOf(4);
    assert [0, 500][..1] == [0] && [0, 500, 1600][..2] == [0, 500];
    assert After(t, [0]).priority == 4;
  }

  /** Fixed priorities never change. */
  lemma {:induction false} FixedStays(t: Thread, rs: seq<int>)
    requires t.fixedPriority
    ensures After(t, rs).priority == t.priority && After(t, rs).fixedPriority
  {
    if rs != [] {
      FixedStays(t, rs[..|rs| - 1]);
    }
  }

  /** What a thread of a priority adds to the load of its CPU when it is pushed or stolen. */
  function Weight(priority: nat): int {
    LEVELS - priority
  }

  /** An exchange adds the difference of the priorities to the load.  This is the difference of
      the weights exactly when the level stays: for a fixed priority, for less than half of the
      slice left, and at either end of the levels. */
  lemma LoadKeptIff(t: Thread)
    requires ThreadOk(t)
    ensures NewPriority(t) - t.priority == Weight(NewPriority(t)) - Weight(t.priority) <==>
              || t.fixedPriority || 0 < t.remaining < Timeslice(t.priority) / 2
              || (t.remaining < 1 && t.priority == 7) || (1 <= t.remaining && t.priority == 1)
  {
    LongerSlice(0, t.priority);
  }

  /** A thread that sinks to level 4 weighs one less, and the load becomes one more. */
  lemma LoadExample()
    ensures var t := Thread(3, false, 0, 0); NewPriority(t) - t.priority == 1 && Weight(NewPriority(t)) - Weight(t.priority) == -1
  {
  }

  /** A ready list holds each of its threads once, and they are recorded as being there. */
  ghost predicate ListOk(q: seq<nat>, c: nat, l: nat, places: Places) {
    && (forall i, j :: 0 <= i < j < |q| ==> q[i] != q[j])
    && (forall i :: 0 <= i < |q| ==> q[i] in places && places[q[i]] == (c, l))
  }

  ghost predicate CpuOk(cpu: Cpu, c: nat, places: Places) {
    && |cpu.readyList| == LEVELS && cpu.nrofReady == Total(cpu.readyList)
    && forall l :: 0 <= l < LEVELS ==> ListOk(cpu.readyList[l], c, l, places)
  }

  /** The recorded place of t is right, and its level is t's priority. */
  ghost predicate PlaceOk(cpus: seq<Cpu>, threads: map<nat, Thread>, places: Places, t: nat)
    requires t in places
  {
    var (c, l) := places[t];
    && t in threads && threads[t].priority == l
    && c < |cpus| && l < |cpus[c].readyList| && t in cpus[c].readyList[l]
  }

  ghost predicate Inv(cpus: seq<Cpu>, threads: map<nat, Thread>, places: Places) {
    && (forall c :: 0 <= c < |cpus| ==> CpuOk(cpus[c], c, places))
    && (forall t :: t in places ==> PlaceOk(cpus, threads, places, t))
    && (forall t :: t in threads ==> ThreadOk(threads[t]))
  }

  /** The lowest-numbered level with a thread, or LEVELS. */
  ghost predicate IsFirstLevel(lists: seq<seq<nat>>, l: nat) {
    l <= |lists| && (forall k :: 0 <= k < l ==> lists[k] == []) && (l < |lists| ==> lists[l] != [])
  }

  /** Level l of CPU c has become q; all other lists are as before, in the same order. */
  ghost predicate ListChanged(before: seq<Cpu>, after: seq<Cpu>, c: nat, l: nat, q: seq<nat>) {
    && |after| == |before| && c < |before| && l < |before[c].readyList|
    && forall k :: 0 <= k < |after| ==>
         after[k].readyList == if k == c then before[c].readyList[l := q] else before[k].readyList
  }

  /** The loads are as before, but that of CPU c has changed by diff, in 32-bit arithmetic. */
  ghost predicate LoadChanged(before: seq<Cpu>, after: seq<Cpu>, c: nat, diff: int) {
    && |after| == |before|
    && forall k :: 0 <= k < |after| ==>
         && after[k].active == before[k].active
         && after[k].load == if k == c then (before[k].load + diff) % U32 else before[k].load
  }

  ghost predicate SameLoads(before: seq<Cpu>, after: seq<Cpu>) {
    && |after| == |before|
    && forall k :: 0 <= k < |after| ==> after[k].active == before[k].active && after[k].load == before[k].load
  }

  /** t was at the head of the lowest-numbered level of CPU c that had a thread, and has been
      taken off it. */
  ghost predicate HeadTaken(before: seq<Cpu>, after: seq<Cpu>, c: nat, t: nat) {
    c < |before| && exists l: nat :: l < |before[c].readyList| && HeadTakenAt(before, after, c, l, t)
  }

  ghost predicate HeadTakenAt(before: seq<Cpu>, after: seq<Cpu>, c: nat, l: nat, t: nat)
    requires c < |before| && l < |before[c].readyList|
  {
    var lists := before[c].readyList;
    IsFirstLevel(lists, l) && lists[l][0] == t && ListChanged(before, after, c, l, lists[l][1..])
  }

  /** The state of CPU c with q for its level l. */
  function WithList(cpus: seq<Cpu>, c: nat, l: nat, q: seq<nat>): seq<Cpu>
    requires c < |cpus| && l < |cpus[c].readyList|
  {
    cpus[c := cpus[c].(readyList := cpus[c].readyList[l := q])]
  }

  /** Only the ready lists matter. */
  lemma SameLists(before: seq<Cpu>, before': seq<Cpu>, after: seq<Cpu>, after': seq<Cpu>, c: nat, t: nat)
    requires HeadTaken(before, after, c, t) && |before'| == |before| && |after'| == |after|
    requires forall k :: 0 <= k < |before| ==> before'[k].readyList == before[k].readyList
    requires forall k :: 0 <= k < |after| ==> after'[k].readyList == after[k].readyList
    ensures HeadTaken(before', after', c, t)
  {
    var l: nat :| l < |before[c].readyList| && HeadTakenAt(before, after, c, l, t);
    assert HeadTakenAt(before', after', c, l, t);
  }

  // ----- List updates -----

  lemma {:induction false} TotalUpdate(lists: seq<seq<nat>>, l: nat, q: seq<nat>)
    requires l < |lists|
    ensures Total(lists[l := q]) == Total(lists) - |lists[l]| + |q|
    ensures |lists[l]| <= Total(lists)
  {
    if l == 0 {
      assert lists[0 := q][1..] == lists[1..];
    } else {
      assert lists[l := q][1..] == lists[1..][l - 1 := q];
      TotalUpdate(lists[1..], l - 1, q);
    }
  }

  lemma {:induction false} TotalZero(lists: seq<seq<nat>>)
    ensures Total(lists) == 0 <==> forall k :: 0 <= k < |lists| ==> lists[k] == []
  {
    if lists != [] {
      TotalZero(lists[1..]);
      assert forall k :: 0 < k < |lists| ==> lists[k] == lists[1..][k - 1];
    }
  }

  /** The head of level l leaves CPU c. */
  function Taken(cpus: seq<Cpu>, c: nat, l: nat): seq<Cpu>
    requires c < |cpus| && l < |cpus[c].readyList| && cpus[c].readyList[l] != [] && 0 < cpus[c].nrofReady
  {
    var cpu := cpus[c];
    cpus[c := cpu.(readyList := cpu.readyList[l := cpu.readyList[l][1..]], nrofReady := cpu.nrofReady - 1)]
  }

  /** Level l of CPU c becomes q, which holds one thread more. */
  function Added(cpus: seq<Cpu>, c: nat, l: nat, q: seq<nat>): seq<Cpu>
    requires c < |cpus| && l < |cpus[c].readyList|
  {
    var cpu := cpus[c];
    cpus[c := cpu.(readyList := cpu.readyList[l := q], nrofReady := cpu.nrofReady + 1)]
  }

  lemma TakenInv(cpus: seq<Cpu>, threads: map<nat, Thread>, places: Places, c: nat, l: nat)
    requires Inv(cpus, threads, places) && c < |cpus| && l < LEVELS && cpus[c].readyList[l] != []
    ensures 0 < cpus[c].nrofReady
    ensures var t := cpus[c].readyList[l][0];
            t in places && t in threads && threads[t].priority == l && Inv(Taken(cpus, c, l), threads, places - {t})
  {
    assert CpuOk(cpus[c], c, places) && ListOk(cpus[c].readyList[l], c, l, places);
    var q := cpus[c].readyList[l];
    var t := q[0];
    TotalUpdate(cpus[c].readyList, l, q[1..]);
    var cpus', places' := Taken(cpus, c, l), places - {t};
    forall d | 0 <= d < |cpus'| ensures CpuOk(cpus'[d], d, places') {
      assert CpuOk(cpus[d], d, places);
      forall k | 0 <= k < LEVELS ensures ListOk(cpus'[d].readyList[k], d, k, places') {
        assert ListOk(cpus[d].readyList[k], d, k, places);
      }
    }
    forall u | u in places' ensures PlaceOk(cpus', threads, places', u) {
      assert PlaceOk(cpus, threads, places, u);
      var (d, k) := places[u];
      if d == c && k == l {
        assert q == [t] + q[1..];
      }
      assert u in cpus'[d].readyList[k];
    }
    assert PlaceOk(cpus, threads, places, t);
  }

  lemma AddedInv(cpus: seq<Cpu>, threads: map<nat, Thread>, places: Places, c: nat, l: nat, t: nat, q: seq<nat>)
    requires Inv(cpus, threads, places) && c < |cpus| && l < LEVELS
    requires t in threads && t !in places && threads[t].priority == l
    requires q == cpus[c].readyList[l] + [t] || q == [t] + cpus[c].readyList[l]
    ensures Inv(Added(cpus, c, l, q), threads, places[t := (c, l)])
  {
    assert CpuOk(cpus[c], c, places) && ListOk(cpus[c].readyList[l], c, l, places);
    TotalUpdate(cpus[c].readyList, l, q);
    var cpus', places' := Added(cpus, c, l, q), places[t := (c, l)];
    forall d | 0 <= d < |cpus'| ensures CpuOk(cpus'[d], d, places') {
      assert CpuOk(cpus[d], d, places);
      forall k | 0 <= k < LEVELS ensures ListOk(cpus'[d].readyList[k], d, k, places') {
        assert ListOk(cpus[d].readyList[k], d, k, places);
      }
    }
    assert t in q;
    forall u | u in places' ensures PlaceOk(cpus', threads, places', u) {
      if u != t {
        assert PlaceOk(cpus, threads, places, u);
        var (d, k) := places[u];
        assert u in cpus[d].readyList[k] && u in cpus'[d].readyList[k];
      }
    }
  }

  /** Fields of a thread other than its priority do not matter to the queues. */
  lemma RetouchInv(cpus: seq<Cpu>, threads: map<nat, Thread>, places: Places, t: nat, thread: Thread)
    requires Inv(cpus, threads, places) && t in threads && ThreadOk(thread)
    requires t in places ==> thread.priority == threads[t].priority
    ensures Inv(cpus, threads[t := thread], places)
  {
    forall u | u in places ensures PlaceOk(cpus, threads[t := thread], places, u) {
      assert PlaceOk(cpus, threads, places, u);
    }
  }

  lemma LoadInv(cpus: seq<Cpu>, threads: map<nat, Thread>, places: Places, c: nat, load: nat)
    requires Inv(cpus, threads, places) && c < |cpus|
    ensures Inv(cpus[c := cpus[c].(load := load)], threads, places)
  {
    var cpus' := cpus[c := cpus[c].(load := load)];
    forall d | 0 <= d < |cpus'| ensures CpuOk(cpus'[d], d, places) {
      assert CpuOk(cpus[d], d, places);
    }
    forall u | u in places ensures PlaceOk(cpus', threads, places, u) {
      assert PlaceOk(cpus, threads, places, u);
      var (d, k) := places[u];
      assert cpus'[d].readyList == cpus[d].readyList;
    }
  }

  lemma EmptyCpu(cpus: seq<Cpu>, threads: map<nat, Thread>, places: Places, c: nat)
    requires Inv(cpus, threads, places) && c < |cpus|
    ensures |cpus[c].readyList| == LEVELS
    ensures cpus[c].nrofReady == 0 <==> forall k :: 0 <= k < LEVELS ==> cpus[c].readyList[k] == []
    ensures forall t :: t in places && places[t].0 == c ==> 0 < cpus[c].nrofReady
  {
    assert CpuOk(cpus[c], c, places);
    TotalZero(cpus[c].readyList);
    forall t | t in places && places[t].0 == c ensures 0 < cpus[c].nrofReady {
      assert PlaceOk(cpus, threads, places, t);
    }
  }

  function EmptyLists(): seq<seq<nat>> {
    [[], [], [], [], [], [], [], []]
  }

  predicate Idle(cpu: Cpu) {
    cpu.active && cpu.load == 0
  }

  /** A thread goes to its own CPU if that is idle, else to the first idle one, if any. */
  ghost predicate Chosen(cpus: seq<Cpu>, own: nat, c: nat)
    requires own < |cpus| && c < |cpus|
  {
    if cpus[own].load == 0 then c == own
    else if c == own then forall k :: 0 <= k < |cpus| ==> !Idle(cpus[k])
    else Idle(cpus[c]) && forall k :: 0 <= k < c ==> !Idle(cpus[k])
  }

  /** Among the other CPUs with ready threads, d is the first with the highest load. */
  ghost predicate Busiest(cpus: seq<Cpu>, c: nat, d: nat)
    requires d < |cpus|
  {
    && d != c && 0 < cpus[d].nrofReady
    && forall k :: 0 <= k < |cpus| && k != c && 0 < cpus[k].nrofReady ==>
         cpus[k].load <= cpus[d].load && (k < d ==> cpus[k].load < cpus[d].load)
  }

  lemma TakenFrom(before: seq<Cpu>, queued: seq<Cpu>, after: seq<Cpu>, c: nat, l: nat, q: seq<nat>, t: nat)
    requires c < |before| && l < |before[c].readyList| && ListChanged(before, queued, c, l, q) && HeadTaken(queued, after, c, t)
    ensures HeadTaken(WithList(before, c, l, q), after, c, t)
  {
    SameLists(queued, WithList(before, c, l, q), after, after, c, t);
  }

  /** A thread that has been picked gets the slice of its level. */
  function Refreshed(t: Thread): Thread {
    t.(remaining := Timeslice(t.priority))
  }

  lemma AfterSame(before: seq<Cpu>, same: seq<Cpu>, after: seq<Cpu>, c: nat, diff: int)
    requires SameLoads(before, same) && LoadChanged(same, after, c, diff)
    ensures LoadChanged(before, after, c, diff)
  {
  }

  lemma ThreadIsOk(cpus: seq<Cpu>, threads: map<nat, Thread>, places: Places, t: nat)
    requires Inv(cpus, threads, places) && t in threads
    ensures ThreadOk(threads[t])
  {
  }

  class ReadyQueues {
    var cpus: seq<Cpu>
    var threads: map<nat, Thread>
    ghost var places: Places

    ghost predicate Valid()
      reads this
    {
      && Inv(cpus, threads, places)
      && forall t :: t in threads ==> threads[t].affinity < |cpus|
    }

    /** No thread is queued at first. */
    constructor (nrofCpus: nat, threads: map<nat, Thread>)
      requires forall t :: t in threads ==> ThreadOk(threads[t]) && threads[t].affinity < nrofCpus
      ensures Valid() && places == map[] && this.threads == threads && |cpus| == nrofCpus
      ensures forall c :: 0 <= c < nrofCpus ==> cpus[c].readyList == EmptyLists()
    {
      cpus := seq(nrofCpus, _ => Cpu(EmptyLists(), 0, 0, true));
      this.threads := threads;
      places := map[];
      new;
      TotalZero(EmptyLists());
    }

    /** getThreadFromCPU: the head of the lowest-numbered level that has a thread. */
    method GetThread(c: nat) returns (found: bool, t: nat)
      requires Valid() && c < |cpus|
      modifies this
      ensures Valid() && |cpus| == |old(cpus)| && |old(cpus)[c].readyList| == LEVELS
      ensures found <==> 0 < old(cpus)[c].nrofReady
      ensures !found ==> cpus == old(cpus) && threads == old(threads) && places == old(places)
      ensures found ==> HeadTaken(old(cpus), cpus, c, t)
      ensures found ==> t in old(places) && places == old(places) - {t} && t in old(threads)
      ensures found ==> threads == old(threads)[t := Refreshed(old(threads)[t])]
      ensures found ==> threads[t].priority < LEVELS && threads[t].remaining == SLICES[threads[t].priority]
      ensures SameLoads(old(cpus), cpus)
    {
      hide Inv;
      EmptyCpu(cpus, threads, places, c);
      found, t := false, 0;
      for i := 0 to LEVELS
        invariant cpus == old(cpus) && threads == old(threads) && places == old(places)
        invariant forall k :: 0 <= k < i ==> cpus[c].readyList[k] == []
      {
        if cpus[c].readyList[i] != [] {
          t := cpus[c].readyList[i][0];
          found := true;
          TakenInv(cpus, threads, places, c, i);
          cpus := Taken(cpus, c, i);
          places := places - {t};
          var thread := threads[t].(remaining := Timeslice(i));
          SliceOf(i);
          ThreadIsOk(cpus, threads, places, t);
          RetouchInv(cpus, threads, places, t, thread);
          threads := threads[t := thread];
          assert HeadTakenAt(old(cpus), cpus, c, i, t);
          return;
        }
      }
    }

    /** The scan of readyQueuePop, which locks one CPU after the other: the busiest other CPU,
        or |cpus| if there is none. */
    method Scan(c: nat) returns (busiest: nat)
      requires Valid() && c < |cpus|
      ensures busiest <= |cpus|
      ensures busiest < |cpus| ==> Busiest(cpus, c, busiest) && 0 < cpus[busiest].load
      ensures busiest == |cpus| ==> forall d :: 0 <= d < |cpus| && d != c ==> cpus[d].nrofReady == 0 || cpus[d].load == 0
    {
      hide Inv;
      var load := 0;
      busiest := |cpus|;
      for i := 0 to |cpus|
        invariant busiest <= |cpus| && (busiest == |cpus| ==> load == 0)
        invariant busiest < |cpus| ==> 0 < cpus[busiest].nrofReady && busiest != c && 0 < load == cpus[busiest].load
        invariant busiest < |cpus| ==> busiest < i
        invariant busiest < |cpus| ==> forall d :: 0 <= d < busiest && d != c && 0 < cpus[d].nrofReady ==> cpus[d].load < load
        invariant forall d :: 0 <= d < i && d != c && 0 < cpus[d].nrofReady ==> cpus[d].load <= load
      {
        if i != c && 0 < cpus[i].nrofReady && load < cpus[i].load {
          busiest, load := i, cpus[i].load;
        }
      }
    }

    /** The load of CPU c changes by diff, in 32-bit arithmetic. */
    method AddLoad(c: nat, diff: int)
      requires Valid() && c < |cpus|
      modifies this`cpus
      ensures Valid() && LoadChanged(old(cpus), cpus, c, diff) && |cpus| == |old(cpus)|
      ensures forall k :: 0 <= k < |cpus| ==> cpus[k].readyList == old(cpus)[k].readyList
    {
      hide Inv;
      var load := (cpus[c].load + diff) % U32;
      LoadInv(cpus, threads, places, c, load);
      cpus := cpus[c := cpus[c].(load := load)];
    }

    /** The theft of readyQueuePop: the next thread of CPU d moves to CPU c.  The lists may
        have changed since the scan, so there may be none. */
    method Steal(c: nat, d: nat) returns (found: bool, t: nat)
      requires Valid() && c < |cpus| && d < |cpus| && c != d
      modifies this
      ensures Valid() && |cpus| == |old(cpus)|
      ensures found <==> 0 < old(cpus)[d].nrofReady
      ensures !found ==> cpus == old(cpus) && threads == old(threads) && places == old(places)
      ensures found ==> HeadTaken(old(cpus), cpus, d, t)
      ensures found ==> t in old(places) && places == old(places) - {t} && t in old(threads)
      ensures found ==> threads == old(threads)[t := Refreshed(old(threads)[t]).(affinity := c)]
      ensures found ==>
                var weight := Weight(threads[t].priority);
                exists between :: LoadChanged(old(cpus), between, d, -weight) && LoadChanged(between, cpus, c, weight)
    {
      hide Inv, LoadChanged, SameLoads, HeadTaken;
      found, t := GetThread(d);
      if found {
        ghost var after := cpus;
        ThreadIsOk(cpus, threads, places, t);
        var weight := Weight(threads[t].priority);
        RetouchInv(cpus, threads, places, t, threads[t].(affinity := c));
        threads := threads[t := threads[t].(affinity := c)];
        AddLoad(d, -weight);
        ghost var between := cpus;
        AfterSame(old(cpus), after, between, d, -weight);
        AddLoad(c, weight);
        SameLists(old(cpus), old(cpus), after, cpus, d, t);
      }
    }

    /** readyQueuePop on CPU c, when no other CPU interferes: a thread of its own, or one
        stolen from the busiest other CPU. */
    method Pop(c: nat, nrofActive: nat) returns (found: bool, t: nat)
      requires Valid() && c < |cpus|
      modifies this
      ensures Valid() && |cpus| == |old(cpus)|
      ensures found ==> t in old(places) && places == old(places) - {t} && t in old(threads)
      ensures !found ==> places == old(places) && threads == old(threads) && cpus == old(cpus)
      ensures found && 0 < old(cpus)[c].nrofReady ==>
                HeadTaken(old(cpus), cpus, c, t) && threads == old(threads)[t := Refreshed(old(threads)[t])]
      ensures found && old(cpus)[c].nrofReady == 0 ==>
                && threads == old(threads)[t := Refreshed(old(threads)[t]).(affinity := c)]
                && exists d: nat :: d < |cpus| && Busiest(old(cpus), c, d) && HeadTaken(old(cpus), cpus, d, t)
      ensures !found ==> old(cpus)[c].nrofReady == 0
      ensures !found && 2 <= nrofActive ==> forall d :: 0 <= d < |cpus| ==> old(cpus)[d].nrofReady == 0 || old(cpus)[d].load == 0
    {
      hide Inv, HeadTaken;
      found, t := GetThread(c);
      if found || nrofActive < 2 {
        return;
      }
      var busiest := Scan(c);
      if busiest < |cpus| {
        found, t := Steal(c, busiest);
      }
    }

    /** The choice of readyQueuePush, made from loads that are read without a lock. */
    method ChooseCpu(t: nat) returns (c: nat)
      requires Valid() && t in threads
      ensures c < |cpus| && threads[t].affinity < |cpus| && Chosen(cpus, threads[t].affinity, c)
    {
      hide Inv;
      c := threads[t].affinity;
      if cpus[c].load != 0 {
        for i := 0 to |cpus|
          invariant c == threads[t].affinity && forall k :: 0 <= k < i ==> !Idle(cpus[k])
        {
          if cpus[i].active && cpus[i].load == 0 {
            c := i;
            break;
          }
        }
      }
    }

    /** The rest of readyQueuePush, for whatever CPU was chosen: back of the list of the new
        priority. */
    method Enqueue(t: nat, c: nat)
      requires Valid() && t in threads && t !in places && c < |cpus|
      modifies this
      ensures Valid() && |cpus| == |old(cpus)|
      ensures threads == old(threads)[t := old(threads)[t].(priority := NewPriority(old(threads)[t]), affinity := c)]
      ensures threads[t].priority < LEVELS && places == old(places)[t := (c, threads[t].priority)]
      ensures |old(cpus)[c].readyList| == LEVELS
      ensures var l := threads[t].priority; ListChanged(old(cpus), cpus, c, l, old(cpus)[c].readyList[l] + [t])
      ensures LoadChanged(old(cpus), cpus, c, 8 - threads[t].priority)
    {
      hide Inv;
      ThreadIsOk(cpus, threads, places, t);
      NewPriorityOk(threads[t]);
      var priority := NewPriority(threads[t]);
      var thread := threads[t].(priority := priority, affinity := c);
      RetouchInv(cpus, threads, places, t, thread);
      threads := threads[t := thread];
      EmptyCpu(cpus, threads, places, c);
      AddLoad(c, Weight(priority));
      var q := cpus[c].readyList[priority] + [t];
      AddedInv(cpus, threads, places, c, priority, t, q);
      cpus := Added(cpus, c, priority, q);
      places := places[t := (c, priority)];
    }

    /** readyQueuePush without a pending signal, when no other CPU interferes: its own CPU or
        an idle one. */
    method Push(t: nat) returns (c: nat)
      requires Valid() && t in threads && t !in places
      modifies this
      ensures Valid() && |cpus| == |old(cpus)| && c < |cpus|
      ensures threads == old(threads)[t := old(threads)[t].(priority := NewPriority(old(threads)[t]), affinity := c)]
      ensures threads[t].priority < LEVELS && places == old(places)[t := (c, threads[t].priority)]
      ensures old(threads)[t].affinity < |old(cpus)| && Chosen(old(cpus), old(threads)[t].affinity, c)
      ensures |old(cpus)[c].readyList| == LEVELS
      ensures var l := threads[t].priority; ListChanged(old(cpus), cpus, c, l, old(cpus)[c].readyList[l] + [t])
      ensures LoadChanged(old(cpus), cpus, c, 8 - threads[t].priority)
    {
      hide Inv, ListChanged, Chosen;
      c := ChooseCpu(t);
      Enqueue(t, c);
    }

    /** readyQueueExchange on CPU c: queues the running thread and takes the next one, which
        always exists. */
    method Exchange(c: nat, t: nat, front: bool) returns (ret: nat)
      requires Valid() && c < |cpus| && t in threads && t !in places
      modifies this
      ensures Valid() && |cpus| == |old(cpus)| && threads.Keys == old(threads).Keys
      ensures ret == t || ret in old(places)
      ensures threads[t].priority == if front then old(threads)[t].priority else NewPriority(old(threads)[t])
      ensures places == old(places)[t := (c, threads[t].priority)] - {ret}
      ensures forall u :: u in threads && u != t && u != ret ==> threads[u] == old(threads)[u]
      ensures ret in threads && threads[ret].priority < LEVELS && threads[ret].remaining == SLICES[threads[ret].priority]
      ensures if front then SameLoads(old(cpus), cpus)
              else LoadChanged(old(cpus), cpus, c, threads[t].priority - old(threads)[t].priority)
      ensures var lists, l := old(cpus)[c].readyList, threads[t].priority;
              && l < |lists|
              && HeadTaken(WithList(old(cpus), c, l, if front then [t] + lists[l] else lists[l] + [t]), cpus, c, ret)
    {
      hide Inv, HeadTaken, ListChanged, WithList;
      Requeue(c, t, front);
      ghost var queued, l := cpus, threads[t].priority;
      EmptyCpu(cpus, threads, places, c);
      assert places[t].0 == c && 0 < cpus[c].nrofReady;
      var found;
      found, ret := GetThread(c);
      ghost var lists := old(cpus)[c].readyList;
      TakenFrom(old(cpus), queued, cpus, c, l, if front then [t] + lists[l] else lists[l] + [t], ret);
    }

    /** The first half of readyQueueExchange: the running thread is queued. */
    method Requeue(c: nat, t: nat, front: bool)
      requires Valid() && c < |cpus| && t in threads && t !in places
      modifies this
      ensures Valid() && |cpus| == |old(cpus)|
      ensures var thread := old(threads)[t];
              threads == old(threads)[t := if front then thread else thread.(priority := NewPriority(thread))]
      ensures places == old(places)[t := (c, threads[t].priority)]
      ensures var lists, l := old(cpus)[c].readyList, threads[t].priority;
              l < |lists| && ListChanged(old(cpus), cpus, c, l, if front then [t] + lists[l] else lists[l] + [t])
      ensures if front then SameLoads(old(cpus), cpus)
              else LoadChanged(old(cpus), cpus, c, threads[t].priority - old(threads)[t].priority)
    {
      hide Inv;
      ThreadIsOk(cpus, threads, places, t);
      EmptyCpu(cpus, threads, places, c);
      var q;
      if front {
        q := [t] + cpus[c].readyList[threads[t].priority];
      } else {
        NewPriorityOk(threads[t]);
        var thread := threads[t].(priority := NewPriority(threads[t]));
        var more := thread.priority - threads[t].priority;
        RetouchInv(cpus, threads, places, t, thread);
        threads := threads[t := thread];
        AddLoad(c, more);
        q := cpus[c].readyList[threads[t].priority] + [t];
      }
      var l := threads[t].priority;
      AddedInv(cpus, threads, places, c, l, t, q);
      cpus := Added(cpus, c, l, q);
      places := places[t := (c, l)];
    }
  }

  /** What CPUs do with the queues, each under its locks.  Wake may use any CPU,
      since loads are read without a lock; Theft is the second half of a pop,
      from any other CPU, since the scan may be out of date.  Switch queues the running thread
      t and picks the next. */
  datatype Op = Wake(t: nat, c: nat) | Take(c: nat) | Theft(c: nat, d: nat) | Switch(c: nat, t: nat, front: bool)

  /** Each thread is either queued or out of the queues. */
  ghost predicate Partition(out: set<nat>, places: Places, threads: map<nat, Thread>) {
    out !! places.Keys && out + places.Keys == threads.Keys
  }

  method DoWake(rq: ReadyQueues, t: nat, c: nat, out: set<nat>) returns (out': set<nat>)
    requires rq.Valid() && Partition(out, rq.places, rq.threads) && t in out && c < |rq.cpus|
    modifies rq
    ensures rq.Valid() && Partition(out', rq.places, rq.threads)
    ensures rq.threads.Keys == old(rq.threads).Keys && out' == out - {t}
  {
    hide Inv, ListChanged;
    rq.Enqueue(t, c);
    out' := out - {t};
  }

  method DoTake(rq: ReadyQueues, c: nat, out: set<nat>) returns (out': set<nat>)
    requires rq.Valid() && Partition(out, rq.places, rq.threads) && c < |rq.cpus|
    modifies rq
    ensures rq.Valid() && Partition(out', rq.places, rq.threads)
    ensures rq.threads.Keys == old(rq.threads).Keys && out <= out'
  {
    hide Inv, HeadTaken;
    var found, t := rq.GetThread(c);
    out' := if found then out + {t} else out;
  }

  method DoSteal(rq: ReadyQueues, c: nat, d: nat, out: set<nat>) returns (out': set<nat>)
    requires rq.Valid() && Partition(out, rq.places, rq.threads) && c < |rq.cpus| && d < |rq.cpus| && c != d
    modifies rq
    ensures rq.Valid() && Partition(out', rq.places, rq.threads)
    ensures rq.threads.Keys == old(rq.threads).Keys && out <= out'
  {
    hide Inv, HeadTaken;
    var found, t := rq.Steal(c, d);
    out' := if found then out + {t} else out;
  }

  method DoSwitch(rq: ReadyQueues, c: nat, t: nat, front: bool, out: set<nat>) returns (out': set<nat>)
    requires rq.Valid() && Partition(out, rq.places, rq.threads) && c < |rq.cpus| && t in out
    modifies rq
    ensures rq.Valid() && Partition(out', rq.places, rq.threads)
    ensures rq.threads.Keys == old(rq.threads).Keys && exists ret :: out' == out - {t} + {ret}
  {
    hide Inv, HeadTaken;
    var ret := rq.Exchange(c, t, front);
    out' := out - {t} + {ret};
  }

  /** Any run of all CPUs: at each point every thread is either queued, in exactly one
      place, or out of the queues, and never both. */
  method Run(rq: ReadyQueues, ops: seq<Op>) returns (out: set<nat>)
    requires rq.Valid() && rq.places == map[]
    modifies rq
    ensures rq.Valid() && rq.threads.Keys == old(rq.threads).Keys
    ensures Partition(out, rq.places, rq.threads)
  {
    out := rq.threads.Keys;
    for i := 0 to |ops|
      invariant rq.Valid() && rq.threads.Keys == old(rq.threads).Keys
      invariant Partition(out, rq.places, rq.threads)
    {
      hide Inv, Partition;
      match ops[i]
      case Wake(t, c) =>
        if t in out && c < |rq.cpus| {
          out := DoWake(rq, t, c, out);
        }
      case Take(c) =>
        if c < |rq.cpus| {
          out := DoTake(rq, c, out);
        }
      case Theft(c, d) =>
        if c < |rq.cpus| && d < |rq.cpus| && c != d {
          out := DoSteal(rq, c, d, out);
        }
      case Switch(c, t, front) =>
        if c < |rq.cpus| && t in out {
          out := DoSwitch(rq, c, t, front, out);
        }
    }
  }
}
