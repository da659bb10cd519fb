/**
 The ready lists of the scheduler as linked queues.

 Every thread has one queue entry, which is linked into at most one list at a time.  That
 nothing is ever linked twice, which the queue operations rely on, follows from the
 scheduler's invariant.
 */
module ReadyLists {
  import opened ThreadQueue
  import opened Scheduler

  function Threads(s: seq<QueueEntry>): (r: seq<nat>)
    ensures |r| == |s|
  {
    seq(|s|, i requires 0 <= i < |s| => s[i].thread)
  }

  lemma ThreadsPut(s: seq<QueueEntry>, e: QueueEntry, front: bool)
    ensures Threads(if front then [e] + s else s + [e]) == if front then [e.thread] + Threads(s) else Threads(s) + [e.thread]
  {
  }

  // ----- The lists of all CPUs, level by level -----

  function Index(c: nat, l: nat): nat {
    c * LEVELS + l
  }

  lemma IndexRange(c: nat, l: nat, n: nat)
    requires c < n && l < LEVELS
    ensures Index(c, l) < n * LEVELS
  {
  }

  lemma IndexUnique(c: nat, l: nat, d: nat, k: nat)
    requires l < LEVELS && k < LEVELS
    ensures Index(c, l) == Index(d, k) <==> c == d && l == k
  {
  }

  function ListAt(es: seq<seq<QueueEntry>>, c: nat, l: nat): seq<QueueEntry> {
    if Index(c, l) < |es| then es[Index(c, l)] else []
  }

  /** The linked lists es, eight for each CPU, stand for the ready lists of the CPUs. */
  ghost predicate Stands(es: seq<seq<QueueEntry>>, cpus: seq<Cpu>) {
    && |es| == |cpus| * LEVELS
    && (forall c :: 0 <= c < |cpus| ==> |cpus[c].readyList| == LEVELS)
    && forall c: nat, l: nat :: c < |cpus| && l < LEVELS ==> Threads(ListAt(es, c, l)) == cpus[c].readyList[l]
  }

  lemma StandsChanged(es: seq<seq<QueueEntry>>, before: seq<Cpu>, after: seq<Cpu>, c: nat, l: nat, s: seq<QueueEntry>)
    requires Stands(es, before) && c < |before| && l < LEVELS && ListChanged(before, after, c, l, Threads(s))
    ensures Index(c, l) < |es| && Stands(es[Index(c, l) := s], after)
  {
    hide Index, Threads;
    IndexRange(c, l, |before|);
    var es' := es[Index(c, l) := s];
    forall d: nat, k: nat | d < |after| && k < LEVELS ensures Threads(ListAt(es', d, k)) == after[d].readyList[k] {
      IndexRange(d, k, |before|);
      IndexUnique(c, l, d, k);
      assert Threads(ListAt(es, d, k)) == before[d].readyList[k];
    }
  }

  class LinkedLists {
    const lists: seq<Queue>
    const entry: map<nat, QueueEntry>

    constructor (nrofCpus: nat, entry: map<nat, QueueEntry>)
      requires forall t :: t in entry ==> entry[t].thread == t
      ensures Valid() && |lists| == nrofCpus * LEVELS && this.entry == entry
      ensures forall i :: 0 <= i < |lists| ==> lists[i].entries == [] && fresh(lists[i])
    {
      var queues: seq<Queue> := [];
      while |queues| < nrofCpus * LEVELS
        invariant |queues| <= nrofCpus * LEVELS
        invariant forall i :: 0 <= i < |queues| ==> fresh(queues[i]) && queues[i].Valid() && queues[i].entries == []
        invariant forall i, j :: 0 <= i < j < |queues| ==> queues[i] != queues[j]
      {
        var q := new Queue();
        queues := queues + [q];
      }
      lists := queues;
      this.entry := entry;
    }

    /** The entries of list i belong to threads. */
    ghost predicate Known(i: nat)
      requires i < |lists|
      reads lists[i]
    {
      forall k :: 0 <= k < |lists[i].entries| ==>
        var e := lists[i].entries[k]; e.thread in entry && entry[e.thread] == e
    }

    /** No entry is in two lists. */
    ghost predicate Valid()
      reads lists, entry.Values
    {
      && (forall t :: t in entry ==> entry[t].thread == t)
      && (forall i, j :: 0 <= i < j < |lists| ==> lists[i] != lists[j])
      && (forall i :: 0 <= i < |lists| ==> Known(i) && lists[i].Valid())
      && (forall i, j, e :: 0 <= i < j < |lists| && e in lists[i].entries ==> e !in lists[j].entries)
    }

    ghost predicate Unlinked(e: QueueEntry)
      reads lists
    {
      forall i :: 0 <= i < |lists| ==> e !in lists[i].entries
    }

    ghost function Entries(): (es: seq<seq<QueueEntry>>)
      ensures |es| == |lists| && forall i :: 0 <= i < |lists| ==> es[i] == lists[i].entries
      reads lists
    {
      seq(|lists|, i requires 0 <= i < |lists| reads lists => lists[i].entries)
    }

    lemma Apart(i: nat)
      requires Valid() && i < |lists|
      ensures forall j :: 0 <= j < |lists| && j != i ==> lists[j] != lists[i]
      ensures forall j, e :: 0 <= j < |lists| && j != i && e in lists[j].entries ==> e !in lists[i].entries
      ensures forall e :: e in lists[i].entries ==> e in entry.Values
    {
    }

    /** The entry of t is linked at the back of list i. */
    method PushBack(i: nat, t: nat)
      requires Valid() && i < |lists| && t in entry && Unlinked(entry[t])
      modifies lists[i], lists[i].entries, entry[t]
      ensures Valid()
      ensures lists[i].entries == old(lists[i].entries) + [entry[t]]
      ensures forall j :: 0 <= j < |lists| && j != i ==> lists[j].entries == old(lists[j].entries)
    {
      hide Chain;
      Apart(i);
      ghost var before := lists[i].entries;
      lists[i].Push(entry[t]);
      assert Known(i);
      forall j | 0 <= j < |lists| && j != i ensures Known(j) && lists[j].Valid() {
        assert old(Known(j) && lists[j].Valid()) && unchanged(lists[j]);
        assert forall k :: 0 <= k < |lists[j].entries| ==>
                 lists[j].entries[k] in old(lists[j].entries) && lists[j].entries[k] !in before && lists[j].entries[k] != entry[t];
        assert forall k :: 0 <= k < |lists[j].entries| ==> unchanged(lists[j].entries[k]);
      }
    }

    /** The entry of t is linked at the front of list i. */
    method PushFront(i: nat, t: nat)
      requires Valid() && i < |lists| && t in entry && Unlinked(entry[t])
      modifies lists[i], lists[i].entries, entry[t]
      ensures Valid()
      ensures lists[i].entries == [entry[t]] + old(lists[i].entries)
      ensures forall j :: 0 <= j < |lists| && j != i ==> lists[j].entries == old(lists[j].entries)
    {
      hide Chain;
      Apart(i);
      ghost var before := lists[i].entries;
      lists[i].PushFront(entry[t]);
      assert Known(i);
      forall j | 0 <= j < |lists| && j != i ensures Known(j) && lists[j].Valid() {
        assert old(Known(j) && lists[j].Valid()) && unchanged(lists[j]);
        assert forall k :: 0 <= k < |lists[j].entries| ==>
                 lists[j].entries[k] in old(lists[j].entries) && lists[j].entries[k] !in before && lists[j].entries[k] != entry[t];
        assert forall k :: 0 <= k < |lists[j].entries| ==> unchanged(lists[j].entries[k]);
      }
    }

    method PopFrom(i: nat) returns (qe: QueueEntry?)
      requires Valid() && i < |lists|
      modifies lists[i], lists[i].entries
      ensures Valid()
      ensures qe == null ==> old(lists[i].entries) == [] == lists[i].entries
      ensures qe != null ==> old(lists[i].entries) == [qe] + lists[i].entries
      ensures forall j :: 0 <= j < |lists| && j != i ==> lists[j].entries == old(lists[j].entries)
    {
      hide Chain;
      Apart(i);
      ghost var before := lists[i].entries;
      qe := lists[i].Pop();
      assert qe != null ==> lists[i].entries == before[1..];
      assert forall e :: e in lists[i].entries ==> e in before;
      assert Known(i);
      forall j | 0 <= j < |lists| && j != i ensures Known(j) && lists[j].Valid() {
        assert old(Known(j) && lists[j].Valid()) && unchanged(lists[j]);
        assert forall k :: 0 <= k < |lists[j].entries| ==>
                 lists[j].entries[k] in old(lists[j].entries) && lists[j].entries[k] !in before;
        assert forall k :: 0 <= k < |lists[j].entries| ==> unchanged(lists[j].entries[k]);
      }
    }

    /** The loop of getThreadFromCPU. */
    method PopFirst(c: nat, nrofCpus: nat) returns (qe: QueueEntry?, ghost l: nat)
      requires Valid() && c < nrofCpus && |lists| == nrofCpus * LEVELS
      modifies lists, entry.Values
      ensures Valid() && l <= LEVELS && (qe == null <==> l == LEVELS)
      ensures forall k: nat :: k < l ==> ListAt(old(Entries()), c, k) == []
      ensures qe == null ==> Entries() == old(Entries())
      ensures qe != null ==>
                var s := ListAt(old(Entries()), c, l);
                && s != [] && qe == s[0] && Index(c, l) < |lists|
                && Entries() == old(Entries())[Index(c, l) := s[1..]]
    {
      hide Valid, Index;
      ghost var es := Entries();
      l := 0;
      qe := null;
      for i := 0 to LEVELS
        invariant Valid() && l == i && qe == null && Entries() == es
        invariant forall k: nat :: k < i ==> ListAt(es, c, k) == []
      {
        IndexRange(c, i, nrofCpus);
        var n := Index(c, i);
        Apart(n);
        qe := PopFrom(n);
        assert Entries() == es[n := lists[n].entries];
        if qe != null {
          return;
        }
        assert Entries() == es;
        l := l + 1;
      }
    }
  }

  // ----- The scheduler on linked lists -----

  /** The linked lists are those of the scheduler, and every thread has its entry. */
  ghost predicate Linked(rq: ReadyQueues, ll: LinkedLists)
    reads rq, ll.lists, ll.entry.Values
  {
    && rq.Valid() && ll.Valid() && Stands(ll.Entries(), rq.cpus)
    && rq.threads.Keys <= ll.entry.Keys
  }

  /** The entry of a thread that is not queued is in no list. */
  lemma NotLinked(rq: ReadyQueues, ll: LinkedLists, t: nat)
    requires Linked(rq, ll) && t in rq.threads && t !in rq.places
    ensures ll.Unlinked(ll.entry[t])
  {
    forall i | 0 <= i < |ll.lists| ensures ll.entry[t] !in ll.lists[i].entries {
      var c, l := i / LEVELS, i % LEVELS;
      var s := ll.lists[i].entries;
      assert i == Index(c, l) && s == ListAt(ll.Entries(), c, l);
      AllPlaced(rq, c, l);
      forall k | 0 <= k < |s| ensures s[k] != ll.entry[t] {
        assert rq.cpus[c].readyList[l][k] == Threads(s)[k] == s[k].thread;
      }
    }
  }

  lemma AllPlaced(rq: ReadyQueues, c: nat, l: nat)
    requires rq.Valid() && c < |rq.cpus| && l < LEVELS
    ensures |rq.cpus[c].readyList| == LEVELS
    ensures forall k :: 0 <= k < |rq.cpus[c].readyList[l]| ==> rq.cpus[c].readyList[l][k] in rq.places
  {
    assert CpuOk(rq.cpus[c], c, rq.places) && ListOk(rq.cpus[c].readyList[l], c, l, rq.places);
  }

  /** The entry of t is linked where the scheduler has put t. */
  method LinkAt(rq: ReadyQueues, ll: LinkedLists, ghost before: seq<Cpu>, c: nat, t: nat, front: bool)
    requires rq.Valid() && ll.Valid() && Stands(ll.Entries(), before) && rq.threads.Keys <= ll.entry.Keys
    requires t in rq.threads && ll.Unlinked(ll.entry[t]) && c < |before| && rq.threads[t].priority < LEVELS
    requires var l := rq.threads[t].priority;
             && |before[c].readyList| == LEVELS
             && var q := before[c].readyList[l];
             ListChanged(before, rq.cpus, c, l, if front then [t] + q else q + [t])
    modifies ll.lists, ll.entry.Values
    ensures Linked(rq, ll)
  {
    hide Inv, Index, ListChanged, Threads;
    var l := rq.threads[t].priority;
    IndexRange(c, l, |before|);
    var i := Index(c, l);
    ll.Apart(i);
    ghost var es, s := ll.Entries(), ListAt(ll.Entries(), c, l);
    if front {
      ll.PushFront(i, t);
    } else {
      ll.PushBack(i, t);
    }
    ghost var s' := if front then [ll.entry[t]] + s else s + [ll.entry[t]];
    ThreadsPut(s, ll.entry[t], front);
    assert ll.Entries() == es[i := s'];
    StandsChanged(es, before, rq.cpus, c, l, s');
  }

  /** readyQueuePush on the linked lists. */
  method EnqueueLinked(rq: ReadyQueues, ll: LinkedLists, t: nat, c: nat)
    requires Linked(rq, ll) && t in rq.threads && t !in rq.places && c < |rq.cpus|
    modifies rq, ll.lists, ll.entry.Values
    ensures Linked(rq, ll) && |rq.cpus| == |old(rq.cpus)|
    ensures rq.places.Keys == old(rq.places).Keys + {t} && rq.threads.Keys == old(rq.threads).Keys
  {
    hide Inv, Index, ListChanged, Stands;
    NotLinked(rq, ll, t);
    ghost var before := rq.cpus;
    rq.Enqueue(t, c);
    LinkAt(rq, ll, before, c, t, false);
  }

  /** The first half of readyQueueExchange on the linked lists. */
  method RequeueLinked(rq: ReadyQueues, ll: LinkedLists, c: nat, t: nat, front: bool)
    requires Linked(rq, ll) && t in rq.threads && t !in rq.places && c < |rq.cpus|
    modifies rq, ll.lists, ll.entry.Values
    ensures Linked(rq, ll) && |rq.cpus| == |old(rq.cpus)|
    ensures rq.places.Keys == old(rq.places).Keys + {t} && rq.threads.Keys == old(rq.threads).Keys
    ensures rq.places[t].0 == c
  {
    hide Index, ListChanged, Stands;
    NotLinked(rq, ll, t);
    AllPlaced(rq, c, 0);
    ghost var before := rq.cpus;
    rq.Requeue(c, t, front);
    LinkAt(rq, ll, before, c, t, front);
  }

  /** getThreadFromCPU on the linked lists: the thread that the scheduler picks is the one
      whose entry has been unlinked. */
  method GetLinked(rq: ReadyQueues, ll: LinkedLists, c: nat) returns (qe: QueueEntry?)
    requires Linked(rq, ll) && c < |rq.cpus|
    modifies rq, ll.lists, ll.entry.Values
    ensures Linked(rq, ll) && rq.threads.Keys == old(rq.threads).Keys && |rq.cpus| == |old(rq.cpus)|
    ensures qe == null <==> old(rq.cpus)[c].nrofReady == 0
    ensures qe == null ==> rq.places == old(rq.places)
    ensures qe != null ==> qe.thread in old(rq.places) && rq.places == old(rq.places) - {qe.thread}
  {
    hide Inv, Index, HeadTaken, ListChanged, Stands, ListAt, Threads;
    ghost var before, es := rq.cpus, ll.Entries();
    ghost var l;
    StandsLength(es, before);
    EmptyCpu(rq.cpus, rq.threads, rq.places, c);
    qe, l := ll.PopFirst(c, |rq.cpus|);
    var found, t := rq.GetThread(c);
    if found {
      Unlinks(es, before, rq.cpus, c, l, t);
    } else {
      NoneReady(es, before, c);
    }
  }

  /** The theft of readyQueuePop on the linked lists. */
  method StealLinked(rq: ReadyQueues, ll: LinkedLists, c: nat, d: nat) returns (qe: QueueEntry?)
    requires Linked(rq, ll) && c < |rq.cpus| && d < |rq.cpus| && c != d
    modifies rq, ll.lists, ll.entry.Values
    ensures Linked(rq, ll) && rq.threads.Keys == old(rq.threads).Keys && |rq.cpus| == |old(rq.cpus)|
    ensures qe == null <==> old(rq.cpus)[d].nrofReady == 0
    ensures qe == null ==> rq.places == old(rq.places)
    ensures qe != null ==> qe.thread in old(rq.places) && rq.places == old(rq.places) - {qe.thread}
  {
    hide Inv, Index, HeadTaken, ListChanged, Stands, ListAt, Threads;
    ghost var before, es := rq.cpus, ll.Entries();
    ghost var l;
    StandsLength(es, before);
    EmptyCpu(rq.cpus, rq.threads, rq.places, d);
    qe, l := ll.PopFirst(d, |rq.cpus|);
    var found, t := rq.Steal(c, d);
    if found {
      Unlinks(es, before, rq.cpus, d, l, t);
    } else {
      NoneReady(es, before, d);
    }
  }

  lemma Unlinks(es: seq<seq<QueueEntry>>, before: seq<Cpu>, after: seq<Cpu>, c: nat, l: nat, t: nat)
    requires Stands(es, before) && HeadTaken(before, after, c, t) && l <= LEVELS
    requires forall k: nat :: k < l ==> ListAt(es, c, k) == []
    requires l < LEVELS ==> ListAt(es, c, l) != []
    ensures l < LEVELS && Index(c, l) < |es|
    ensures var s := ListAt(es, c, l);
            s != [] && s[0].thread == t && Stands(es[Index(c, l) := s[1..]], after)
  {
    hide Index, ListChanged, ListAt, Threads;
    SameHead(es, before, after, c, l, t);
    StandsChanged(es, before, after, c, l, ListAt(es, c, l)[1..]);
  }

  /** The scheduler with empty lists. */
  method Start(nrofCpus: nat, threads: map<nat, Thread>, entry: map<nat, QueueEntry>) returns (rq: ReadyQueues, ll: LinkedLists)
    requires forall t :: t in threads ==> ThreadOk(threads[t]) && threads[t].affinity < nrofCpus
    requires threads.Keys <= entry.Keys && forall t :: t in entry ==> entry[t].thread == t
    ensures Linked(rq, ll) && rq.places == map[] && rq.threads == threads
  {
    hide Inv, Stands, Index, ListAt, Threads;
    rq := new ReadyQueues(nrofCpus, threads);
    ll := new LinkedLists(nrofCpus, entry);
    StandsEmpty(ll.Entries(), rq.cpus);
  }

  lemma StandsEmpty(es: seq<seq<QueueEntry>>, cpus: seq<Cpu>)
    requires |es| == |cpus| * LEVELS && forall i :: 0 <= i < |es| ==> es[i] == []
    requires forall c :: 0 <= c < |cpus| ==> cpus[c].readyList == EmptyLists()
    ensures Stands(es, cpus)
  {
    hide Index;
    forall c: nat, l: nat | c < |cpus| && l < LEVELS ensures Threads(ListAt(es, c, l)) == cpus[c].readyList[l] {
      IndexRange(c, l, |cpus|);
      assert cpus[c].readyList == EmptyLists();
    }
  }

  /** Any run of all CPUs on the linked lists: no entry is ever in two lists, and each thread
      is either out of the queues or linked in exactly one list, that of its priority. */
  method Run(rq: ReadyQueues, ll: LinkedLists, ops: seq<Op>) returns (out: set<nat>)
    requires Linked(rq, ll) && rq.places == map[]
    modifies rq, ll.lists, ll.entry.Values
    ensures Linked(rq, ll) && rq.threads.Keys == old(rq.threads).Keys
    ensures Partition(out, rq.places, rq.threads)
  {
    out := rq.threads.Keys;
    for i := 0 to |ops|
      invariant Linked(rq, ll) && rq.threads.Keys == old(rq.threads).Keys && |rq.cpus| == |old(rq.cpus)|
      invariant Partition(out, rq.places, rq.threads)
    {
      hide Linked;
      out := Step(rq, ll, ops[i], out);
    }
  }

  method Step(rq: ReadyQueues, ll: LinkedLists, op: Op, out: set<nat>) returns (out': set<nat>)
    requires Linked(rq, ll) && Partition(out, rq.places, rq.threads)
    modifies rq, ll.lists, ll.entry.Values
    ensures Linked(rq, ll) && rq.threads.Keys == old(rq.threads).Keys && |rq.cpus| == |old(rq.cpus)|
    ensures Partition(out', rq.places, rq.threads)
  {
    hide Linked;
    out' := out;
    match op
    case Wake(t, c) =>
      if t in out && c < |rq.cpus| {
        EnqueueLinked(rq, ll, t, c);
        out' := out - {t};
      }
    case Take(c) =>
      if c < |rq.cpus| {
        var qe := GetLinked(rq, ll, c);
        out' := if qe != null then out + {qe.thread} else out;
      }
    case Theft(c, d) =>
      if c < |rq.cpus| && d < |rq.cpus| && c != d {
        var qe := StealLinked(rq, ll, c, d);
        out' := if qe != null then out + {qe.thread} else out;
      }
    case Switch(c, t, front) =>
      if c < |rq.cpus| && t in out {
        var qe := ExchangeLinked(rq, ll, c, t, front);
        out' := out - {t} + {qe.thread};
      }
  }

  /** readyQueueExchange on the linked lists: there always is an entry. */
  method ExchangeLinked(rq: ReadyQueues, ll: LinkedLists, c: nat, t: nat, front: bool) returns (qe: QueueEntry)
    requires Linked(rq, ll) && t in rq.threads && t !in rq.places && c < |rq.cpus|
    modifies rq, ll.lists, ll.entry.Values
    ensures Linked(rq, ll) && |rq.cpus| == |old(rq.cpus)| && rq.threads.Keys == old(rq.threads).Keys
    ensures qe.thread == t || qe.thread in old(rq.places)
    ensures rq.places.Keys == old(rq.places).Keys + {t} - {qe.thread}
  {
    hide Inv, Stands;
    RequeueLinked(rq, ll, c, t, front);
    EmptyCpu(rq.cpus, rq.threads, rq.places, c);
    assert rq.places[t].0 == c && 0 < rq.cpus[c].nrofReady;
    var next := GetLinked(rq, ll, c);
    qe := next;
  }

  lemma StandsLength(es: seq<seq<QueueEntry>>, cpus: seq<Cpu>)
    requires Stands(es, cpus)
    ensures |es| == |cpus| * LEVELS
  {
  }

  /** What the scheduler takes is the head of the first list that is not empty. */
  lemma SameHead(es: seq<seq<QueueEntry>>, before: seq<Cpu>, after: seq<Cpu>, c: nat, l: nat, t: nat)
    requires Stands(es, before) && HeadTaken(before, after, c, t) && l <= LEVELS
    requires forall k: nat :: k < l ==> ListAt(es, c, k) == []
    requires l < LEVELS ==> ListAt(es, c, l) != []
    ensures l < LEVELS
    ensures var s := ListAt(es, c, l);
            s != [] && s[0].thread == t && ListChanged(before, after, c, l, Threads(s[1..]))
  {
    hide Index, ListAt;
    var m: nat :| m < |before[c].readyList| && HeadTakenAt(before, after, c, m, t);
    assert Threads(ListAt(es, c, m)) == before[c].readyList[m];
    assert l < LEVELS ==> Threads(ListAt(es, c, l)) == before[c].readyList[l];
    var s := ListAt(es, c, m);
    assert Threads(s)[1..] == Threads(s[1..]);
  }

  lemma NoneReady(es: seq<seq<QueueEntry>>, cpus: seq<Cpu>, c: nat)
    requires Stands(es, cpus) && c < |cpus|
    requires forall k :: 0 <= k < LEVELS ==> cpus[c].readyList[k] == []
    ensures forall l: nat :: l < LEVELS ==> ListAt(es, c, l) == []
  {
    hide Index, ListAt;
    forall l: nat | l < LEVELS ensures ListAt(es, c, l) == [] {
      assert Threads(ListAt(es, c, l)) == cpus[c].readyList[l];
    }
  }
}
