/**
 The intrusive queue of threads that wait queues and ready lists are made of.

 A queue means what its forward chain says: pushing to the front does not set the back
 link of the old head, so back links carry no meaning here.
 */
module ThreadQueue {

  class QueueEntry {
    const thread: nat
    var nextThread: QueueEntry?
    var prevThread: QueueEntry?

    constructor (thread: nat)
      ensures this.thread == thread
    {
      this.thread := thread;
      nextThread, prevThread := null, null;
    }
  }

  ghost predicate Chain(s: seq<QueueEntry>)
    reads s
  {
    && (forall i, j :: 0 <= i < j < |s| ==> s[i] != s[j])
    && (forall i {:trigger s[i].nextThread} :: 0 <= i < |s| ==> s[i].nextThread == if i + 1 < |s| then s[i + 1] else null)
  }

  class Queue {
    var first: QueueEntry?
    var last: QueueEntry?
    var nrofThreads: nat
    ghost var entries: seq<QueueEntry>

    ghost predicate Valid()
      reads this, entries
    {
      && Chain(entries) && nrofThreads == |entries|
      && first == (if entries == [] then null else entries[0])
      && last == (if entries == [] then null else entries[|entries| - 1])
    }

    constructor ()
      ensures Valid() && entries == []
    {
      first, last, nrofThreads, entries := null, null, 0, [];
    }

    method Pop() returns (qe: QueueEntry?)
      requires Valid()
      modifies this, entries
      ensures Valid()
      ensures qe == null <==> old(entries) == []
      ensures qe != null ==> old(entries) == [qe] + entries
      ensures qe == null ==> entries == []
    {
      qe := first;
      if qe == null {
        return;
      }
      assert entries[0] == qe;
      first := qe.nextThread;
      if first == null {
        last := null;
      } else {
        first.prevThread := null;
      }
      nrofThreads := nrofThreads - 1;
      entries := entries[1..];
    }

    method Push(qe: QueueEntry)
      requires Valid() && qe !in entries
      modifies this, entries, qe
      ensures Valid() && entries == old(entries) + [qe]
    {
      qe.nextThread := null;
      if last != null {
        last.nextThread := qe;
        qe.prevThread := last;
      } else {
        first := qe;
        qe.prevThread := null;
      }
      last := qe;
      nrofThreads := nrofThreads + 1;
      entries := entries + [qe];
    }

    method PushFront(qe: QueueEntry)
      requires Valid() && qe !in entries
      modifies this, qe
      ensures Valid() && entries == [qe] + old(entries)
    {
      qe.prevThread := null;
      qe.nextThread := first;
      first := qe;
      if last == null {
        last := qe;
      }
      nrofThreads := nrofThreads + 1;
      entries := [qe] + entries;
    }
  }
}
