/**
 Counting semaphores with a first-in, first-out wait queue and direct hand-off: a signal
 that finds a waiter gives the token to it and leaves the value alone.
 */
module Semaphore {
  import opened ThreadQueue

  datatype Option<T> = None | Some(value: T)

  datatype Sem = Sem(value: int, queue: seq<nat>)

  /** The semaphore after thread t asked for a token, and whether it got one at once. */
  function Wait(s: Sem, t: nat): (Sem, bool) {
    if s.value > 0 then (s.(value := s.value - 1), true) else (s.(queue := s.queue + [t]), false)
  }

  /** The semaphore after a token was returned, and the thread that was released, if any. */
  function Signal(s: Sem): (Sem, Option<nat>) {
    if s.value > 0 then (s.(value := s.value + 1), None)
    else if s.queue != [] then (s.(queue := s.queue[1..]), Some(s.queue[0]))
    else (s.(value := s.value + 1), None)
  }

  class SemaphoreT {
    var value: int
    const queue: Queue

    ghost predicate Valid()
      reads this, queue, queue.entries
    {
      queue.Valid()
    }

    ghost predicate Is(s: Sem)
      reads this, queue, queue.entries
    {
      && value == s.value && |queue.entries| == |s.queue|
      && forall i :: 0 <= i < |s.queue| ==> queue.entries[i].thread == s.queue[i]
    }

    constructor (value: int)
      ensures Valid() && Is(Sem(value, [])) && fresh(queue)
    {
      this.value := value;
      queue := new Queue();
    }

    /** semWait: true if the caller goes on, false if it was queued and stopped. */
    method SemWait(qe: QueueEntry, ghost s: Sem) returns (granted: bool)
      requires Valid() && Is(s) && qe !in queue.entries
      modifies this`value, queue, queue.entries, qe
      ensures Valid() && Is(Wait(s, qe.thread).0) && granted == Wait(s, qe.thread).1
      ensures granted ==> queue.entries == old(queue.entries)
      ensures !granted ==> queue.entries == old(queue.entries) + [qe]
    {
      if value > 0 {
        value := value - 1;
        return true;
      }
      queue.Push(qe);
      granted := false;
    }

    /** semSignal: the entry made ready, if a thread was waiting. */
    method SemSignal(ghost s: Sem) returns (freed: QueueEntry?)
      requires Valid() && Is(s)
      modifies this`value, queue, queue.entries
      ensures Valid() && Is(Signal(s).0)
      ensures Signal(s).1 == if freed == null then None else Some(freed.thread)
    {
      if value > 0 {
        value := value + 1;
        return null;
      }
      freed := queue.Pop();
      if freed == null {
        value := value + 1;
      }
    }
  }

  // ----- Runs -----

  datatype Event = Waits(t: nat) | Signals

  /** What happens to a semaphore in a run: its state, the threads that went on without
      being queued, those that were queued, and those released, each in order. */
  datatype History = History(sem: Sem, granted: seq<nat>, queued: seq<nat>, released: seq<nat>)

  function Step(h: History, e: Event): History {
    match e
    case Waits(t) =>
      var (s, ok) := Wait(h.sem, t);
      if ok then h.(sem := s, granted := h.granted + [t]) else h.(sem := s, queued := h.queued + [t])
    case Signals =>
      var (s, freed) := Signal(h.sem);
      h.(sem := s, released := if freed.Some? then h.released + [freed.value] else h.released)
  }

  function Run(s: Sem, es: seq<Event>): History {
    if es == [] then History(s, [], [], []) else Step(Run(s, es[..|es| - 1]), es[|es| - 1])
  }

  function CountSignals(es: seq<Event>): nat {
    if es == [] then 0 else CountSignals(es[..|es| - 1]) + if es[|es| - 1].Signals? then 1 else 0
  }

  predicate WellFormed(s: Sem) {
    s.value >= 0 && (s.value > 0 ==> s.queue == [])
  }

  /** In every run: the value is never negative, threads wait only for lack of tokens, no
      token is lost or made up, and threads leave the queue in the order they entered it. */
  lemma {:induction false} RunInvariant(s: Sem, es: seq<Event>)
    requires WellFormed(s)
    ensures var h := Run(s, es);
            && WellFormed(h.sem)
            && s.value + CountSignals(es) == h.sem.value + |h.granted| + |h.released|
            && h.released + h.sem.queue == s.queue + h.queued
  {
    if es != [] {
      var n := |es| - 1;
      RunInvariant(s, es[..n]);
      var h := Run(s, es[..n]);
      if es[n].Signals? && h.sem.value == 0 && h.sem.queue != [] {
        assert h.sem.queue == [h.sem.queue[0]] + h.sem.queue[1..];
        assert h.released + [h.sem.queue[0]] + h.sem.queue[1..] == h.released + h.sem.queue;
      } else if es[n].Waits? && h.sem.value == 0 {
        assert h.released + (h.sem.queue + [es[n].t]) == h.released + h.sem.queue + [es[n].t];
        assert s.queue + (h.queued + [es[n].t]) == s.queue + h.queued + [es[n].t];
      }
    }
  }

  function Waiters(es: seq<Event>): seq<nat> {
    if es == [] then []
    else
      var n := |es| - 1;
      Waiters(es[..n]) + if es[n].Waits? then [es[n].t] else []
  }

  /** Every thread that waits is either granted a token or queued, and nobody else is. */
  lemma {:induction false} RunWaiters(s: Sem, es: seq<Event>)
    ensures var h := Run(s, es); multiset(h.granted) + multiset(h.queued) == multiset(Waiters(es))
  {
    if es != [] {
      RunWaiters(s, es[..|es| - 1]);
    }
  }

  /** The waiters found in the queue are released by the next signals, one each, in order,
      whatever other threads do meanwhile. */
  lemma {:induction false} ReleasedInTurn(s: Sem, es: seq<Event>)
    requires WellFormed(s) && CountSignals(es) <= |s.queue| && s.queue != []
    ensures Run(s, es).released == s.queue[..CountSignals(es)]
    ensures Run(s, es).granted == [] || CountSignals(es) == |s.queue|
  {
    if es != [] {
      var n := |es| - 1;
      ReleasedInTurn(s, es[..n]);
      RunInvariant(s, es[..n]);
      RunInvariant(s, es);
      var h := Run(s, es[..n]);
      assert h.released + h.sem.queue == s.queue + h.queued;
      if CountSignals(es[..n]) < |s.queue| {
        assert h.sem.queue != [] by { assert |h.released| < |s.queue|; }
        assert h.sem.queue[0] == (h.released + h.sem.queue)[|h.released|] == s.queue[|h.released|];
      }
    }
  }

  /** So the k-th waiter in the queue is released by exactly the k-th later signal. */
  lemma ReleasedBy(s: Sem, es: seq<Event>, k: nat)
    requires WellFormed(s) && k < |s.queue| && CountSignals(es) == k
    ensures |Run(s, es).released| == k
    ensures Run(s, es + [Signals]).released == Run(s, es).released + [s.queue[k]]
  {
    ReleasedInTurn(s, es);
    assert (es + [Signals])[..|es|] == es;
    ReleasedInTurn(s, es + [Signals]);
    assert s.queue[..k + 1] == s.queue[..k] + [s.queue[k]];
  }
}
