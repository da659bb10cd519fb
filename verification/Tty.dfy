/**
 The line discipline of a terminal in line mode: keys go into a ring buffer, and a read
 returns committed characters only.

 A read waits for the semaphore inputAvail and then, in a step of its own, takes the lock
 and empties the ring.  Keys may arrive between the two.
 */
module Tty {
  import opened Basics
  import opened Ring
  import opened Semaphore

  const NEWLINE := 10
  const BACKSPACE := 127

  // ----- What a user of the terminal sees -----

  /** The lines entered so far, and the line being edited. */
  datatype Editor = Editor(committed: seq<nat>, line: seq<nat>)

  function Press(e: Editor, c: nat): Editor {
    if c == NEWLINE then Editor(e.committed + e.line + [c], [])
    else if c == BACKSPACE then e.(line := if e.line == [] then [] else e.line[..|e.line| - 1])
    else e.(line := e.line + [c])
  }

  function PressAll(keys: seq<nat>): Editor {
    if keys == [] then Editor([], []) else Press(PressAll(keys[..|keys| - 1]), keys[|keys| - 1])
  }

  /** No key, and no backspace in particular, changes what has been committed. */
  lemma {:induction false} CommittedStays(keys: seq<nat>, more: seq<nat>)
    ensures PressAll(keys).committed <= PressAll(keys + more).committed
  {
    if more != [] {
      var n := |more| - 1;
      assert (keys + more)[..|keys| + n] == keys + more[..n];
      CommittedStays(keys, more[..n]);
    } else {
      assert keys + more == keys;
    }
  }

  /** What comes of more keys depends on the lines so far only. */
  lemma {:induction false} SameLines(keys: seq<nat>, keys': seq<nat>, more: seq<nat>)
    requires PressAll(keys) == PressAll(keys')
    ensures PressAll(keys + more) == PressAll(keys' + more)
  {
    if more == [] {
      assert keys + more == keys && keys' + more == keys';
    } else {
      var n := |more| - 1;
      assert (keys + more)[..|keys| + n] == keys + more[..n];
      assert (keys' + more)[..|keys'| + n] == keys' + more[..n];
      SameLines(keys, keys', more[..n]);
    }
  }

  lemma PressLast(keys: seq<nat>, c: nat)
    ensures PressAll(keys + [c]) == Press(PressAll(keys), c)
  {
    assert (keys + [c])[..|keys|] == keys;
  }

  /** Without a backspace the lines are the keys themselves, and all up to the last newline
      is committed. */
  lemma {:induction false} TypedIs(keys: seq<nat>)
    requires BACKSPACE !in keys
    ensures var e := PressAll(keys);
            && e.committed + e.line == keys && NEWLINE !in e.line
            && (e.committed != [] ==> e.committed[|e.committed| - 1] == NEWLINE)
  {
    if keys != [] {
      TypedIs(keys[..|keys| - 1]);
    }
  }

  /** A backspace takes back the key before it, as if neither had been pressed. */
  lemma {:induction false} TakesBack(keys: seq<nat>, c: nat, more: seq<nat>)
    requires c != NEWLINE && c != BACKSPACE
    ensures PressAll(keys + [c, BACKSPACE] + more) == PressAll(keys + more)
  {
    PressLast(keys, c);
    PressLast(keys + [c], BACKSPACE);
    assert keys + [c] + [BACKSPACE] == keys + [c, BACKSPACE];
    SameLines(keys + [c, BACKSPACE], keys, more);
  }

  /** A backspace changes nothing if and only if the line is empty, as it is at the start and
      after a newline. */
  lemma {:induction false} NothingToTakeBack(keys: seq<nat>)
    ensures PressAll(keys + [BACKSPACE]) == PressAll(keys) <==> PressAll(keys).line == []
    ensures keys == [] || keys[|keys| - 1] == NEWLINE ==> PressAll(keys).line == []
  {
    PressLast(keys, BACKSPACE);
  }

  /** The lines are those of somebody who never erred: typing them again gives the same. */
  lemma {:induction false} TypedAgain(keys: seq<nat>)
    ensures var e := PressAll(keys); BACKSPACE !in e.committed + e.line && PressAll(e.committed + e.line) == e
  {
    if keys != [] {
      hide Press;
      var before, c := keys[..|keys| - 1], keys[|keys| - 1];
      TypedAgain(before);
      PressTyped(PressAll(before), c);
    }
  }

  lemma {:induction false} PressTyped(d: Editor, c: nat)
    requires BACKSPACE !in d.committed + d.line && PressAll(d.committed + d.line) == d
    ensures var e := Press(d, c); BACKSPACE !in e.committed + e.line && PressAll(e.committed + e.line) == e
  {
    hide PressAll;
    var typed, n := d.committed + d.line, |d.line| - 1;
    if c != BACKSPACE {
      PressLast(typed, c);
      assert c != NEWLINE ==> typed + [c] == d.committed + (d.line + [c]);
      assert c == NEWLINE ==> typed + [c] == (d.committed + d.line + [c]) + [];
    } else if d.line != [] {
      assert typed == d.committed + d.line[..n] + [d.line[n]];
      LineEnd(d.committed + d.line[..n], d.line[n], d);
    }
  }

  lemma LineEnd(keys: seq<nat>, c: nat, d: Editor)
    requires PressAll(keys + [c]) == d && d.line != [] && c != BACKSPACE
    ensures PressAll(keys) == d.(line := d.line[..|d.line| - 1])
  {
    PressLast(keys, c);
  }

  /** "ac", backspace, "b" and enter. */
  lemma {:induction false} TypingExample()
    ensures PressAll([97, 99, 127, 98, 10]) == Editor([97, 98, 10], [])
  {
    TakesBack([97], 99, [98, 10]);
    assert [97] + [99, BACKSPACE] + [98, 10] == [97, 99, 127, 98, 10];
    assert [97] + [98, 10] == [97, 98, 10];
    PressLast([97, 98], 10);
    TypedIs([97, 98, 10]);
    assert [97, 98] + [10] == [97, 98, 10];
  }

  // ----- The ring -----

  /** Characters from taken on are in the ring, each at its own slot. */
  ghost predicate Holds(buf: seq<nat>, stream: seq<nat>, taken: nat) {
    && |buf| == SIZE && taken <= |stream|
    && forall i {:trigger stream[i]} :: taken <= i < |stream| ==> buf[Slot(i)] == stream[i]
  }

  lemma StoreHolds(buf: seq<nat>, stream: seq<nat>, taken: nat, c: nat)
    requires Holds(buf, stream, taken) && |stream| - taken < SIZE
    ensures Holds(buf[Slot(|stream|) := c], stream + [c], taken)
  {
    var s := stream + [c];
    forall i | taken <= i < |s| ensures buf[Slot(|stream|) := c][Slot(i)] == s[i] {
      if i < |stream| {
        SlotsDiffer(i, |stream|);
        assert s[i] == stream[i];
      }
    }
  }

  /** n characters of the ring from position i of the stream on. */
  function Ringful(buf: seq<nat>, i: int, n: nat): (s: seq<nat>)
    requires |buf| == SIZE
    ensures |s| == n
  {
    seq(n, j requires 0 <= j < n => buf[Slot(i + j)])
  }

  lemma RingfulNext(buf: seq<nat>, i: int, n: nat)
    requires |buf| == SIZE
    ensures Ringful(buf, i, n + 1) == Ringful(buf, i, n) + [buf[Slot(i + n)]]
  {
  }

  lemma RingfulIs(buf: seq<nat>, committed: seq<nat>, line: seq<nat>, taken: nat, n: nat)
    requires Holds(buf, committed + line, taken) && taken + n <= |committed|
    ensures Ringful(buf, taken, n) == committed[taken..taken + n]
  {
    forall j | 0 <= j < n ensures Ringful(buf, taken, n)[j] == committed[taken..taken + n][j] {
      assert buf[Slot(taken + j)] == (committed + line)[taken + j];
    }
  }

  /** Whether a loop that steps through the ring at least once, from position i on, is at
      position n - 1 after k steps; n - i characters are waiting. */
  lemma StepsToEnd(i: int, n: int, k: int)
    requires 0 <= n - i < SIZE && 0 < k <= (if i < n then n - i else SIZE)
    ensures Slot(i - 1 + k) == Slot(n - 1) <==> k == if i < n then n - i else SIZE
  {
    hide Slot;
    if i < n && k < n - i {
      SlotsDiffer(i - 1 + k, n - 1);
    } else if i == n {
      SlotWraps(i - 1);
      if k < SIZE { SlotsDiffer(i - 1, i - 1 + k); }
    }
  }

  lemma HoldsLess(buf: seq<nat>, stream: seq<nat>, taken: nat, taken': nat)
    requires Holds(buf, stream, taken) && taken <= taken' <= |stream|
    ensures Holds(buf, stream, taken')
  {
  }

  /** A stale read leaves the read index where it was exactly when it reads nothing or all. */
  lemma StaleIndex(i: int, k: nat)
    requires k <= SIZE
    ensures Slot(i - 1 + k) == Slot(i - 1) <==> k == 0 || k == SIZE
  {
    hide Slot;
    SlotWraps(i - 1);
    if 0 < k < SIZE { SlotsDiffer(i - 1, i - 1 + k); }
  }

  class Vtty {
    var inputBuf: seq<nat>
    var inputReadIndex: nat
    var inputLineIndex: nat
    var inputWriteIndex: nat
    var inputAvail: Sem
    /** Readers that have passed the semaphore and not yet taken the lock. */
    var ready: nat
    ghost var editor: Editor
    ghost var taken: nat

    /** The ring holds stream from position taken on. */
    ghost predicate RingShows(stream: seq<nat>)
      reads this
    {
      && |inputBuf| == SIZE && Holds(inputBuf, stream, taken) && |stream| - taken < SIZE
      && inputReadIndex == Slot(taken - 1) && inputWriteIndex == Slot(|stream|)
    }

    /** The ring shows the lines as edited. */
    ghost predicate Shows()
      reads this
    {
      && RingShows(editor.committed + editor.line)
      && taken <= |editor.committed| && inputLineIndex == Slot(|editor.committed| - 1)
    }

    /** Committed characters that have not been read. */
    ghost function Left(): int
      reads this
    {
      |editor.committed| - taken
    }

    /** Tokens in the semaphore and with readers. */
    ghost function Tokens(): int
      reads this
    {
      inputAvail.value + ready
    }

    /** There is one token exactly while input is left. */
    ghost predicate Right()
      reads this
    {
      WellFormed(inputAvail) && Tokens() == if 0 < Left() then 1 else 0
    }

    ghost predicate Valid()
      reads this
    {
      Shows() && Right()
    }

    constructor (buf: seq<nat>)
      requires |buf| == SIZE
      ensures Valid() && editor == Editor([], []) && taken == 0 && ready == 0 && inputAvail == Sem(0, [])
    {
      inputBuf := buf;
      inputReadIndex, inputLineIndex, inputWriteIndex, inputAvail, ready := SIZE - 1, SIZE - 1, 0, Sem(0, []), 0;
      editor, taken := Editor([], []), 0;
    }

    /** A token is made, for the first waiting reader if there is one, unless one is there. */
    method SignalInput()
      requires WellFormed(inputAvail)
      modifies this`inputAvail, this`ready
      ensures WellFormed(inputAvail)
      ensures old(inputAvail).value > 0 ==> inputAvail == old(inputAvail) && ready == old(ready)
      ensures old(inputAvail).value == 0 ==>
                && inputAvail == Signal(old(inputAvail)).0 && inputAvail.value + ready == old(ready) + 1
                && (ready == old(ready) <==> old(inputAvail).queue == [])
    {
      if inputAvail.value <= 0 {
        var (sem, freed) := Signal(inputAvail);
        inputAvail := sem;
        ready := if freed.Some? then ready + 1 else ready;
      }
    }

    /** The wait of a read by thread t. */
    method WaitInput(t: nat)
      requires WellFormed(inputAvail)
      modifies this`inputAvail, this`ready
      ensures WellFormed(inputAvail) && inputAvail == Wait(old(inputAvail), t).0
      ensures inputAvail.value + ready == old(inputAvail.value + ready)
      ensures ready == old(ready) + if old(inputAvail).value > 0 then 1 else 0
    {
      var (sem, granted) := Wait(inputAvail, t);
      inputAvail := sem;
      ready := if granted then ready + 1 else ready;
    }

    /** The ring has a slot for one more character. */
    ghost predicate Room()
      reads this
    {
      |editor.committed| + |editor.line| - taken < SIZE - 1
    }

    /** A key that produces character c.  In a full ring a character to be stored pushes out
        the oldest unread one. */
    method Key(c: nat)
      requires Shows() && WellFormed(inputAvail)
      modifies this
      ensures WellFormed(inputAvail) && editor == Press(old(editor), c)
      ensures taken == old(taken) + if old(Room()) || c == BACKSPACE then 0 else 1
      ensures Shows() <==> old(Room()) || c == BACKSPACE || c == NEWLINE || 0 < old(Left())
      ensures c != NEWLINE || 0 < old(inputAvail).value ==> inputAvail == old(inputAvail) && ready == old(ready)
      ensures c == NEWLINE && old(inputAvail).value == 0 ==>
                inputAvail == Signal(old(inputAvail)).0 && Tokens() == old(Tokens()) + 1
      ensures old(Right()) ==>
                (Right() <==>
                   && !(c == NEWLINE && 0 < old(ready))
                   && !(!old(Room()) && c != BACKSPACE && c != NEWLINE && old(Left()) == 1))
    {
      hide Slot, Holds, Signal;
      ghost var stream := editor.committed + editor.line;
      var wi := inputWriteIndex;
      if c == NEWLINE {
        inputLineIndex := wi;
        SignalInput();
      } else if c == BACKSPACE {
        Backspace();
        return;
      }
      StoreChar(wi, c, stream);
      editor := Press(editor, c);
      assert editor.committed + editor.line == stream + [c];
    }

    /** The character is stored at wi, and the indices move on. */
    method StoreChar(wi: nat, c: nat, ghost stream: seq<nat>)
      requires RingShows(stream) && wi == inputWriteIndex
      modifies this`inputBuf, this`inputReadIndex, this`inputWriteIndex, this`taken
      ensures RingShows(stream + [c])
      ensures taken == old(taken) + if |stream| - old(taken) < SIZE - 1 then 0 else 1
    {
      hide Slot;
      ghost var n := |stream|;
      if n - taken < SIZE - 1 {
        SlotsDiffer(taken - 1, n);
      } else {
        SlotWraps(taken - 1);
      }
      StoreHolds(inputBuf, stream, taken, c);
      inputBuf := inputBuf[wi := c];
      SlotNext(taken - 1);
      if wi == inputReadIndex {
        inputReadIndex := (inputReadIndex + 1) % SIZE;
        taken := taken + 1;
      }
      SlotNext(n);
      inputWriteIndex := (wi + 1) % SIZE;
    }

    method Backspace()
      requires Shows()
      modifies this`inputWriteIndex, this`editor
      ensures Shows() && editor == Press(old(editor), BACKSPACE)
    {
      hide Slot;
      assert |editor.committed + editor.line| == |editor.committed| + |editor.line|;
      ghost var n, stream := |editor.committed| + |editor.line|, editor.committed + editor.line;
      var wi2 := (inputWriteIndex + SIZE - 1) % SIZE;
      SlotPrev(n);
      if editor.line != [] {
        SlotsDiffer(|editor.committed| - 1, n - 1);
      }
      if wi2 != inputLineIndex {
        inputWriteIndex := wi2;
        ghost var line := editor.line[..|editor.line| - 1];
        assert forall i :: 0 <= i < n - 1 ==> (editor.committed + line)[i] == stream[i];
        editor := editor.(line := line);
      }
    }

    /** The copying loop of a read: the characters, the read index it reaches, and whether the
        caller's buffer was too short. */
    method Drain(bufSize: nat) returns (out: seq<nat>, ri: nat, short: bool)
      requires Shows()
      ensures var count := if 0 < Left() then Left() else SIZE;
              && out == Ringful(inputBuf, taken, Min(bufSize, count)) && ri == Slot(taken - 1 + |out|)
              && (short <==> bufSize < count)
    {
      hide Slot, Ringful, Holds;
      var end, left := inputLineIndex, bufSize;
      ghost var n := |editor.committed|;
      ghost var count := if 0 < Left() then Left() else SIZE;
      ri, out, short := inputReadIndex, [], false;
      assert out == Ringful(inputBuf, taken, 0);
      while true
        invariant |out| < count && |out| + left == bufSize && !short
        invariant ri == Slot(taken + |out| - 1)
        invariant out == Ringful(inputBuf, taken, |out|)
        decreases left
      {
        if left == 0 {
          short := true;
          break;
        }
        SlotNext(taken + |out| - 1);
        RingfulNext(inputBuf, taken, |out|);
        ri := (ri + 1) % SIZE;
        out := out + [inputBuf[ri]];
        left := left - 1;
        StepsToEnd(taken, n, |out|);
        if ri == end {
          break;
        }
      }
    }

    /** The part of a read under the lock, by a reader that holds a token.  If no input is
        left, it goes once round the ring. */
    method Read(bufSize: nat) returns (out: seq<nat>)
      requires Shows() && WellFormed(inputAvail) && 0 < ready
      modifies this
      ensures WellFormed(inputAvail) && editor == old(editor) && inputBuf == old(inputBuf)
      ensures out == Ringful(inputBuf, old(taken), Min(bufSize, if 0 < old(Left()) then old(Left()) else SIZE))
      ensures 0 < old(Left()) ==> taken == old(taken) + |out| && out == editor.committed[old(taken)..taken]
      ensures 0 == old(Left()) ==> taken == old(taken)
      ensures Shows() <==> 0 < old(Left()) || bufSize == 0 || SIZE <= bufSize
      ensures Tokens() == old(Tokens()) - 1 + if 0 == old(inputAvail).value && bufSize < old(if 0 < Left() then Left() else SIZE) then 1 else 0
      ensures old(Right()) ==> 0 < old(Left()) && Right()
      ensures SIZE <= bufSize ==> inputAvail == old(inputAvail) && ready == old(ready) - 1
    {
      hide Slot, Ringful, Holds, Signal;
      ready := ready - 1;
      var ri, short;
      ghost var n, stream, start := |editor.committed|, editor.committed + editor.line, taken;
      out, ri, short := Drain(bufSize);
      if short {
        SignalInput();
      }
      inputReadIndex := ri;
      if start < n {
        RingfulIs(inputBuf, editor.committed, editor.line, start, |out|);
        taken := taken + |out|;
        HoldsLess(inputBuf, stream, start, taken);
      } else {
        StaleIndex(start, |out|);
      }
    }

    /** A read whose buffer faults: the token is gone, and the ring is as before. */
    method ReadFault()
      requires Shows() && 0 < ready
      modifies this`ready
      ensures Shows() && ready == old(ready) - 1 && Tokens() == old(Tokens()) - 1
      ensures old(Right()) ==> 0 < Left() && Tokens() == 0 && !Right()
    {
      ready := ready - 1;
    }
  }

  // ----- Sessions -----

  datatype Event = Pressed(c: nat) | Waits(t: nat) | Reads(bufSize: nat) | Faults

  /** What has happened: a newline came while a reader had a token but not yet the lock; a
      read faulted; a read found no input. */
  datatype Trouble = Trouble(raced: bool, faulted: bool, stale: bool)

  /** The keys pressed in a session. */
  function Typed(events: seq<Event>): seq<nat> {
    if events == [] then []
    else
      var n := |events| - 1;
      Typed(events[..n]) + if events[n].Pressed? then [events[n].c] else []
  }

  lemma {:induction false} FewerTyped(events: seq<Event>, i: nat)
    requires i < |events|
    ensures Typed(events[..i + 1]) == Typed(events[..i]) + if events[i].Pressed? then [events[i].c] else []
    ensures |Typed(events[..i + 1])| <= |Typed(events)|
    decreases |events|
  {
    assert events[..i + 1][..i] == events[..i];
    var n := |events| - 1;
    if i < n {
      assert events[..n][..i + 1] == events[..i + 1];
      FewerTyped(events[..n], i);
    } else {
      assert events[..i + 1] == events;
    }
  }

  /** Lines are no longer than what was typed. */
  lemma {:induction false} LinesLength(keys: seq<nat>)
    ensures var e := PressAll(keys); |e.committed| + |e.line| <= |keys|
  {
    if keys != [] {
      LinesLength(keys[..|keys| - 1]);
    }
  }

  /** Any session of keys, waits, reads and faulting reads, up to the first read that finds no
      input, if there is one.  A key needs room in the ring, which as many keys as it
      holds always have, a read needs a token.  All that
      was read, put together, is a prefix of the lines as edited, and without a backspace of
      the keys themselves.  No read finds the ring empty unless a newline came at the wrong
      time, and without such a newline and without a fault there is a token exactly while
      committed characters are left. */
  method Session(buf: seq<nat>, events: seq<Event>) returns (tty: Vtty, keys: seq<nat>, all: seq<nat>, trouble: Trouble)
    requires |buf| == SIZE
    ensures tty.editor == PressAll(keys) && all <= PressAll(keys).committed
    ensures BACKSPACE !in keys ==> all <= keys
    ensures !trouble.stale && |Typed(events)| < SIZE ==> keys == Typed(events)
    ensures trouble.stale ==> trouble.raced
    ensures !trouble.raced && !trouble.faulted ==>
              tty.Valid() && (0 < tty.Tokens() <==> |all| < |PressAll(keys).committed|)
    ensures !trouble.raced ==>
              tty.Shows() && (0 < tty.Tokens() ==> tty.Tokens() == 1 && |all| < |PressAll(keys).committed|)
  {
    tty := new Vtty(buf);
    keys, all, trouble := [], [], Trouble(false, false, false);
    ReadsKeys();
    for i := 0 to |events|
      invariant fresh(tty) && InSession(tty, keys, all, trouble) && !trouble.stale
      invariant |Typed(events)| < SIZE ==> keys == Typed(events[..i])
    {
      hide Holds, Slot, InSession, Typed;
      FewerTyped(events, i);
      match events[i]
      case Pressed(c) =>
        keys, trouble := PressKey(tty, c, keys, all, trouble);
      case Waits(t) =>
        WaitTurn(tty, t, keys, all, trouble);
      case Reads(bufSize) =>
        all, trouble := ReadTurn(tty, bufSize, keys, all, trouble);
        if trouble.stale {
          return;
        }
      case Faults =>
        trouble := FaultTurn(tty, keys, all, trouble);
    }
    assert events[..|events|] == events;
  }

  lemma ReadsKeys()
    ensures forall keys: seq<nat> :: BACKSPACE !in keys ==> PressAll(keys).committed <= keys
  {
    forall keys: seq<nat> | BACKSPACE !in keys ensures PressAll(keys).committed <= keys {
      TypedIs(keys);
    }
  }

  /** What holds in a session before the first stale read. */
  ghost predicate InSession(tty: Vtty, keys: seq<nat>, all: seq<nat>, trouble: Trouble)
    reads tty
  {
    && tty.Shows() && WellFormed(tty.inputAvail) && tty.editor == PressAll(keys)
    && |all| == tty.taken && all == tty.editor.committed[..tty.taken]
    && (!trouble.raced ==> tty.Tokens() <= if 0 < tty.Left() then 1 else 0)
    && (!trouble.raced && !trouble.faulted ==> tty.Right())
    && (trouble.stale ==> trouble.raced)
  }

  method PressKey(tty: Vtty, c: nat, keys: seq<nat>, ghost all: seq<nat>, trouble: Trouble)
    returns (keys': seq<nat>, trouble': Trouble)
    requires InSession(tty, keys, all, trouble)
    modifies tty
    ensures InSession(tty, keys', all, trouble') && trouble'.stale == trouble.stale
    ensures |keys| + 1 < SIZE ==> keys' == keys + [c]
  {
    hide Holds, Slot, Signal;
    keys', trouble' := keys, trouble;
    LinesLength(keys);
    ghost var n := |tty.editor.committed| + |tty.editor.line|;
    if n - tty.taken < SIZE - 1 {
      SlotsDiffer(tty.taken - 1, n);
    }
    if tty.inputWriteIndex != tty.inputReadIndex {
      RoomLeft(tty.inputWriteIndex, tty.inputReadIndex, |tty.editor.committed| + |tty.editor.line|, tty.taken);
      CommittedStays(keys, [c]);
      trouble' := trouble.(raced := trouble.raced || (c == NEWLINE && 0 < tty.ready));
      tty.Key(c);
      assert (keys + [c])[..|keys|] == keys;
      keys' := keys + [c];
    }
  }

  method WaitTurn(tty: Vtty, t: nat, ghost keys: seq<nat>, ghost all: seq<nat>, ghost trouble: Trouble)
    requires InSession(tty, keys, all, trouble)
    modifies tty
    ensures InSession(tty, keys, all, trouble)
  {
    hide Holds, Slot;
    tty.WaitInput(t);
  }

  method ReadTurn(tty: Vtty, bufSize: nat, ghost keys: seq<nat>, all: seq<nat>, trouble: Trouble)
    returns (all': seq<nat>, trouble': Trouble)
    requires InSession(tty, keys, all, trouble) && !trouble.stale
    modifies tty
    ensures InSession(tty, keys, all', trouble')
  {
    hide Holds, Slot;
    all', trouble' := all, trouble;
    if 0 < tty.ready {
      SameIndex(tty.taken, |tty.editor.committed|);
      if tty.inputReadIndex == tty.inputLineIndex {
        trouble' := trouble.(stale := true);
      } else {
        var out := tty.Read(bufSize);
        all' := all + out;
      }
    }
  }

  method FaultTurn(tty: Vtty, ghost keys: seq<nat>, ghost all: seq<nat>, trouble: Trouble) returns (trouble': Trouble)
    requires InSession(tty, keys, all, trouble)
    modifies tty
    ensures InSession(tty, keys, all, trouble') && trouble'.stale == trouble.stale
  {
    hide Holds, Slot;
    trouble' := trouble;
    if 0 < tty.ready {
      tty.ReadFault();
      trouble' := trouble.(faulted := true);
    }
  }

  /** The two indices agree exactly when nothing is left to read. */
  lemma SameIndex(taken: nat, n: nat)
    requires taken <= n < taken + SIZE
    ensures Slot(taken - 1) == Slot(n - 1) <==> taken == n
  {
    hide Slot;
    if taken < n { SlotsDiffer(taken - 1, n - 1); }
  }

  /** The ring has room exactly when the slot to be written is not the last one read. */
  lemma RoomLeft(w: nat, r: nat, n: nat, taken: nat)
    requires w == Slot(n) && r == Slot(taken - 1) && taken <= n < taken + SIZE && w != r
    ensures n - taken < SIZE - 1
  {
  }

  /** Two lines typed before the reader gets the lock: it reads both, and the next read, for
      which nothing is left, returns the whole ring. */
  method StaleExample(buf: seq<nat>) returns (tty: Vtty, first: seq<nat>, second: seq<nat>)
    requires |buf| == SIZE
    ensures first == [NEWLINE, NEWLINE] == tty.editor.committed && |second| == SIZE
  {
    hide Holds, Slot, Ringful;
    tty := new Vtty(buf);
    tty.WaitInput(1);
    tty.Key(NEWLINE);
    tty.Key(NEWLINE);
    first := tty.Read(SIZE);
    tty.WaitInput(2);
    second := tty.Read(SIZE);
  }

  /** A reader that faults leaves a line without a token: the next reader waits, until another
      line is typed. */
  method FaultExample(buf: seq<nat>) returns (tty: Vtty)
    requires |buf| == SIZE
    ensures tty.Right() && tty.Left() == 2
  {
    hide Holds, Slot;
    tty := new Vtty(buf);
    tty.WaitInput(1);
    tty.Key(NEWLINE);
    tty.ReadFault();
    assert tty.Left() == 1 && tty.Tokens() == 0 && !tty.Right();
    tty.WaitInput(2);
    assert tty.inputAvail.queue == [2];
    tty.Key(NEWLINE);
  }

  /** One character more than the 4095 that the ring holds, and the ring no longer shows the line. */
  method FullExample(buf: seq<nat>) returns (tty: Vtty)
    requires |buf| == SIZE
    ensures !tty.Shows()
  {
    tty := new Vtty(buf);
    for i := 0 to 4095
      invariant fresh(tty) && tty.Shows() && WellFormed(tty.inputAvail)
      invariant tty.taken == 0 && tty.editor.committed == [] && |tty.editor.line| == i
    {
      hide Holds, Slot;
      tty.Key(97);
    }
    tty.Key(97);
  }
}
