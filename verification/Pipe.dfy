/**
 A pipe between one writer and one reader, as a system of interleaved steps.

 Each side repeats: wait for its semaphore, move one byte, signal the other semaphore,
 advance its index.  A step of either side may come next at any time; the index moves
 only after the signal, so the other side may already be at work by then.
 */
module Pipe {
  import opened Basics
  import opened Ring
  import opened Semaphore

  const PIPE_BUF := SIZE

  const WRITER := 0
  const READER := 1

  /** Where a side is: before semWait, queued in it, between wait and move, between move
      and signal, between signal and advance. */
  datatype Pc = Start | Blocked | Holding | Moved | Signalled

  datatype State = State(
    bytesFree: Sem, bytesUsed: Sem, buf: seq<Byte>, wIndex: nat, rIndex: nat,
    writer: Pc, reader: Pc, written: seq<Byte>, read: seq<Byte>)

  /** The pipe as sysPipe leaves it; the buffer's contents do not matter. */
  ghost predicate Init(s: State) {
    && s.bytesFree == Sem(PIPE_BUF, []) && s.bytesUsed == Sem(0, [])
    && |s.buf| == PIPE_BUF && s.wIndex == 0 && s.rIndex == 0
    && s.writer == Start && s.reader == Start && s.written == [] && s.read == []
  }

  datatype Action = WriterWait | Store(c: Byte) | WriterSignal | WriterAdvance | ReaderWait | Load | ReaderSignal | ReaderAdvance

  predicate Enabled(s: State, a: Action) {
    match a
    case WriterWait => s.writer == Start
    case Store(_) => s.writer == Holding && s.wIndex < |s.buf|
    case WriterSignal => s.writer == Moved
    case WriterAdvance => s.writer == Signalled
    case ReaderWait => s.reader == Start
    case Load => s.reader == Holding && s.rIndex < |s.buf|
    case ReaderSignal => s.reader == Moved
    case ReaderAdvance => s.reader == Signalled
  }

  function Next(s: State, a: Action): State
    requires Enabled(s, a)
  {
    match a
    case WriterWait =>
      var (sem, granted) := Wait(s.bytesFree, WRITER);
      s.(bytesFree := sem, writer := if granted then Holding else Blocked)
    case Store(c) =>
      s.(buf := s.buf[s.wIndex := c], written := s.written + [c], writer := Moved)
    case WriterSignal =>
      var (sem, freed) := Signal(s.bytesUsed);
      s.(bytesUsed := sem, writer := Signalled, reader := if freed == Some(READER) then Holding else s.reader)
    case WriterAdvance =>
      s.(wIndex := (s.wIndex + 1) % PIPE_BUF, writer := Start)
    case ReaderWait =>
      var (sem, granted) := Wait(s.bytesUsed, READER);
      s.(bytesUsed := sem, reader := if granted then Holding else Blocked)
    case Load =>
      s.(read := s.read + [s.buf[s.rIndex]], reader := Moved)
    case ReaderSignal =>
      var (sem, freed) := Signal(s.bytesFree);
      s.(bytesFree := sem, reader := Signalled, writer := if freed == Some(WRITER) then Holding else s.writer)
    case ReaderAdvance =>
      s.(rIndex := (s.rIndex + 1) % PIPE_BUF, reader := Start)
  }

  /** Tokens in the hands of a side. */
  function Held(pc: Pc): nat {
    if pc == Holding || pc == Moved then 1 else 0
  }

  /** The byte that has been moved but whose index has not been advanced. */
  function Pending(pc: Pc): nat {
    if pc == Moved || pc == Signalled then 1 else 0
  }

  /** A semaphore on which only thread t ever waits. */
  predicate OneWaiter(sem: Sem, pc: Pc, t: nat) {
    && sem.value >= 0
    && sem.queue == (if pc == Blocked then [t] else [])
    && (pc == Blocked ==> sem.value == 0)
  }

  predicate Tokens(s: State) {
    && OneWaiter(s.bytesFree, s.writer, WRITER) && OneWaiter(s.bytesUsed, s.reader, READER)
    && s.bytesUsed.value == (|s.written| - if s.writer == Moved then 1 else 0) - (|s.read| + if s.reader == Holding then 1 else 0)
    && s.bytesFree.value == PIPE_BUF + (|s.read| - if s.reader == Moved then 1 else 0) - (|s.written| + if s.writer == Holding then 1 else 0)
  }

  predicate Indices(s: State) {
    && |s.buf| == PIPE_BUF
    && Pending(s.writer) <= |s.written| && Pending(s.reader) <= |s.read|
    && s.wIndex == Slot(|s.written| - Pending(s.writer))
    && s.rIndex == Slot(|s.read| - Pending(s.reader))
  }

  /** Every byte written and not yet read is in the buffer, at its own slot. */
  ghost predicate Unread(s: State) {
    && |s.buf| == PIPE_BUF && s.read <= s.written
    && forall j {:trigger s.written[j]} :: |s.read| <= j < |s.written| ==> s.buf[Slot(j)] == s.written[j]
  }

  ghost predicate Inv(s: State) {
    Tokens(s) && Indices(s) && Unread(s)
  }

  // ----- Every step keeps the invariant -----

  lemma TokensStep(s: State, a: Action)
    requires Tokens(s) && Enabled(s, a)
    ensures Tokens(Next(s, a))
  {
  }

  lemma IndicesStep(s: State, a: Action)
    requires Indices(s) && Tokens(s) && Enabled(s, a)
    ensures Indices(Next(s, a))
  {
    hide Slot;
    match a
    case WriterAdvance => SlotNext(|s.written| - 1);
    case ReaderAdvance => SlotNext(|s.read| - 1);
    case _ =>
  }

  lemma StoreStep(s: State, c: Byte)
    requires Inv(s) && s.writer == Holding
    ensures Unread(Next(s, Store(c)))
    ensures forall j :: |s.read| <= j < |s.written| ==> Slot(j) != s.wIndex
  {
    var n := |s.written|;
    assert n < |s.read| + PIPE_BUF;
    forall j | |s.read| <= j < n ensures Slot(j) != s.wIndex {
      SlotsDiffer(j, n);
    }
  }

  lemma LoadStep(s: State)
    requires Inv(s) && s.reader == Holding
    ensures Unread(Next(s, Load))
  {
    assert |s.read| < |s.written|;
    assert s.buf[s.rIndex] == s.written[|s.read|];
  }

  lemma InvStep(s: State, a: Action)
    requires Inv(s) && Enabled(s, a)
    ensures Inv(Next(s, a))
  {
    TokensStep(s, a);
    IndicesStep(s, a);
    match a
    case Store(c) => StoreStep(s, c);
    case Load => LoadStep(s);
    case _ =>
  }

  // ----- Runs -----

  ghost predicate IsRun(ss: seq<State>, as_: seq<Action>) {
    && |ss| == |as_| + 1 && Init(ss[0])
    && forall i :: 0 <= i < |as_| ==> Enabled(ss[i], as_[i]) && ss[i + 1] == Next(ss[i], as_[i])
  }

  lemma {:induction false} RunInv(ss: seq<State>, as_: seq<Action>, i: nat)
    requires IsRun(ss, as_) && i < |ss|
    ensures Inv(ss[i])
  {
    if i > 0 {
      RunInv(ss, as_, i - 1);
      assert Enabled(ss[i - 1], as_[i - 1]);
      InvStep(ss[i - 1], as_[i - 1]);
    }
  }

  /** The bytes of the stores among the first actions of a run. */
  function Stores(as_: seq<Action>): seq<Byte> {
    if as_ == [] then []
    else
      var n := |as_| - 1;
      Stores(as_[..n]) + if as_[n].Store? then [as_[n].c] else []
  }

  function Loads(as_: seq<Action>): nat {
    if as_ == [] then 0 else Loads(as_[..|as_| - 1]) + if as_[|as_| - 1].Load? then 1 else 0
  }

  /** What counts as written are the bytes given to the writer, and as read one byte for each
      load. */
  lemma {:induction false} RunLogs(ss: seq<State>, as_: seq<Action>, i: nat)
    requires IsRun(ss, as_) && i < |ss|
    ensures ss[i].written == Stores(as_[..i]) && |ss[i].read| == Loads(as_[..i])
  {
    if i > 0 {
      RunLogs(ss, as_, i - 1);
      assert Enabled(ss[i - 1], as_[i - 1]);
      assert as_[..i][..i - 1] == as_[..i - 1];
    }
  }

  lemma StateSafe(s: State)
    requires Inv(s)
    ensures && s.read <= s.written && |s.written| - |s.read| <= 4096
            && s.bytesFree.value + s.bytesUsed.value + Held(s.writer) + Held(s.reader) == 4096
            && (exists a :: Enabled(s, a))
            && (s.reader == Blocked ==> |s.written| - |s.read| == if s.writer == Moved then 1 else 0)
            && (s.writer == Blocked ==> |s.written| - |s.read| == 4096 - if s.reader == Moved then 1 else 0)
            && (s.writer == Holding ==> forall j :: |s.read| <= j < |s.written| ==> Slot(j) != s.wIndex)
  {
    if s.writer == Holding {
      StoreStep(s, 0);
      assert Enabled(s, Store(0));
    }
    assert Enabled(s, WriterWait) || Enabled(s, Store(0)) || Enabled(s, WriterSignal) || Enabled(s, WriterAdvance)
        || Enabled(s, ReaderWait) || Enabled(s, Load) || Enabled(s, ReaderSignal) || Enabled(s, ReaderAdvance);
  }

  /** At every point of every run: what was read is a prefix of what was written, the bytes
      given to the writer, with one byte for each load; free, used and held tokens add up to
      the size of the buffer; the sides are never both blocked, so one of them can go on; the
      reader is blocked only when nothing is left to read, the writer only when no slot is
      left; and a store never hits a byte that is still to be read. */
  lemma PipeSafety(ss: seq<State>, as_: seq<Action>, i: nat)
    requires IsRun(ss, as_) && i < |ss|
    ensures ss[i].read <= Stores(as_[..i]) && |ss[i].read| == Loads(as_[..i])
    ensures var s := ss[i];
            && s.read <= s.written && |s.written| - |s.read| <= 4096
            && s.bytesFree.value + s.bytesUsed.value + Held(s.writer) + Held(s.reader) == 4096
            && (exists a :: Enabled(s, a))
            && (s.reader == Blocked ==> |s.written| - |s.read| == if s.writer == Moved then 1 else 0)
            && (s.writer == Blocked ==> |s.written| - |s.read| == 4096 - if s.reader == Moved then 1 else 0)
            && (s.writer == Holding ==> forall j :: |s.read| <= j < |s.written| ==> Slot(j) != s.wIndex)
  {
    hide Inv, IsRun, Enabled, Stores, Loads;
    RunInv(ss, as_, i);
    RunLogs(ss, as_, i);
    StateSafe(ss[i]);
  }
}
