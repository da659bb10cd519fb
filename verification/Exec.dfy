/**
 The stack image of exec: argument and environment strings are gathered in a kernel
 page, the page's upper part is copied to the top of the new user stack, and the
 pointers in it, offsets so far, are relocated.

 Kernel and user memory are arrays of whole pages; the stack page is the last page of
 either, and an image too large for it reaches into the pages below.  Position 0 of the
 user's memory has the address org.
 */
module Exec {
  import opened Basics

  const PAGE_SIZE := 4096
  const PTR_SIZE := 8
  const WORD_LIMIT: nat := 0x1_0000_0000_0000_0000

  /** A C string without its terminator. */
  type Str = s: seq<Byte> | forall i :: 0 <= i < |s| ==> s[i] != 0

  // ----- Words in little-endian order -----

  function Pow256(k: nat): (n: nat)
    ensures 0 < n
  {
    if k == 0 then 1 else 256 * Pow256(k - 1)
  }

  function Encode(v: nat, k: nat): (s: seq<Byte>)
    ensures |s| == k
  {
    if k == 0 then [] else [v % 256] + Encode(v / 256, k - 1)
  }

  function Decode(s: seq<Byte>): nat {
    if s == [] then 0 else s[0] + 256 * Decode(s[1..])
  }

  lemma {:induction false} DecodeEncode(v: nat, k: nat)
    requires v < Pow256(k)
    ensures Decode(Encode(v, k)) == v
  {
    if k != 0 {
      DecodeEncode(v / 256, k - 1);
      assert Encode(v, k)[1..] == Encode(v / 256, k - 1);
    }
  }

  /** The byte at distance i counts 256 to the power of i. */
  lemma {:induction false} LittleEndian(v: nat, k: nat, i: nat)
    requires i < k
    ensures Encode(v, k)[i] == v / Pow256(i) % 256
  {
    if i != 0 {
      LittleEndian(v / 256, k - 1, i - 1);
      DivTwice(v, Pow256(i - 1));
    }
  }

  lemma DivTwice(v: nat, n: nat)
    requires 0 < n
    ensures v / (256 * n) == v / 256 / n
  {
    var w := v / 256;
    var q, r := w / n, w % n;
    assert v == 256 * w + v % 256 && w == n * q + r;
    assert v == (256 * n) * q + (256 * r + v % 256) by {
      assert 256 * (n * q) == (256 * n) * q;
    }
    assert 256 * r + v % 256 < 256 * n;
    QuotientIs(v, 256 * n, q, 256 * r + v % 256);
  }

  lemma Multiple(n: nat, d: int)
    requires d != 0
    ensures n <= n * d || n <= -(n * d)
  {
    if d > 0 {
      assert n * d == n + n * (d - 1);
    } else {
      assert -(n * d) == n + n * (-d - 1);
    }
  }

  lemma QuotientIs(v: nat, n: nat, q: nat, r: nat)
    requires r < n && v == n * q + r
    ensures v / n == q
  {
    var d := v / n - q;
    assert v == n * (v / n) + v % n;
    assert n * d == n * (v / n) - n * q == r - v % n;
    if d != 0 {
      Multiple(n, d);
    }
  }

  lemma WordRange()
    ensures Pow256(8) == WORD_LIMIT
  {
    assert Pow256(4) == 0x1_0000_0000;
  }

  function WordAt(m: seq<Byte>, a: nat): nat
    requires a + PTR_SIZE <= |m|
  {
    Decode(m[a..a + PTR_SIZE])
  }

  /** The bytes after s has been copied to a. */
  function Put(m: seq<Byte>, a: nat, s: seq<Byte>): (r: seq<Byte>)
    requires a + |s| <= |m|
    ensures |r| == |m| && r[a..a + |s|] == s
    ensures forall x :: 0 <= x < |m| && !(a <= x < a + |s|) ==> r[x] == m[x]
  {
    m[..a] + s + m[a + |s|..]
  }

  lemma PutWord(m: seq<Byte>, a: nat, v: nat)
    requires a + PTR_SIZE <= |m| && v < WORD_LIMIT
    ensures WordAt(Put(m, a, Encode(v, PTR_SIZE)), a) == v
  {
    WordRange();
    DecodeEncode(v, PTR_SIZE);
  }

  lemma WordFrame(m: seq<Byte>, m': seq<Byte>, a: nat)
    requires a + PTR_SIZE <= |m| && a + PTR_SIZE <= |m'|
    requires forall x :: a <= x < a + PTR_SIZE ==> m'[x] == m[x]
    ensures WordAt(m', a) == WordAt(m, a)
  {
    assert m'[a..a + PTR_SIZE] == m[a..a + PTR_SIZE];
  }

  // ----- Strings and vectors of strings -----

  /** The string s, with its terminator, stands at a. */
  predicate StringAt(m: seq<Byte>, a: nat, s: Str) {
    a + |s| + 1 <= |m| && m[a..a + |s| + 1] == s + [0]
  }

  lemma StringFrame(m: seq<Byte>, m': seq<Byte>, a: nat, s: Str)
    requires StringAt(m, a, s) && a + |s| + 1 <= |m'|
    requires forall x :: a <= x < a + |s| + 1 ==> m'[x] == m[x]
    ensures StringAt(m', a, s)
  {
    assert m'[a..a + |s| + 1] == m[a..a + |s| + 1];
  }

  /** Bytes that the strings take, terminators included. */
  function Length(ss: seq<Str>): nat {
    if ss == [] then 0 else |ss[0]| + 1 + Length(ss[1..])
  }

  /** Where strings laid out one after the other from top start. */
  function Positions(ss: seq<Str>, top: nat): (ps: seq<nat>)
    ensures |ps| == |ss|
  {
    if ss == [] then [] else [top] + Positions(ss[1..], top + |ss[0]| + 1)
  }

  lemma {:induction false} PositionRange(ss: seq<Str>, top: nat, i: nat)
    requires i < |ss|
    ensures var p := Positions(ss, top)[i]; top <= p && p + |ss[i]| + 1 <= top + Length(ss)
  {
    if i != 0 {
      PositionRange(ss[1..], top + |ss[0]| + 1, i - 1);
    }
  }

  /** A pointer as it is stored at first: the distance from the stack page, in 64 bits. */
  function Offset(pos: nat, stack: nat): nat {
    (pos - stack) % WORD_LIMIT
  }

  /** The stored vector, with its closing NULL. */
  function Stored(ss: seq<Str>, top: nat, stack: nat): (ps: seq<nat>)
    ensures |ps| == |ss| + 1 && ps[|ss|] == 0
  {
    seq(|ss| + 1, i requires 0 <= i <= |ss| => if i < |ss| then Offset(Positions(ss, top)[i], stack) else 0)
  }

  lemma StoredAt(ss: seq<Str>, top: nat, stack: nat, i: nat)
    requires i < |ss|
    ensures Stored(ss, top, stack)[i] == Offset(Positions(ss, top)[i], stack) < WORD_LIMIT
  {
  }

  /** The first n strings stand where the pointers say. */
  ghost predicate Strings(m: seq<Byte>, ss: seq<Str>, top: nat, n: nat)
    requires n <= |ss|
  {
    forall i :: 0 <= i < n ==> StringAt(m, Positions(ss, top)[i], ss[i])
  }

  /** The i-th pointer of a vector at a. */
  function Slot(m: seq<Byte>, a: nat, i: nat): nat
    requires a + PTR_SIZE * (i + 1) <= |m|
  {
    WordAt(m, a + PTR_SIZE * i)
  }

  /** The first n words at a are those of ps. */
  ghost predicate Words(m: seq<Byte>, a: nat, ps: seq<nat>, n: nat)
    requires n <= |ps|
  {
    a + PTR_SIZE * n <= |m| && forall i :: 0 <= i < n ==> Slot(m, a, i) == ps[i]
  }

  lemma WordsFrame(m: seq<Byte>, m': seq<Byte>, a: nat, ps: seq<nat>, n: nat)
    requires n <= |ps| && Words(m, a, ps, n) && |m'| == |m|
    requires forall x :: a <= x < a + PTR_SIZE * n ==> m'[x] == m[x]
    ensures Words(m', a, ps, n)
  {
    forall i | 0 <= i < n ensures Slot(m', a, i) == ps[i] {
      assert Slot(m, a, i) == ps[i];
      WordFrame(m, m', a + PTR_SIZE * i);
    }
  }

  // ----- Reading the vectors back -----

  /** A NUL-terminated string, as a program reads it. */
  function ReadString(m: seq<Byte>, a: nat): seq<Byte>
    decreases |m| - a
  {
    if |m| <= a || m[a] == 0 then [] else [m[a]] + ReadString(m, a + 1)
  }

  lemma {:induction false} ReadsString(m: seq<Byte>, a: nat, s: Str)
    requires StringAt(m, a, s)
    ensures ReadString(m, a) == s
    decreases |s|
  {
    assert m[a] == m[a..a + |s| + 1][0] == (s + [0])[0];
    if s != [] {
      assert m[a + 1..a + 1 + |s[1..]| + 1] == m[a..a + |s| + 1][1..] == s[1..] + [0];
      ReadsString(m, a + 1, s[1..]);
    }
  }

  /** A NULL-terminated vector of strings at a, as a program reads it. */
  function ReadVector(m: seq<Byte>, base: nat, a: nat): seq<seq<Byte>>
    decreases |m| - a
  {
    if |m| < a + PTR_SIZE || WordAt(m, a) < base || WordAt(m, a) == 0 then []
    else [ReadString(m, WordAt(m, a) - base)] + ReadVector(m, base, a + PTR_SIZE)
  }

  /** p is the address of the string s. */
  predicate PointsTo(m: seq<Byte>, base: nat, p: nat, s: Str) {
    p != 0 && base <= p && StringAt(m, p - base, s)
  }

  /** Pointers to the strings, then NULL. */
  ghost predicate Vector(m: seq<Byte>, base: nat, a: nat, ss: seq<Str>) {
    && a + PTR_SIZE * (|ss| + 1) <= |m|
    && (forall i :: 0 <= i < |ss| ==> PointsTo(m, base, Slot(m, a, i), ss[i]))
    && Slot(m, a, |ss|) == 0
  }

  lemma {:induction false} ReadsVector(m: seq<Byte>, base: nat, a: nat, ss: seq<Str>)
    requires Vector(m, base, a, ss)
    ensures ReadVector(m, base, a) == ss
    decreases |ss|
  {
    hide StringAt, WordAt;
    assert Slot(m, a, 0) == WordAt(m, a);
    if ss != [] {
      assert PointsTo(m, base, Slot(m, a, 0), ss[0]);
      ReadsString(m, WordAt(m, a) - base, ss[0]);
      var rest := a + PTR_SIZE;
      assert Slot(m, rest, |ss[1..]|) == 0;
      forall i: nat | i < |ss[1..]| ensures PointsTo(m, base, Slot(m, rest, i), ss[1..][i]) {
        assert Slot(m, rest, i) == Slot(m, a, i + 1);
      }
      ReadsVector(m, base, rest, ss[1..]);
    }
  }

  // ----- Gathering the strings in the kernel page -----

  lemma {:induction false} PositionBefore(ss: seq<Str>, top: nat, i: nat, j: nat)
    requires i < j < |ss|
    ensures Positions(ss, top)[i] + |ss[i]| + 1 <= Positions(ss, top)[j]
  {
    if i == 0 {
      PositionRange(ss[1..], top + |ss[0]| + 1, j - 1);
    } else {
      PositionBefore(ss[1..], top + |ss[0]| + 1, i - 1, j - 1);
    }
  }

  /** The store of a word into a vector. */
  function PutSlot(m: seq<Byte>, a: nat, i: nat, v: nat): seq<Byte>
    requires a + PTR_SIZE * (i + 1) <= |m|
  {
    Put(m, a + PTR_SIZE * i, Encode(v, PTR_SIZE))
  }

  lemma PutSlotFrame(m: seq<Byte>, a: nat, i: nat, v: nat)
    requires a + PTR_SIZE * (i + 1) <= |m| && v < WORD_LIMIT
    ensures var m' := PutSlot(m, a, i, v);
            && |m'| == |m| && WordAt(m', a + PTR_SIZE * i) == v
            && forall x :: 0 <= x < |m| && !(a + PTR_SIZE * i <= x < a + PTR_SIZE * (i + 1)) ==> m'[x] == m[x]
  {
    hide Encode, WordAt;
    PutWord(m, a + PTR_SIZE * i, v);
  }

  lemma SlotStep(m: seq<Byte>, a: nat, ps: seq<nat>, i: nat)
    requires i < |ps| && Words(m, a, ps, i) && a + PTR_SIZE * (i + 1) <= |m| && ps[i] < WORD_LIMIT
    ensures Words(PutSlot(m, a, i, ps[i]), a, ps, i + 1)
  {
    hide WordAt;
    var m' := PutSlot(m, a, i, ps[i]);
    WordsFrame(m, m', a, ps, i);
    PutWord(m, a + PTR_SIZE * i, ps[i]);
    forall j | 0 <= j < i + 1 ensures Slot(m', a, j) == ps[j] {
    }
  }

  lemma StringStep(m: seq<Byte>, ss: seq<Str>, top: nat, i: nat)
    requires i < |ss| && Strings(m, ss, top, i) && top + Length(ss) <= |m|
    ensures var p := Positions(ss, top)[i];
            p + |ss[i]| + 1 <= |m| && Strings(Put(m, p, ss[i] + [0]), ss, top, i + 1)
  {
    PositionRange(ss, top, i);
    var p := Positions(ss, top)[i];
    var m' := Put(m, p, ss[i] + [0]);
    forall j | 0 <= j < i + 1 ensures StringAt(m', Positions(ss, top)[j], ss[j]) {
      if j < i {
        PositionBefore(ss, top, j, i);
        StringFrame(m, m', Positions(ss, top)[j], ss[j]);
      }
    }
  }

  lemma StringEnd(m: seq<Byte>, a: nat, s: Str)
    requires StringAt(m, a, s)
    ensures a + |s| + 1 <= |m|
  {
  }

  /** Stores below the strings leave them alone. */
  lemma {:induction false} StringsAbove(m: seq<Byte>, m': seq<Byte>, ss: seq<Str>, top: nat, n: nat)
    requires n <= |ss| && Strings(m, ss, top, n) && |m'| == |m|
    requires forall x :: top <= x < |m| && x < top + Length(ss) ==> m'[x] == m[x]
    ensures Strings(m', ss, top, n)
  {
    hide Positions, Length, StringAt;
    forall i | 0 <= i < n ensures StringAt(m', Positions(ss, top)[i], ss[i]) {
      PositionRange(ss, top, i);
      StringEnd(m, Positions(ss, top)[i], ss[i]);
      StringFrame(m, m', Positions(ss, top)[i], ss[i]);
    }
  }

  /** Nothing changes but the vector of ss at a and the strings at top. */
  ghost predicate OnlyVector(m: seq<Byte>, m': seq<Byte>, ss: seq<Str>, a: nat, top: nat) {
    && |m'| == |m|
    && forall x :: 0 <= x < |m| && !(a <= x < a + PTR_SIZE * (|ss| + 1)) && !(top <= x < top + Length(ss)) ==> m'[x] == m[x]
  }

  method MemCpy(dst: array<Byte>, a: nat, s: seq<Byte>)
    requires a + |s| <= dst.Length
    modifies dst
    ensures dst[..] == Put(old(dst[..]), a, s)
  {
    forall i | 0 <= i < |s| {
      dst[a + i] := s[i];
    }
    assert forall x :: 0 <= x < dst.Length ==> dst[..][x] == Put(old(dst[..]), a, s)[x];
  }

  method StoreSlot(dst: array<Byte>, a: nat, i: nat, v: nat)
    requires a + PTR_SIZE * (i + 1) <= dst.Length
    modifies dst
    ensures dst[..] == PutSlot(old(dst[..]), a, i, v)
  {
    MemCpy(dst, a + PTR_SIZE * i, Encode(v, PTR_SIZE));
  }

  lemma PositionsFrom(ss: seq<Str>, top: nat, i: nat, uTop: nat)
    requires i < |ss| && Positions(ss, top)[i..] == Positions(ss[i..], uTop) && uTop + Length(ss[i..]) == top + Length(ss)
    ensures Positions(ss, top)[i] == uTop
    ensures var next := uTop + |ss[i]| + 1;
            Positions(ss, top)[i + 1..] == Positions(ss[i + 1..], next) && next + Length(ss[i + 1..]) == top + Length(ss)
  {
    assert ss[i..][1..] == ss[i + 1..];
    assert Positions(ss, top)[i + 1..] == Positions(ss, top)[i..][1..];
    assert Positions(ss, top)[i..][0] == Positions(ss, top)[i];
  }

  /** The effect of one round on the page. */
  lemma RoundStep(m: seq<Byte>, ss: seq<Str>, a: nat, top: nat, stack: nat, i: nat)
    requires i < |ss| && Words(m, a, Stored(ss, top, stack), i) && Strings(m, ss, top, i)
    requires a + PTR_SIZE * (|ss| + 1) <= top && top + Length(ss) <= |m|
    ensures var p := Positions(ss, top)[i];
            && top <= p && p + |ss[i]| + 1 <= top + Length(ss)
            && var m' := PutSlot(Put(m, p, ss[i] + [0]), a, i, Offset(p, stack));
            && OnlyVector(m, m', ss, a, top)
            && Words(m', a, Stored(ss, top, stack), i + 1) && Strings(m', ss, top, i + 1)
  {
    hide Words, Strings, Positions, Stored, Length, Encode;
    var p := Positions(ss, top)[i];
    PositionRange(ss, top, i);
    StringStep(m, ss, top, i);
    var m1 := Put(m, p, ss[i] + [0]);
    WordsFrame(m, m1, a, Stored(ss, top, stack), i);
    StoredAt(ss, top, stack, i);
    SlotStep(m1, a, Stored(ss, top, stack), i);
    StringsAbove(m1, PutSlot(m1, a, i, Offset(p, stack)), ss, top, i + 1);
  }

  lemma OnlyVectorTrans(m: seq<Byte>, m1: seq<Byte>, m2: seq<Byte>, ss: seq<Str>, a: nat, top: nat)
    requires OnlyVector(m, m1, ss, a, top) && OnlyVector(m1, m2, ss, a, top)
    ensures OnlyVector(m, m2, ss, a, top)
  {
  }

  /** One of the two copying loops of createStack: the strings go to top, their distances from
      the stack page and a NULL to newArgv. */
  method CopyStrings(page: array<Byte>, ss: seq<Str>, newArgv: nat, top: nat, stack: nat) returns (uTop: nat)
    requires newArgv + PTR_SIZE * (|ss| + 1) <= top && top + Length(ss) <= page.Length
    modifies page
    ensures uTop == top + Length(ss)
    ensures Words(page[..], newArgv, Stored(ss, top, stack), |ss| + 1) && Strings(page[..], ss, top, |ss|)
    ensures OnlyVector(old(page[..]), page[..], ss, newArgv, top)
  {
    hide Words, Strings, Positions, Stored, Length, OnlyVector, Put, PutSlot;
    ghost var m0 := page[..];
    uTop := top;
    var i := 0;
    CopyStart(m0, ss, newArgv, top, stack);
    while true
      invariant 0 <= i <= |ss| && uTop + Length(ss[i..]) == top + Length(ss)
      invariant Positions(ss, top)[i..] == Positions(ss[i..], uTop)
      invariant Words(page[..], newArgv, Stored(ss, top, stack), i) && Strings(page[..], ss, top, i)
      invariant OnlyVector(m0, page[..], ss, newArgv, top)
      decreases |ss| - i
    {
      ghost var m := page[..];
      if i == |ss| {
        StoreSlot(page, newArgv, i, 0);
        CopyEnd(m, ss, newArgv, top, stack);
        OnlyVectorTrans(m0, m, page[..], ss, newArgv, top);
        EmptyLength(ss[i..]);
        break;
      }
      RoundStep(m, ss, newArgv, top, stack, i);
      PositionsFrom(ss, top, i, uTop);
      var len := |ss[i]| + 1;
      MemCpy(page, uTop, ss[i] + [0]);
      StoreSlot(page, newArgv, i, Offset(uTop, stack));
      OnlyVectorTrans(m0, m, page[..], ss, newArgv, top);
      uTop := uTop + len;
      i := i + 1;
    }
  }

  lemma EmptyLength(ss: seq<Str>)
    requires ss == []
    ensures Length(ss) == 0
  {
  }

  lemma CopyStart(m: seq<Byte>, ss: seq<Str>, a: nat, top: nat, stack: nat)
    requires a <= |m|
    ensures Words(m, a, Stored(ss, top, stack), 0) && Strings(m, ss, top, 0) && OnlyVector(m, m, ss, a, top)
    ensures ss[0..] == ss && Positions(ss, top)[0..] == Positions(ss, top)
  {
  }

  lemma CopyEnd(m: seq<Byte>, ss: seq<Str>, a: nat, top: nat, stack: nat)
    requires Words(m, a, Stored(ss, top, stack), |ss|) && Strings(m, ss, top, |ss|)
    requires a + PTR_SIZE * (|ss| + 1) <= top <= |m|
    ensures var m' := PutSlot(m, a, |ss|, 0);
            && Words(m', a, Stored(ss, top, stack), |ss| + 1) && Strings(m', ss, top, |ss|)
            && OnlyVector(m, m', ss, a, top)
  {
    hide Words, Strings, Length, Encode;
    SlotStep(m, a, Stored(ss, top, stack), |ss|);
    StringsAbove(m, PutSlot(m, a, |ss|, 0), ss, top, |ss|);
  }

  // ----- createStack -----

  function Top(argv: seq<Str>, envp: seq<Str>): int {
    PAGE_SIZE - Length(argv) - Length(envp)
  }

  function AlignLow(a: int, n: nat): int
    requires 0 < n
  {
    a - a % n
  }

  /** Position of argc relative to the page. */
  function StackOffset(argv: seq<Str>, envp: seq<Str>): int {
    AlignLow(Top(argv, envp), 16) - PTR_SIZE * (|argv| + 1) - PTR_SIZE * (|envp| + 1) - PTR_SIZE
  }

  /** The image fits in the page. */
  predicate Fits(argv: seq<Str>, envp: seq<Str>) {
    0 <= StackOffset(argv, envp)
  }

  function Vectors(argv: seq<Str>, envp: seq<Str>, top: nat, stack: nat): (ps: seq<nat>)
    ensures |ps| == |argv| + |envp| + 2
  {
    Stored(argv, top, stack) + Stored(envp, top + Length(argv), stack)
  }

  /** argc, the two vectors with pointers relative to the page, and the strings. */
  ghost predicate Image(m: seq<Byte>, argv: seq<Str>, envp: seq<Str>, sp: nat, top: nat, stack: nat) {
    && sp + PTR_SIZE <= |m| && WordAt(m, sp) == |argv|
    && Words(m, sp + PTR_SIZE, Vectors(argv, envp, top, stack), |argv| + |envp| + 2)
    && Strings(m, argv, top, |argv|) && Strings(m, envp, top + Length(argv), |envp|)
  }

  lemma {:induction false} LengthUpTo(ss: seq<Str>, i: nat)
    requires i < |ss|
    ensures Length(ss[..i + 1]) == Length(ss[..i]) + |ss[i]| + 1
  {
    if i == 0 {
      assert ss[..1] == [ss[0]] && ss[..0] == [];
      assert Length(ss[..1][1..]) == 0;
    } else {
      LengthUpTo(ss[1..], i - 1);
      assert ss[..i + 1][1..] == ss[1..][..i] && ss[..i][1..] == ss[1..][..i - 1];
    }
  }

  /** The first loop of createStack: first the environment is measured, then, from its
      terminator on, the arguments. */
  method Measure(argv: seq<Str>, envp: seq<Str>) returns (argLen: nat, nrofArgs: nat, envLen: nat, nrofEnvs: nat)
    ensures argLen == Length(argv) && nrofArgs == |argv| && envLen == Length(envp) && nrofEnvs == |envp|
  {
    argLen, nrofArgs, envLen, nrofEnvs := 0, 0, 0, 0;
    var sel, strList, i := false, envp, 0;
    while true
      invariant strList == (if sel then argv else envp) && 0 <= i <= |strList|
      invariant if sel then nrofEnvs == |envp| && nrofArgs == i else nrofEnvs == i && nrofArgs == 0
      invariant argLen == Length(argv[..nrofArgs]) && envLen == Length(envp[..nrofEnvs])
      decreases if sel then 0 else 1, |strList| - i
    {
      if i == |strList| {
        if !sel {
          strList, i, sel := argv, 0, true;
          continue;
        } else {
          break;
        }
      }
      var len := |strList[i]| + 1;
      LengthUpTo(strList, i);
      if !sel {
        envLen, nrofEnvs := envLen + len, nrofEnvs + 1;
      } else {
        argLen, nrofArgs := argLen + len, nrofArgs + 1;
      }
      i := i + 1;
    }
    assert argv[..|argv|] == argv && envp[..|envp|] == envp;
  }

  /** The image and the pages below the stack page have room for each other. */
  predicate Room(stack: nat, argv: seq<Str>, envp: seq<Str>) {
    stack % PAGE_SIZE == 0 && 0 <= stack + StackOffset(argv, envp)
  }

  lemma Layout(stack: nat, argv: seq<Str>, envp: seq<Str>)
    requires Room(stack, argv, envp) && stack + PAGE_SIZE <= WORD_LIMIT
    ensures var top, sp := stack + Top(argv, envp), stack + StackOffset(argv, envp);
            && 0 <= sp && sp + PTR_SIZE + PTR_SIZE * (|argv| + |envp| + 2) <= top
            && top + Length(argv) + Length(envp) == stack + PAGE_SIZE && |argv| < WORD_LIMIT
            && AlignLow(top, 16) == stack + AlignLow(Top(argv, envp), 16)
  {
    hide Length;
    AlignShift(stack, Top(argv, envp));
  }

  lemma AlignShift(stack: nat, x: int)
    requires stack % PAGE_SIZE == 0
    ensures AlignLow(stack + x, 16) == stack + AlignLow(x, 16)
  {
    var k := 256 * (stack / PAGE_SIZE);
    assert stack == 16 * k;
    assert (16 * k + x) % 16 == x % 16;
  }

  lemma WordsJoin(m: seq<Byte>, a: nat, ps: seq<nat>, qs: seq<nat>)
    requires Words(m, a, ps, |ps|) && Words(m, a + PTR_SIZE * |ps|, qs, |qs|)
    ensures Words(m, a, ps + qs, |ps| + |qs|)
  {
    forall i | 0 <= i < |ps| + |qs| ensures Slot(m, a, i) == (ps + qs)[i] {
      if |ps| <= i {
        assert Slot(m, a + PTR_SIZE * |ps|, i - |ps|) == qs[i - |ps|];
      }
    }
  }

  method CreateStack(page: array<Byte>, argv: seq<Str>, envp: seq<Str>) returns (sp: nat)
    requires PAGE_SIZE <= page.Length <= WORD_LIMIT && Room(page.Length - PAGE_SIZE, argv, envp)
    modifies page
    ensures var stack := page.Length - PAGE_SIZE;
            && sp == stack + StackOffset(argv, envp) && sp + PTR_SIZE <= stack + Top(argv, envp)
            && Image(page[..], argv, envp, sp, stack + Top(argv, envp), stack)
  {
    hide Words, Strings, Stored, Positions, Length, WordAt, PutSlot, Image;
    var stack := page.Length - PAGE_SIZE;
    Layout(stack, argv, envp);
    ghost var top := stack + Top(argv, envp);
    var argLen, nrofArgs, envLen, nrofEnvs := Measure(argv, envp);
    var uTop := stack + PAGE_SIZE - argLen - envLen;
    nrofArgs, nrofEnvs := nrofArgs + 1, nrofEnvs + 1;
    var newArgv := AlignLow(uTop, 16) - nrofArgs * PTR_SIZE - nrofEnvs * PTR_SIZE;
    uTop := CopyStrings(page, argv, newArgv, uTop, stack);
    ghost var m1 := page[..];
    uTop := CopyStrings(page, envp, newArgv + PTR_SIZE * nrofArgs, uTop, stack);
    ghost var m2 := page[..];
    StoreSlot(page, newArgv - PTR_SIZE, 0, nrofArgs - 1);
    sp := newArgv - PTR_SIZE;
    FirstVector(m1, m2, argv, envp, newArgv, top, Stored(argv, top, stack));
    VectorsJoin(m2, argv, envp, newArgv, top, stack);
    PutSlotFrame(m2, sp, 0, |argv|);
    ImageOf(m2, page[..], argv, envp, newArgv, top, stack);
  }

  /** The second vector leaves the first one and its strings alone. */
  lemma FirstVector(m1: seq<Byte>, m2: seq<Byte>, argv: seq<Str>, envp: seq<Str>, newArgv: nat, top: nat, ps: seq<nat>)
    requires |ps| == |argv| + 1 && newArgv + PTR_SIZE * (|argv| + |envp| + 2) <= top <= |m1|
    requires Words(m1, newArgv, ps, |ps|) && Strings(m1, argv, top, |argv|)
    requires OnlyVector(m1, m2, envp, newArgv + PTR_SIZE * (|argv| + 1), top + Length(argv))
    ensures Words(m2, newArgv, ps, |ps|) && Strings(m2, argv, top, |argv|)
  {
    hide Words, Strings, Positions, Length;
    WordsFrame(m1, m2, newArgv, ps, |ps|);
    StringsAbove(m1, m2, argv, top, |argv|);
  }

  lemma VectorsJoin(m: seq<Byte>, argv: seq<Str>, envp: seq<Str>, newArgv: nat, top: nat, stack: nat)
    requires Words(m, newArgv, Stored(argv, top, stack), |argv| + 1)
    requires Words(m, newArgv + PTR_SIZE * (|argv| + 1), Stored(envp, top + Length(argv), stack), |envp| + 1)
    ensures Words(m, newArgv, Vectors(argv, envp, top, stack), |argv| + |envp| + 2)
  {
    hide Words, Stored, Length;
    WordsJoin(m, newArgv, Stored(argv, top, stack), Stored(envp, top + Length(argv), stack));
  }

  /** The store of argc completes the image. */
  lemma ImageOf(m: seq<Byte>, m': seq<Byte>, argv: seq<Str>, envp: seq<Str>, newArgv: nat, top: nat, stack: nat)
    requires PTR_SIZE <= newArgv && newArgv + PTR_SIZE * (|argv| + |envp| + 2) <= top <= |m|
    requires Words(m, newArgv, Vectors(argv, envp, top, stack), |argv| + |envp| + 2)
    requires Strings(m, argv, top, |argv|) && Strings(m, envp, top + Length(argv), |envp|)
    requires |m'| == |m| && WordAt(m', newArgv - PTR_SIZE) == |argv| && forall x :: newArgv <= x < |m| ==> m'[x] == m[x]
    ensures Image(m', argv, envp, newArgv - PTR_SIZE, top, stack)
  {
    hide Words, Strings, Vectors, Positions, Length, WordAt;
    WordsFrame(m, m', newArgv, Vectors(argv, envp, top, stack), |argv| + |envp| + 2);
    StringsAbove(m, m', argv, top, |argv|);
    StringsAbove(m, m', envp, top + Length(argv), |envp|);
  }

  // ----- Relocation -----

  lemma SlotReplace(m: seq<Byte>, a: nat, ps: seq<nat>, i: nat, v: nat)
    requires Words(m, a, ps, |ps|) && i < |ps| && v < WORD_LIMIT
    ensures Words(PutSlot(m, a, i, v), a, ps[i := v], |ps|)
  {
    hide WordAt, Encode;
    var m' := PutSlot(m, a, i, v);
    PutWord(m, a + PTR_SIZE * i, v);
    forall j | 0 <= j < |ps| ensures Slot(m', a, j) == ps[i := v][j] {
      if j != i {
        assert Slot(m, a, j) == ps[j];
        WordFrame(m, m', a + PTR_SIZE * j);
      }
    }
  }

  /** The NULLs among the first i words. */
  function Nulls(ps: seq<nat>, i: nat): nat
    requires i <= |ps|
  {
    if i == 0 then 0 else Nulls(ps, i - 1) + if ps[i - 1] == 0 then 1 else 0
  }

  lemma NullsNext(ps: seq<nat>, i: nat)
    requires i < |ps|
    ensures Nulls(ps, i + 1) == Nulls(ps, i) + if ps[i] == 0 then 1 else 0
  {
  }

  lemma {:induction false} NullsGrow(ps: seq<nat>, i: nat, j: nat)
    requires i <= j <= |ps|
    ensures Nulls(ps, i) <= Nulls(ps, j)
  {
    if i < j {
      NullsGrow(ps, i, j - 1);
    }
  }

  /** What the relocation makes of the first i words: those that are not NULL are moved, up to
      the second NULL, whatever it stands for. */
  function Relocated(ps: seq<nat>, offset: nat, i: nat): (qs: seq<nat>)
    ensures |qs| == |ps|
  {
    seq(|ps|, j requires 0 <= j < |ps| =>
      if j < i && ps[j] != 0 && Nulls(ps, j) < 2 then (ps[j] + offset) % WORD_LIMIT else ps[j])
  }

  ghost predicate OnlyWords(m: seq<Byte>, m': seq<Byte>, a: nat, n: nat) {
    |m'| == |m| && forall x :: 0 <= x < |m| && !(a <= x < a + PTR_SIZE * n) ==> m'[x] == m[x]
  }

  lemma {:induction false} RelocateStep(m: seq<Byte>, a: nat, ps: seq<nat>, offset: nat, i: nat)
    requires Words(m, a, Relocated(ps, offset, i), |ps|) && i < |ps| && Nulls(ps, i) < 2
    ensures a + PTR_SIZE * (i + 1) <= |m| && Slot(m, a, i) == ps[i]
    ensures ps[i] == 0 ==> Relocated(ps, offset, i + 1) == Relocated(ps, offset, i)
    ensures ps[i] != 0 ==>
              var m' := PutSlot(m, a, i, (ps[i] + offset) % WORD_LIMIT);
              Words(m', a, Relocated(ps, offset, i + 1), |ps|) && OnlyWords(m, m', a, |ps|)
  {
    hide Encode, Slot, Nulls;
    if ps[i] != 0 {
      var v := (ps[i] + offset) % WORD_LIMIT;
      SlotReplace(m, a, Relocated(ps, offset, i), i, v);
      assert Relocated(ps, offset, i)[i := v] == Relocated(ps, offset, i + 1);
    }
  }

  /** Behind the second NULL nothing is moved. */
  lemma {:induction false} RelocateEnd(ps: seq<nat>, offset: nat, i: nat)
    requires i < |ps| && Nulls(ps, i) == 1 && ps[i] == 0
    ensures Relocated(ps, offset, |ps|) == Relocated(ps, offset, i)
  {
    forall j | 0 <= j < |ps| ensures Relocated(ps, offset, |ps|)[j] == Relocated(ps, offset, i)[j] {
      if i < j {
        NullsGrow(ps, i + 1, j);
      }
    }
  }

  /** The loop of sysExec over both vectors, which stops at the second NULL. */
  method Relocate(user: array<Byte>, list: nat, offset: nat, ghost ps: seq<nat>)
    requires Words(user[..], list, ps, |ps|) && 2 <= Nulls(ps, |ps|)
    modifies user
    ensures Words(user[..], list, Relocated(ps, offset, |ps|), |ps|)
    ensures OnlyWords(old(user[..]), user[..], list, |ps|)
  {
    hide PutSlot, Nulls, Relocated, Words, OnlyWords;
    var i, sel := 0, false;
    RelocateStart(user[..], list, ps, offset);
    while true
      invariant 0 <= i < |ps| && Nulls(ps, i) == if sel then 1 else 0
      invariant Words(user[..], list, Relocated(ps, offset, i), |ps|)
      invariant OnlyWords(old(user[..]), user[..], list, |ps|)
      decreases |ps| - i
    {
      ghost var m := user[..];
      RelocateStep(m, list, ps, offset, i);
      NullsNext(ps, i);
      var p := Slot(user[..], list, i);
      if p == 0 {
        if !sel {
          sel := true;
        } else {
          RelocateEnd(ps, offset, i);
          break;
        }
      } else {
        StoreSlot(user, list, i, (p + offset) % WORD_LIMIT);
        OnlyWordsTrans(old(user[..]), m, user[..], list, |ps|);
      }
      i := i + 1;
    }
  }

  lemma RelocateStart(m: seq<Byte>, a: nat, ps: seq<nat>, offset: nat)
    requires Words(m, a, ps, |ps|) && 2 <= Nulls(ps, |ps|)
    ensures Relocated(ps, offset, 0) == ps && Nulls(ps, 0) == 0 && 0 < |ps| && OnlyWords(m, m, a, |ps|)
  {
  }

  lemma OnlyWordsTrans(m: seq<Byte>, m1: seq<Byte>, m2: seq<Byte>, a: nat, n: nat)
    requires OnlyWords(m, m1, a, n) && OnlyWords(m1, m2, a, n)
    ensures OnlyWords(m, m2, a, n)
  {
  }

  // ----- The stack of the new program -----

  lemma VectorsParts(argv: seq<Str>, envp: seq<Str>, top: nat, stack: nat)
    ensures var ps, n := Vectors(argv, envp, top, stack), |argv|;
            && ps[n] == 0 && ps[n + 1 + |envp|] == 0
            && (forall i :: 0 <= i < n ==> ps[i] == Offset(Positions(argv, top)[i], stack))
            && (forall i :: n < i < n + 1 + |envp| ==> ps[i] == Offset(Positions(envp, top + Length(argv))[i - n - 1], stack))
  {
    hide Positions, Offset, Length;
  }

  /** Both terminators are there, so the loop ends. */
  lemma {:induction false} VectorsNulls(argv: seq<Str>, envp: seq<Str>, top: nat, stack: nat)
    ensures var ps := Vectors(argv, envp, top, stack); 2 <= Nulls(ps, |ps|)
  {
    hide Vectors;
    VectorsParts(argv, envp, top, stack);
    var ps := Vectors(argv, envp, top, stack);
    NullsGrow(ps, |argv| + 1, |ps| - 1);
  }

  /** The pointers to the arguments and to the environment have the numbers 0 up to |argv| and
      |argv| + 1 up to |argv| + 1 + |envp|. */
  function Position(argv: seq<Str>, envp: seq<Str>, top: nat, i: nat): nat
    requires i < |argv| + 1 + |envp| && i != |argv|
  {
    if i < |argv| then Positions(argv, top)[i] else Positions(envp, top + Length(argv))[i - |argv| - 1]
  }

  lemma {:induction false} PositionInside(argv: seq<Str>, envp: seq<Str>, top: nat, stack: nat, i: nat)
    requires i < |argv| + 1 + |envp| && i != |argv|
    ensures var p := Position(argv, envp, top, i);
            && top <= p < top + Length(argv) + Length(envp)
            && Vectors(argv, envp, top, stack)[i] == Offset(p, stack)
  {
    hide Positions, Offset, Length, Vectors;
    VectorsParts(argv, envp, top, stack);
    if i < |argv| {
      PositionRange(argv, top, i);
    } else {
      PositionRange(envp, top + Length(argv), i - |argv| - 1);
    }
  }

  /** Of an image in the page no pointer is NULL but the terminators. */
  lemma {:induction false} FitsNulls(argv: seq<Str>, envp: seq<Str>, top: nat, stack: nat, i: nat)
    requires stack < top && top + Length(argv) + Length(envp) <= stack + PAGE_SIZE && i <= |argv| + 1 + |envp|
    ensures Nulls(Vectors(argv, envp, top, stack), i) == if i <= |argv| then 0 else 1
  {
    hide Vectors, Length, Offset, Position;
    if 0 < i {
      FitsNulls(argv, envp, top, stack, i - 1);
      VectorsParts(argv, envp, top, stack);
      NullsNext(Vectors(argv, envp, top, stack), i - 1);
      if i - 1 != |argv| {
        PositionInside(argv, envp, top, stack, i - 1);
        OffsetInside(Position(argv, envp, top, i - 1), stack);
      }
    }
  }

  lemma OffsetInside(pos: nat, stack: nat)
    requires stack < pos < stack + PAGE_SIZE
    ensures Offset(pos, stack) == pos - stack
  {
  }

  /** A pointer moved by the page of the stack pointer is right exactly when that is the stack
      page. */
  lemma MovedIff(org: nat, stack: nat, sp: nat, pos: nat)
    requires org % PAGE_SIZE == 0 && stack % PAGE_SIZE == 0 && sp < stack + PAGE_SIZE
    requires org + stack + PAGE_SIZE <= WORD_LIMIT && pos < stack + PAGE_SIZE
    ensures 0 <= AlignLow(org + sp, PAGE_SIZE)
    ensures (Offset(pos, stack) + AlignLow(org + sp, PAGE_SIZE)) % WORD_LIMIT == org + pos <==> stack <= sp
  {
    hide AlignLow;
    var page := AlignLow(org + sp, PAGE_SIZE);
    WholePages(org, stack);
    PageBelow(org + stack, sp - stack);
    var d := org + stack - page;
    Modulo(pos - stack, page);
    OffBy(org + pos, d);
    assert pos - stack + page == org + pos - d;
  }

  lemma WholePages(a: nat, b: nat)
    requires a % PAGE_SIZE == 0 && b % PAGE_SIZE == 0
    ensures (a + b) % PAGE_SIZE == 0
  {
  }

  /** A pointer not moved is wrong, unless the stack page is at address 0. */
  lemma NotMoved(org: nat, stack: nat, pos: nat)
    requires 0 < org + stack < WORD_LIMIT && org + pos < WORD_LIMIT
    ensures Offset(pos, stack) != org + pos
  {
    OffBy(org + pos, org + stack);
    assert pos - stack == org + pos - (org + stack);
  }

  lemma Modulo(x: int, y: nat)
    ensures (x % WORD_LIMIT + y) % WORD_LIMIT == (x + y) % WORD_LIMIT
  {
    var q := x / WORD_LIMIT;
    assert x == WORD_LIMIT * q + x % WORD_LIMIT;
    Multiples(x % WORD_LIMIT + y, q);
  }

  lemma Multiples(x: int, q: int)
    ensures (x + WORD_LIMIT * q) % WORD_LIMIT == x % WORD_LIMIT
  {
  }

  lemma PageBelow(base: nat, sp: int)
    requires base % PAGE_SIZE == 0 && sp < PAGE_SIZE && 0 <= base + sp
    ensures var page := AlignLow(base + sp, PAGE_SIZE);
            0 <= page <= base && (page == base <==> 0 <= sp)
  {
    var q, r := (base + sp) / PAGE_SIZE, (base + sp) % PAGE_SIZE;
    assert base + sp == PAGE_SIZE * q + r;
    assert base == PAGE_SIZE * (base / PAGE_SIZE);
  }

  lemma OffBy(a: nat, d: nat)
    requires a < WORD_LIMIT && d < WORD_LIMIT
    ensures (a - d) % WORD_LIMIT == a <==> d == 0
  {
    if a < d {
      assert (a - d) % WORD_LIMIT == a - d + WORD_LIMIT;
    }
  }

  /** After the loop a pointer is the address of its own string exactly when the image fits in
      the page: for a larger image every pointer of either vector is wrong, those that the loop
      has moved and those that it has not. */
  lemma {:induction false} RelocatedIff(org: nat, stack: nat, argv: seq<Str>, envp: seq<Str>, i: nat)
    requires org % PAGE_SIZE == 0 && Room(stack, argv, envp) && org + stack + PAGE_SIZE <= WORD_LIMIT
    requires i < |argv| + 1 + |envp| && i != |argv|
    ensures 0 <= stack + Top(argv, envp)
    ensures var top, userSP := stack + Top(argv, envp), org + stack + StackOffset(argv, envp);
            var ps := Vectors(argv, envp, top, stack);
            Relocated(ps, AlignLow(userSP, PAGE_SIZE), |ps|)[i] == org + Position(argv, envp, top, i) <==> Fits(argv, envp)
  {
    hide Vectors, Position, Positions, Length, Offset, Relocated, Nulls, AlignLow;
    Layout(stack, argv, envp);
    var top, sp := stack + Top(argv, envp), stack + StackOffset(argv, envp);
    var ps, pos := Vectors(argv, envp, top, stack), Position(argv, envp, top, i);
    PositionInside(argv, envp, top, stack, i);
    MovedIff(org, stack, sp, pos);
    RelocatedAt(ps, AlignLow(org + sp, PAGE_SIZE), i);
    if Fits(argv, envp) {
      FitsNulls(argv, envp, top, stack, i);
      OffsetInside(pos, stack);
    } else {
      NotMoved(org, stack, pos);
    }
  }

  lemma RelocatedAt(ps: seq<nat>, offset: nat, i: nat)
    requires i < |ps|
    ensures Relocated(ps, offset, |ps|)[i] ==
              if ps[i] != 0 && Nulls(ps, i) < 2 then (ps[i] + offset) % WORD_LIMIT else ps[i]
  {
  }

  /** Of words of which the k-th and the m-th are the first two NULLs, those before the m-th are
      moved, except the k-th, and all others stay. */
  lemma {:induction false} RelocatedUpTo(ps: seq<nat>, offset: nat, k: nat, m: nat, i: nat)
    requires k < m < |ps| && i < |ps| && ps[k] == 0 == ps[m]
    requires forall j :: 0 <= j < m && j != k ==> ps[j] != 0
    ensures Relocated(ps, offset, |ps|)[i] == if i < m && i != k then (ps[i] + offset) % WORD_LIMIT else ps[i]
  {
    hide Nulls;
    FirstNulls(ps, k, m, m);
    if i < m {
      FirstNulls(ps, k, m, i);
    } else if m < i {
      NullsNext(ps, m);
      NullsGrow(ps, m + 1, i);
    }
  }

  lemma {:induction false} FirstNulls(ps: seq<nat>, k: nat, m: nat, i: nat)
    requires k < m < |ps| && i <= m && ps[k] == 0 && forall j :: 0 <= j < m && j != k ==> ps[j] != 0
    ensures Nulls(ps, i) == if k < i then 1 else 0
  {
    if 0 < i {
      FirstNulls(ps, k, m, i - 1);
    }
  }

  /** The strings end with the page, and the vectors lie directly below them, but for what it
      takes to end at a multiple of 16. */
  lemma StackTight(argv: seq<Str>, envp: seq<Str>)
    ensures var top, end := Top(argv, envp), StackOffset(argv, envp) + 8 * (|argv| + |envp| + 3);
            top + Length(argv) + Length(envp) == 4096 && end % 16 == 0 && end <= top < end + 16
  {
    hide Length;
  }

  /** The System V ABI asks for a stack pointer that is a multiple of 16 at process entry.
      It is one exactly when arguments and environment are odd in number together. */
  lemma {:induction false} AlignedIff(base: nat, argv: seq<Str>, envp: seq<Str>)
    requires base % PAGE_SIZE == 0
    ensures (base + StackOffset(argv, envp)) % 16 == 0 <==> (|argv| + |envp|) % 2 == 1
  {
    hide Length;
    var q := Top(argv, envp) / 16;
    assert AlignLow(Top(argv, envp), 16) == 16 * q;
    assert base == 16 * (256 * (base / PAGE_SIZE));
    assert base + StackOffset(argv, envp) == 16 * (256 * (base / PAGE_SIZE) + q) - 8 * (|argv| + |envp| + 3);
    Eighths(256 * (base / PAGE_SIZE) + q, |argv| + |envp| + 3);
  }

  lemma Eighths(k: int, n: nat)
    ensures (16 * k - 8 * n) % 16 == 0 <==> n % 2 == 0
  {
  }

  lemma ImageCopied(m: seq<Byte>, m': seq<Byte>, argv: seq<Str>, envp: seq<Str>, sp: nat, top: nat, stack: nat)
    requires |m| == |m'| && sp + PTR_SIZE + PTR_SIZE * (|argv| + |envp| + 2) <= top && top + Length(argv) + Length(envp) <= |m|
    requires Image(m, argv, envp, sp, top, stack) && forall x :: sp <= x < |m| ==> m'[x] == m[x]
    ensures Image(m', argv, envp, sp, top, stack)
  {
    hide Words, Strings, Positions, Stored, WordAt, Length;
    WordFrame(m, m', sp);
    WordsFrame(m, m', sp + PTR_SIZE, Vectors(argv, envp, top, stack), |argv| + |envp| + 2);
    StringsAbove(m, m', argv, top, |argv|);
    StringsAbove(m, m', envp, top + Length(argv), |envp|);
  }

  /** What the new program finds at sp: argc, the relocated words, and the strings. */
  ghost predicate Relocation(m: seq<Byte>, org: nat, argv: seq<Str>, envp: seq<Str>, sp: nat, top: nat, stack: nat) {
    var ps := Vectors(argv, envp, top, stack);
    && sp + PTR_SIZE <= |m| && WordAt(m, sp) == |argv|
    && Words(m, sp + PTR_SIZE, Relocated(ps, AlignLow(org + sp, PAGE_SIZE), |ps|), |ps|)
    && Strings(m, argv, top, |argv|) && Strings(m, envp, top + Length(argv), |envp|)
  }

  /** The stack part of sysExec, for images of any size.  page is fresh kernel memory, user the
      memory of the new stack. */
  method ExecStack(page: array<Byte>, user: array<Byte>, org: nat, argv: seq<Str>, envp: seq<Str>) returns (userSP: nat)
    requires page != user && PAGE_SIZE <= page.Length == user.Length && Room(page.Length - PAGE_SIZE, argv, envp)
    requires org % PAGE_SIZE == 0 && org + page.Length <= WORD_LIMIT
    modifies page, user
    ensures var stack := page.Length - PAGE_SIZE;
            var sp, top := stack + StackOffset(argv, envp), stack + Top(argv, envp);
            && userSP == org + sp && 0 <= sp < top
            && Relocation(user[..], org, argv, envp, sp, top, stack)
            && (Fits(argv, envp) ==> Vector(user[..], org, sp + PTR_SIZE, argv))
            && (Fits(argv, envp) ==> Vector(user[..], org, sp + PTR_SIZE * (|argv| + 2), envp))
    ensures userSP % 16 == 0 <==> (|argv| + |envp|) % 2 == 1
  {
    hide Words, Strings, Stored, Positions, Length, WordAt, Vector, Vectors, Relocated, Top, StackOffset, Nulls;
    ghost var stack := page.Length - PAGE_SIZE;
    Layout(stack, argv, envp);
    AlignedIff(org + stack, argv, envp);
    ghost var top := stack + Top(argv, envp);
    var sp := CreateStack(page, argv, envp);
    var spDiff := page.Length - sp;
    userSP := org + user.Length - spDiff;
    MemCpy(user, userSP - org, page[sp..]);
    CopyTail(page[..], user[..], sp);
    ImageCopied(page[..], user[..], argv, envp, sp, top, stack);
    VectorsNulls(argv, envp, top, stack);
    ghost var m := user[..];
    Relocate(user, userSP - org + PTR_SIZE, AlignLow(userSP, PAGE_SIZE), Vectors(argv, envp, top, stack));
    FinishStack(m, user[..], org, argv, envp, sp, top, stack);
    if Fits(argv, envp) {
      FitsVectors(user[..], org, argv, envp, stack);
    }
  }

  lemma CopyTail(m: seq<Byte>, m': seq<Byte>, sp: nat)
    requires |m| == |m'| && sp <= |m| && m'[sp..sp + |m[sp..]|] == m[sp..]
    ensures forall x :: sp <= x < |m| ==> m'[x] == m[x]
  {
    forall x | sp <= x < |m| ensures m'[x] == m[x] {
      assert m'[x] == m'[sp..sp + |m[sp..]|][x - sp];
    }
  }

  lemma {:induction false} FinishStack(m: seq<Byte>, m': seq<Byte>, org: nat, argv: seq<Str>, envp: seq<Str>, sp: nat, top: nat, stack: nat)
    requires |m| == |m'| && sp + PTR_SIZE + PTR_SIZE * (|argv| + |envp| + 2) <= top && top + Length(argv) + Length(envp) <= |m|
    requires Image(m, argv, envp, sp, top, stack)
    requires var ps := Vectors(argv, envp, top, stack);
             && Words(m', sp + PTR_SIZE, Relocated(ps, AlignLow(org + sp, PAGE_SIZE), |ps|), |ps|)
             && OnlyWords(m, m', sp + PTR_SIZE, |ps|)
    ensures Relocation(m', org, argv, envp, sp, top, stack)
  {
    hide Words, Strings, Positions, WordAt, Vectors, Relocated, Length;
    WordFrame(m, m', sp);
    StringsAbove(m, m', argv, top, |argv|);
    StringsAbove(m, m', envp, top + Length(argv), |envp|);
  }

  /** An image that fits gives two correct vectors. */
  lemma {:induction false} FitsVectors(m: seq<Byte>, org: nat, argv: seq<Str>, envp: seq<Str>, stack: nat)
    requires org % PAGE_SIZE == 0 && Room(stack, argv, envp) && org + stack + PAGE_SIZE <= WORD_LIMIT && Fits(argv, envp)
    requires 0 <= stack + Top(argv, envp)
    requires Relocation(m, org, argv, envp, stack + StackOffset(argv, envp), stack + Top(argv, envp), stack)
    ensures Vector(m, org, stack + StackOffset(argv, envp) + PTR_SIZE, argv)
    ensures Vector(m, org, stack + StackOffset(argv, envp) + PTR_SIZE * (|argv| + 2), envp)
  {
    hide Vectors, Positions, Length, WordAt, StringAt, Relocated, StackOffset, Top, Words, Strings, AlignLow, Vector;
    Layout(stack, argv, envp);
    var top, sp, n := stack + Top(argv, envp), stack + StackOffset(argv, envp), |argv|;
    var ps := Vectors(argv, envp, top, stack);
    PageIs(org, sp);
    var qs := Relocated(ps, AlignLow(org + sp, PAGE_SIZE), |ps|);
    VectorsParts(argv, envp, top, stack);
    NullStays(ps, AlignLow(org + sp, PAGE_SIZE), n);
    NullStays(ps, AlignLow(org + sp, PAGE_SIZE), n + 1 + |envp|);
    forall i | 0 <= i < n ensures qs[0 + i] == org + Positions(argv, top)[i] && 0 < Positions(argv, top)[i] {
      RelocatedIff(org, stack, argv, envp, i);
      PositionInside(argv, envp, top, stack, i);
    }
    VectorOf(m, org, sp + PTR_SIZE, qs, 0, argv, top);
    var t := top + Length(argv);
    forall i | 0 <= i < |envp| ensures qs[n + 1 + i] == org + Positions(envp, t)[i] && 0 < Positions(envp, t)[i] {
      RelocatedIff(org, stack, argv, envp, n + 1 + i);
      PositionInside(argv, envp, top, stack, n + 1 + i);
    }
    VectorOf(m, org, sp + PTR_SIZE, qs, n + 1, envp, t);
  }

  lemma PageIs(org: nat, sp: nat)
    ensures 0 <= AlignLow(org + sp, PAGE_SIZE)
  {
  }

  lemma NullStays(ps: seq<nat>, offset: nat, i: nat)
    requires i < |ps| && ps[i] == 0
    ensures Relocated(ps, offset, |ps|)[i] == 0
  {
  }

  /** Words that are the addresses of the strings of ss, and a NULL, make a vector. */
  lemma VectorOf(m: seq<Byte>, org: nat, a: nat, qs: seq<nat>, k: nat, ss: seq<Str>, top: nat)
    requires Words(m, a, qs, |qs|) && k + |ss| + 1 <= |qs| && Strings(m, ss, top, |ss|)
    requires forall i :: 0 <= i < |ss| ==> qs[k + i] == org + Positions(ss, top)[i] && 0 < Positions(ss, top)[i]
    requires qs[k + |ss|] == 0
    ensures Vector(m, org, a + PTR_SIZE * k, ss)
  {
    hide WordAt, StringAt, Positions;
    var b := a + PTR_SIZE * k;
    forall i: nat | i <= |ss| ensures Slot(m, b, i) == qs[k + i] {
      assert Slot(m, a, k + i) == qs[k + i];
    }
    forall i: nat | i < |ss| ensures PointsTo(m, org, Slot(m, b, i), ss[i]) {
      assert qs[k + i] == org + Positions(ss, top)[i];
    }
  }

  /** A program that reads its vectors through the pointers gets back what was passed. */
  method ExecReadsBack(page: array<Byte>, user: array<Byte>, org: nat, argv: seq<Str>, envp: seq<Str>)
    returns (args: seq<seq<Byte>>, envs: seq<seq<Byte>>)
    requires page != user && PAGE_SIZE <= page.Length == user.Length && page.Length % PAGE_SIZE == 0
    requires org % PAGE_SIZE == 0 && org + page.Length <= WORD_LIMIT && Fits(argv, envp)
    modifies page, user
    ensures args == argv && envs == envp
  {
    hide WordAt, Vector, ReadVector, StackOffset, Relocation;
    var userSP := ExecStack(page, user, org, argv, envp);
    var sp := userSP - org;
    ReadsVector(user[..], org, sp + PTR_SIZE, argv);
    ReadsVector(user[..], org, sp + PTR_SIZE * (|argv| + 2), envp);
    args := ReadVector(user[..], org, sp + PTR_SIZE);
    envs := ReadVector(user[..], org, sp + PTR_SIZE * (|argv| + 2));
  }

  // ----- Where exec fails -----

  /** One argument and one environment string: the stack pointer is 8 off. */
  lemma MisalignedExample()
    ensures var argv, envp := [[65]], [[66]];
            Fits(argv, envp) && (4096 + StackOffset(argv, envp)) % 16 != 0
  {
    var argv: seq<Str>, envp: seq<Str> := [[65]], [[66]];
    assert argv[1..] == [] && envp[1..] == [];
    assert Length(argv) == 2 && Length(envp) == 2;
  }

  /** Arguments of 15 and 4095 bytes: the second string lies at the start of the stack page,
      so its pointer is stored as NULL and stays NULL. */
  method LargeExample(page: array<Byte>, user: array<Byte>, org: nat) returns (userSP: nat)
    requires page != user && page.Length == user.Length == 2 * PAGE_SIZE
    requires org % PAGE_SIZE == 0 && org + 2 * PAGE_SIZE <= WORD_LIMIT
    modifies page, user
    ensures org <= userSP && userSP - org + 3 * PTR_SIZE <= user.Length
    ensures WordAt(user[..], userSP - org) == 2 && Slot(user[..], userSP - org + PTR_SIZE, 1) == 0
  {
    hide WordAt, Vectors, Relocated, Strings, AlignLow, Slot;
    var argv := LargeArgs();
    LargeLayout();
    userSP := ExecStack(page, user, org, argv, []);
    ghost var ps := Vectors(argv, [], PAGE_SIZE - 16, PAGE_SIZE);
    LargeNull();
    PageIs(org, userSP - org);
    NullStays(ps, AlignLow(userSP, PAGE_SIZE), 1);
  }

  function LargeArgs(): seq<Str> {
    [seq(15, _ => 65), seq(4095, _ => 65)]
  }

  lemma LargeLayout()
    ensures Top(LargeArgs(), []) == -16 && StackOffset(LargeArgs(), []) == -56 && !Fits(LargeArgs(), [])
  {
    var argv := LargeArgs();
    assert argv[1..] == [argv[1]] && argv[1..][1..] == [];
    assert Length(argv[1..]) == 4096;
    assert Length(argv) == 16 + 4096;
  }

  lemma LargeNull()
    ensures Vectors(LargeArgs(), [], PAGE_SIZE - 16, PAGE_SIZE)[1] == 0
  {
    var argv := LargeArgs();
    StoredAt(argv, PAGE_SIZE - 16, PAGE_SIZE, 1);
    assert Positions(argv[1..], PAGE_SIZE)[0] == PAGE_SIZE;
    assert Positions(argv, PAGE_SIZE - 16)[1] == PAGE_SIZE;
  }
}
