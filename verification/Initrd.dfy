/**
 The boot archive: hexadecimal fields and the walk over the records of a newc cpio archive.
 */
module Initrd {
  import opened Basics

  const U32 := 0x1_0000_0000

  // ----- Hexadecimal fields -----

  function HexDigit(n: nat): (b: Byte)
    requires n < 16
  {
    if n < 10 then 48 + n else 65 + n - 10
  }

  /** A byte read as a char, which is signed. */
  function Signed(b: Byte): int {
    if b >= 128 then b - 256 else b
  }

  /** The value the parser gives to a byte; only 0-9 and A-F are digits, but any byte has one. */
  function DigitValue(b: Byte): int {
    var c := Signed(b);
    if c >= 65 then c - 65 + 10 else c - 48
  }

  function Pow16(n: nat): nat {
    if n == 0 then 1 else 16 * Pow16(n - 1)
  }

  /** The last n hexadecimal digits of v, most significant first. */
  function Hex(v: nat, n: nat): (s: seq<Byte>)
    ensures |s| == n
  {
    if n == 0 then [] else Hex(v / 16, n - 1) + [HexDigit(v % 16)]
  }

  /** The digits of s in base 16, in 32-bit arithmetic. */
  function Value(s: seq<Byte>): nat {
    if s == [] then 0 else (16 * Value(s[..|s| - 1]) + DigitValue(s[|s| - 1])) % U32
  }

  /** Parsing inverts printing, for every number that fits the digits. */
  lemma {:induction false} ValueOfHex(v: nat, n: nat)
    requires v < Pow16(n) && n <= 8
    ensures Value(Hex(v, n)) == v
  {
    hide HexDigit, DigitValue;
    if n > 0 {
      var s := Hex(v, n);
      assert s[..|s| - 1] == Hex(v / 16, n - 1) && s[|s| - 1] == HexDigit(v % 16);
      ValueOfHex(v / 16, n - 1);
      Pow16Bound(n);
      DigitOfHex(v % 16);
      assert 16 * (v / 16) + v % 16 == v;
    }
  }

  /** "0123456789ABCDEF" */
  const DIGITS: seq<Byte> := [48, 49, 50, 51, 52, 53, 54, 55, 56, 57, 65, 66, 67, 68, 69, 70]

  /** The digits that are printed, and their values when parsed. */
  lemma DigitOfHex(d: nat)
    requires d < 16
    ensures HexDigit(d) == DIGITS[d] && DigitValue(DIGITS[d]) == d
  {
  }

  lemma {:induction false} Pow16Bound(n: nat)
    requires n <= 8
    ensures Pow16(n) * Pow16(8 - n) == U32 && Pow16(n) <= U32
  {
    if n == 0 {
      assert Pow16(8) == 16 * (16 * (16 * (16 * (16 * (16 * (16 * (16 * Pow16(0))))))));
    } else {
      Pow16Bound(n - 1);
      assert Pow16(8 - (n - 1)) == 16 * Pow16(8 - n);
      assert Pow16(n) * Pow16(8 - n) == Pow16(n - 1) * (16 * Pow16(8 - n));
      PowPositive(8 - n);
    }
  }

  lemma {:induction false} PowPositive(n: nat)
    ensures 1 <= Pow16(n)
  {
    if n > 0 { PowPositive(n - 1); }
  }

  /** v shifted right by k hexadecimal digits. */
  function Shr(v: nat, k: nat): nat {
    if k == 0 then v else Shr(v, k - 1) / 16
  }

  /** hexprint for len + 1 digits. */
  method HexPrint(len: int, value: nat) returns (dest: seq<Byte>)
    requires -1 <= len
    ensures dest == Hex(value, len + 1)
  {
    dest := [];
    var k := len;
    while k >= 0
      invariant -1 <= k <= len
      invariant dest == Hex(Shr(value, k + 1), len - k)
    {
      var currentNibble := Shr(value, k) % 16;
      dest := dest + [HexDigit(currentNibble)];
      k := k - 1;
    }
  }

  /** parseHex: the sum of the shifted digits, in 32-bit arithmetic. */
  method ParseHex(str: seq<Byte>) returns (result: nat)
    requires |str| == 8
    ensures result == Value(str)
  {
    hide Value, Pow16, DigitValue;
    result := 0;
    NoDigits();
    for i := 0 to 8
      invariant result == Value(str[..i]) * Pow16(8 - i) % U32
    {
      var d := DigitValue(str[i]);
      OneDigit(str, i);
      ShiftIn(Value(str[..i]), d, Pow16(7 - i));
      result := (result + d * Pow16(7 - i)) % U32;
    }
    assert str[..8] == str;
    WholeValue(Value(str));
  }

  lemma NoDigits()
    ensures Value([]) == 0 && Pow16(0) == 1
  {
  }

  lemma OneDigit(str: seq<Byte>, i: nat)
    requires i < |str| == 8
    ensures Value(str[..i + 1]) == (16 * Value(str[..i]) + DigitValue(str[i])) % U32
    ensures Pow16(8 - i) == 16 * Pow16(7 - i)
  {
    assert str[..i + 1][..i] == str[..i];
  }

  lemma WholeValue(v: nat)
    requires exists s :: v == Value(s)
    ensures v * Pow16(0) % U32 == v
  {
    var s :| v == Value(s);
  }

  lemma ShiftIn(v: nat, d: int, p: nat)
    ensures (v * (16 * p) % U32 + d * p) % U32 == (16 * v + d) % U32 * p % U32
  {
    var x := 16 * v + d;
    var a, b := v * (16 * p), d * p;
    assert a + b == x * p;
    var qa, qx := a / U32, x / U32;
    assert a == U32 * qa + a % U32;
    assert x == U32 * qx + x % U32;
    assert x % U32 * p == x * p - U32 * (qx * p);
    SameModulo(a % U32 + b, x * p, -qa);
    SameModulo(x % U32 * p, x * p, -(qx * p));
  }

  lemma SameModulo(a: int, b: int, k: int)
    requires a == b + U32 * k
    ensures a % U32 == b % U32
  {
  }

  /** The two routines are inverse on all 32-bit values. */
  lemma HexRoundTrip(v: nat)
    requires v < U32
    ensures Value(Hex(v, 8)) == v
  {
    Pow16Bound(8);
    ValueOfHex(v, 8);
  }

  // ----- The archive -----

  const HEADER := 110
  const FILESIZE := 54
  const NAMESIZE := 94

  /** "070701" */
  const MAGIC: seq<Byte> := [48, 55, 48, 55, 48, 49]
  /** "TRAILER!!!" with its terminator */
  const TRAILER: seq<Byte> := [84, 82, 65, 73, 76, 69, 82, 33, 33, 33, 0]

  function Round4(n: nat): nat {
    if n % 4 != 0 then n - n % 4 + 4 else n
  }

  /** A visited record: the name field, terminator included, the size, and what there is of the
      data in the archive. */
  datatype File = File(name: seq<Byte>, size: nat, data: seq<Byte>)

  /** The bytes of a from pos on, as far as a reaches. */
  function Clip(a: seq<Byte>, pos: nat, n: nat): (s: seq<Byte>)
    ensures |s| <= n && (|s| == n <==> n == 0 || pos + n <= |a|)
    ensures if |a| <= pos then s == [] else s <= a[pos..] && (|s| < n ==> s == a[pos..])
  {
    if |a| <= pos then [] else if pos + n <= |a| then a[pos..pos + n] else a[pos..]
  }

  /** How the walk ends: at the trailer or the end of the archive, at a bad header, or in a
      header or name that reaches past the end, where the code would read foreign memory. */
  datatype Outcome = Done(files: seq<File>) | BadMagic(files: seq<File>) | Overrun(files: seq<File>)

  function Prepend(f: File, o: Outcome): Outcome {
    match o
    case Done(fs) => Done([f] + fs)
    case BadMagic(fs) => BadMagic([f] + fs)
    case Overrun(fs) => Overrun([f] + fs)
  }

  function Field(a: seq<Byte>, pos: nat): nat
    requires pos + 8 <= |a|
  {
    Value(a[pos..pos + 8])
  }

  function Walk(a: seq<Byte>, pos: nat): Outcome
    decreases |a| - pos
  {
    if pos >= |a| then Done([])
    else if pos + HEADER > |a| then Overrun([])
    else if a[pos..pos + 6] != MAGIC then BadMagic([])
    else
      var nameLen, fileSize := Field(a, pos + NAMESIZE), Field(a, pos + FILESIZE);
      var name := pos + HEADER;
      if name + nameLen > |a| then Overrun([])
      else if a[name..name + nameLen] == TRAILER then Done([])
      else
        var data := Round4(name + nameLen);
        Prepend(File(a[name..name + nameLen], fileSize, Clip(a, data, fileSize)), Walk(a, Round4(data + fileSize)))
  }

  /** parseInitrd. */
  method ParseInitrd(initrd: seq<Byte>) returns (o: Outcome)
    ensures o == Walk(initrd, 0)
  {
    hide Walk, Value, Round4, PrependAll;
    var files: seq<File> := [];
    var curPosition := 0;
    WalkEnd(initrd);
    PrependNone(Walk(initrd, 0));
    while curPosition < |initrd|
      invariant Walk(initrd, 0) == PrependAll(files, Walk(initrd, curPosition))
      decreases |initrd| - curPosition
    {
      if curPosition + HEADER > |initrd| {
        PrependEnds(files);
        return Overrun(files);
      }
      WalkAt(initrd, curPosition);
      PrependEnds(files);
      if initrd[curPosition..curPosition + 6] != MAGIC {
        return BadMagic(files);
      }
      var nameLen := ParseHex(initrd[curPosition + NAMESIZE..curPosition + NAMESIZE + 8]);
      var name := curPosition + HEADER;
      if name + nameLen > |initrd| {
        return Overrun(files);
      }
      if nameLen == |TRAILER| && initrd[name..name + |TRAILER|] == TRAILER {
        return Done(files);
      }
      var fileSize := ParseHex(initrd[curPosition + FILESIZE..curPosition + FILESIZE + 8]);
      curPosition := RoundUp(curPosition + HEADER + nameLen);
      var f := File(initrd[name..name + nameLen], fileSize, Clip(initrd, curPosition, fileSize));
      curPosition := RoundUp(curPosition + fileSize);
      PrependMore(files, f, Walk(initrd, curPosition));
      files := files + [f];
    }
    PrependEnds(files);
    o := Done(files);
  }

  /** The 4-byte rounding of the position. */
  method RoundUp(pos: nat) returns (r: nat)
    ensures r == Round4(pos) && pos <= r
  {
    r := pos;
    if r % 4 != 0 {
      r := r - r % 4;
      r := r + 4;
    }
  }

  lemma PrependEnds(fs: seq<File>)
    ensures PrependAll(fs, Done([])) == Done(fs)
    ensures PrependAll(fs, BadMagic([])) == BadMagic(fs)
    ensures PrependAll(fs, Overrun([])) == Overrun(fs)
  {
    assert fs + [] == fs;
  }

  function PrependAll(fs: seq<File>, o: Outcome): Outcome {
    match o
    case Done(gs) => Done(fs + gs)
    case BadMagic(gs) => BadMagic(fs + gs)
    case Overrun(gs) => Overrun(fs + gs)
  }

  lemma PrependMore(fs: seq<File>, f: File, o: Outcome)
    ensures PrependAll(fs, Prepend(f, o)) == PrependAll(fs + [f], o)
  {
    assert forall gs: seq<File> :: fs + ([f] + gs) == fs + [f] + gs;
  }

  // ----- Writing archives -----

  /** A file to be stored, with the header fields the kernel does not look at. */
  datatype Member = Member(name: seq<Byte>, data: seq<Byte>, before: seq<Byte>, between: seq<Byte>, after: seq<Byte>)

  ghost predicate MemberOk(m: Member) {
    && |m.name| + 1 < U32 && |m.data| < U32
    && |m.before| == 48 && |m.between| == 32 && |m.after| == 8
  }

  /** A name that does not end the archive. */
  ghost predicate Storable(m: Member) {
    MemberOk(m) && m.name + [0] != TRAILER
  }

  function Zeros(n: nat): seq<Byte> {
    seq(n, _ => 0)
  }

  function Header(m: Member): seq<Byte> {
    MAGIC + m.before + Hex(|m.data|, 8) + m.between + Hex(|m.name| + 1, 8) + m.after
  }

  /** A record in the newc layout: header, name, padding, data, padding. */
  function Record(m: Member): seq<Byte> {
    var head := Header(m) + m.name + [0];
    var body := head + Zeros(Round4(|head|) - |head|) + m.data;
    body + Zeros(Round4(|body|) - |body|)
  }

  function Stored(m: Member): File {
    File(m.name + [0], |m.data|, m.data)
  }

  function Records(ms: seq<Member>): seq<Byte> {
    if ms == [] then [] else Record(ms[0]) + Records(ms[1..])
  }

  function StoredAll(ms: seq<Member>): seq<File> {
    if ms == [] then [] else [Stored(ms[0])] + StoredAll(ms[1..])
  }

  lemma HeaderFields(m: Member)
    requires MemberOk(m)
    ensures |Header(m)| == HEADER && Header(m)[..6] == MAGIC
    ensures Header(m)[FILESIZE..FILESIZE + 8] == Hex(|m.data|, 8)
    ensures Header(m)[NAMESIZE..NAMESIZE + 8] == Hex(|m.name| + 1, 8)
  {
  }

  /** What the walk finds in a record that starts at a multiple of 4. */
  lemma RecordFields(m: Member)
    requires MemberOk(m)
    ensures var r, n := Record(m), |m.name| + 1;
            var data := Round4(HEADER + n);
            && |r| == Round4(data + |m.data|) && |r| % 4 == 0
            && r[..HEADER] == Header(m)
            && r[HEADER..HEADER + n] == m.name + [0]
            && r[data..data + |m.data|] == m.data
  {
    hide Header, Round4, Zeros;
    HeaderFields(m);
    var h, n := Header(m), m.name + [0];
    Round4Facts(|h + n|);
    ZerosLength(Round4(|h + n|) - |h + n|);
    var p := Zeros(Round4(|h + n|) - |h + n|);
    var b := h + n + p + m.data;
    Round4Facts(|b|);
    ZerosLength(Round4(|b|) - |b|);
    var q := Zeros(Round4(|b|) - |b|);
    assert h + m.name + [0] == h + n;
    Slices(h, n, p, m.data, q);
  }

  /** The next multiple of 4. */
  lemma Round4Facts(n: nat)
    ensures n <= Round4(n) < n + 4 && Round4(n) % 4 == 0
  {
  }

  lemma RoundFrom(pos: nat, n: nat)
    requires pos % 4 == 0
    ensures Round4(pos + n) == pos + Round4(n)
  {
  }

  lemma ZerosLength(n: nat)
    ensures |Zeros(n)| == n
  {
  }

  lemma Slices(h: seq<Byte>, n: seq<Byte>, p: seq<Byte>, d: seq<Byte>, q: seq<Byte>)
    ensures var r := h + n + p + d + q;
            && r[..|h|] == h && r[|h|..|h| + |n|] == n
            && r[|h| + |n| + |p|..|h| + |n| + |p| + |d|] == d
  {
  }

  /** A record at a 4-byte boundary is visited, and the walk goes on behind it. */
  lemma {:induction false} WalkRecord(a: seq<Byte>, pos: nat, m: Member)
    requires Storable(m) && pos % 4 == 0
    requires pos + |Record(m)| <= |a| && a[pos..pos + |Record(m)|] == Record(m)
    ensures Walk(a, pos) == Prepend(Stored(m), Walk(a, pos + |Record(m)|))
    ensures |Record(m)| % 4 == 0
  {
    hide Walk, Value, Record, Header, Hex, Round4;
    RecordFields(m);
    HeaderFields(m);
    var r, n := Record(m), |m.name| + 1;
    var data := Round4(HEADER + n);
    Round4Facts(HEADER + n);
    Round4Facts(data + |m.data|);
    RoundFrom(pos, HEADER + n);
    RoundFrom(pos, data + |m.data|);
    WalkAt(a, pos);
    SubSlice(a, pos, r, 0, 6);
    SubSlice(a, pos, r, NAMESIZE, NAMESIZE + 8);
    SubSlice(a, pos, r, FILESIZE, FILESIZE + 8);
    SubSlice(a, pos, r, HEADER, HEADER + n);
    SubSlice(a, pos, r, data, data + |m.data|);
    SubSlice(r, 0, Header(m), 0, 6);
    SubSlice(r, 0, Header(m), NAMESIZE, NAMESIZE + 8);
    SubSlice(r, 0, Header(m), FILESIZE, FILESIZE + 8);
    HexRoundTrip(|m.data|);
    HexRoundTrip(n);
  }

  lemma SubSlice(a: seq<Byte>, pos: nat, r: seq<Byte>, i: nat, j: nat)
    requires pos + |r| <= |a| && a[pos..pos + |r|] == r && i <= j <= |r|
    ensures a[pos + i..pos + j] == r[i..j]
  {
    forall k | 0 <= k < j - i ensures a[pos + i..pos + j][k] == r[i..j][k] {
      assert a[pos..pos + |r|][i + k] == r[i + k];
    }
  }

  lemma WalkEnd(a: seq<Byte>)
    ensures forall pos: nat :: pos >= |a| ==> Walk(a, pos) == Done([])
    ensures forall pos: nat :: pos < |a| < pos + HEADER ==> Walk(a, pos) == Overrun([])
  {
  }

  /** One round of the walk, byte by byte: a header of 110 bytes begins with "070701" and has
      the size of the file at 54 and that of the name at 94; the name follows, "TRAILER!!!" ends
      the archive, and data and next record begin at multiples of 4. */
  lemma {:induction false} WalkAt(a: seq<Byte>, pos: nat)
    requires pos + 110 <= |a|
    ensures Walk(a, pos) == BadMagic([]) <==> a[pos..pos + 6] != [48, 55, 48, 55, 48, 49]
    ensures a[pos..pos + 6] == [48, 55, 48, 55, 48, 49] ==>
              var fileSize, nameLen := Value(a[pos + 54..pos + 62]), Value(a[pos + 94..pos + 102]);
              var name := pos + 110;
              Walk(a, pos) ==
                if name + nameLen > |a| then Overrun([])
                else if a[name..name + nameLen] == [84, 82, 65, 73, 76, 69, 82, 33, 33, 33, 0] then Done([])
                else
                  var data := Round4(name + nameLen);
                  Prepend(File(a[name..name + nameLen], fileSize, Clip(a, data, fileSize)), Walk(a, Round4(data + fileSize)))
  {
    hide Value, Round4, Clip;
  }

  lemma {:induction false} WalkRecords(a: seq<Byte>, pos: nat, ms: seq<Member>, tail: seq<Byte>)
    requires pos % 4 == 0 && pos <= |a| && a[pos..] == Records(ms) + tail
    requires forall m :: m in ms ==> Storable(m)
    ensures (pos + |Records(ms)|) % 4 == 0 && pos + |Records(ms)| <= |a| && a[pos + |Records(ms)|..] == tail
    ensures Walk(a, pos) == PrependAll(StoredAll(ms), Walk(a, pos + |Records(ms)|))
    decreases |ms|
  {
    hide Walk, Record, Records, StoredAll, Storable, Stored, Prepend, PrependAll;
    RecordsStep(ms, tail);
    PrependNone(Walk(a, pos));
    if ms == [] {
      assert a[pos..] == tail;
    } else {
      var m, more := ms[0], ms[1..];
      assert m in ms;
      PrefixAt(a, pos, Record(m), Records(more) + tail);
      WalkRecord(a, pos, m);
      WalkRecords(a, pos + |Record(m)|, more, tail);
      PrependCons(Stored(m), StoredAll(more), Walk(a, pos + |Records(ms)|));
    }
  }

  lemma PrependNone(o: Outcome)
    ensures PrependAll([], o) == o
  {
    assert forall gs: seq<File> :: [] + gs == gs;
  }

  lemma PrependCons(f: File, fs: seq<File>, o: Outcome)
    ensures Prepend(f, PrependAll(fs, o)) == PrependAll([f] + fs, o)
  {
    assert forall gs: seq<File> :: [f] + (fs + gs) == [f] + fs + gs;
  }

  /** Whatever follows the trailer, the walk over a well-formed archive visits exactly the
      stored files, in order, with their names and contents. */
  lemma {:induction false} ArchiveRoundTrip(ms: seq<Member>, trailer: Member, rest: seq<Byte>)
    requires forall m :: m in ms ==> Storable(m)
    requires MemberOk(trailer) && trailer.name + [0] == TRAILER
    ensures Walk(Records(ms) + (Record(trailer) + rest), 0) == Done(StoredAll(ms))
  {
    hide Walk, Record, Records, StoredAll;
    var a := Records(ms) + (Record(trailer) + rest);
    assert a[0..] == a;
    WalkRecords(a, 0, ms, Record(trailer) + rest);
    PrefixAt(a, |Records(ms)|, Record(trailer), rest);
    TrailerStops(a, |Records(ms)|, trailer);
    assert StoredAll(ms) + [] == StoredAll(ms);
  }

  lemma RecordsStep(ms: seq<Member>, rest: seq<Byte>)
    ensures ms == [] ==> Records(ms) == [] && StoredAll(ms) == []
    ensures ms != [] ==> Records(ms) + rest == Record(ms[0]) + (Records(ms[1..]) + rest)
    ensures ms != [] ==> |Records(ms)| == |Record(ms[0])| + |Records(ms[1..])|
    ensures ms != [] ==> StoredAll(ms) == [Stored(ms[0])] + StoredAll(ms[1..])
  {
  }

  lemma PrefixAt(a: seq<Byte>, pos: nat, r: seq<Byte>, rest: seq<Byte>)
    requires pos <= |a| && a[pos..] == r + rest
    ensures pos + |r| <= |a| && a[pos..pos + |r|] == r && a[pos + |r|..] == rest
  {
    assert a[pos..][..|r|] == r && a[pos..][|r|..] == rest;
    assert a[pos + |r|..] == a[pos..][|r|..];
  }

  lemma TrailerStops(a: seq<Byte>, pos: nat, m: Member)
    requires MemberOk(m) && m.name + [0] == TRAILER && pos + |Record(m)| <= |a| && a[pos..pos + |Record(m)|] == Record(m)
    ensures Walk(a, pos) == Done([])
  {
    hide Walk, Value, Record, Header, Hex, Round4;
    RecordFields(m);
    HeaderFields(m);
    var r, n := Record(m), |m.name| + 1;
    Round4Facts(HEADER + n);
    Round4Facts(Round4(HEADER + n) + |m.data|);
    WalkAt(a, pos);
    SubSlice(a, pos, r, 0, 6);
    SubSlice(a, pos, r, NAMESIZE, NAMESIZE + 8);
    SubSlice(a, pos, r, HEADER, HEADER + n);
    SubSlice(r, 0, Header(m), 0, 6);
    SubSlice(r, 0, Header(m), NAMESIZE, NAMESIZE + 8);
    HexRoundTrip(n);
  }

  /** An archive that ends inside the data of a record is walked to its end without complaint,
      and the last file claims more data than there is. */
  lemma CutShort(a: seq<Byte>, pos: nat)
    requires pos + HEADER <= |a| && a[pos..pos + 6] == MAGIC
    requires var nameLen, fileSize := Field(a, pos + NAMESIZE), Field(a, pos + FILESIZE);
             && pos + HEADER + nameLen <= |a| && a[pos + HEADER..pos + HEADER + nameLen] != TRAILER
             && 0 < fileSize && |a| < Round4(pos + HEADER + nameLen) + fileSize
    ensures var o := Walk(a, pos);
            o.Done? && |o.files| == 1 && |o.files[0].data| < o.files[0].size == Field(a, pos + FILESIZE)
  {
    hide Round4, Value;
    WalkAt(a, pos);
    WalkEnd(a);
    Round4Facts(Round4(pos + HEADER + Field(a, pos + NAMESIZE)) + Field(a, pos + FILESIZE));
  }
}
