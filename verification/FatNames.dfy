/** File names on disk: 8.3 names, their checksum, and the long-name slots of the section
    "FAT Long Directory Entries" of the Microsoft FAT32 specification. */
module FatNames {
  import opened Bytes

  const SLOT: nat := 32
  const LFN_CHARS: nat := 13
  const LFN: byte := 0x0F

  // ----- 8.3 names

  function Upper(c: byte): byte { if 97 <= c <= 122 then c - 32 else c }

  /** The index of the last dot, or -1. */
  function LastDot(s: seq<byte>): (i: int)
    ensures -1 <= i < |s|
    ensures i >= 0 ==> s[i] == '.' as int
    ensures forall j | i < j < |s| :: s[j] != '.' as int
  {
    if s == [] then -1 else if s[|s| - 1] == '.' as int then |s| - 1 else LastDot(s[..|s| - 1])
  }

  function ShortByte(fname: seq<byte>, b: nat): byte
    requires b < 11
  {
    var dot := LastDot(fname);
    var len := if dot >= 0 then dot else |fname|;
    if b >= 8 then
      if dot >= 0 && dot + 1 + (b - 8) < |fname| then Upper(fname[dot + 1 + (b - 8)]) else 0x20
    else if len > 8 then
      if b == 6 then '~' as int else if b == 7 then '1' as int else Upper(fname[b])
    else if b < len then Upper(fname[b]) else 0x20
  }

  /** The 11 bytes of the 8.3 name made from a long name. */
  function ShortNameOf(fname: seq<byte>): (r: seq<byte>)
    ensures |r| == 11
  {
    seq(11, b requires 0 <= b < 11 => ShortByte(fname, b))
  }

  predicate ValidName(fname: seq<byte>) {
    fname != [] && forall c | c in fname :: 32 <= c <= 127
  }

  /** The extension: up to three characters behind the last dot. */
  method PutExtension(fname: seq<byte>, dot: int, buf: array<byte>, at: nat)
    requires at + 11 <= buf.Length && dot == LastDot(fname)
    modifies buf
    ensures forall j | at + 8 <= j < at + 11 :: buf[j] == ShortByte(fname, j - at)
    ensures forall j | 0 <= j < buf.Length && !(at + 8 <= j < at + 11) :: buf[j] == old(buf[j])
  {
    hide LastDot, Upper;
    var i: nat := 0;
    while i < 3
      invariant i <= 3
      invariant forall j | at + 8 <= j < at + 8 + i :: buf[j] == ShortByte(fname, j - at)
      invariant forall j | 0 <= j < buf.Length && !(at + 8 <= j < at + 8 + i) :: buf[j] == old(buf[j])
    {
      if dot >= 0 {
        var c := dot + 1 + i;
        buf[at + 8 + i] := if c >= |fname| then 0x20 else Upper(fname[c]);
      } else {
        buf[at + 8 + i] := 0x20;
      }
      i := i + 1;
    }
  }

  /** The stem: eight characters, or six and "~1". */
  method PutStem(fname: seq<byte>, dot: int, buf: array<byte>, at: nat)
    requires at + 11 <= buf.Length && dot == LastDot(fname) && forall j | at <= j < at + 8 :: buf[j] == 0x20
    modifies buf
    ensures forall j | at <= j < at + 8 :: buf[j] == ShortByte(fname, j - at)
    ensures forall j | 0 <= j < buf.Length && !(at <= j < at + 8) :: buf[j] == old(buf[j])
  {
    hide LastDot, Upper;
    var len: nat := if dot >= 0 then dot else |fname|;
    var i: nat := 0;
    if len > 8 {
      while i < 6
        invariant i <= 6
        invariant forall j | at <= j < at + i :: buf[j] == ShortByte(fname, j - at)
        invariant forall j | 0 <= j < buf.Length && !(at <= j < at + i) :: buf[j] == old(buf[j])
      {
        buf[at + i] := Upper(fname[i]);
        i := i + 1;
      }
      buf[at + 6] := '~' as int;
      buf[at + 7] := '1' as int;
    } else {
      while i < len
        invariant i <= len
        invariant forall j | at <= j < at + i :: buf[j] == ShortByte(fname, j - at)
        invariant forall j | 0 <= j < buf.Length && !(at <= j < at + i) :: buf[j] == old(buf[j])
      {
        buf[at + i] := Upper(fname[i]);
        i := i + 1;
      }
    }
  }

  method Write83FileName(fname: seq<byte>, buf: array<byte>, at: nat)
    requires at + 11 <= buf.Length
    modifies buf
    ensures buf[at..at + 11] == ShortNameOf(fname)
    ensures forall k | 0 <= k < buf.Length && !(at <= k < at + 11) :: buf[k] == old(buf[k])
  {
    hide ShortByte;
    var k := at;
    while k < at + 11
      invariant at <= k <= at + 11
      invariant forall j | at <= j < k :: buf[j] == 0x20
      invariant forall j | 0 <= j < buf.Length && !(at <= j < at + 11) :: buf[j] == old(buf[j])
    {
      buf[k] := 0x20;
      k := k + 1;
    }
    var dot := -1;
    var i := |fname| - 1;
    while i >= 0
      invariant -1 <= i < |fname| && dot == -1
      invariant forall j | i < j < |fname| :: fname[j] != '.' as int
    {
      if fname[i] == '.' as int {
        dot := i;
        break;
      }
      i := i - 1;
    }
    assert dot == LastDot(fname);
    PutExtension(fname, dot, buf, at);
    PutStem(fname, dot, buf, at);
    assert forall j | at <= j < at + 11 :: buf[j] == ShortByte(fname, j - at);
  }

  // ----- the checksum

  /** Rotate right and add, modulo 256. */
  function CheckStep(sum: byte, c: byte): byte {
    ((if sum % 2 == 1 then 128 else 0) + sum / 2 + c) % 256
  }

  function Checksum(name: seq<byte>): byte {
    if name == [] then 0 else CheckStep(Checksum(name[..|name| - 1]), name[|name| - 1])
  }

  method CheckSumFName(name: seq<byte>) returns (sum: byte)
    requires |name| == 11
    ensures sum == Checksum(name)
  {
    sum := 0;
    var i := 0;
    while i < 11
      invariant 0 <= i <= 11 && sum == Checksum(name[..i])
    {
      var highbit := sum % 2 * 128;
      sum := sum / 2 + highbit;
      sum := (sum + name[i]) % 256;
      assert name[..i + 1][..i] == name[..i];
      i := i + 1;
    }
    assert name[..11] == name;
  }

  // ----- long-name slots

  function SlotAt(buf: seq<byte>, at: nat): seq<byte>
    requires at + SLOT <= |buf|
  {
    buf[at..at + SLOT]
  }

  /** Where character p of a slot is kept. */
  function CharPos(p: nat): (b: nat)
    requires p < LFN_CHARS
    ensures b < SLOT && CharIndex(b) == p
  {
    if p < 5 then 1 + 2 * p else if p < 11 then 14 + 2 * (p - 5) else 28 + 2 * (p - 11)
  }

  /** Which character byte b of a slot holds, or -1. */
  function CharIndex(b: nat): (p: int)
    requires b < SLOT
    ensures -1 <= p < LFN_CHARS
  {
    if b % 2 == 1 && b < 10 then (b - 1) / 2
    else if b % 2 == 0 && 14 <= b < 25 then 5 + (b - 14) / 2
    else if b == 28 || b == 30 then 11 + (b - 28) / 2
    else -1
  }

  function NameAt(fname: seq<byte>, q: nat): byte { if q < |fname| then fname[q] else 0 }

  /** Byte b of the slot that holds characters 13*i, 13*i+1, ... of the name. */
  function LfnByte(stale: byte, b: nat, number: byte, checksum: byte, fname: seq<byte>, i: nat): byte
    requires b < SLOT
  {
    if b == 0 then number
    else if b == 11 then LFN
    else if b == 13 then checksum
    else if CharIndex(b) >= 0 then NameAt(fname, LFN_CHARS * i + CharIndex(b))
    else stale
  }

  /** The slots are stored last part first; the part that comes first on disk is marked. */
  function SlotNumber(n: nat, t: nat): nat
    requires t < n
  {
    (n - t) + (if t == 0 then 0x40 else 0)
  }

  ghost predicate LfnSlotWritten(before: seq<byte>, after: seq<byte>, at: nat, number: byte, checksum: byte,
                                 fname: seq<byte>, i: nat)
  {
    && at + SLOT <= |before| && |after| == |before|
    && forall b | 0 <= b < SLOT :: SlotAt(after, at)[b] == LfnByte(SlotAt(before, at)[b], b, number, checksum, fname, i)
  }

  ghost predicate LfnWritten(before: seq<byte>, after: seq<byte>, start: nat, n: nat, checksum: byte, fname: seq<byte>) {
    forall t | 0 <= t < n && SlotNumber(n, t) < 256 ::
      LfnSlotWritten(before, after, start + SLOT * t, SlotNumber(n, t), checksum, fname, n - 1 - t)
  }

  /** One of the three character runs of a slot; `base` is the character its first one is. */
  method PutChars(buf: array<byte>, at: nat, first: nat, limit: nat, fname: seq<byte>, written: nat, ghost base: nat)
    returns (written': nat)
    requires at + SLOT <= buf.Length && (first, limit) in {(1, 10), (14, 25), (28, 31)}
    requires written == base + CharIndex(first)
    modifies buf
    ensures written' == written + (limit + 1 - first) / 2
    ensures forall k | 0 <= k < buf.Length ::
              buf[k] == if at + first <= k < at + limit && CharIndex(k - at) >= 0
                        then NameAt(fname, base + CharIndex(k - at)) else old(buf[k])
  {
    var j := first;
    written' := written;
    while j < limit
      invariant first <= j <= limit + 1 && (j - first) % 2 == 0 && written' == written + (j - first) / 2
      invariant j < limit ==> CharIndex(j) == written' - base
      invariant forall k | 0 <= k < buf.Length ::
                  buf[k] == if at + first <= k < at + j && k < at + limit && CharIndex(k - at) >= 0
                            then NameAt(fname, base + CharIndex(k - at)) else old(buf[k])
    {
      if written' < |fname| {
        buf[at + j] := fname[written'];
      } else {
        buf[at + j] := 0;
      }
      written' := written' + 1;
      j := j + 2;
    }
  }

  method WriteSlot(buf: array<byte>, at: nat, i: nat, checksum: byte, fname: seq<byte>)
    requires at + SLOT <= buf.Length && i + 1 < 256
    modifies buf
    ensures LfnSlotWritten(old(buf[..]), buf[..], at, i + 1, checksum, fname, i)
    ensures forall k | 0 <= k < buf.Length && !(at <= k < at + SLOT) :: buf[k] == old(buf[k])
  {
    ghost var before := buf[..];
    buf[at] := i + 1;
    buf[at + 13] := checksum;
    var written := LFN_CHARS * i;
    written := PutChars(buf, at, 1, 10, fname, written, LFN_CHARS * i);
    written := PutChars(buf, at, 14, 25, fname, written, LFN_CHARS * i);
    written := PutChars(buf, at, 28, 31, fname, written, LFN_CHARS * i);
    buf[at + 11] := LFN;
    assert forall k | at <= k < at + SLOT :: buf[k] == LfnByte(before[k], k - at, i + 1, checksum, fname, i);
  }

  function Or40(b: byte): byte { if b / 0x40 % 2 == 1 then b else b + 0x40 }

  method WriteLongFileNameEntries(buf: array<byte>, start: nat, n: nat, fname: seq<byte>)
    requires 0 < n <= 63 && start + SLOT * n <= buf.Length
    modifies buf
    ensures LfnWritten(old(buf[..]), buf[..], start, n, Checksum(ShortNameOf(fname)), fname)
    ensures forall k | 0 <= k < buf.Length && !(start <= k < start + SLOT * n) :: buf[k] == old(buf[k])
  {
    var short := new byte[12](_ => 0);
    Write83FileName(fname, short, 0);
    var checksum := CheckSumFName(short[0..11]);
    ghost var before := buf[..];
    var entry := start;
    var i := 0;
    while i < n
      invariant 0 <= i <= n && (i > 0 ==> entry == start + SLOT * (n - i))
      invariant checksum == Checksum(ShortNameOf(fname))
      invariant forall k | 0 <= k < buf.Length && !(start + SLOT * (n - i) <= k < start + SLOT * n) :: buf[k] == before[k]
      invariant forall t | n - i <= t < n :: LfnSlotWritten(before, buf[..], start + SLOT * t, n - t, checksum, fname, n - 1 - t)
    {
      ghost var mid := buf[..];
      entry := start + SLOT * (n - 1 - i);
      WriteSlot(buf, entry, i, checksum, fname);
      SlotsKept(before, mid, buf[..], start, n, i, checksum, fname);
      i := i + 1;
    }
    ghost var mid := buf[..];
    buf[entry] := Or40(buf[entry]);
    FirstSlotMarked(before, mid, buf[..], start, n, checksum, fname);
  }

  /** Writing the next slot down leaves the slots already written alone. */
  lemma SlotsKept(before: seq<byte>, mid: seq<byte>, after: seq<byte>, start: nat, n: nat, i: nat, checksum: byte,
                  fname: seq<byte>)
    requires i < n <= 63 && |before| == |mid| == |after| && start + SLOT * n <= |before|
    requires forall k | 0 <= k < |mid| && !(start + SLOT * (n - i) <= k < start + SLOT * n) :: mid[k] == before[k]
    requires forall t | n - i <= t < n :: LfnSlotWritten(before, mid, start + SLOT * t, n - t, checksum, fname, n - 1 - t)
    requires LfnSlotWritten(mid, after, start + SLOT * (n - 1 - i), i + 1, checksum, fname, i)
    requires forall k | 0 <= k < |mid| && !(start + SLOT * (n - 1 - i) <= k < start + SLOT * (n - i)) :: after[k] == mid[k]
    ensures forall t | n - i - 1 <= t < n :: LfnSlotWritten(before, after, start + SLOT * t, n - t, checksum, fname, n - 1 - t)
  {
    forall t | n - i - 1 <= t < n
      ensures LfnSlotWritten(before, after, start + SLOT * t, n - t, checksum, fname, n - 1 - t)
    {
      var at := start + SLOT * t;
      if t == n - i - 1 {
        assert SlotAt(mid, at) == SlotAt(before, at);
      } else {
        assert SlotAt(after, at) == SlotAt(mid, at);
      }
    }
  }

  lemma FirstSlotMarked(before: seq<byte>, mid: seq<byte>, after: seq<byte>, start: nat, n: nat, checksum: byte,
                        fname: seq<byte>)
    requires 0 < n <= 63 && |before| == |mid| && start + SLOT * n <= |before|
    requires forall t | 0 <= t < n :: LfnSlotWritten(before, mid, start + SLOT * t, n - t, checksum, fname, n - 1 - t)
    requires after == mid[start := Or40(mid[start])]
    ensures LfnWritten(before, after, start, n, checksum, fname)
  {
    forall t | 0 <= t < n
      ensures LfnSlotWritten(before, after, start + SLOT * t, SlotNumber(n, t), checksum, fname, n - 1 - t)
    {
      var at := start + SLOT * t;
      assert LfnSlotWritten(before, mid, at, n - t, checksum, fname, n - 1 - t);
      if t == 0 {
        assert SlotAt(mid, at)[0] == mid[start] == n;
        assert SlotAt(after, at) == SlotAt(mid, at)[0 := Or40(mid[start])];
      } else {
        assert SlotAt(after, at) == SlotAt(mid, at);
      }
    }
  }

  // ----- reading a long name

  function Clean(b: byte): byte { if 32 <= b <= 127 then b else 0 }

  function EntryNo(buf: seq<byte>, at: nat): nat
    requires at < |buf|
  {
    buf[at] % 16
  }

  /** Every slot carries the number its place calls for. */
  ghost predicate Numbered(buf: seq<byte>, start: nat, n: nat) {
    start + SLOT * n <= |buf| && forall t | 0 <= t < n :: EntryNo(buf, start + SLOT * t) == n - t
  }

  function LongChar(buf: seq<byte>, start: nat, n: nat, q: nat): byte
    requires start + SLOT * n <= |buf| && q < LFN_CHARS * n
  {
    Clean(SlotAt(buf, start + SLOT * (n - 1 - q / LFN_CHARS))[CharPos(q % LFN_CHARS)])
  }

  function LongName(buf: seq<byte>, start: nat, n: nat): (r: seq<byte>)
    requires start + SLOT * n <= |buf|
    ensures |r| == LFN_CHARS * n
  {
    seq(LFN_CHARS * n, q requires 0 <= q < LFN_CHARS * n => LongChar(buf, start, n, q))
  }

  /** One of the three character runs of a slot. */
  method TakeChars(buf: seq<byte>, at: nat, first: nat, limit: nat, name: array<byte>, offset: nat) returns (offset': nat)
    requires at + SLOT <= |buf| && limit <= SLOT
    requires (first, limit) in {(1, 10), (14, 25), (28, 31)}
    requires offset + (limit + 1 - first) / 2 <= name.Length
    modifies name
    ensures offset' == offset + (limit + 1 - first) / 2
    ensures forall q | 0 <= q < name.Length ::
              name[q] == if offset <= q < offset' then Clean(buf[at + first + 2 * (q - offset)]) else old(name[q])
  {
    var j := first;
    offset' := offset;
    while j < limit
      invariant first <= j <= limit + 1 && (j - first) % 2 == 0 && offset' == offset + (j - first) / 2
      invariant forall q | 0 <= q < name.Length ::
                  name[q] == if offset <= q < offset' then Clean(buf[at + first + 2 * (q - offset)]) else old(name[q])
    {
      if buf[at + j] >= 32 && buf[at + j] <= 127 {
        name[offset'] := buf[at + j];
      } else {
        name[offset'] := 0;
      }
      offset' := offset' + 1;
      j := j + 2;
    }
  }

  /** Character p of the slot that is i-th on disk. */
  lemma CharOfSlot(buf: seq<byte>, start: nat, n: nat, i: nat, p: nat)
    requires start + SLOT * n <= |buf| && i < n && p < LFN_CHARS
    ensures LongChar(buf, start, n, LFN_CHARS * (n - 1 - i) + p) == Clean(buf[start + SLOT * i + CharPos(p)])
  {
    hide CharPos, Clean;
    var q := LFN_CHARS * (n - 1 - i) + p;
    assert q / LFN_CHARS == n - 1 - i && q % LFN_CHARS == p;
    assert SlotAt(buf, start + SLOT * i)[CharPos(p)] == buf[start + SLOT * i + CharPos(p)];
  }

  lemma NumberOfSlot(buf: seq<byte>, start: nat, n: nat, i: nat)
    requires Numbered(buf, start, n) && i < n
    ensures start + SLOT * n <= |buf| && buf[start + SLOT * i] % 16 == n - i
  {
    assert EntryNo(buf, start + SLOT * i) == n - i;
  }

  lemma LongNameIs(buf: seq<byte>, start: nat, n: nat, name: seq<byte>)
    requires start + SLOT * n <= |buf| && |name| == LFN_CHARS * n
    requires forall q | 0 <= q < LFN_CHARS * n :: name[q] == LongChar(buf, start, n, q)
    ensures name == LongName(buf, start, n)
  {
    hide LongChar;
  }

  method ParseLongName(buf: seq<byte>, start: nat, n: nat) returns (name: array<byte>)
    requires Numbered(buf, start, n)
    ensures fresh(name) && name[..] == LongName(buf, start, n)
  {
    hide LongChar, Clean, EntryNo, LongName;
    name := new byte[LFN_CHARS * n](_ => 0);
    var i := 0;
    while i < n
      invariant 0 <= i <= n && fresh(name) && name.Length == LFN_CHARS * n
      invariant forall q | LFN_CHARS * (n - i) <= q < LFN_CHARS * n :: name[q] == LongChar(buf, start, n, q)
    {
      var at := start + SLOT * i;
      NumberOfSlot(buf, start, n, i);
      var offset := (buf[at] % 16 - 1) * LFN_CHARS;
      var next := TakeChars(buf, at, 1, 10, name, offset);
      next := TakeChars(buf, at, 14, 25, name, next);
      next := TakeChars(buf, at, 28, 31, name, next);
      forall q | offset <= q < offset + LFN_CHARS
        ensures name[q] == LongChar(buf, start, n, q)
      {
        CharOfSlot(buf, start, n, i, q - offset);
      }
      i := i + 1;
    }
    LongNameIs(buf, start, n, name[..]);
  }

  // ----- the round trip

  /** How many slots a name takes. */
  function SlotsFor(len: nat): (n: nat)
    ensures LFN_CHARS * n >= len && (n > 0 ==> LFN_CHARS * (n - 1) < len)
  {
    len / LFN_CHARS + (if len % LFN_CHARS > 0 then 1 else 0)
  }

  lemma CharRoundTrip(before: seq<byte>, after: seq<byte>, start: nat, n: nat, checksum: byte, fname: seq<byte>, t: nat, p: nat)
    requires t < n <= 63 && |before| == |after| && start + SLOT * n <= |before| && p < LFN_CHARS
    requires LfnWritten(before, after, start, n, checksum, fname) && ValidName(fname)
    ensures var q := LFN_CHARS * (n - 1 - t) + p; LongChar(after, start, n, q) == NameAt(fname, q)
  {
    hide LongChar, LfnSlotWritten;
    var q := LFN_CHARS * (n - 1 - t) + p;
    assert LfnSlotWritten(before, after, start + SLOT * t, SlotNumber(n, t), checksum, fname, n - 1 - t);
    CharOfSlot(after, start, n, t, p);
    CharWritten(before, after, start + SLOT * t, SlotNumber(n, t), checksum, fname, n - 1 - t, p);
    if q < |fname| {
      assert fname[q] in fname;
    }
  }

  lemma CharWritten(before: seq<byte>, after: seq<byte>, at: nat, number: byte, checksum: byte, fname: seq<byte>, i: nat, p: nat)
    requires LfnSlotWritten(before, after, at, number, checksum, fname, i) && p < LFN_CHARS
    ensures after[at + CharPos(p)] == NameAt(fname, LFN_CHARS * i + p)
  {
    assert SlotAt(after, at)[CharPos(p)] == after[at + CharPos(p)];
    assert CharPos(p) != 0 && CharPos(p) != 11 && CharPos(p) != 13;
  }

  /** Reading the slots just written gives the name back, padded with zeros, whatever stale
      bytes the slots held. */
  lemma LongNameRoundTrip(before: seq<byte>, after: seq<byte>, start: nat, n: nat, checksum: byte, fname: seq<byte>)
    requires n <= 63 && |before| == |after| && start + SLOT * n <= |before|
    requires LfnWritten(before, after, start, n, checksum, fname) && ValidName(fname) && |fname| <= LFN_CHARS * n
    ensures LongName(after, start, n) == fname + seq(LFN_CHARS * n - |fname|, _ => 0)
  {
    hide LongChar, LfnWritten;
    forall q | 0 <= q < LFN_CHARS * n
      ensures LongChar(after, start, n, q) == NameAt(fname, q)
    {
      CharRoundTrip(before, after, start, n, checksum, fname, n - 1 - q / LFN_CHARS, q % LFN_CHARS);
      assert LFN_CHARS * (q / LFN_CHARS) + q % LFN_CHARS == q;
    }
  }

  /** The slot numbers read back exactly for up to 15 slots: a reader keeps only 4 bits. */
  lemma NumbersReadBack(before: seq<byte>, after: seq<byte>, start: nat, n: nat, checksum: byte, fname: seq<byte>)
    requires 0 < n <= 63 && |before| == |after| && start + SLOT * n <= |before|
    requires LfnWritten(before, after, start, n, checksum, fname)
    ensures Numbered(after, start, n) <==> n <= 15
  {
    forall t | 0 <= t < n
      ensures EntryNo(after, start + SLOT * t) == (n - t) % 16
    {
      assert LfnSlotWritten(before, after, start + SLOT * t, SlotNumber(n, t), checksum, fname, n - 1 - t);
      assert SlotAt(after, start + SLOT * t)[0] == SlotNumber(n, t);
    }
    if n > 15 {
      assert EntryNo(after, start + SLOT * 0) == n % 16;
    }
  }

  /** The name read back is terminated, and so reads as the original, exactly when its length
      is no multiple of 13. */
  lemma NameTerminated(before: seq<byte>, after: seq<byte>, start: nat, checksum: byte, fname: seq<byte>)
    requires SlotsFor(|fname|) <= 63 && |before| == |after| && start + SLOT * SlotsFor(|fname|) <= |before|
    requires LfnWritten(before, after, start, SlotsFor(|fname|), checksum, fname) && ValidName(fname)
    ensures 0 in LongName(after, start, SlotsFor(|fname|)) <==> |fname| % LFN_CHARS != 0
    ensures CStr(LongName(after, start, SlotsFor(|fname|))) == fname
  {
    var n := SlotsFor(|fname|);
    LongNameRoundTrip(before, after, start, n, checksum, fname);
    var pad := seq(LFN_CHARS * n - |fname|, _ => 0);
    if |fname| % LFN_CHARS != 0 {
      assert LongName(after, start, n)[|fname|] == 0;
      CStrPrefix(fname, pad);
    } else {
      assert fname + pad == fname;
    }
  }

  /** A slot that holds a valid name's 8.3 form is not mistaken for a free one. */
  lemma ShortNameInUse(fname: seq<byte>)
    requires ValidName(fname)
    ensures ShortNameOf(fname)[0] != 0 && ShortNameOf(fname)[0] != 0xE5
  {
    assert fname[0] in fname;
  }
}
