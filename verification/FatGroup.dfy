/** The bytes of a directory entry as the driver writes them, read back as one group. */
module FatGroup {
  import opened Bytes
  import opened FatNames
  import opened FatDirectory

  /** The fields of the short slot behind the name. */
  ghost predicate FieldsWritten(buf: seq<byte>, at: nat, attrs: byte, first: nat, size: nat) {
    && at + SLOT <= |buf|
    && buf[at + 11] == attrs
    && buf[at + 20] == first / 0x1_0000 % 0x100 && buf[at + 21] == first / 0x100_0000 % 0x100
    && buf[at + 26] == first % 0x100 && buf[at + 27] == first / 0x100 % 0x100
    && buf[at + 28] == size % 0x100 && buf[at + 29] == size / 0x100 % 0x100
    && buf[at + 30] == size / 0x1_0000 % 0x100 && buf[at + 31] == size / 0x100_0000 % 0x100
  }

  method WriteFields(buf: array<byte>, at: nat, attrs: byte, first: nat, size: nat)
    requires at + SLOT <= buf.Length
    modifies buf
    ensures FieldsWritten(buf[..], at, attrs, first, size)
    ensures forall k | 0 <= k < buf.Length && !(at + 11 <= k < at + SLOT) :: buf[k] == old(buf[k])
  {
    buf[at + 11] := attrs;
    buf[at + 20] := first / 0x1_0000 % 0x100;
    buf[at + 21] := first / 0x100_0000 % 0x100;
    buf[at + 26] := first % 0x100;
    buf[at + 27] := first / 0x100 % 0x100;
    buf[at + 28] := size % 0x100;
    buf[at + 29] := size / 0x100 % 0x100;
    buf[at + 30] := size / 0x1_0000 % 0x100;
    buf[at + 31] := size / 0x100_0000 % 0x100;
  }

  lemma Split32(v: nat)
    requires v < 0x1_0000_0000
    ensures v == v % 0x100 + 0x100 * (v / 0x100 % 0x100) + 0x1_0000 * (v / 0x1_0000 % 0x100) + 0x100_0000 * (v / 0x100_0000 % 0x100)
  {
    assert v / 0x1_0000 == v / 0x100 / 0x100 && v / 0x100_0000 == v / 0x1_0000 / 0x100;
  }

  lemma FieldsReadBack(buf: seq<byte>, at: nat, attrs: byte, first: nat, size: nat)
    requires FieldsWritten(buf, at, attrs, first, size) && first < 0x1_0000_0000 && size < 0x1_0000_0000
    ensures Le16(buf, at + 20) * 0x1_0000 + Le16(buf, at + 26) == first
    ensures Le32(buf, at + 28) == size
  {
    Split32(first);
    Split32(size);
  }

  lemma {:induction false} RunIs(buf: seq<byte>, k: nat, n: nat)
    requires HasSlot(buf, k + n) && !SlotLfn(buf, k + n)
    requires forall t: nat | k <= t < k + n :: SlotLfn(buf, t)
    ensures LfnRun(buf, k) == n
    decreases n
  {
    if n > 0 {
      assert SlotLfn(buf, k);
      RunIs(buf, k + 1, n - 1);
    }
  }

  /** All that is written for one file: long-name slots, 8.3 name, fields. */
  ghost predicate GroupWritten(before: seq<byte>, after: seq<byte>, s: nat, n: nat, fname: seq<byte>, attrs: byte,
                               first: nat, size: nat)
  {
    && |after| == |before| && HasSlot(after, s + n)
    && LfnWritten(before, after, SLOT * s, n, Checksum(ShortNameOf(fname)), fname)
    && after[SLOT * (s + n)..SLOT * (s + n) + 11] == ShortNameOf(fname)
    && FieldsWritten(after, SLOT * (s + n), attrs, first, size)
    && forall i | 0 <= i < |before| && !(SLOT * s <= i < SLOT * (s + n + 1)) :: after[i] == before[i]
  }

  lemma LfnSlotBytes(before: seq<byte>, after: seq<byte>, s: nat, n: nat, checksum: byte, fname: seq<byte>, t: nat)
    requires 0 < n <= 15 && t < n && |after| == |before| && SLOT * (s + n) <= |after|
    requires LfnWritten(before, after, SLOT * s, n, checksum, fname)
    ensures !SlotFree(after, s + t) && SlotLfn(after, s + t)
    ensures after[SLOT * (s + t) + 13] == checksum
  {
    var at := SLOT * s + SLOT * t;
    assert LfnSlotWritten(before, after, at, SlotNumber(n, t), checksum, fname, n - 1 - t);
    assert SlotAt(after, at)[0] == after[at] && SlotAt(after, at)[11] == after[at + 11] && SlotAt(after, at)[13] == after[at + 13];
  }

  /** The slots read back as one complete group with the name, attributes, first cluster and
      size that were written. */
  lemma GroupReadsBack(before: seq<byte>, after: seq<byte>, s: nat, n: nat, fname: seq<byte>, attrs: byte,
                       first: nat, size: nat)
    requires GroupWritten(before, after, s, n, fname, attrs, first, size)
    requires ValidName(fname) && |fname| % LFN_CHARS != 0 && n == SlotsFor(|fname|) <= 15
    requires attrs != LFN && first < 0x1_0000_0000 && size < 0x1_0000_0000
    ensures GroupAt(after, s, n) && Entry(after, s, n) == Listing(fname, attrs, first, size)
  {
    hide LfnWritten, Le16, Le32, LongName, ShortNameOf, CStr;
    var checksum := Checksum(ShortNameOf(fname));
    var at := SLOT * (s + n);
    forall t: nat | s <= t < s + n
      ensures !SlotFree(after, t) && SlotLfn(after, t)
    {
      LfnSlotBytes(before, after, s, n, checksum, fname, t - s);
    }
    ShortNameInUse(fname);
    assert after[at..at + 11][0] == after[at];
    RunIs(after, s, n);
    NumbersReadBack(before, after, SLOT * s, n, checksum, fname);
    NameTerminated(before, after, SLOT * s, checksum, fname);
    FieldsReadBack(after, at, attrs, first, size);
  }

  /** Every long-name slot carries the checksum of the 8.3 name in the short slot behind it. */
  lemma ChecksumMatches(before: seq<byte>, after: seq<byte>, s: nat, n: nat, fname: seq<byte>, attrs: byte,
                        first: nat, size: nat, t: nat)
    requires GroupWritten(before, after, s, n, fname, attrs, first, size) && 0 < n <= 15 && t < n
    ensures HasSlot(after, s + t) && HasSlot(after, s + n)
    ensures after[SLOT * (s + t) + 13] == Checksum(after[SLOT * (s + n)..SLOT * (s + n) + 11])
  {
    LfnSlotBytes(before, after, s, n, Checksum(ShortNameOf(fname)), fname, t);
  }
}
