/** Where every byte of the driver's structures lies on disk. */
module FatLayout {
  import opened Bytes
  import opened FatNames
  import opened FatDirectory
  import opened FatDisk
  import opened FatGroup

  /** One more character: the sum of its halves 2 * h + b turns into 128 * b + h, and the character
      is added, modulo 256. */
  lemma ChecksumNext(name: seq<byte>, c: byte, h: nat, b: nat)
    requires Checksum(name) == 2 * h + b && b < 2
    ensures Checksum([]) == 0 && Checksum(name + [c]) == (128 * b + h + c) % 256
  {
    assert (name + [c])[..|name|] == name;
  }

  /** Where the thirteen characters of a long-name slot lie. */
  const PLACES: seq<nat> := [1, 3, 5, 7, 9, 14, 16, 18, 20, 22, 24, 28, 30]

  /** Byte by byte, what is written for a long name: slot t of n counts down from n, with bit 6 set in the
      first one, is marked with 0x0F, and carries the checksum and its thirteen characters, zeros
      behind the end of the name.  The other three bytes are left as they were. */
  lemma LongSlotBytes(before: seq<byte>, after: seq<byte>, s: nat, n: nat, fname: seq<byte>, attrs: byte,
                      first: nat, size: nat, t: nat, p: nat)
    requires GroupWritten(before, after, s, n, fname, attrs, first, size) && 0 < n <= 63 && t < n && p < 13
    ensures 32 * (s + t) + 32 <= |after| == |before|
    ensures var at, q := 32 * (s + t), 13 * (n - 1 - t) + p;
            && after[at] == n - t + (if t == 0 then 0x40 else 0)
            && after[at + PLACES[p]] == (if q < |fname| then fname[q] else 0)
            && after[at + 11] == 0x0F && after[at + 13] == Checksum(after[32 * (s + n)..32 * (s + n) + 11])
            && after[at + 12] == before[at + 12] && after[at + 26] == before[at + 26] && after[at + 27] == before[at + 27]
  {
    hide Checksum, ShortNameOf, FieldsWritten, LfnSlotWritten, LfnByte;
    var at, checksum := 32 * s + 32 * t, Checksum(ShortNameOf(fname));
    assert LfnSlotWritten(before, after, at, SlotNumber(n, t), checksum, fname, n - 1 - t);
    SlotByte(before, after, at, 0, SlotNumber(n, t), checksum, fname, n - 1 - t);
    SlotByte(before, after, at, PLACES[p], SlotNumber(n, t), checksum, fname, n - 1 - t);
    SlotByte(before, after, at, 11, SlotNumber(n, t), checksum, fname, n - 1 - t);
    SlotByte(before, after, at, 12, SlotNumber(n, t), checksum, fname, n - 1 - t);
    SlotByte(before, after, at, 13, SlotNumber(n, t), checksum, fname, n - 1 - t);
    SlotByte(before, after, at, 26, SlotNumber(n, t), checksum, fname, n - 1 - t);
    SlotByte(before, after, at, 27, SlotNumber(n, t), checksum, fname, n - 1 - t);
  }

  lemma SlotByte(before: seq<byte>, after: seq<byte>, at: nat, b: nat, number: byte, checksum: byte, fname: seq<byte>, i: nat)
    requires LfnSlotWritten(before, after, at, number, checksum, fname, i) && b < 32
    ensures at + 32 <= |after| == |before|
    ensures b == 0 ==> after[at + b] == number
    ensures b == 11 ==> after[at + b] == 0x0F
    ensures b == 13 ==> after[at + b] == checksum
    ensures b == 12 || b == 26 || b == 27 ==> after[at + b] == before[at + b]
    ensures forall p: nat | p < 13 && b == PLACES[p] :: after[at + b] == if 13 * i + p < |fname| then fname[13 * i + p] else 0
  {
    assert SlotAt(after, at)[b] == after[at + b] && SlotAt(before, at)[b] == before[at + b];
  }

  /** The short slot behind them: the 8.3 name and the fields, the lowest byte of a number first. */
  lemma ShortSlotBytes(before: seq<byte>, after: seq<byte>, s: nat, n: nat, fname: seq<byte>, attrs: byte,
                       first: nat, size: nat)
    requires GroupWritten(before, after, s, n, fname, attrs, first, size) && first < 0x1_0000_0000 && size < 0x1_0000_0000
    ensures 32 * (s + n) + 32 <= |after|
    ensures var b: seq<byte> := after[32 * (s + n)..32 * (s + n) + 32];
            && b[..11] == ShortNameOf(fname) && b[11] == attrs
            && first == Number(b[26], b[27], b[20], b[21]) && size == Number(b[28], b[29], b[30], b[31])
  {
    hide ShortNameOf, LfnWritten;
    Split32(first);
    Split32(size);
    assert after[32 * (s + n)..32 * (s + n) + 32][..11] == after[32 * (s + n)..32 * (s + n) + 11];
  }

  /** Character q of the name in n long-name slots: slots are stored last part first, and a byte that
      is not printable reads as NUL. */
  lemma LongNameBytes(buf: seq<byte>, start: nat, n: nat, t: nat, p: nat)
    requires start + 32 * n <= |buf| && t < n && p < 13
    ensures |LongName(buf, start, n)| == 13 * n
    ensures var c := buf[start + 32 * t + PLACES[p]];
            LongName(buf, start, n)[13 * (n - 1 - t) + p] == if 32 <= c <= 127 then c else 0
  {
    hide LongChar;
    CharOfSlot(buf, start, n, t, p);
  }

  // ----- clusters and the table

  lemma {:induction false} FlattenAt(sectors: seq<Sector>, q: nat)
    requires q < 512 * |sectors|
    ensures Flatten(sectors)[q] == sectors[q / 512][q % 512]
  {
    var n := |sectors| - 1;
    if q < 512 * n {
      FlattenAt(sectors[..n], q);
    }
  }

  /** Byte q of cluster c. */
  lemma ClusterByte(d: seq<Sector>, g: Geometry, c: nat, q: nat)
    requires g.Ok(|d|) && 2 <= c < g.clusters + 2 && q < 512 * g.sectorsPerCluster
    ensures var s := g.clusterSector + (c - 2) * g.sectorsPerCluster + q / 512;
            s < |d| && q < |ClustersOf(d, g)[c]| && ClustersOf(d, g)[c][q] == d[s][q % 512]
  {
    ClusterInside(g, |d|, c);
    FlattenAt(d[g.SectorFor(c)..g.SectorFor(c) + g.sectorsPerCluster], q);
  }

  /** Entry j of the table on disk: four bytes, the lowest first, 128 entries to a sector. */
  lemma TableBytes(d: seq<Sector>, g: Geometry, j: nat)
    requires g.Ok(|d|) && j < 128 * g.sectorsPerFat
    ensures g.fatSector + j / 128 < |d|
    ensures var s: seq<byte>, b := d[g.fatSector + j / 128], 4 * (j % 128);
            DiskFatOf(d, g)[j] == Number(s[b], s[b + 1], s[b + 2], s[b + 3])
  {
    TableInside(g, |d|);
  }
}
