/** The volume below the file level: sectors, clusters, and the file allocation table in memory
    and on disk, as in the section "FAT Data Structure" of the Microsoft FAT32 specification. */
module FatDisk {
  import opened Bytes
  import opened FatTable
  import opened FatDirectory

  const SECTOR: nat := 512
  const PER_SECTOR: nat := 128   // table entries in a sector

  type Sector = s: seq<byte> | |s| == SECTOR witness seq(SECTOR, _ => 0)

  // ----- sectors in a row

  function Flatten(sectors: seq<Sector>): (r: seq<byte>)
    ensures |r| == SECTOR * |sectors|
  {
    if sectors == [] then [] else Flatten(sectors[..|sectors| - 1]) + sectors[|sectors| - 1]
  }

  lemma {:induction false} FlattenPieces(sectors: seq<Sector>, buf: seq<byte>)
    requires |buf| == SECTOR * |sectors|
    requires forall i | 0 <= i < |sectors| :: sectors[i] == buf[SECTOR * i..SECTOR * i + SECTOR]
    ensures Flatten(sectors) == buf
  {
    if sectors != [] {
      var n := |sectors| - 1;
      FlattenPieces(sectors[..n], buf[..SECTOR * n]);
      assert buf == buf[..SECTOR * n] + buf[SECTOR * n..SECTOR * n + SECTOR];
    }
  }

  // ----- little-endian table entries

  function ByteOf(v: nat, i: nat): byte
    requires i < 4
  {
    (if i == 0 then v else if i == 1 then v / 0x100 else if i == 2 then v / 0x1_0000 else v / 0x100_0000) % 0x100
  }

  /** Sector i of the table as it is laid out in memory. */
  function Marshal(fat: seq<nat>, i: nat): Sector
    requires PER_SECTOR * (i + 1) <= |fat|
  {
    seq(SECTOR, b requires 0 <= b < SECTOR => ByteOf(fat[PER_SECTOR * i + b / 4], b % 4))
  }

  lemma MarshalAt(fat: seq<nat>, i: nat, j: nat, b: nat)
    requires PER_SECTOR * (i + 1) <= |fat| && j < PER_SECTOR && b < 4
    ensures Marshal(fat, i)[4 * j + b] == ByteOf(fat[PER_SECTOR * i + j], b)
  {
    hide ByteOf;
    assert (4 * j + b) / 4 == j && (4 * j + b) % 4 == b;
  }

  lemma FourBytes(v: nat)
    requires v < 0x1_0000_0000
    ensures ByteOf(v, 0) as int + 0x100 * ByteOf(v, 1) + 0x1_0000 * ByteOf(v, 2) + 0x100_0000 * ByteOf(v, 3) == v
  {
    var a := v / 0x100;
    var b := a / 0x100;
    var c := b / 0x100;
    assert v / 0x1_0000 == b && v / 0x100_0000 == c;
  }

  lemma EntryRoundTrip(fat: seq<nat>, i: nat, j: nat)
    requires PER_SECTOR * (i + 1) <= |fat| && j < PER_SECTOR
    requires fat[PER_SECTOR * i + j] < 0x1_0000_0000
    ensures Le32(Marshal(fat, i), 4 * j) == fat[PER_SECTOR * i + j]
  {
    hide Marshal, ByteOf;
    MarshalAt(fat, i, j, 0);
    MarshalAt(fat, i, j, 1);
    MarshalAt(fat, i, j, 2);
    MarshalAt(fat, i, j, 3);
    FourBytes(fat[PER_SECTOR * i + j]);
  }

  /** Where the parts of the volume lie, and how many clusters it has. */
  datatype Geometry = Geometry(sectorsPerCluster: nat, sectorsPerFat: nat, fatSector: nat, clusterSector: nat, clusters: nat) {
    function Entries(): nat { PER_SECTOR * sectorsPerFat }

    /** Clusters are numbered from 2 to here; table entries from here on are spare. */
    function Limit(): nat { clusters + 2 }

    function ClusterSize(): nat { SECTOR * sectorsPerCluster }

    function SectorFor(c: nat): nat
      requires c >= 2
    {
      clusterSector + (c - 2) * sectorsPerCluster
    }

    ghost predicate Ok(sectors: nat) {
      && sectorsPerCluster > 0 && sectorsPerFat > 0
      && fatSector + sectorsPerFat <= clusterSector
      && Limit() <= Entries()
      && clusterSector + clusters * sectorsPerCluster <= sectors
    }
  }

  lemma ClusterInside(g: Geometry, sectors: nat, c: nat)
    requires g.Ok(sectors) && 2 <= c < g.Limit()
    ensures g.clusterSector <= g.SectorFor(c) && g.SectorFor(c) + g.sectorsPerCluster <= sectors
  {
    NextMultiple(c - 2, g.sectorsPerCluster);
    MulMonotone(c - 1, g.clusters, g.sectorsPerCluster);
  }

  /** The cluster-to-sector arithmetic is injective: different clusters share no sector. */
  lemma ClustersApart(g: Geometry, c: nat, d: nat)
    requires 2 <= c < d
    ensures g.SectorFor(c) + g.sectorsPerCluster <= g.SectorFor(d)
  {
    NextMultiple(c - 2, g.sectorsPerCluster);
    MulMonotone(c - 1, d - 2, g.sectorsPerCluster);
  }

  lemma NextMultiple(n: nat, m: nat)
    ensures n * m + m == (n + 1) * m
  {
  }

  lemma MulMonotone(a: nat, b: nat, m: nat)
    requires a <= b
    ensures a * m <= b * m
  {
  }

  function ClusterOf(d: seq<Sector>, g: Geometry, c: nat): (r: seq<byte>)
    requires g.Ok(|d|) && 2 <= c < g.Limit()
    ensures |r| == g.ClusterSize()
  {
    ClusterInside(g, |d|, c);
    Flatten(d[g.SectorFor(c)..g.SectorFor(c) + g.sectorsPerCluster])
  }

  /** The contents of every cluster, by number. */
  ghost function ClustersOf(d: seq<Sector>, g: Geometry): (r: seq<seq<byte>>)
    requires g.Ok(|d|)
    ensures |r| == g.Limit()
    ensures forall c | 2 <= c < |r| :: |r[c]| == g.ClusterSize()
  {
    seq(g.Limit(), c requires 0 <= c < g.Limit() => if c < 2 then [] else ClusterOf(d, g, c))
  }

  /** The table that the load loop reads from the first FAT on disk. */
  ghost function DiskFatOf(d: seq<Sector>, g: Geometry): (r: seq<nat>)
    requires g.Ok(|d|)
    ensures |r| == g.Entries()
  {
    seq(g.Entries(), j requires 0 <= j < g.Entries() => Le32(d[g.fatSector + j / PER_SECTOR], 4 * (j % PER_SECTOR)))
  }

  ghost predicate SectorsWritten(d: seq<Sector>, d': seq<Sector>, sector: nat, count: nat, buf: seq<byte>) {
    && |d'| == |d| && sector + count <= |d| && |buf| == SECTOR * count
    && forall s | 0 <= s < |d| ::
         d'[s] == if sector <= s < sector + count then buf[SECTOR * (s - sector)..SECTOR * (s - sector) + SECTOR] else d[s]
  }

  /** Writing a cluster changes that cluster, no other one, and no sector of the table. */
  lemma ClusterWritten(d: seq<Sector>, d': seq<Sector>, g: Geometry, c: nat, buf: seq<byte>)
    requires g.Ok(|d|) && 2 <= c < g.Limit()
    requires SectorsWritten(d, d', g.SectorFor(c), g.sectorsPerCluster, buf)
    ensures ClustersOf(d', g) == ClustersOf(d, g)[c := buf]
    ensures DiskFatOf(d', g) == DiskFatOf(d, g)
  {
    hide ClusterOf, DiskFatOf, SectorsWritten;
    SectorCount(d, d', g.SectorFor(c), g.sectorsPerCluster, buf);
    var before, after := ClustersOf(d, g), ClustersOf(d', g);
    forall e: nat | e < g.Limit()
      ensures after[e] == before[c := buf][e]
    {
      if e >= 2 {
        OneClusterWritten(d, d', g, c, e, buf);
      }
    }
    TableKept(d, d', g, c, buf);
  }

  lemma SectorCount(d: seq<Sector>, d': seq<Sector>, sector: nat, count: nat, buf: seq<byte>)
    requires SectorsWritten(d, d', sector, count, buf)
    ensures |d'| == |d| && |buf| == SECTOR * count
  {
  }

  lemma OneClusterWritten(d: seq<Sector>, d': seq<Sector>, g: Geometry, c: nat, e: nat, buf: seq<byte>)
    requires g.Ok(|d|) && 2 <= c < g.Limit() && 2 <= e < g.Limit()
    requires SectorsWritten(d, d', g.SectorFor(c), g.sectorsPerCluster, buf)
    ensures |d'| == |d| && ClusterOf(d', g, e) == if e == c then buf else ClusterOf(d, g, e)
  {
    ClusterInside(g, |d|, c);
    if e == c {
      FlattenPieces(d'[g.SectorFor(c)..g.SectorFor(c) + g.sectorsPerCluster], buf);
    } else {
      ClustersApart(g, if e < c then e else c, if e < c then c else e);
      ClusterUntouched(d, d', g, e);
    }
  }

  lemma TableKept(d: seq<Sector>, d': seq<Sector>, g: Geometry, c: nat, buf: seq<byte>)
    requires g.Ok(|d|) && 2 <= c < g.Limit()
    requires SectorsWritten(d, d', g.SectorFor(c), g.sectorsPerCluster, buf)
    ensures |d'| == |d| && DiskFatOf(d', g) == DiskFatOf(d, g)
  {
    ClusterInside(g, |d|, c);
    forall j | 0 <= j < g.Entries()
      ensures d'[g.fatSector + j / PER_SECTOR] == d[g.fatSector + j / PER_SECTOR]
    {
    }
  }

  ghost predicate TableWritten(d: seq<Sector>, d': seq<Sector>, g: Geometry, fat: seq<nat>)
    requires |fat| == g.Entries()
  {
    && |d'| == |d|
    && forall s | 0 <= s < |d| ::
         d'[s] == if g.fatSector <= s < g.fatSector + g.sectorsPerFat then Marshal(fat, s - g.fatSector) else d[s]
  }

  lemma FlushedEntry(d: seq<Sector>, d': seq<Sector>, g: Geometry, fat: seq<nat>, j: nat)
    requires g.Ok(|d|) && |fat| == g.Entries() && TableWritten(d, d', g, fat) && EntriesOk(fat) && j < g.Entries()
    ensures DiskFatOf(d', g)[j] == fat[j]
  {
    hide Geometry.Ok, Marshal, Le32;
    TableInside(g, |d|);
    var i, k := j / PER_SECTOR, j % PER_SECTOR;
    assert j == PER_SECTOR * i + k && i < g.sectorsPerFat;
    EntryRoundTrip(fat, i, k);
    assert d'[g.fatSector + i] == Marshal(fat, i);
  }

  lemma TableBelowClusters(g: Geometry, sectors: nat, e: nat)
    requires g.Ok(sectors) && 2 <= e < g.Limit()
    ensures g.fatSector + g.sectorsPerFat <= g.SectorFor(e)
  {
    ClusterInside(g, sectors, e);
  }

  lemma TableInside(g: Geometry, sectors: nat)
    requires g.Ok(sectors)
    ensures g.fatSector + g.sectorsPerFat <= sectors
  {
  }

  /** Flushing the table: the load loop would read exactly this table back, and no cluster
      changes. */
  lemma TableFlushed(d: seq<Sector>, d': seq<Sector>, g: Geometry, fat: seq<nat>)
    requires g.Ok(|d|) && |fat| == g.Entries() && TableWritten(d, d', g, fat) && EntriesOk(fat)
    ensures DiskFatOf(d', g) == fat
    ensures ClustersOf(d', g) == ClustersOf(d, g)
  {
    hide EntriesOk;
    forall j: nat | j < g.Entries()
      ensures DiskFatOf(d', g)[j] == fat[j]
    {
      FlushedEntry(d, d', g, fat, j);
    }
    assert DiskFatOf(d', g) == fat;
    hide DiskFatOf;
    forall e | 2 <= e < g.Limit()
      ensures ClusterOf(d', g, e) == ClusterOf(d, g, e)
    {
      TableBelowClusters(g, |d|, e);
      ClusterUntouched(d, d', g, e);
    }
    assert ClustersOf(d', g) == ClustersOf(d, g);
  }

  lemma ClusterUntouched(d: seq<Sector>, d': seq<Sector>, g: Geometry, e: nat)
    requires g.Ok(|d|) && |d'| == |d| && 2 <= e < g.Limit()
    requires forall s | g.SectorFor(e) <= s < g.SectorFor(e) + g.sectorsPerCluster && s < |d| :: d'[s] == d[s]
    ensures ClusterOf(d', g, e) == ClusterOf(d, g, e)
  {
    ClusterInside(g, |d|, e);
    assert d'[g.SectorFor(e)..g.SectorFor(e) + g.sectorsPerCluster] == d[g.SectorFor(e)..g.SectorFor(e) + g.sectorsPerCluster];
  }

  class Disk {
    const g: Geometry
    const FAT: array<nat>
    const sectors: array<Sector>
    var hint: nat   // ClusterAllocationHint

    constructor (g: Geometry, FAT: array<nat>, sectors: array<Sector>)
      ensures this.g == g && this.FAT == FAT && this.sectors == sectors && hint == 0
    {
      this.g, this.FAT, this.sectors, this.hint := g, FAT, sectors, 0;
    }

    ghost predicate Mounted()
      reads this, FAT
    {
      && g.Ok(sectors.Length) && FAT.Length == g.Entries() && hint <= FAT.Length && g.Limit() <= FAT.Length
      && TableOk(Table()) && EntriesOk(FAT[..])
    }

    /** The entries of the volume's clusters, and the spare ones. */
    ghost function Table(): seq<nat>
      reads FAT
    {
      if g.Limit() <= FAT.Length then FAT[..g.Limit()] else FAT[..]
    }

    ghost function Spare(): seq<nat>
      reads FAT
    {
      if g.Limit() <= FAT.Length then FAT[g.Limit()..] else []
    }

    /** How many clusters can be taken in a row before the search leaves the volume. */
    ghost function Room(): nat
      reads this, FAT
    {
      if g.Limit() <= FAT.Length then OnVolume(FAT[..], hint, g.Limit()) else 0
    }

    ghost function Clusters(): seq<seq<byte>>
      requires g.Ok(sectors.Length)
      reads sectors
    {
      ClustersOf(sectors[..], g)
    }

    ghost function DiskFat(): seq<nat>
      requires g.Ok(sectors.Length)
      reads sectors
    {
      DiskFatOf(sectors[..], g)
    }

    /** fs->FAT[c] */
    function EntryOf(c: nat): (v: nat)
      requires c < |Table()|
      reads this, FAT
      ensures v == Table()[c]
    {
      FAT[c]
    }

    lemma WholeCount()
      requires g.Limit() <= FAT.Length
      ensures CountFree(FAT[..]) == CountFree(Table()) + CountFree(Spare())
    {
      CountFreeSplit(FAT[..], g.Limit());
      assert FAT[..][..g.Limit()] == Table() && FAT[..][g.Limit()..] == Spare();
    }

    method GetSector(sector: nat, count: nat) returns (buf: seq<byte>)
      requires sector + count <= sectors.Length
      ensures buf == Flatten(sectors[sector..sector + count])
    {
      buf := [];
      var i := 0;
      while i < count
        invariant 0 <= i <= count && buf == Flatten(sectors[sector..sector + i])
      {
        assert sectors[sector..sector + i + 1][..i] == sectors[sector..sector + i];
        buf := buf + sectors[sector + i];
        i := i + 1;
      }
    }

    method PutSector(buf: seq<byte>, sector: nat, count: nat)
      requires sector + count <= sectors.Length && |buf| == SECTOR * count
      modifies sectors
      ensures SectorsWritten(old(sectors[..]), sectors[..], sector, count, buf)
    {
      var i := 0;
      while i < count
        invariant 0 <= i <= count
        invariant forall s | 0 <= s < sectors.Length ::
                    sectors[s] == if sector <= s < sector + i then buf[SECTOR * (s - sector)..SECTOR * (s - sector) + SECTOR]
                                  else old(sectors[s])
      {
        sectors[sector + i] := buf[SECTOR * i..SECTOR * i + SECTOR];
        i := i + 1;
      }
    }

    method GetCluster(c: nat) returns (buf: seq<byte>)
      requires g.Ok(sectors.Length) && 2 <= c < g.Limit()
      ensures buf == Clusters()[c]
    {
      ClusterInside(g, sectors.Length, c);
      buf := GetSector(g.SectorFor(c), g.sectorsPerCluster);
      assert sectors[..][g.SectorFor(c)..g.SectorFor(c) + g.sectorsPerCluster]
          == sectors[g.SectorFor(c)..g.SectorFor(c) + g.sectorsPerCluster];
    }

    method PutCluster(buf: seq<byte>, c: nat)
      requires g.Ok(sectors.Length) && 2 <= c < g.Limit() && |buf| == g.ClusterSize()
      modifies sectors
      ensures Clusters() == old(Clusters())[c := buf]
      ensures DiskFat() == old(DiskFat())
    {
      ClusterInside(g, sectors.Length, c);
      PutSector(buf, g.SectorFor(c), g.sectorsPerCluster);
      ClusterWritten(old(sectors[..]), sectors[..], g, c, buf);
    }

    method FlushFAT()
      requires g.Ok(sectors.Length) && FAT.Length == g.Entries() && EntriesOk(FAT[..])
      modifies sectors
      ensures DiskFat() == FAT[..]
      ensures Clusters() == old(Clusters())
    {
      hide Geometry.Ok, ClustersOf, DiskFatOf, Marshal, EntriesOk;
      ghost var fat := FAT[..];
      TableInside(g, sectors.Length);
      var i := 0;
      while i < g.sectorsPerFat
        invariant 0 <= i <= g.sectorsPerFat && FAT[..] == fat
        invariant forall s | 0 <= s < sectors.Length ::
                    sectors[s] == if g.fatSector <= s < g.fatSector + i then Marshal(fat, s - g.fatSector) else old(sectors[s])
      {
        sectors[g.fatSector + i] := Marshal(FAT[..], i);
        i := i + 1;
      }
      TableFlushed(old(sectors[..]), sectors[..], g, fat);
    }

    /** The load loop of FatInitialize. */
    method LoadFAT()
      requires g.Ok(sectors.Length) && FAT.Length == g.Entries()
      modifies FAT
      ensures FAT[..] == DiskFat()
    {
      hide Geometry.Ok, Le32;
      TableInside(g, sectors.Length);
      var i := 0;
      while i < g.sectorsPerFat
        invariant 0 <= i <= g.sectorsPerFat
        invariant forall e | 0 <= e < PER_SECTOR * i :: FAT[e] == DiskFat()[e]
      {
        var sector := GetSector(g.fatSector + i, 1);
        assert sectors[g.fatSector + i..g.fatSector + i + 1][..0] == [];
        assert sector == sectors[g.fatSector + i];
        var j := 0;
        while j < PER_SECTOR
          invariant 0 <= j <= PER_SECTOR
          invariant forall e | 0 <= e < PER_SECTOR * i + j :: FAT[e] == DiskFat()[e]
        {
          FAT[i * PER_SECTOR + j] := Le32(sector, j * 4);
          assert (i * PER_SECTOR + j) / PER_SECTOR == i && (i * PER_SECTOR + j) % PER_SECTOR == j;
          j := j + 1;
        }
        i := i + 1;
      }
    }

    /** The two search loops of FatAllocCluster. */
    method FindFree() returns (found: bool, c: nat)
      requires hint <= FAT.Length
      ensures found ==> FirstFree(FAT[..], hint, c)
      ensures !found ==> forall e | 0 <= e < FAT.Length :: FAT[e] != 0
    {
      c := hint;
      while c < FAT.Length
        invariant hint <= c <= FAT.Length && forall e | hint <= e < c :: FAT[e] != 0
      {
        if FAT[c] == 0 {
          return true, c;
        }
        c := c + 1;
      }
      c := 0;
      while c < hint
        invariant 0 <= c <= hint && forall e | 0 <= e < c :: FAT[e] != 0
      {
        if FAT[c] == 0 {
          return true, c;
        }
        c := c + 1;
      }
      found := false;
    }

    /** 0 when the table is full. */
    method AllocCluster() returns (c: nat)
      requires Mounted() && (CountFree(FAT[..]) == 0 || Room() > 0)
      modifies this, FAT, sectors
      ensures Mounted()
      ensures (c == 0 <==> CountFree(old(FAT[..])) == 0) && (old(Room()) > 0 ==> c != 0)
      ensures c == 0 ==> FAT[..] == old(FAT[..]) && sectors[..] == old(sectors[..]) && hint == old(hint)
                         && Table() == old(Table()) && Spare() == old(Spare()) && Clusters() == old(Clusters())
      ensures c != 0 ==>
                && 2 <= c < g.Limit() && FirstFree(old(FAT[..]), old(hint), c) && hint == c + 1
                && c < |old(Table())| && old(Table())[c] == 0 && Table() == old(Table())[c := LAST] && Spare() == old(Spare())
                && Clusters() == old(Clusters())[c := seq(g.ClusterSize(), _ => 0)] && DiskFat() == old(DiskFat())
                && CountFree(Table()) == CountFree(old(Table())) - 1 && Room() == old(Room()) - 1
    {
      hide Geometry.Ok, ClustersOf, DiskFatOf, FirstFree, OnVolume, TableOk, EntriesOk;
      LimitInside(g, sectors.Length);
      ghost var fat, table := FAT[..], Table();
      var found: bool;
      found, c := FindFree();
      if !found {
        NoneOnVolume(fat, hint, g.Limit());
        return 0;
      }
      TakenFacts(fat, hint, g.Limit(), c);
      FAT[c] := LAST;
      assert FAT[..] == fat[c := LAST] && Table() == table[c := LAST];
      PutCluster(seq(g.ClusterSize(), _ => 0), c);
      hint := c + 1;
    }

    /** An assignment to an entry in use: the next cluster of its chain. */
    method Link(c: nat, next: nat)
      requires Mounted() && 2 <= c < |Table()| && Table()[c] != 0 && 2 <= next < g.Limit()
      modifies FAT
      ensures Mounted() && Table() == old(Table())[c := next] && Spare() == old(Spare()) && Room() == old(Room())
    {
      hide Geometry.Ok, OnVolume, EntriesOk;
      ghost var fat, table := FAT[..], Table();
      LinkedOnVolume(fat, hint, g.Limit(), c, next);
      EntryFits(fat, c, next);
      FAT[c] := next;
      assert FAT[..] == fat[c := next] && Table() == table[c := next];
    }

    method GetFreeClusters() returns (count: nat)
      ensures count == CountFree(FAT[..])
    {
      count := 0;
      var i := 0;
      while i < FAT.Length
        invariant 0 <= i <= FAT.Length && count == CountFree(FAT[..i])
      {
        assert FAT[..i + 1][..i] == FAT[..i];
        if FAT[i] == 0 {
          count := count + 1;
        }
        i := i + 1;
      }
      assert FAT[..FAT.Length] == FAT[..];
    }

    /** FatZeroFatChain.  It ends on every table, even when the links run in a circle; a chain
        that ends is freed and nothing else. */
    method ZeroFatChain(start: nat, ghost ch: seq<nat>)
      requires Mounted() && (start == 0 || 2 <= start < g.Limit() || EOC <= start)
      requires ch != [] ==> IsChain(Table(), ch) && ch[0] == start
      modifies FAT, sectors
      ensures Mounted() && DiskFat() == FAT[..] && Clusters() == old(Clusters()) && Spare() == old(Spare())
      ensures forall c | 0 <= c < g.Limit() :: FAT[c] == 0 || FAT[c] == old(FAT[c])
      ensures 2 <= start < g.Limit() ==> FAT[start] == 0
      ensures ch != [] ==> ZeroedOn(old(Table()), ch, Table())
                           && CountFree(Table()) == CountFree(old(Table())) + |ch|
    {
      hide Geometry.Ok, ClustersOf, DiskFatOf, Zeroing, TableOk, EntriesOk;
      LimitInside(g, sectors.Length);
      ghost var fat, spare := Table(), Spare();
      ghost var x := 0;
      var cluster: nat := start;
      ZeroStart(fat, start, ch);
      while cluster < EOC && cluster != 0
        invariant sectors[..] == old(sectors[..]) && Spare() == spare && EntriesOk(FAT[..])
        invariant TableOk(Table()) && Zeroing(fat, Table(), start, cluster, ch, x)
        decreases g.Limit() - CountFree(Table()), cluster != 0
      {
        ZeroStep(fat, Table(), start, cluster, ch, x);
        ghost var now, all := Table(), FAT[..];
        EntryFits(all, cluster, 0);
        var next: nat := FAT[cluster];
        FAT[cluster] := 0;
        assert FAT[..] == all[cluster := 0] && Table() == now[cluster := 0];
        x := x + 1;
        cluster := next;
      }
      ZeroEnd(fat, Table(), start, cluster, ch, x);
      assert forall c | 0 <= c < g.Limit() :: FAT[c] == Table()[c];
      FlushFAT();
    }
  }

  /** Taking the cluster that the search found. */
  lemma TakenFacts(fat: seq<nat>, hint: nat, limit: nat, c: nat)
    requires 2 <= limit <= |fat| && TableOk(fat[..limit]) && EntriesOk(fat) && FirstFree(fat, hint, c)
    requires CountFree(fat) == 0 || OnVolume(fat, hint, limit) > 0
    ensures CountFree(fat) > 0 && 2 <= c < limit && fat[c] == 0
    ensures TableOk(fat[..limit][c := LAST]) && EntriesOk(fat[c := LAST])
    ensures CountFree(fat[..limit][c := LAST]) == CountFree(fat[..limit]) - 1
    ensures OnVolume(fat[c := LAST], c + 1, limit) == OnVolume(fat, hint, limit) - 1
  {
    hide OnVolume, CountFree;
    CountFreePositive(fat, c);
    SearchStays(fat, hint, limit, c);
    TakenOnVolume(fat, hint, limit, c);
    assert fat[..limit][0] == fat[0] && fat[..limit][1] == fat[1];
    CountFreeUpdate(fat[..limit], c, LAST);
  }

  lemma LimitInside(g: Geometry, sectors: nat)
    requires g.Ok(sectors)
    ensures g.Limit() <= g.Entries()
  {
  }

  lemma EntryFits(fat: seq<nat>, c: nat, v: nat)
    requires c < |fat| && EntriesOk(fat) && v < ENTRY_LIMIT
    ensures EntriesOk(fat[c := v])
  {
  }

  /** The state of the freeing loop: x entries of the chain are zero, `cluster` comes next. */
  ghost predicate Zeroing(fat: seq<nat>, now: seq<nat>, start: nat, cluster: nat, ch: seq<nat>, x: nat) {
    && |now| == |fat| <= EOC
    && (cluster == 0 || 2 <= cluster < |fat| || EOC <= cluster)
    && (forall c | 0 <= c < |fat| :: now[c] == 0 || now[c] == fat[c])
    && (2 <= start < |fat| ==> now[start] == 0 || cluster == start)
    && (ch != [] ==>
          && IsChain(fat, ch) && x <= |ch| && ZeroedOn(fat, ch[..x], now) && CountFree(now) == CountFree(fat) + x
          && if x < |ch| then cluster == ch[x] else EOC <= cluster)
  }

  lemma ZeroStart(fat: seq<nat>, start: nat, ch: seq<nat>)
    requires TableOk(fat) && (start == 0 || 2 <= start < |fat| || EOC <= start)
    requires ch != [] ==> IsChain(fat, ch) && ch[0] == start
    ensures Zeroing(fat, fat, start, start, ch, 0)
  {
  }

  lemma ZeroStep(fat: seq<nat>, now: seq<nat>, start: nat, cluster: nat, ch: seq<nat>, x: nat)
    requires TableOk(now) && Zeroing(fat, now, start, cluster, ch, x) && cluster < EOC && cluster != 0
    ensures 2 <= cluster < |now|
    ensures var after := now[cluster := 0];
            && TableOk(after) && Zeroing(fat, after, start, now[cluster], ch, x + 1)
            && CountFree(after) <= |after|
            && (CountFree(now) < CountFree(after) || (CountFree(now) == CountFree(after) && now[cluster] == 0))
  {
    if ch != [] {
      ChainSteps(fat, ch, x);
      NotYetZeroed(fat, ch, x, now);
    }
    CountFreeUpdate(now, cluster, 0);
    CountFreeBound(now[cluster := 0]);
  }

  lemma ZeroEnd(fat: seq<nat>, now: seq<nat>, start: nat, cluster: nat, ch: seq<nat>, x: nat)
    requires Zeroing(fat, now, start, cluster, ch, x) && (cluster == 0 || EOC <= cluster)
    ensures |now| == |fat| && forall c | 0 <= c < |fat| :: now[c] == 0 || now[c] == fat[c]
    ensures 2 <= start < |fat| ==> now[start] == 0
    ensures ch != [] ==> ZeroedOn(fat, ch, now) && CountFree(now) == CountFree(fat) + |ch|
  {
    if ch != [] {
      assert x == |ch| && ch[..x] == ch;
    }
  }

  /** The next cluster of the chain still has its entry. */
  lemma NotYetZeroed(fat: seq<nat>, ch: seq<nat>, x: nat, now: seq<nat>)
    requires IsChain(fat, ch) && |fat| <= EOC && x < |ch| && ZeroedOn(fat, ch[..x], now)
    ensures now[ch[x]] == fat[ch[x]] && fat[ch[x]] != 0
    ensures ZeroedOn(fat, ch[..x + 1], now[ch[x] := 0])
  {
    if ch[x] in ch[..x] {
      var y :| 0 <= y < x && ch[y] == ch[x];
      ChainNoRepeat(fat, ch, y, x);
    }
    ChainSteps(fat, ch, x);
    assert ch[..x + 1] == ch[..x] + [ch[x]];
  }
}
