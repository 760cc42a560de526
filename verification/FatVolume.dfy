/** Whole-file operations of the FAT32 driver on one directory of a volume. */
module FatVolume {
  import opened Bytes
  import opened FatTable
  import opened FatNames
  import opened FatDirectory
  import opened FatDirScan
  import opened FatDisk
  import opened FatFiles
  import opened FatGroup

  /** Clusters a file of that size takes; an empty file takes one. */
  function ClustersFor(size: nat, cs: nat): (n: nat)
    requires cs > 0
    ensures n > 0 && size <= n * cs
    ensures n > 1 ==> (n - 1) * cs < size
  {
    var n := size / cs + (if size % cs != 0 then 1 else 0);
    assert size == size / cs * cs + size % cs;
    if n == 0 then 1 else n
  }

  method RequiredClusters(size: nat, cs: nat) returns (required: nat)
    requires cs > 0
    ensures required == ClustersFor(size, cs)
  {
    required := size / cs;
    if size % cs != 0 {
      required := required + 1;
    }
    if required == 0 {
      required := required + 1;
    }
  }

  /** Some cluster of the directory has room for that many slots. */
  ghost predicate HasRoom(v: View, count: nat) {
    exists c :: c in v.dir && c < |v.clusters| && Roomy(v.clusters[c], count)
  }

  ghost predicate Roomy(buf: seq<byte>, count: nat) {
    exists s: nat :: FreeRun(buf, s, count)
  }

  /** Chains but the directory's are still there with the same contents. */
  ghost predicate Kept(v: View, v': View) {
    && v.chains - {v.dir} <= v'.chains
    && forall ch, c | ch in v.chains && ch != v.dir && c in ch && c < |v.clusters| ::
         c < |v'.clusters| && v'.clusters[c] == v.clusters[c]
  }

  class Volume {
    const d: Disk
    var dirCluster: nat              // the cluster field of struct Directory
    ghost var dir: seq<nat>          // the clusters of the directory
    ghost var files: seq<seq<nat>>   // the clusters of each of its entries
    ghost var chains: set<seq<nat>>  // all chains of the volume

    ghost function V(): View
      requires d.g.Ok(d.sectors.Length)
      reads this, d, d.FAT, d.sectors
    {
      View(d.Table(), d.Clusters(), dir, files, chains)
    }

    ghost predicate Valid()
      reads this, d, d.FAT, d.sectors
    {
      d.Mounted() && FsOk(V(), d.g.ClusterSize()) && dir != [] && dirCluster == dir[0]
    }

    /** A volume whose first FAT has been loaded. */
    constructor (d: Disk, dirCluster: nat, ghost dir: seq<nat>, ghost files: seq<seq<nat>>, ghost chains: set<seq<nat>>)
      requires d.Mounted() && FsOk(View(d.Table(), d.Clusters(), dir, files, chains), d.g.ClusterSize())
      requires dir != [] && dirCluster == dir[0]
      ensures Valid() && this.d == d && V() == View(d.Table(), d.Clusters(), dir, files, chains)
    {
      hide FsOk, ClustersOf, Geometry.Ok, Geometry.ClusterSize;
      this.d, this.dirCluster, this.dir, this.files, this.chains := d, dirCluster, dir, files, chains;
    }

    /** FatGetNextClusterID */
    function NextCluster(c: nat): nat
      requires c < |d.Table()|
      reads this, d, d.FAT
    {
      d.EntryOf(c) % 0x1000_0000
    }

    // ----- reading

    /** FatReadFile on entry j of the directory. */
    method ReadFile(entry: Listing, ghost j: nat) returns (file: array<byte>)
      requires Valid() && j < |files| && |files| == |Listed(V())| && entry == Listed(V())[j]
      ensures fresh(file) && file.Length == entry.fileSize && d.g.ClusterSize() > 0
      ensures ByCluster(file[..], d.Clusters(), files[j], d.g.ClusterSize())
      ensures forall c | c in files[j] :: c < |d.Clusters()|
      ensures entry.fileSize <= |FileBytes(d.Clusters(), files[j])|
      ensures file[..] == FileBytes(d.Clusters(), files[j])[..entry.fileSize]
    {
      hide FsOk, Geometry.Ok, Geometry.ClusterSize, Disk.Table, Listed, ClustersOf, FileBytes, ByCluster;
      ghost var cs, ch, v := d.g.ClusterSize(), files[j], V();
      ClusterSizes(d.g, d.sectors.Length);
      FileFacts(v, cs, j);
      FileSpan(v, cs, ch);
      FileBytesByCluster(v, cs, ch, entry.fileSize);
      ghost var content := FileBytes(v.clusters, ch);
      file := new byte[entry.fileSize](_ => 0);
      var ptr: nat, copied: nat, cluster: nat := 0, 0, entry.firstCluster;
      ghost var x: nat := 0;
      while true
        invariant Valid() && V() == v && fresh(file)
        invariant x < |ch| && cluster == ch[x] && ptr == x * cs && ptr <= |content|
        invariant copied == if ptr < entry.fileSize then ptr else entry.fileSize
        invariant file[..copied] == content[..copied]
        decreases |ch| - x
      {
        FileAt(v, cs, ch, x);
        var toCopy := CopyCluster(file, ptr, copied, cluster, content);
        ptr := ptr + d.g.ClusterSize();
        copied := copied + toCopy;
        cluster := NextCluster(cluster);
        x := x + 1;
        if cluster >= EOC {
          assert file[..] == file[..copied] == content[..entry.fileSize];
          return;
        }
      }
    }

    /** One round of FatReadFile. */
    method CopyCluster(file: array<byte>, ptr: nat, copied: nat, cluster: nat, ghost content: seq<byte>) returns (toCopy: nat)
      requires d.g.Ok(d.sectors.Length) && 2 <= cluster < d.g.Limit() && cluster < |d.Clusters()|
      requires copied == (if ptr < file.Length then ptr else file.Length) && file.Length <= |content|
      requires file[..copied] == content[..copied] && ptr + d.g.ClusterSize() <= |content|
      requires content[ptr..ptr + d.g.ClusterSize()] == d.Clusters()[cluster]
      modifies file
      ensures copied + toCopy == if ptr + d.g.ClusterSize() < file.Length then ptr + d.g.ClusterSize() else file.Length
      ensures file[..copied + toCopy] == content[..copied + toCopy]
    {
      hide ClustersOf, Geometry.Ok, Geometry.ClusterSize;
      var bytes := d.GetCluster(cluster);
      var remaining := file.Length - copied;
      toCopy := if remaining > d.g.ClusterSize() then d.g.ClusterSize() else remaining;
      CopyPart(file, ptr, copied, bytes, toCopy, content);
    }

    /** FatPopulateDir. */
    method PopulateDir() returns (entries: seq<Listing>)
      requires Valid()
      ensures entries == Listed(V())
    {
      hide FsOk, Geometry.Ok, Geometry.ClusterSize, Disk.Table, ClustersOf, Wf, List, ListedBefore, Listed;
      ghost var cs, v := d.g.ClusterSize(), V();
      ClusterSizes(d.g, d.sectors.Length);
      ListedEnds(v, cs);
      entries := [];
      var cluster: nat := dirCluster;
      ghost var x: nat := 0;
      while true
        invariant x < |dir| && cluster == dir[x] && entries == ListedBefore(v, x)
        decreases |dir| - x
      {
        DirClusterAt(v, cs, x);
        var bytes := d.GetCluster(cluster);
        var more := ListCluster(bytes);
        entries := entries + more;
        cluster := NextCluster(cluster);
        x := x + 1;
        if cluster >= EOC {
          return;
        }
      }
    }

    // ----- writing

    /** FatAllocCluster, with what it does to the chains. */
    method TakeCluster() returns (c: nat)
      requires Valid() && (d.Room() > 0 || CountFree(d.FAT[..]) == 0)
      modifies this`chains, d, d.FAT, d.sectors
      ensures Valid() && d.Spare() == old(d.Spare()) && (old(d.Room()) > 0 ==> c != 0)
      ensures c == 0 ==> V() == old(V()) && d.FAT[..] == old(d.FAT[..]) && CountFree(d.FAT[..]) == 0
      ensures c != 0 ==>
                && 2 <= c < d.g.Limit() && V() == Taken(old(V()), c, d.g.ClusterSize()) && d.Room() == old(d.Room()) - 1
                && c < |d.Clusters()| && d.Clusters()[c] == seq(d.g.ClusterSize(), _ => 0) && chains == old(chains) + {[c]}
                && Listed(V()) == Listed(old(V())) && !Owned(old(chains), c) && Kept(old(V()), V())
                && CountFree(V().fat) == CountFree(old(V()).fat) - 1
    {
      hide FsOk, Geometry.Ok, Geometry.ClusterSize, Disk.Table, Disk.Spare, Disk.Room, OnVolume, ClustersOf,
        DiskFatOf, Listed, Owned, TableOk;
      ghost var v, cs := V(), d.g.ClusterSize();
      SizeFacts(v, cs);
      c := d.AllocCluster();
      if c == 0 {
        return;
      }
      chains := chains + {[c]};
      AllocOk(v, cs, c);
      TakenKept(v, c, cs);
    }

    /** FatLocateEntries: a place for `count` slots in a row, in a new cluster if need be.  `ok` is
        false where the source returns a null pointer. */
    method LocateEntries(count: nat) returns (ok: bool, buf: array<byte>, index: nat, c: nat, ghost p: nat)
      requires Valid() && 0 < count && SLOT * count <= d.g.ClusterSize()
      requires d.Room() > 0 || HasRoom(V(), count) || CountFree(d.FAT[..]) == 0
      modifies this`dir, this`chains, d, d.FAT, d.sectors
      ensures Valid() && fresh(buf) && d.Spare() == old(d.Spare())
      ensures old(d.Room()) > 0 || HasRoom(old(V()), count) ==> ok
      ensures !ok ==> V() == old(V()) && !HasRoom(V(), count) && CountFree(d.FAT[..]) == 0
      ensures ok ==> p < |dir| && c == dir[p] && c < |d.Clusters()| && buf[..] == d.Clusters()[c] && FreeRun(buf[..], index, count)
      ensures ok ==> NoRoomBefore(old(V()), p, count) && forall s: nat | s < index :: !FreeRun(buf[..], s, count)
      ensures ok ==> if HasRoom(old(V()), count) then V() == old(V()) && d.Room() == old(d.Room())
                     else Grew(old(V()), V(), c, d.g.ClusterSize()) && d.Room() == old(d.Room()) - 1
    {
      hide FsOk, Geometry.Ok, Geometry.ClusterSize, Disk.Table, Disk.Spare, Disk.Room, OnVolume, ClustersOf,
        DiskFatOf, Listed, Owned, TableOk, IsChain, FreeRun, HasRoom, NoRoomBefore, FirstFree, Grew;
      ghost var cs, v, grown := d.g.ClusterSize(), V(), false;
      var cluster := dirCluster;
      ok, index, c, p := true, 0, 0, 0;
      NoRoomStart(v, count);
      while true
        invariant Valid() && p < |dir| && cluster == dir[p]
        invariant NoRoomBefore(v, p, count)
        invariant if grown then p == |dir| - 1 && Grew(v, V(), cluster, cs) && !HasRoom(v, count) else V() == v
        invariant ok && d.Spare() == old(d.Spare()) && d.Room() == old(d.Room()) - (if grown then 1 else 0)
        invariant !grown ==> d.FAT[..] == old(d.FAT[..])
        decreases !grown, |dir| - p
      {
        ghost var now := V();
        DirAt(now, cs, p);
        if grown {
          GrewHasRoom(v, now, cluster, cs, count);
        }
        var found: int;
        found, buf := SearchCluster(cluster, count);
        assert V() == now;
        if found >= 0 {
          index, c := found, cluster;
          RoomHere(v, p, buf[..], found, count);
          return;
        }
        NoRoomNext(v, p, now.clusters[cluster], count);
        var next: nat := d.EntryOf(cluster);
        p := p + 1;
        if next >= EOC {
          next := GrowDirectory(cluster);
          if next == 0 {
            ok := false;
            return;
          }
          grown := true;
          GrewFacts(v, V(), next, cs);
        }
        cluster := next;
      }
    }

    /** The inner loop of FatLocateEntries over one cluster, loaded into a buffer. */
    method SearchCluster(cluster: nat, count: nat) returns (found: int, buf: array<byte>)
      requires d.g.Ok(d.sectors.Length) && 2 <= cluster < d.g.Limit() && count > 0
      ensures fresh(buf) && cluster < |d.Clusters()| && buf[..] == d.Clusters()[cluster]
      ensures found >= 0 ==> FreeRun(buf[..], found, count)
      ensures forall s: nat | found < 0 || s < found :: !FreeRun(buf[..], s, count)
    {
      hide ClustersOf, FreeRun;
      ClusterSizes(d.g, d.sectors.Length);
      var bytes := d.GetCluster(cluster);
      buf := new byte[|bytes|](k requires 0 <= k < |bytes| => bytes[k]);
      assert buf[..] == bytes;
      found := FindFreeRun(bytes, count);
    }

    /** A cleared cluster is linked behind the last one of the directory. */
    method GrowDirectory(cluster: nat) returns (next: nat)
      requires Valid() && cluster == LastOf(dir) && (d.Room() > 0 || CountFree(d.FAT[..]) == 0)
      modifies this`dir, this`chains, d, d.FAT, d.sectors
      ensures Valid() && d.Spare() == old(d.Spare()) && (old(d.Room()) > 0 ==> next != 0)
      ensures next != 0 ==> Grew(old(V()), V(), next, d.g.ClusterSize()) && d.Room() == old(d.Room()) - 1
      ensures next == 0 ==> V() == old(V()) && d.FAT[..] == old(d.FAT[..]) && CountFree(d.FAT[..]) == 0
    {
      hide FsOk, Geometry.Ok, Geometry.ClusterSize, Disk.Table, Disk.Spare, Disk.Room, OnVolume, ClustersOf,
        DiskFatOf, DirOk, Listed, Owned, TableOk, IsChain, Kept, Grew, CountFree;
      ghost var cs, v := d.g.ClusterSize(), V();
      DirEnd(v, cs);
      next := TakeCluster();
      if next == 0 {
        return;
      }
      ghost var v1 := V();
      DirEnd(v1, cs);
      d.Link(cluster, next);
      dir, chains := dir + [next], chains - {dir, [next]} + {dir + [next]};
      GrowOk(v, v1, V(), cs, next);
    }

    /** One round of the write loop. */
    method AppendCluster(prev: nat, buffer: seq<byte>, ghost before: View, ghost built: seq<nat>, ghost bytes: seq<byte>)
      returns (curr: nat)
      requires Valid() && FsOk(before, d.g.ClusterSize()) && Building(before, V(), built, bytes)
      requires |buffer| == d.g.ClusterSize() && d.Room() > 0
      requires if built == [] then prev == 0 else prev == LastOf(built)
      modifies this`chains, d, d.FAT, d.sectors
      ensures Valid() && Building(before, V(), built + [curr], bytes + buffer) && 2 <= curr < EOC
      ensures d.Spare() == old(d.Spare()) && d.Room() == old(d.Room()) - 1
    {
      hide FsOk, Geometry.Ok, Geometry.ClusterSize, Disk.Table, Disk.Spare, Disk.Room, OnVolume, ClustersOf,
        DiskFatOf, Listed, Owned, TableOk, CountFree, FirstFree, FileBytes;
      ghost var cs, v := d.g.ClusterSize(), V();
      SizeFacts(v, cs);
      if built != [] {
        BuiltFacts(before, v, cs, built, bytes);
      }
      curr := FillCluster(prev, buffer);
      TableSize(d.Table());
      chains := if built == [] then chains + {[curr]} else chains + {[curr]} - {built, [curr]} + {built + [curr]};
      AppendedIs(v, cs, built, prev, curr, buffer, V());
      AppendOk(before, v, cs, built, bytes, curr, buffer);
      SizeFacts(V(), cs);
      DirFacts(V(), cs);
    }

    /** What that does to the disk: a fresh cluster holds the buffer and is linked behind `prev`. */
    method FillCluster(prev: nat, buffer: seq<byte>) returns (curr: nat)
      requires d.Mounted() && |buffer| == d.g.ClusterSize() && d.Room() > 0
      requires prev != 0 ==> 2 <= prev < |d.Table()| && d.Table()[prev] != 0
      modifies d, d.FAT, d.sectors
      ensures d.Mounted() && 2 <= curr < d.g.Limit() && curr < |old(d.Table())| && old(d.Table())[curr] == 0
      ensures d.Table() == if prev != 0 then old(d.Table())[curr := LAST][prev := curr] else old(d.Table())[curr := LAST]
      ensures curr < |old(d.Clusters())| && d.Clusters() == old(d.Clusters())[curr := buffer]
      ensures d.Spare() == old(d.Spare()) && d.Room() == old(d.Room()) - 1
    {
      hide Geometry.Ok, Geometry.ClusterSize, Disk.Table, Disk.Spare, Disk.Room, OnVolume, ClustersOf, DiskFatOf,
        TableOk, CountFree, FirstFree;
      ghost var clusters := d.Clusters();
      curr := d.AllocCluster();
      d.PutCluster(buffer, curr);
      assert clusters[curr := seq(d.g.ClusterSize(), _ => 0)][curr := buffer] == clusters[curr := buffer];
      if prev != 0 {
        d.Link(prev, curr);
      }
    }

    /** The loop of FatWriteFileImplementation that puts the file into fresh clusters. */
    method WriteData(file: array<byte>, required: nat) returns (first: nat, ghost ch: seq<nat>)
      requires Valid() && required == ClustersFor(file.Length, d.g.ClusterSize()) && d.Room() >= required
      modifies this`chains, d, d.FAT, d.sectors
      ensures Valid() && |ch| == required && ch[0] == first && 2 <= first < EOC
      ensures Building(old(V()), V(), ch, file[..] + seq(required * d.g.ClusterSize() - file.Length, _ => 0))
      ensures d.Spare() == old(d.Spare())
    {
      hide FsOk, Geometry.Ok, Geometry.ClusterSize, Disk.Table, Disk.Spare, Disk.Room, OnVolume, ClustersOf,
        DiskFatOf, Listed, Owned, TableOk, CountFree, Building, ClustersFor, PaddedPart;
      ghost var before, cs, content := V(), d.g.ClusterSize(), file[..];
      NothingBuilt(before, cs);
      ClusterSizes(d.g, d.sectors.Length);
      PaddedEnds(content, required, cs);
      var written: nat, prev: nat, i: nat := 0, 0, 0;
      ghost var done: nat := 0;
      first, ch := 0, [];
      while i < required
        invariant Valid() && Building(before, V(), ch, PaddedPart(content, done)) && |ch| == i <= required && done == i * cs
        invariant if i == 0 then first == prev == 0 else prev == LastOf(ch) && first == ch[0] && 2 <= first < EOC
        invariant written == if done <= |content| then done else |content|
        invariant d.Spare() == old(d.Spare()) && d.Room() == old(d.Room()) - i
      {
        OneMore(i, cs);
        var toWrite: nat := file.Length - written;
        if toWrite > d.g.ClusterSize() {
          toWrite := d.g.ClusterSize();
        }
        var buffer := file[written..written + toWrite] + seq(d.g.ClusterSize() - toWrite, _ => 0);
        PaddedStep(content, done, cs, buffer, toWrite);
        var curr := AppendCluster(prev, buffer, before, ch, PaddedPart(content, done));
        if first == 0 {
          first := curr;
        }
        written := written + toWrite;
        ch := ch + [curr];
        prev := curr;
        done := done + cs;
        i := i + 1;
      }
    }

    /** A place for the entry, with its long-name slots and its 8.3 name filled in. */
    method PrepareEntry(fname: seq<byte>, n: nat)
      returns (buf: array<byte>, index: nat, cluster: nat, ghost p: nat, ghost slots: seq<byte>)
      requires Valid() && ValidName(fname) && 0 < n <= 15 && SLOT * (n + 1) <= d.g.ClusterSize()
      requires d.Room() > 0 || HasRoom(V(), n + 1)
      modifies this`dir, this`chains, d, d.FAT, d.sectors
      ensures Valid() && fresh(buf) && SLOT * (index + n + 1) <= buf.Length == d.g.ClusterSize()
      ensures p < |dir| && cluster == dir[p] && 2 <= cluster < |d.Clusters()| && slots == d.Clusters()[cluster]
      ensures NamesWritten(slots, buf[..], index, n, fname) && Wf(slots, 0) && FreeRun(slots, index, n + 1)
      ensures if HasRoom(old(V()), n + 1) then V() == old(V()) else Grew(old(V()), V(), cluster, d.g.ClusterSize())
      ensures d.Spare() == old(d.Spare()) && d.Room() == old(d.Room()) - (if HasRoom(old(V()), n + 1) then 0 else 1)
    {
      hide FsOk, Geometry.Ok, Geometry.ClusterSize, Disk.Table, Disk.Spare, Disk.Room, OnVolume, ClustersOf,
        DiskFatOf, Listed, Owned, TableOk, CountFree, HasRoom, NoRoomBefore, Grew, FirstFree, FreeRun, LfnWritten,
        ShortNameOf, Wf, List, Kept;
      ghost var v0, cs := V(), d.g.ClusterSize();
      var ok: bool;
      ok, buf, index, cluster, p := LocateEntries(n + 1);
      slots := buf[..];
      Located(v0, V(), cs, cluster, p, n + 1, slots, index);
      WriteLongFileNameEntries(buf, SLOT * index, n, fname);
      ghost var named := buf[..];
      Write83FileName(fname, buf, SLOT * (index + n));
      LfnFrame(slots, named, buf[..], SLOT * index, n, Checksum(ShortNameOf(fname)), fname);
    }

    /** The fields of the short slot complete the entry. */
    method CompleteEntry(buf: array<byte>, index: nat, n: nat, fname: seq<byte>, attrs: byte, first: nat, size: nat,
                         ghost slots: seq<byte>)
      returns (ghost j: nat)
      requires NamesWritten(slots, buf[..], index, n, fname) && Wf(slots, 0) && FreeRun(slots, index, n + 1)
      requires ValidName(fname) && |fname| % LFN_CHARS != 0 && n == SlotsFor(|fname|) <= 15
      requires attrs != LFN && first < 0x1_0000_0000 && size < 0x1_0000_0000
      modifies buf
      ensures GroupWritten(slots, buf[..], index, n, fname, attrs, first, size)
      ensures Wf(buf[..], 0) && j <= |List(slots, 0)|
      ensures List(buf[..], 0) == InsertAt(List(slots, 0), j, Listing(fname, attrs, first, size))
    {
      hide NamesWritten, Wf, List, FreeRun, FieldsWritten, GroupWritten, ValidName, InsertAt;
      ghost var names := buf[..];
      NamesFit(slots, names, index, n, fname);
      WriteFields(buf, SLOT * (index + n), attrs, first, size);
      GroupAssembled(slots, names, buf[..], index, n, fname, attrs, first, size);
      j := EntryInserted(slots, buf[..], index, n, fname, attrs, first, size);
    }

    /** FatWriteFileImplementation with no cluster set by the caller: the entry's slots, the data,
        the directory cluster, the table. */
    method WriteFile(file: array<byte>, fname: seq<byte>, attrs: byte)
      returns (ghost at: nat, ghost ch: seq<nat>, ghost c: nat, ghost s: nat, ghost slots: seq<byte>)
      requires Valid() && ValidName(fname) && |fname| <= 194 && |fname| % LFN_CHARS != 0 && attrs != LFN
      requires file.Length < 0x1_0000_0000
      requires d.Room() >= ClustersFor(file.Length, d.g.ClusterSize()) + (if HasRoom(V(), SlotsFor(|fname|) + 1) then 0 else 1)
      modifies this`dir, this`files, this`chains, d, d.FAT, d.sectors
      ensures Valid() && d.DiskFat() == d.FAT[..] && d.Spare() == old(d.Spare())
      ensures Written(old(V()), V(), d.g.ClusterSize(), at, ch, fname, attrs, file[..])
      ensures c in dir && c < |d.Clusters()| && ch != []
      ensures GroupWritten(slots, d.Clusters()[c], s, SlotsFor(|fname|), fname, attrs, ch[0], file.Length)
      ensures FreeRun(slots, s, SlotsFor(|fname|) + 1) && DirWritten(old(V()), V(), d.g.ClusterSize(), c, slots)
    {
      hide FsOk, Geometry.Ok, Geometry.ClusterSize, Disk.Table, Disk.Spare, Disk.Room, OnVolume, ClustersOf,
        DiskFatOf, Listed, Owned, TableOk, CountFree, Building, HasRoom, Grew, FreeRun, FieldsWritten, GroupWritten,
        NamesWritten, Written, Wf, List, Kept, Before, Planned, ValidName, ClustersFor, DirOk, DirWritten;
      ghost var v0, cs := V(), d.g.ClusterSize();
      ClusterSizes(d.g, d.sectors.Length);
      var required := RequiredClusters(file.Length, d.g.ClusterSize());
      var n: nat := |fname| / LFN_CHARS;
      if |fname| % LFN_CHARS > 0 {
        n := n + 1;
      }
      var buf: array<byte>, index: nat, cluster: nat;
      ghost var p;
      buf, index, cluster, p, slots := PrepareEntry(fname, n);
      c, s := cluster, index;
      ghost var v1 := V();
      Located(v0, v1, cs, cluster, p, n + 1, slots, index);
      var first: nat;
      first, ch := WriteData(file, required);
      ghost var v2 := V();
      ghost var j := CompleteEntry(buf, index, n, fname, attrs, first, file.Length, slots);
      ghost var e := Listing(fname, attrs, first, file.Length);
      PlanEntry(v1, v2, cs, ch, file[..], p, slots, buf[..], j, e);
      at := Before(v2.clusters, v2.dir, p) + j;
      d.PutCluster(buf[..], cluster);
      files := InsertAt(files, at, ch);
      assert V() == v2.(clusters := v2.clusters[cluster := buf[..]], files := InsertAt(v2.files, at, ch));
      WriteDone(v0, v1, v2, V(), cs, p, buf[..], j, at, ch, fname, attrs, file[..], e);
      d.FlushFAT();
    }

    // ----- deleting

    /** FatDeleteFile.  Without an entry of that name nothing changes; else the first one goes,
        with its slots and its clusters. */
    method DeleteFile(filename: seq<byte>) returns (found: bool, ghost at: nat)
      requires Valid()
      modifies this`files, this`chains, d, d.FAT, d.sectors
      ensures Valid() && (!found ==> V() == old(V()) && d.DiskFat() == old(d.DiskFat()))
      ensures found <==> exists e :: e in Listed(old(V())) && e.name == filename
      ensures found ==> d.DiskFat() == d.FAT[..] && Deleted(old(V()), V(), filename, at) && EntryCleared(old(V()), V(), filename)
      ensures d.Spare() == old(d.Spare())
    {
      hide FsOk, Geometry.Ok, Geometry.ClusterSize, Disk.Table, Disk.Spare, Disk.Room, OnVolume, ClustersOf,
        DiskFatOf, Listed, Owned, TableOk, CountFree, FirstFree, Wf, List, DirOk, DirList, IsChain, Deleted,
        NotBefore, FirstNamed, SlotsCleared, EntryCleared;
      ghost var v, cs := V(), d.g.ClusterSize();
      ClusterSizes(d.g, d.sectors.Length);
      var cluster := dirCluster;
      ghost var p := 0;
      at := 0;
      NotBeforeStart(v, cs, filename);
      while true
        invariant Valid() && V() == v && d.DiskFat() == old(d.DiskFat()) && p < |dir| && cluster == dir[p]
        invariant d.Spare() == old(d.Spare())
        invariant NotBefore(v, p, filename)
        decreases |dir| - p
      {
        DirAt(v, cs, p);
        DirWf(v, cs, p);
        var cleared: seq<byte>, entry: Listing;
        ghost var j: nat;
        found, cleared, entry, j := ClearEntry(cluster, filename);
        if found {
          at := RemoveEntry(cluster, cleared, filename, entry, p, j);
          return;
        }
        NotBeforeNext(v, cs, p, filename);
        cluster := NextCluster(cluster);
        EntryMasked(v, cs, dir[p]);
        p := p + 1;
        if cluster >= EOC {
          return;
        }
      }
    }

    /** The first entry of that name in one cluster, and the cluster with its slots cleared. */
    method ClearEntry(cluster: nat, filename: seq<byte>)
      returns (found: bool, cleared: seq<byte>, entry: Listing, ghost j: nat)
      requires d.g.Ok(d.sectors.Length) && 2 <= cluster < d.g.Limit() && cluster < |d.Clusters()|
      requires Wf(d.Clusters()[cluster], 0)
      ensures !found ==> forall e | e in List(d.Clusters()[cluster], 0) :: e.name != filename
      ensures found ==>
                && |cleared| == d.g.ClusterSize() && Wf(cleared, 0) && SlotsCleared(d.Clusters()[cluster], cleared, filename)
                && FirstNamed(d.Clusters()[cluster], filename, j) && j < |List(d.Clusters()[cluster], 0)|
                && entry == List(d.Clusters()[cluster], 0)[j] && List(cleared, 0) == DropAt(List(d.Clusters()[cluster], 0), j)
    {
      hide Geometry.Ok, Geometry.ClusterSize, ClustersOf, Wf, List, SlotsCleared;
      ClusterSizes(d.g, d.sectors.Length);
      var bytes := d.GetCluster(cluster);
      var buf := new byte[|bytes|](k requires 0 <= k < |bytes| => bytes[k]);
      assert buf[..] == bytes;
      found, entry, j := DeleteInCluster(buf, filename);
      cleared := buf[..];
    }

    /** Writing back the directory cluster without the entry, then freeing the file's chain. */
    method RemoveEntry(cluster: nat, buf: seq<byte>, ghost filename: seq<byte>, entry: Listing, ghost p: nat, ghost j: nat)
      returns (ghost at: nat)
      requires Valid() && p < |dir| && cluster == dir[p] && NotBefore(V(), p, filename)
      requires cluster < |d.Clusters()| && Wf(d.Clusters()[cluster], 0) && |buf| == d.g.ClusterSize() && Wf(buf, 0)
      requires FirstNamed(d.Clusters()[cluster], filename, j) && j < |List(d.Clusters()[cluster], 0)|
      requires entry == List(d.Clusters()[cluster], 0)[j] && List(buf, 0) == DropAt(List(d.Clusters()[cluster], 0), j)
      requires SlotsCleared(d.Clusters()[cluster], buf, filename)
      modifies this`files, this`chains, d, d.FAT, d.sectors
      ensures Valid() && d.DiskFat() == d.FAT[..] && Deleted(old(V()), V(), filename, at) && d.Spare() == old(d.Spare())
      ensures EntryCleared(old(V()), V(), filename)
      ensures exists e :: e in Listed(old(V())) && e.name == filename
    {
      hide FsOk, Geometry.Ok, Geometry.ClusterSize, Disk.Table, Disk.Spare, Disk.Room, OnVolume, ClustersOf,
        DiskFatOf, Listed, Owned, TableOk, CountFree, FirstFree, Wf, List, DirOk, DirList, IsChain, FirstNamed,
        Deleted, NotBefore, Before, SlotsCleared, EntryCleared;
      ghost var v, cs := V(), d.g.ClusterSize();
      at := EntryIndex(v, cs, p, j, filename);
      ghost var ch := files[at];
      DropEntry(cluster, buf, p, j);
      ghost var v1 := V();
      RemovedChain(v, v1, cs, at);
      d.ZeroFatChain(entry.firstCluster, ch);
      chains := chains - {ch};
      FreeOk(v1, cs, ch, d.Table(), V());
      DeleteDone(v, v1, V(), cs, p, j, at, filename, ch);
      EntryIsCleared(v, V(), filename, p);
    }

    method DropEntry(cluster: nat, buf: seq<byte>, ghost p: nat, ghost j: nat)
      requires Valid() && p < |dir| && cluster == dir[p]
      requires cluster < |d.Clusters()| && Wf(d.Clusters()[cluster], 0) && |buf| == d.g.ClusterSize() && Wf(buf, 0)
      requires j < |List(d.Clusters()[cluster], 0)| && List(buf, 0) == DropAt(List(d.Clusters()[cluster], 0), j)
      requires DirOk(V().clusters, V().dir) && Before(V().clusters, V().dir, p) + j < |files| == |Listed(V())|
      modifies this`files, d.sectors
      ensures var v, at := old(V()), Before(old(V()).clusters, old(V()).dir, p) + j;
              && Valid() && V() == v.(clusters := v.clusters[v.dir[p] := buf], files := DropAt(v.files, at))
              && v.files[at] !in files && Listed(V()) == DropAt(Listed(v), at)
      ensures d.Spare() == old(d.Spare())
    {
      hide FsOk, Geometry.Ok, Geometry.ClusterSize, Disk.Table, Disk.Spare, Disk.Room, OnVolume, ClustersOf,
        DiskFatOf, Listed, Owned, TableOk, CountFree, FirstFree, Wf, List, DirOk, DirList, IsChain, Before;
      ghost var v, cs := V(), d.g.ClusterSize();
      DirAt(v, cs, p);
      d.PutCluster(buf, cluster);
      files := DropAt(files, Before(v.clusters, v.dir, p) + j);
      RemoveOk(v, cs, p, buf, j, V());
      SizeFacts(V(), cs);
    }

    // ----- sequences of operations

    /** A file just written under a new name is found by that name and reads back byte for byte. */
    method WriteThenRead(file: array<byte>, fname: seq<byte>, attrs: byte) returns (copy: array<byte>)
      requires Valid() && ValidName(fname) && |fname| <= 194 && |fname| % LFN_CHARS != 0 && attrs != LFN
      requires file.Length < 0x1_0000_0000
      requires d.Room() >= ClustersFor(file.Length, d.g.ClusterSize()) + (if HasRoom(V(), SlotsFor(|fname|) + 1) then 0 else 1)
      requires forall e | e in Listed(V()) :: e.name != fname
      modifies this`dir, this`files, this`chains, d, d.FAT, d.sectors
      ensures Valid() && copy[..] == file[..]
    {
      hide FsOk, Geometry.Ok, Geometry.ClusterSize, Disk.Table, Disk.Spare, Disk.Room, OnVolume, ClustersOf,
        DiskFatOf, Listed, Owned, TableOk, CountFree, HasRoom, ClustersFor, FileBytes, Kept, GroupWritten, DirWritten,
        EntryCleared, FreeRun, ByCluster;
      ghost var content, v0 := file[..], V();
      ghost var at, ch, c, s, slots := WriteFile(file, fname, attrs);
      FileFacts(V(), d.g.ClusterSize(), at);
      var entries := PopulateDir();
      var j := FindByName(entries, fname);
      OnlyOne(Listed(v0), entries, at, fname);
      assert j == at;
      copy := ReadFile(entries[j], at);
      assert copy[..] == content;
    }

    /** Deleting a just-written file of a name not in use restores the listing and the files;
        the free clusters return to their old number, less one if the directory grew. */
    method WriteThenDelete(file: array<byte>, fname: seq<byte>, attrs: byte)
      requires Valid() && ValidName(fname) && |fname| <= 194 && |fname| % LFN_CHARS != 0 && attrs != LFN
      requires file.Length < 0x1_0000_0000
      requires d.Room() >= ClustersFor(file.Length, d.g.ClusterSize()) + (if HasRoom(V(), SlotsFor(|fname|) + 1) then 0 else 1)
      requires forall e | e in Listed(V()) :: e.name != fname
      modifies this`dir, this`files, this`chains, d, d.FAT, d.sectors
      ensures Valid() && Listed(V()) == Listed(old(V())) && files == old(files)
      ensures chains == old(chains) - {old(dir)} + {dir}
      ensures |dir| == |old(dir)| + (if HasRoom(old(V()), SlotsFor(|fname|) + 1) then 0 else 1)
      ensures CountFree(d.FAT[..]) + (|dir| - |old(dir)|) == CountFree(old(d.FAT[..]))
    {
      hide FsOk, Geometry.Ok, Geometry.ClusterSize, Disk.Table, Disk.Spare, Disk.Room, OnVolume, ClustersOf,
        DiskFatOf, Listed, Owned, TableOk, CountFree, HasRoom, ClustersFor, FileBytes, Kept, GroupWritten, DirWritten,
        EntryCleared, FreeRun, ByCluster;
      ghost var v0 := V();
      d.WholeCount();
      ghost var at, ch, c, s, slots := WriteFile(file, fname, attrs);
      ghost var v1, list := V(), Listed(V());
      SizeFacts(v1, d.g.ClusterSize());
      assert list[at].name == fname && list[at] in list;
      var found: bool;
      ghost var at';
      found, at' := DeleteFile(fname);
      OnlyOne(Listed(v0), list, at, fname);
      assert at' == at;
      InsertThenDrop(Listed(v0), at, list[at]);
      InsertThenDrop(v0.files, at, ch);
      assert chains == v0.chains - {v0.dir} + {v1.dir};
      d.WholeCount();
    }
  }

  // ----- what a delete achieves

  /** The effect of a delete: the first entry of that name is gone, its chain is free, and the
      clusters of all other chains but the directory's are as before. */
  ghost predicate Deleted(v: View, v': View, filename: seq<byte>, at: nat) {
    && at < |v.files| == |Listed(v)| && Listed(v)[at].name == filename
    && (forall i | 0 <= i < at :: Listed(v)[i].name != filename)
    && Listed(v') == DropAt(Listed(v), at) && v'.files == DropAt(v.files, at)
    && v'.dir == v.dir && v'.chains == v.chains - {v.files[at]}
    && ZeroedOn(v.fat, v.files[at], v'.fat) && CountFree(v'.fat) == CountFree(v.fat) + |v.files[at]|
    && |v'.clusters| == |v.clusters|
    && forall ch, c | ch in v.chains && ch != v.dir && c in ch && c < |v.clusters| :: v'.clusters[c] == v.clusters[c]
  }

  /** The chain of an entry that was dropped. */
  lemma RemovedChain(v: View, v1: View, cs: nat, at: nat)
    requires FsOk(v, cs) && FsOk(v1, cs) && at < |v.files| && v1.chains == v.chains && v1.dir == v.dir
    ensures |v.files| == |Listed(v)| && v.files[at] in v1.chains && v.files[at] != v1.dir && v.files[at] != []
    ensures v.files[at][0] == Listed(v)[at].firstCluster && IsChain(v.fat, v.files[at])
    ensures 2 <= v.files[at][0] < |v.clusters|
  {
    hide FsOk, Listed, IsChain;
    FileFacts(v, cs, at);
    ChainFacts(v, cs, v.files[at]);
    assert v.files[at][0] in v.files[at];
  }

  /** Of all bytes of all clusters only the slots of an entry of that name changed, and are zero. */
  ghost predicate EntryCleared(v: View, v': View, filename: seq<byte>) {
    exists p: nat :: ClearedIn(v, v', filename, p)
  }

  ghost predicate ClearedIn(v: View, v': View, filename: seq<byte>, p: nat) {
    && p < |v.dir| && v.dir[p] < |v.clusters| == |v'.clusters|
    && SlotsCleared(v.clusters[v.dir[p]], v'.clusters[v.dir[p]], filename)
    && forall c | 0 <= c < |v.clusters| && c != v.dir[p] :: v'.clusters[c] == v.clusters[c]
  }

  lemma EntryIsCleared(v: View, v': View, filename: seq<byte>, p: nat)
    requires p < |v.dir| && v.dir[p] < |v.clusters| == |v'.clusters|
    requires v'.clusters == v.clusters[v.dir[p] := v'.clusters[v.dir[p]]]
    requires SlotsCleared(v.clusters[v.dir[p]], v'.clusters[v.dir[p]], filename)
    ensures EntryCleared(v, v', filename)
  {
    hide SlotsCleared;
    assert ClearedIn(v, v', filename, p);
  }

  /** The comparison loop over the entries of a directory. */
  method FindByName(entries: seq<Listing>, name: seq<byte>) returns (j: nat)
    requires exists e :: e in entries && e.name == name
    ensures j < |entries| && entries[j].name == name && forall i | 0 <= i < j :: entries[i].name != name
  {
    j := 0;
    while entries[j].name != name
      invariant j < |entries| && forall i | 0 <= i < j :: entries[i].name != name
      decreases |entries| - j
    {
      j := j + 1;
    }
  }

  lemma OnlyOne(s: seq<Listing>, t: seq<Listing>, at: nat, name: seq<byte>)
    requires at <= |s| && |t| == |s| + 1 && t == InsertAt(s, at, t[at]) && t[at].name == name
    requires forall e | e in s :: e.name != name
    ensures forall i | 0 <= i < |t| && i != at :: t[i].name != name
    ensures exists e :: e in t && e.name == name
  {
    forall i | 0 <= i < |t| && i != at
      ensures t[i].name != name
    {
      assert t[i] == s[if i < at then i else i - 1];
    }
    assert t[at] in t;
  }

  lemma InsertThenDrop<T>(s: seq<T>, j: nat, x: T)
    requires j <= |s|
    ensures DropAt(InsertAt(s, j, x), j) == s
  {
  }

  /** No entry before cluster p of the directory has that name. */
  ghost predicate NotBefore(v: View, p: nat, filename: seq<byte>) {
    p <= |v.dir| && DirOk(v.clusters, v.dir[..p]) && forall e | e in DirList(v.clusters, v.dir[..p]) :: e.name != filename
  }

  lemma NotBeforeStart(v: View, cs: nat, filename: seq<byte>)
    requires FsOk(v, cs)
    ensures NotBefore(v, 0, filename)
  {
    assert v.dir[..0] == [];
  }

  lemma DirWf(v: View, cs: nat, p: nat)
    requires FsOk(v, cs) && p < |v.dir|
    ensures v.dir[p] < |v.clusters| && Wf(v.clusters[v.dir[p]], 0)
  {
    hide Wf, Partition, FilesOk;
    assert v.dir[p] in v.dir;
  }

  lemma NotBeforeNext(v: View, cs: nat, p: nat, filename: seq<byte>)
    requires FsOk(v, cs) && p < |v.dir| && NotBefore(v, p, filename)
    requires v.dir[p] < |v.clusters| && Wf(v.clusters[v.dir[p]], 0)
    requires forall e | e in List(v.clusters[v.dir[p]], 0) :: e.name != filename
    ensures NotBefore(v, p + 1, filename)
    ensures p + 1 == |v.dir| ==> forall e | e in Listed(v) :: e.name != filename
  {
    hide Wf, List, DirList, Partition, FilesOk;
    DirStep(v.clusters, v.dir, p);
    if p + 1 == |v.dir| {
      assert v.dir[..p + 1] == v.dir;
    }
  }

  /** Where an entry of cluster p stands in the whole listing. */
  lemma EntryIndex(v: View, cs: nat, p: nat, j: nat, filename: seq<byte>) returns (at: nat)
    requires FsOk(v, cs) && p < |v.dir| && NotBefore(v, p, filename)
    requires v.dir[p] < |v.clusters| && Wf(v.clusters[v.dir[p]], 0) && FirstNamed(v.clusters[v.dir[p]], filename, j)
    ensures DirOk(v.clusters, v.dir) && at == Before(v.clusters, v.dir, p) + j < |v.files| == |Listed(v)|
    ensures j < |List(v.clusters[v.dir[p]], 0)| && Listed(v)[at] == List(v.clusters[v.dir[p]], 0)[j]
    ensures Listed(v)[at].name == filename && forall i | 0 <= i < at :: Listed(v)[i].name != filename
    ensures exists e :: e in Listed(v) && e.name == filename
  {
    hide Wf, List, DirList, Partition, FilesOk;
    DirFacts(v, cs);
    DirAround(v.clusters, v.dir, p);
    at := Before(v.clusters, v.dir, p) + j;
    var before := DirList(v.clusters, v.dir[..p]);
    forall i | 0 <= i < at
      ensures Listed(v)[i].name != filename
    {
      if i < |before| {
        assert before[i] in before;
      }
    }
    assert Listed(v)[at] in Listed(v);
  }

  lemma DeleteDone(v: View, v1: View, v2: View, cs: nat, p: nat, j: nat, at: nat, filename: seq<byte>, ch: seq<nat>)
    requires FsOk(v, cs) && FsOk(v2, cs) && p < |v.dir| && v.dir[p] < |v.clusters|
    requires at < |v.files| == |Listed(v)| && Listed(v)[at].name == filename && ch == v.files[at]
    requires forall i | 0 <= i < at :: Listed(v)[i].name != filename
    requires v1.dir == v.dir && v1.chains == v.chains && v1.fat == v.fat && |v1.clusters| == |v.clusters|
    requires forall c | 0 <= c < |v.clusters| && c != v.dir[p] :: v1.clusters[c] == v.clusters[c]
    requires Listed(v1) == DropAt(Listed(v), at) && v1.files == DropAt(v.files, at)
    requires v2.dir == v1.dir && v2.files == v1.files && v2.clusters == v1.clusters && Listed(v2) == Listed(v1)
    requires v2.chains == v1.chains - {ch} && ZeroedOn(v.fat, ch, v2.fat) && CountFree(v2.fat) == CountFree(v.fat) + |ch|
    ensures Deleted(v, v2, filename, at)
  {
    hide FsOk, Listed, CountFree, ZeroedOn;
    forall o | o in v.chains && o != v.dir
      ensures v.dir[p] !in o
    {
      DirClusterApart(v, cs, p, o);
    }
  }

  // ----- what a write achieves

  /** The effect of a write: one entry more, its chain holds the file, all other chains but the
      directory's are as before, and the free clusters went down by the file's clusters and by
      one if the directory grew. */
  ghost predicate Written(v: View, v': View, cs: nat, at: nat, ch: seq<nat>, fname: seq<byte>, attrs: byte, file: seq<byte>) {
    && cs > 0 && at <= |v.files| == |Listed(v)|
    && |ch| == ClustersFor(|file|, cs) && ch !in v.chains
    && Listed(v') == InsertAt(Listed(v), at, Listing(fname, attrs, ch[0], |file|))
    && v'.files == InsertAt(v.files, at, ch)
    && (forall c | c in ch :: c < |v'.clusters|)
    && FileBytes(v'.clusters, ch) == file + seq(|ch| * cs - |file|, _ => 0)
    && Kept(v, v')
    && v'.chains == v.chains - {v.dir} + {v'.dir, ch}
    && if HasRoom(v, SlotsFor(|fname|) + 1) then v'.dir == v.dir && CountFree(v'.fat) + |ch| == CountFree(v.fat)
       else |v'.dir| == |v.dir| + 1 && v.dir <= v'.dir && CountFree(v'.fat) + |ch| + 1 == CountFree(v.fat)
  }

  /** A write, entry by entry and byte by byte: the listing has one entry more, which names the new
      chain; that has as many clusters as the file needs and holds it, and zeros behind it.  Every
      chain but the directory's keeps its clusters with what they hold. */
  lemma WrittenMeans(v: View, v': View, cs: nat, at: nat, ch: seq<nat>, fname: seq<byte>, attrs: byte, file: seq<byte>)
    requires Written(v, v', cs, at, ch, fname, attrs, file)
    requires forall c | c in ch :: c < |v'.clusters| && |v'.clusters[c]| == cs
    ensures |Listed(v')| == |v'.files| == |Listed(v)| + 1 && at <= |Listed(v)| == |v.files|
    ensures forall j | 0 <= j < |Listed(v')| && j != at ::
              var k := if j < at then j else j - 1; Listed(v')[j] == Listed(v)[k] && v'.files[j] == v.files[k]
    ensures cs > 0 && |file| <= |ch| * cs && ch != [] && (|ch| > 1 ==> (|ch| - 1) * cs < |file|)
    ensures var e := Listed(v')[at];
            e.name == fname && e.attrs == attrs && e.firstCluster == ch[0] && e.fileSize == |file| && v'.files[at] == ch
    ensures ByCluster(file + seq(|ch| * cs - |file|, _ => 0), v'.clusters, ch, cs)
    ensures forall o, c | o in v.chains && o != v.dir && c in o && c < |v.clusters| ::
              o in v'.chains && c < |v'.clusters| && v'.clusters[c] == v.clusters[c]
  {
    hide Listed, FileBytes, ByCluster, HasRoom, CountFree, ClustersFor;
    FileLength(v'.clusters, ch, cs);
    var whole := FileBytes(v'.clusters, ch);
    FileByCluster(v'.clusters, ch, cs, |whole|);
    assert whole[..|whole|] == whole;
  }

  /** A delete, entry by entry: the least entry of that name is gone with its chain, whose table
      entries are zero; every other table entry, entry and file is as before. */
  lemma DeletedMeans(v: View, v': View, filename: seq<byte>, at: nat)
    requires Deleted(v, v', filename, at)
    ensures |Listed(v')| == |v'.files| == |Listed(v)| - 1 && at < |Listed(v)| == |v.files|
    ensures Listed(v)[at].name == filename && forall j | 0 <= j < at :: Listed(v)[j].name != filename
    ensures forall j | 0 <= j < |Listed(v')| ::
              var k := if j < at then j else j + 1; Listed(v')[j] == Listed(v)[k] && v'.files[j] == v.files[k]
    ensures |v'.fat| == |v.fat| && forall c | 0 <= c < |v.fat| :: v'.fat[c] == if c in v.files[at] then 0 else v.fat[c]
    ensures |v'.clusters| == |v.clusters|
    ensures forall o, c | o in v.chains && o != v.dir && c in o && c < |v.clusters| :: v'.clusters[c] == v.clusters[c]
  {
    hide Listed, CountFree;
  }

  /** The first n bytes of the file followed by zeros. */
  function PaddedPart(content: seq<byte>, n: nat): seq<byte> {
    if n <= |content| then content[..n] else content + seq(n - |content|, _ => 0)
  }

  lemma PaddedStep(content: seq<byte>, n: nat, cs: nat, buffer: seq<byte>, k: nat)
    requires cs > 0 && k == (if n >= |content| then 0 else if |content| - n > cs then cs else |content| - n)
    requires buffer == (if n >= |content| then [] else content[n..n + k]) + seq(cs - k, _ => 0)
    ensures |buffer| == cs && PaddedPart(content, n) + buffer == PaddedPart(content, n + cs)
  {
  }

  lemma PaddedEnds(content: seq<byte>, n: nat, cs: nat)
    requires cs > 0 && n == ClustersFor(|content|, cs)
    ensures PaddedPart(content, 0) == [] && n > 0 && |content| <= n * cs
    ensures PaddedPart(content, n * cs) == content + seq(n * cs - |content|, _ => 0)
  {
  }

  lemma ClusterSizes(g: Geometry, sectors: nat)
    requires g.Ok(sectors)
    ensures g.ClusterSize() >= 16 * SLOT && g.ClusterSize() % SLOT == 0
  {
    assert g.ClusterSize() == SLOT * (16 * g.sectorsPerCluster);
  }

  lemma AppendedIs(v: View, cs: nat, built: seq<nat>, prev: nat, c: nat, buf: seq<byte>, w: View)
    requires |v.clusters| == |v.fat| && c < |v.fat|
    requires if built == [] then prev == 0 else prev == LastOf(built) != 0 && prev < |v.fat|
    requires w.fat == if prev != 0 then v.fat[c := LAST][prev := c] else v.fat[c := LAST]
    requires w.clusters == v.clusters[c := buf] && w.dir == v.dir && w.files == v.files
    requires w.chains == if built == [] then v.chains + {[c]} else v.chains + {[c]} - {built, [c]} + {built + [c]}
    ensures w == Appended(v, cs, built, c, buf)
  {
    assert v.clusters[c := seq(cs, _ => 0)][c := buf] == v.clusters[c := buf];
  }

  lemma NothingBuilt(v: View, cs: nat)
    requires FsOk(v, cs)
    ensures Building(v, v, [], [])
  {
    hide FsOk, Listed, CountFree;
    if [] in v.chains {
      ChainFacts(v, cs, []);
    }
  }

  lemma BuiltFacts(before: View, v: View, cs: nat, built: seq<nat>, bytes: seq<byte>)
    requires FsOk(v, cs) && Building(before, v, built, bytes) && built != []
    ensures 2 <= LastOf(built) < |v.fat| && v.fat[LastOf(built)] != 0
  {
    hide FsOk, Listed, CountFree;
    ChainFacts(v, cs, built);
    LastNonzero(v.fat, built);
    assert LastOf(built) in built;
  }

  /** The place found for an entry: room as promised, in a sound directory that lists the same. */
  lemma Located(v: View, v1: View, cs: nat, cluster: nat, p: nat, count: nat, slots: seq<byte>, index: nat)
    requires FsOk(v, cs) && FsOk(v1, cs) && p < |v1.dir| && cluster == v1.dir[p] && FreeRun(slots, index, count)
    requires cluster < |v1.clusters| && slots == v1.clusters[cluster]
    requires if HasRoom(v, count) then v1 == v else Grew(v, v1, cluster, cs)
    ensures Wf(slots, 0) && |slots| == cs && SLOT * (index + count) <= |slots| && 2 <= cluster < |v1.fat|
    ensures Kept(v, v1) && Listed(v1) == Listed(v) && v1.files == v.files
    ensures CountFree(v1.fat) + (if HasRoom(v, count) then 0 else 1) == CountFree(v.fat)
  {
    hide Wf, List, DirList, Partition, FilesOk, Kept, HasRoom;
    DirAt(v1, cs, p);
    assert v1.dir[p] in v1.dir;
    KeptSelf(v);
  }

  lemma LfnFrame(before: seq<byte>, a: seq<byte>, b: seq<byte>, start: nat, n: nat, checksum: byte, fname: seq<byte>)
    requires LfnWritten(before, a, start, n, checksum, fname) && start + SLOT * n <= |a| == |b| == |before|
    requires forall i | start <= i < start + SLOT * n :: b[i] == a[i]
    ensures LfnWritten(before, b, start, n, checksum, fname)
  {
    forall t | 0 <= t < n && SlotNumber(n, t) < 256
      ensures LfnSlotWritten(before, b, start + SLOT * t, SlotNumber(n, t), checksum, fname, n - 1 - t)
    {
      assert LfnSlotWritten(before, a, start + SLOT * t, SlotNumber(n, t), checksum, fname, n - 1 - t);
      assert SlotAt(b, start + SLOT * t) == SlotAt(a, start + SLOT * t);
    }
  }

  /** Everything of an entry but the fields of its short slot. */
  ghost predicate NamesWritten(slots: seq<byte>, buf: seq<byte>, s: nat, n: nat, fname: seq<byte>) {
    && |buf| == |slots| && SLOT * (s + n + 1) <= |buf|
    && LfnWritten(slots, buf, SLOT * s, n, Checksum(ShortNameOf(fname)), fname)
    && buf[SLOT * (s + n)..SLOT * (s + n) + 11] == ShortNameOf(fname)
    && forall i | 0 <= i < |slots| && !(SLOT * s <= i < SLOT * (s + n + 1)) :: buf[i] == slots[i]
  }

  lemma NamesFit(slots: seq<byte>, buf: seq<byte>, s: nat, n: nat, fname: seq<byte>)
    requires NamesWritten(slots, buf, s, n, fname)
    ensures SLOT * (s + n + 1) <= |buf| == |slots|
  {
  }

  lemma GroupAssembled(slots: seq<byte>, names: seq<byte>, after: seq<byte>, s: nat, n: nat, fname: seq<byte>, attrs: byte,
                       first: nat, size: nat)
    requires NamesWritten(slots, names, s, n, fname) && |after| == |slots|
    requires FieldsWritten(after, SLOT * (s + n), attrs, first, size)
    requires forall i | 0 <= i < |slots| && !(SLOT * (s + n) + 11 <= i < SLOT * (s + n) + SLOT) :: after[i] == names[i]
    ensures GroupWritten(slots, after, s, n, fname, attrs, first, size)
  {
    hide LfnWritten, FieldsWritten, ShortNameOf;
    LfnFrame(slots, names, after, SLOT * s, n, Checksum(ShortNameOf(fname)), fname);
    assert after[SLOT * (s + n)..SLOT * (s + n) + 11] == names[SLOT * (s + n)..SLOT * (s + n) + 11];
  }

  lemma EntryInserted(slots: seq<byte>, after: seq<byte>, s: nat, n: nat, fname: seq<byte>, attrs: byte, first: nat, size: nat)
    returns (j: nat)
    requires GroupWritten(slots, after, s, n, fname, attrs, first, size) && Wf(slots, 0) && FreeRun(slots, s, n + 1)
    requires ValidName(fname) && |fname| % LFN_CHARS != 0 && n == SlotsFor(|fname|) <= 15
    requires attrs != LFN && first < 0x1_0000_0000 && size < 0x1_0000_0000
    ensures Wf(after, 0) && j <= |List(slots, 0)|
    ensures List(after, 0) == InsertAt(List(slots, 0), j, Listing(fname, attrs, first, size))
  {
    hide Wf, List, GroupAt, Entry, FreeRun, LfnWritten, FieldsWritten;
    GroupReadsBack(slots, after, s, n, fname, attrs, first, size);
    j := InsertGroup(slots, after, 0, s, n);
  }

  /** What InsertOk needs about the new entry and its chain. */
  ghost predicate Planned(v: View, cs: nat, p: nat, buf: seq<byte>, j: nat, e: Listing, ch: seq<nat>) {
    && p < |v.dir| && v.dir[p] < |v.clusters| && Wf(v.clusters[v.dir[p]], 0) && |buf| == cs
    && Wf(buf, 0) && j <= |List(v.clusters[v.dir[p]], 0)| && List(buf, 0) == InsertAt(List(v.clusters[v.dir[p]], 0), j, e)
    && ch in v.chains && ch != v.dir && ch !in v.files && ch != [] && ch[0] == e.firstCluster && e.fileSize <= |ch| * cs
    && DirOk(v.clusters, v.dir) && Before(v.clusters, v.dir, p) + j <= |v.files|
  }

  lemma PlanEntry(v1: View, v2: View, cs: nat, ch: seq<nat>, file: seq<byte>, p: nat, slots: seq<byte>, buf: seq<byte>,
                  j: nat, e: Listing)
    requires FsOk(v1, cs) && FsOk(v2, cs) && cs > 0 && |ch| == ClustersFor(|file|, cs)
    requires Building(v1, v2, ch, file + seq(|ch| * cs - |file|, _ => 0))
    requires p < |v1.dir| && v1.dir[p] < |v1.clusters| && slots == v1.clusters[v1.dir[p]] && Wf(slots, 0) && |buf| == cs
    requires Wf(buf, 0) && j <= |List(slots, 0)| && List(buf, 0) == InsertAt(List(slots, 0), j, e)
    requires e.firstCluster == ch[0] && e.fileSize == |file|
    ensures Planned(v2, cs, p, buf, j, e, ch) && DirOk(v2.clusters, v2.dir) && |v2.clusters| == |v2.fat|
    ensures p < |v2.dir| && v2.dir[p] == v1.dir[p]
    ensures Before(v2.clusters, v2.dir, p) + j <= |v2.files|
  {
    hide FsOk, Wf, List, DirList, Listed, CountFree;
    SizeFacts(v1, cs);
    SizeFacts(v2, cs);
    DirFacts(v2, cs);
    assert v1.dir[p] in v1.dir;
    DirAround(v2.clusters, v2.dir, p);
    ListedIs(v2);
  }

  lemma ListedIs(v: View)
    requires DirOk(v.clusters, v.dir)
    ensures Listed(v) == DirList(v.clusters, v.dir)
  {
  }

  /** All of a write together, up to the flush. */
  lemma WriteOk(v0: View, v1: View, v2: View, v3: View, cs: nat, p: nat, buf: seq<byte>, j: nat, at: nat, ch: seq<nat>,
                fname: seq<byte>, attrs: byte, file: seq<byte>, e: Listing)
    requires FsOk(v0, cs) && FsOk(v1, cs) && FsOk(v2, cs) && cs > 0 && |ch| == ClustersFor(|file|, cs)
    requires if HasRoom(v0, SlotsFor(|fname|) + 1) then v1 == v0 else p < |v1.dir| && Grew(v0, v1, v1.dir[p], cs)
    requires Building(v1, v2, ch, file + seq(|ch| * cs - |file|, _ => 0))
    requires Planned(v2, cs, p, buf, j, e, ch) && e == Listing(fname, attrs, ch[0], |file|)
    requires DirOk(v2.clusters, v2.dir) && p < |v2.dir| && at == Before(v2.clusters, v2.dir, p) + j <= |v2.files|
    requires v2.dir[p] < |v2.clusters|
    requires v3 == v2.(clusters := v2.clusters[v2.dir[p] := buf], files := InsertAt(v2.files, at, ch))
    ensures FsOk(v3, cs) && Written(v0, v3, cs, at, ch, fname, attrs, file)
  {
    hide FsOk, Wf, List, DirList, Listed, CountFree, Owned, HasRoom, Kept, FileBytes, ClustersFor, Written, InsertAt,
      DirOk, Before;
    DirFacts(v0, cs);
    DirFacts(v1, cs);
    InsertOk(v2, cs, p, buf, j, e, ch, v3);
    OneDirectory(v0, v1, v2, cs, p, ch);
    FileStays(v2, cs, ch, v2.dir[p], buf);
    KeptThrough(v0, v1, v2, v3, cs, p, ch);
    WrittenIs(v0, v1, v2, v3, cs, at, ch, fname, attrs, file);
  }

  lemma WriteDone(v0: View, v1: View, v2: View, v3: View, cs: nat, p: nat, buf: seq<byte>, j: nat, at: nat, ch: seq<nat>,
                  fname: seq<byte>, attrs: byte, file: seq<byte>, e: Listing)
    requires FsOk(v0, cs) && FsOk(v1, cs) && FsOk(v2, cs) && cs > 0 && |ch| == ClustersFor(|file|, cs)
    requires p < |v1.dir| && if HasRoom(v0, SlotsFor(|fname|) + 1) then v1 == v0 else Grew(v0, v1, v1.dir[p], cs)
    requires Building(v1, v2, ch, file + seq(|ch| * cs - |file|, _ => 0))
    requires Planned(v2, cs, p, buf, j, e, ch) && e == Listing(fname, attrs, ch[0], |file|)
    requires DirOk(v2.clusters, v2.dir) && p < |v2.dir| && at == Before(v2.clusters, v2.dir, p) + j <= |v2.files|
    requires v2.dir[p] == v1.dir[p] < |v1.clusters| && v2.dir[p] < |v2.clusters|
    requires v3 == v2.(clusters := v2.clusters[v2.dir[p] := buf], files := InsertAt(v2.files, at, ch))
    ensures FsOk(v3, cs) && Written(v0, v3, cs, at, ch, fname, attrs, file)
    ensures DirWritten(v0, v3, cs, v1.dir[p], v1.clusters[v1.dir[p]])
    ensures |v3.clusters| == |v3.fat| && TableOk(v3.fat) && v3.dir in v3.chains
    ensures forall o | o in v3.files :: o in v3.chains && o != v3.dir && o != []
  {
    hide FsOk, Wf, List, DirList, Listed, CountFree, Owned, HasRoom, Kept, FileBytes, ClustersFor, Written, InsertAt,
      DirOk, Before, Planned, Building, DirWritten, Grew;
    WriteOk(v0, v1, v2, v3, cs, p, buf, j, at, ch, fname, attrs, file, e);
    SizeFacts(v0, cs);
    SizeFacts(v1, cs);
    DirBytes(v0, v1, v2, v3, cs, p, ch, file + seq(|ch| * cs - |file|, _ => 0), buf);
    SizeFacts(v3, cs);
  }

  /** Writing a cluster that is none of its own leaves a file as it is. */
  lemma FileStays(v: View, cs: nat, ch: seq<nat>, d: nat, buf: seq<byte>)
    requires FsOk(v, cs) && ch in v.chains && d < |v.clusters| && d !in ch
    ensures forall c | c in ch :: c < |v.clusters|
    ensures FileBytes(v.clusters[d := buf], ch) == FileBytes(v.clusters, ch)
  {
    hide FsOk, FileBytes;
    ChainFacts(v, cs, ch);
    FileFrame(v.clusters, v.clusters[d := buf], ch);
  }

  /** The parts of what a write achieves, put together. */
  lemma WrittenIs(v0: View, v1: View, v2: View, v3: View, cs: nat, at: nat, ch: seq<nat>, fname: seq<byte>, attrs: byte,
                  file: seq<byte>)
    requires cs > 0 && at <= |v0.files| == |Listed(v0)| && |ch| == ClustersFor(|file|, cs) && ch !in v0.chains
    requires if HasRoom(v0, SlotsFor(|fname|) + 1) then v1 == v0 else exists d :: Grew(v0, v1, d, cs)
    requires Building(v1, v2, ch, file + seq(|ch| * cs - |file|, _ => 0)) && v0.dir in v0.chains && v1.dir in v1.chains
    requires v3.fat == v2.fat && v3.dir == v2.dir && v3.chains == v2.chains && v3.files == InsertAt(v0.files, at, ch)
    requires Listed(v3) == InsertAt(Listed(v0), at, Listing(fname, attrs, ch[0], |file|))
    requires (forall c | c in ch :: c < |v2.clusters| == |v3.clusters|) && FileBytes(v3.clusters, ch) == FileBytes(v2.clusters, ch)
    requires Kept(v0, v3)
    ensures Written(v0, v3, cs, at, ch, fname, attrs, file)
  {
    hide Listed, CountFree, Owned, HasRoom, Kept, FileBytes, ClustersFor, InsertAt, DirOk;
  }

  lemma DirClusterApart(v: View, cs: nat, p: nat, ch: seq<nat>)
    requires FsOk(v, cs) && p < |v.dir| && ch in v.chains && ch != v.dir
    ensures v.dir[p] !in ch
  {
    hide DirOk, FilesOk;
    assert v.dir[p] in v.dir;
    InChainNotIn(v.chains, v.dir, ch, v.dir[p]);
  }

  /** The new chain is none of the old ones, and apart from the directory's clusters. */
  lemma OneDirectory(v0: View, v1: View, v2: View, cs: nat, p: nat, ch: seq<nat>)
    requires p < |v1.dir| && v0.dir != [] && v0.dir in v0.chains
    requires v1 == v0 || (v1.dir == v0.dir + [v1.dir[p]] && v1.chains == v0.chains - {v0.dir} + {v1.dir})
    requires v2.dir == v1.dir && v2.chains == v1.chains + {ch} && ch !in v1.chains
    requires FsOk(v2, cs)
    ensures ch !in v0.chains && v2.dir[p] !in ch
  {
    hide FsOk;
    SizeFacts(v2, cs);
    DirClusterApart(v2, cs, p, ch);
    if ch == v0.dir {
      assert v2.dir[0] in ch;
      DirClusterApart(v2, cs, 0, ch);
    }
  }

  lemma KeptThrough(v0: View, v1: View, v2: View, v3: View, cs: nat, p: nat, ch: seq<nat>)
    requires FsOk(v0, cs) && FsOk(v2, cs) && v0.dir in v0.chains && |v1.clusters| == |v2.clusters|
    requires v1 == v0 || (Kept(v0, v1) && p < |v1.dir| && v1.dir == v0.dir + [v1.dir[p]] && !Owned(v0.chains, v1.dir[p]))
    requires v2.dir == v1.dir && v1.chains <= v2.chains
    requires forall o, c | o in v1.chains && c in o && c < |v2.clusters| :: v2.clusters[c] == v1.clusters[c]
    requires p < |v2.dir| && v2.dir[p] < |v2.clusters| && v3.chains == v2.chains && |v3.clusters| == |v2.clusters|
    requires forall c | 0 <= c < |v2.clusters| && c != v2.dir[p] :: v3.clusters[c] == v2.clusters[c]
    ensures Kept(v0, v3)
  {
    hide FsOk;
    if v1 != v0 {
      UnownedNowhere(v0.chains, v1.dir[p]);
      assert v1.dir[p] in v1.dir;
    }
    forall o | o in v0.chains && o != v0.dir
      ensures o in v1.chains && o != v1.dir && v2.dir[p] !in o
    {
      DirClusterApart(v2, cs, p, o);
    }
  }

  lemma TableSize(fat: seq<nat>)
    requires TableOk(fat)
    ensures |fat| <= EOC
  {
  }

  /** The directory got one cleared cluster more, and nothing else changed. */
  ghost predicate Grew(v: View, v': View, c: nat, cs: nat) {
    && v'.dir == v.dir + [c] && v'.chains == v.chains - {v.dir} + {v'.dir} && v'.files == v.files
    && !Owned(v.chains, c) && CountFree(v'.fat) == CountFree(v.fat) - 1
    && c < |v'.clusters| && v'.clusters[c] == seq(cs, _ => 0)
    && Listed(v') == Listed(v) && Kept(v, v') && DirKept(v, v', c)
  }

  /** The clusters of the directory, but for c, hold what they held. */
  ghost predicate DirKept(v: View, v': View, c: nat) {
    forall e | e in v.dir && e != c && e < |v.clusters| :: e < |v'.clusters| && v'.clusters[e] == v.clusters[e]
  }

  /** What a write finds in cluster c of the directory, and leaves in its other clusters. */
  ghost predicate DirWritten(v: View, v': View, cs: nat, c: nat, slots: seq<byte>) {
    slots == (if c in v.dir && c < |v.clusters| then v.clusters[c] else seq(cs, _ => 0)) && DirKept(v, v', c)
  }

  lemma DirBytes(v0: View, v1: View, v2: View, v3: View, cs: nat, p: nat, ch: seq<nat>, bytes: seq<byte>, buf: seq<byte>)
    requires p < |v1.dir| && v1.dir[p] < |v1.clusters| && v0.dir in v0.chains && v1.dir in v1.chains
    requires v1 == v0 || Grew(v0, v1, v1.dir[p], cs)
    requires Building(v1, v2, ch, bytes) && v3.clusters == v2.clusters[v1.dir[p] := buf]
    ensures DirWritten(v0, v3, cs, v1.dir[p], v1.clusters[v1.dir[p]])
  {
    hide Listed, CountFree, Kept, FileBytes, Owned;
    if v1 != v0 {
      UnownedNowhere(v0.chains, v1.dir[p]);
    }
  }

  lemma DirEnd(v: View, cs: nat)
    requires FsOk(v, cs)
    ensures v.dir != [] && 2 <= LastOf(v.dir) < |v.fat| && v.fat[LastOf(v.dir)] != 0
  {
    hide FsOk, Listed;
    DirFacts(v, cs);
    LastNonzero(v.fat, v.dir);
    ChainFacts(v, cs, v.dir);
    assert LastOf(v.dir) in v.dir;
  }

  /** A cluster taken and linked behind the directory. */
  lemma GrowOk(v: View, v1: View, v2: View, cs: nat, c: nat)
    requires FsOk(v, cs) && FsOk(v1, cs) && 2 <= c < |v.fat| && v1 == Taken(v, c, cs) && v1.chains == v.chains + {[c]}
    requires c < |v1.clusters| && v1.clusters[c] == seq(cs, _ => 0)
    requires Listed(v1) == Listed(v) && !Owned(v.chains, c) && Kept(v, v1) && CountFree(v1.fat) == CountFree(v.fat) - 1
    requires v.dir != [] && LastOf(v.dir) < |v1.fat|
    requires v2 == v1.(fat := v1.fat[LastOf(v.dir) := c], dir := v.dir + [c],
                       chains := v1.chains - {v.dir, [c]} + {v.dir + [c]})
    ensures FsOk(v2, cs) && Grew(v, v2, c, cs)
  {
    hide FsOk, Listed, Owned, Kept, CountFree;
    DirEnd(v1, cs);
    FreshChain(v, cs, c, v1);
    ExtendDirOk(v1, cs, c, v2);
    CountFreeUpdate(v1.fat, LastOf(v.dir), c);
    GrownKept(v, v1, v2, c);
  }

  lemma GrewFacts(v: View, v': View, c: nat, cs: nat)
    requires Grew(v, v', c, cs)
    ensures v'.dir == v.dir + [c]
  {
    hide Kept, DirKept, Listed, CountFree;
  }

  lemma GrewHasRoom(v: View, v': View, c: nat, cs: nat, count: nat)
    requires Grew(v, v', c, cs) && SLOT * count <= cs
    ensures c < |v'.clusters| && FreeRun(v'.clusters[c], 0, count)
  {
    ClearedRoom(v'.clusters[c], count);
  }

  lemma NoRoomStart(v: View, count: nat)
    ensures NoRoomBefore(v, 0, count)
  {
  }

  lemma DirAt(v: View, cs: nat, p: nat)
    requires FsOk(v, cs) && p < |v.dir|
    ensures 2 <= v.dir[p] < |v.fat| == |v.clusters| && |v.clusters[v.dir[p]]| == cs
    ensures v.fat[v.dir[p]] >= EOC <==> p == |v.dir| - 1
    ensures p < |v.dir| - 1 ==> v.fat[v.dir[p]] == v.dir[p + 1]
  {
    hide FilesOk, DirOk, Partition;
    ChainFacts(v, cs, v.dir);
    ChainSteps(v.fat, v.dir, p);
    assert v.dir[p] in v.dir;
  }

  /** RtlCopyMemory of one cluster's share of a file; nothing is copied once the file is full. */
  method CopyPart(file: array<byte>, ptr: nat, copied: nat, bytes: seq<byte>, toCopy: nat, ghost content: seq<byte>)
    requires copied + toCopy <= file.Length <= |content| && toCopy <= |bytes| && (toCopy > 0 ==> ptr == copied)
    requires ptr + |bytes| <= |content| && bytes == content[ptr..ptr + |bytes|] && file[..copied] == content[..copied]
    modifies file
    ensures file[..copied + toCopy] == content[..copied + toCopy]
  {
    if toCopy > 0 {
      ghost var done := file[..copied];
      CopyIn(file, ptr, bytes[..toCopy]);
      assert file[..copied] == done;
      forall k | copied <= k < copied + toCopy
        ensures file[k] == content[k]
      {
        assert file[k] == bytes[..toCopy][k - ptr] == content[ptr..ptr + |bytes|][k - ptr];
      }
      assert file[..copied + toCopy] == file[..copied] + file[copied..copied + toCopy];
    }
  }

  lemma TakenKept(v: View, c: nat, cs: nat)
    requires FsOk(v, cs) && !Owned(v.chains, c)
    ensures Kept(v, Taken(v, c, cs))
  {
    hide FsOk, Owned;
    forall ch, e | ch in v.chains && ch != v.dir && e in ch && e < |v.clusters|
      ensures e < |Taken(v, c, cs).clusters| && Taken(v, c, cs).clusters[e] == v.clusters[e]
    {
      if e == c {
        OwnedBy(v.chains, ch, c);
      }
    }
  }

  lemma GrownKept(v: View, v1: View, v2: View, c: nat)
    requires Kept(v, v1) && v1.dir == v.dir && v1.chains == v.chains + {[c]} && [c] !in v.chains
    requires v2.clusters == v1.clusters && v2.chains == v1.chains - {v1.dir, [c]} + {v1.dir + [c]}
    ensures Kept(v, v2)
  {
  }

  lemma KeptSelf(v: View)
    ensures Kept(v, v)
  {
  }

  lemma FreshChain(v: View, cs: nat, c: nat, v': View)
    requires FsOk(v, cs) && !Owned(v.chains, c) && v'.dir == v.dir && v'.files == v.files
    ensures v.dir != [c] && [c] !in v.files && [c] !in v.chains && c !in v.dir
  {
    hide Partition, DirOk, DirList, Wf;
    FilesInChains(v, cs);
    if [c] in v.chains {
      assert c in [c];
      OwnedBy(v.chains, [c], c);
    }
    if c in v.dir {
      OwnedBy(v.chains, v.dir, c);
    }
  }

  // ----- room in a directory

  ghost predicate NoRoomBefore(v: View, p: nat, count: nat) {
    forall x | 0 <= x < p && x < |v.dir| && v.dir[x] < |v.clusters| :: !Roomy(v.clusters[v.dir[x]], count)
  }

  lemma NoRoomNext(v: View, p: nat, bytes: seq<byte>, count: nat)
    requires NoRoomBefore(v, p, count) && p < |v.dir| && v.dir[p] < |v.clusters| && bytes == v.clusters[v.dir[p]]
    requires forall s: nat :: !FreeRun(bytes, s, count)
    ensures NoRoomBefore(v, p + 1, count)
    ensures p + 1 == |v.dir| ==> !HasRoom(v, count)
  {
  }

  lemma RoomHere(v: View, p: nat, bytes: seq<byte>, s: nat, count: nat)
    requires FreeRun(bytes, s, count)
    ensures p < |v.dir| && v.dir[p] < |v.clusters| && bytes == v.clusters[v.dir[p]] ==> HasRoom(v, count)
  {
    assert Roomy(bytes, count);
  }

  lemma ClearedRoom(bytes: seq<byte>, count: nat)
    requires SLOT * count <= |bytes| && forall i | 0 <= i < |bytes| :: bytes[i] == 0
    ensures FreeRun(bytes, 0, count)
  {
  }

  lemma DirFacts(v: View, cs: nat)
    requires FsOk(v, cs)
    ensures v.dir in v.chains && DirOk(v.clusters, v.dir) && TableOk(v.fat) && |v.clusters| == |v.fat|
    ensures IsChain(v.fat, v.dir) && v.dir != []
    ensures |v.files| == |Listed(v)|
  {
    ChainFacts(v, cs, v.dir);
  }

  /** The mask of FatGetNextClusterID never changes an entry of a sound table. */
  lemma EntryMasked(v: View, cs: nat, c: nat)
    requires FsOk(v, cs) && c < |v.fat|
    ensures v.fat[c] % 0x1000_0000 == v.fat[c]
  {
    hide ClustersOk, Partition, DirOk, FilesOk;
  }

  lemma DirStep(clusters: seq<seq<byte>>, dir: seq<nat>, x: nat)
    requires DirOk(clusters, dir) && x < |dir|
    ensures dir[x] < |clusters| && Wf(clusters[dir[x]], 0)
    ensures DirOk(clusters, dir[..x]) && DirOk(clusters, dir[..x + 1])
    ensures DirList(clusters, dir[..x + 1]) == DirList(clusters, dir[..x]) + List(clusters[dir[x]], 0)
  {
    hide Wf, List, DirOk, DirList;
    DirOkPart(clusters, dir, 0, x + 1);
    LastClusterEntries(clusters, dir[..x + 1]);
    assert dir[..x + 1][..x] == dir[..x];
  }

  /** What the clusters of the directory before cluster x of it list. */
  ghost function ListedBefore(v: View, x: nat): seq<Listing> {
    if x <= |v.dir| && DirOk(v.clusters, v.dir[..x]) then DirList(v.clusters, v.dir[..x]) else []
  }

  lemma ListedEnds(v: View, cs: nat)
    requires FsOk(v, cs)
    ensures ListedBefore(v, 0) == [] && ListedBefore(v, |v.dir|) == Listed(v)
  {
    hide FsOk, DirList, DirOk;
    DirFacts(v, cs);
    NoClusters(v.clusters);
    assert v.dir[..0] == [] && v.dir[..|v.dir|] == v.dir;
  }

  /** Cluster x of the directory: where it lies, what it lists, and what follows it. */
  lemma DirClusterAt(v: View, cs: nat, x: nat)
    requires FsOk(v, cs) && x < |v.dir|
    ensures 2 <= v.dir[x] < |v.fat| == |v.clusters| && |v.clusters[v.dir[x]]| == cs && Wf(v.clusters[v.dir[x]], 0)
    ensures ListedBefore(v, x + 1) == ListedBefore(v, x) + List(v.clusters[v.dir[x]], 0)
    ensures v.fat[v.dir[x]] % 0x1000_0000 >= EOC <==> x == |v.dir| - 1
    ensures x < |v.dir| - 1 ==> v.fat[v.dir[x]] % 0x1000_0000 == v.dir[x + 1]
  {
    hide FsOk, IsChain, Wf, List, DirOk, DirList;
    DirFacts(v, cs);
    DirAt(v, cs, x);
    DirStep(v.clusters, v.dir, x);
    EntryMasked(v, cs, v.dir[x]);
  }

  lemma {:induction false} FilePrefix(clusters: seq<seq<byte>>, ch: seq<nat>, x: nat)
    requires x <= |ch| && forall c | c in ch :: c < |clusters|
    ensures (forall c | c in ch[..x] :: c in ch) && FileBytes(clusters, ch[..x]) <= FileBytes(clusters, ch)
    decreases |ch|
  {
    var n := |ch| - 1;
    assert forall c | c in ch[..x] :: c in ch;
    if x == |ch| {
      assert ch[..x] == ch;
    } else {
      assert forall c | c in ch[..n] :: c in ch;
      assert ch[..n][..x] == ch[..x];
      FilePrefix(clusters, ch[..n], x);
    }
  }

  /** Cluster x of a chain holds the bytes from x times the cluster size on. */
  lemma PartOfFile(clusters: seq<seq<byte>>, ch: seq<nat>, x: nat, cs: nat)
    requires x < |ch| && forall c | c in ch :: c < |clusters| && |clusters[c]| == cs
    ensures ch[x] in ch && x * cs + cs == (x + 1) * cs <= |FileBytes(clusters, ch)|
    ensures FileBytes(clusters, ch)[x * cs..x * cs + cs] == clusters[ch[x]]
  {
    assert ch[x] in ch;
    FilePrefix(clusters, ch, x);
    FilePrefix(clusters, ch, x + 1);
    FileLength(clusters, ch[..x], cs);
    FileAppend(clusters, ch[..x], ch[x]);
    assert ch[..x + 1] == ch[..x] + [ch[x]];
    var whole, start := FileBytes(clusters, ch), x * cs;
    hide FileBytes;
    assert start + cs == (x + 1) * cs;
    assert whole[..start + cs] == whole[..start] + clusters[ch[x]];
  }

  lemma FileSpan(v: View, cs: nat, ch: seq<nat>)
    requires FsOk(v, cs) && ch in v.chains
    ensures ch != [] && forall c | c in ch :: c < |v.clusters|
    ensures |FileBytes(v.clusters, ch)| == |ch| * cs
  {
    hide FsOk;
    ChainFacts(v, cs, ch);
    FileLength(v.clusters, ch, cs);
  }

  // ----- where the bytes of a file are

  /** Byte q of a file is byte q % cs of its cluster q / cs. */
  ghost predicate ByCluster(bytes: seq<byte>, clusters: seq<seq<byte>>, ch: seq<nat>, cs: nat)
    requires cs > 0
  {
    forall q | 0 <= q < |bytes| :: ByteInCluster(bytes[q], clusters, ch, q / cs, q % cs)
  }

  ghost predicate ByteInCluster(b: byte, clusters: seq<seq<byte>>, ch: seq<nat>, x: nat, r: nat) {
    x < |ch| && ch[x] < |clusters| && r < |clusters[ch[x]]| && clusters[ch[x]][r] == b
  }

  lemma Quotient(q: nat, n: nat, cs: nat)
    requires cs > 0 && q < n * cs
    ensures q / cs < n && q == q / cs * cs + q % cs
  {
    if q / cs >= n {
      MulMonotone(n, q / cs, cs);
    }
  }

  lemma FileByte(clusters: seq<seq<byte>>, ch: seq<nat>, cs: nat, q: nat)
    requires cs > 0 && (forall c | c in ch :: c < |clusters| && |clusters[c]| == cs) && q < |FileBytes(clusters, ch)|
    ensures ByteInCluster(FileBytes(clusters, ch)[q], clusters, ch, q / cs, q % cs)
  {
    hide FileBytes;
    FileLength(clusters, ch, cs);
    Quotient(q, |ch|, cs);
    var x, r, start: nat := q / cs, q % cs, q / cs * cs;
    PartOfFile(clusters, ch, x, cs);
    PartByte(FileBytes(clusters, ch), start, r, clusters[ch[x]]);
  }

  lemma PartByte(whole: seq<byte>, start: nat, r: nat, part: seq<byte>)
    requires start + |part| <= |whole| && whole[start..start + |part|] == part && r < |part|
    ensures whole[start + r] == part[r]
  {
  }

  lemma FileByCluster(clusters: seq<seq<byte>>, ch: seq<nat>, cs: nat, size: nat)
    requires cs > 0 && (forall c | c in ch :: c < |clusters| && |clusters[c]| == cs) && size <= |FileBytes(clusters, ch)|
    ensures ByCluster(FileBytes(clusters, ch)[..size], clusters, ch, cs)
  {
    hide FileBytes, ByteInCluster;
    forall q: nat | q < size
      ensures ByteInCluster(FileBytes(clusters, ch)[..size][q], clusters, ch, q / cs, q % cs)
    {
      FileByte(clusters, ch, cs, q);
    }
  }

  lemma FileBytesByCluster(v: View, cs: nat, ch: seq<nat>, size: nat)
    requires FsOk(v, cs) && ch in v.chains && cs > 0 && size <= |FileBytes(v.clusters, ch)|
    ensures ByCluster(FileBytes(v.clusters, ch)[..size], v.clusters, ch, cs)
  {
    hide FsOk, FileBytes, ByCluster;
    ChainFacts(v, cs, ch);
    FileByCluster(v.clusters, ch, cs, size);
  }

  /** Cluster x of a file: where it lies, what it holds, and what follows it. */
  ghost predicate FilePart(v: View, cs: nat, ch: seq<nat>, x: nat) {
    && (forall c | c in ch :: c < |v.clusters|)
    && x < |ch| && 2 <= ch[x] < |v.fat| == |v.clusters| && x * cs + cs == (x + 1) * cs <= |FileBytes(v.clusters, ch)|
    && FileBytes(v.clusters, ch)[x * cs..x * cs + cs] == v.clusters[ch[x]]
    && (v.fat[ch[x]] % 0x1000_0000 >= EOC <==> x == |ch| - 1)
    && (x < |ch| - 1 ==> v.fat[ch[x]] % 0x1000_0000 == ch[x + 1])
    && |FileBytes(v.clusters, ch)| == |ch| * cs
  }

  lemma FileAt(v: View, cs: nat, ch: seq<nat>, x: nat)
    requires FsOk(v, cs) && ch in v.chains && x < |ch|
    ensures FilePart(v, cs, ch, x)
  {
    hide FsOk, IsChain, FileBytes;
    FileSpan(v, cs, ch);
    ChainFacts(v, cs, ch);
    assert ch[x] in ch;
    PartOfFile(v.clusters, ch, x, cs);
    ChainSteps(v.fat, ch, x);
    EntryMasked(v, cs, ch[x]);
  }
}
