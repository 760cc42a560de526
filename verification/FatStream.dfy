/** The stream reader on top of the FAT32 driver. */
module FatStream {
  import opened Bytes
  import opened FatTable
  import opened FatDirectory
  import opened FatDisk
  import opened FatFiles
  import opened FatVolume

  function Position(x: nat, cs: nat, b: nat): nat { x * cs + b }

  function Sum(lengths: seq<nat>): nat {
    if lengths == [] then 0 else Sum(lengths[..|lengths| - 1]) + lengths[|lengths| - 1]
  }

  /** Sum adds all lengths. */
  lemma {:induction false} SumSplit(a: seq<nat>, b: seq<nat>)
    ensures Sum(a + b) == Sum(a) + Sum(b) && forall n: nat :: Sum([n]) == n
  {
    forall n: nat
      ensures Sum([n]) == n
    {
      assert [n][..0] == [];
    }
    if b == [] {
      assert a + b == a;
    } else {
      assert (a + b)[..|a + b| - 1] == a + b[..|b| - 1];
      SumSplit(a, b[..|b| - 1]);
    }
  }

  class File {
    const fs: Volume
    var currCluster: nat
    var fileSize: nat
    var fptr: nat             // index into the file
    var buffptr: nat          // index into currbuf
    var currbuf: seq<byte>
    ghost var ch: seq<nat>    // the file's chain
    ghost var x: nat          // which cluster of it is loaded

    /** The buffer holds cluster x of the file. */
    ghost predicate Loaded()
      reads this, fs, fs.d, fs.d.FAT, fs.d.sectors
    {
      fs.Valid() && LoadedAs(fs.V(), fs.d.g.ClusterSize(), ch, x, currCluster, currbuf, buffptr, fileSize)
    }

    ghost function Pos(): nat
      reads this, fs, fs.d
    {
      Position(x, fs.d.g.ClusterSize(), buffptr)
    }

    ghost predicate Valid()
      reads this, fs, fs.d, fs.d.FAT, fs.d.sectors
    {
      Loaded() && fptr == Pos() <= fileSize
    }

    /** The buffer position is at an end of the cluster, or the file is used up. */
    ghost predicate Aligned()
      reads this, fs, fs.d
    {
      buffptr == 0 || buffptr == fs.d.g.ClusterSize() || fptr == fileSize
    }

    /** What FatReadFile returns for the file. */
    ghost function Content(): seq<byte>
      reads this, fs, fs.d, fs.d.FAT, fs.d.sectors
    {
      if fs.d.g.Ok(fs.d.sectors.Length) then ContentOf(fs.V(), ch, fileSize) else []
    }

    /** fopen once the entry is found. */
    constructor (fs: Volume, entry: Listing, ghost j: nat)
      requires fs.Valid() && j < |fs.files| && |fs.files| == |Listed(fs.V())| && entry == Listed(fs.V())[j]
      ensures Valid() && Aligned() && fptr == 0 && fileSize == entry.fileSize && ch == fs.files[j] && this.fs == fs
      ensures fs.d.g.ClusterSize() > 0 && |Content()| == fileSize
      ensures ByCluster(Content(), fs.d.Clusters(), ch, fs.d.g.ClusterSize())
    {
      hide FsOk, ClustersOf, Listed, Geometry.Ok, Geometry.ClusterSize, ContentOf, ByCluster;
      VolumeFacts(fs);
      FileFacts(fs.V(), fs.d.g.ClusterSize(), j);
      ContentFacts(fs.V(), fs.d.g.ClusterSize(), fs.files[j], entry.fileSize);
      ContentByCluster(fs.V(), fs.d.g.ClusterSize(), fs.files[j], entry.fileSize);
      ChainFacts(fs.V(), fs.d.g.ClusterSize(), fs.files[j]);
      assert fs.files[j][0] in fs.files[j];
      this.fs := fs;
      currCluster, fileSize, fptr, buffptr := entry.firstCluster, entry.fileSize, 0, 0;
      ch, x := fs.files[j], 0;
      var first := fs.d.GetCluster(entry.firstCluster);
      currbuf := first;
    }

    /** memcpy from currbuf + buffptr.  currbuf is an array of 4-byte words, so the offset counts
        words. */
    method Take(count: nat) returns (bytes: seq<byte>)
      requires count > 0 ==> 4 * buffptr + count <= |currbuf|
      ensures bytes == if count > 0 then currbuf[4 * buffptr..4 * buffptr + count] else []
    {
      bytes := if count > 0 then currbuf[4 * buffptr..4 * buffptr + count] else [];
    }

    /** One round of the loop of fread at the end of a cluster: its rest, and the next one is loaded. */
    method ToNextCluster(left: nat) returns (piece: seq<byte>)
      requires Loaded() && 0 < left && (buffptr == 0 || buffptr == fs.d.g.ClusterSize()) && Pos() + left <= fileSize
      requires buffptr + left > fs.d.g.ClusterSize()
      modifies this`currCluster, this`currbuf, this`buffptr, this`x
      ensures Loaded() && Pos() == old(Pos()) + |piece| && |piece| <= left && x == old(x) + 1 && buffptr == 0
      ensures old(Pos()) + |piece| <= |Content()| && piece == Content()[old(Pos())..old(Pos()) + |piece|]
      ensures x < |ch|
    {
      hide FsOk, ClustersOf, TableOk, Volume.Valid, Disk.Mounted, Disk.Table, Disk.Clusters, LoadedAs, ContentOf,
        Position, Geometry.Ok, Geometry.ClusterSize, Cut;
      VolumeFacts(fs);
      ghost var cs: nat, v, pos := fs.d.g.ClusterSize(), fs.V(), Pos();
      RoundFacts(v, cs, ch, x, currCluster, currbuf, buffptr, fileSize, left);
      var toRead: nat := fs.d.g.ClusterSize() - buffptr;
      piece := Take(toRead);
      CutIs(currbuf, 0, toRead);
      CutIs(Content(), pos, toRead);
      buffptr := 0;
      currCluster := fs.NextCluster(currCluster);
      x := x + 1;
      var next := fs.d.GetCluster(currCluster);
      currbuf := next;
    }

    /** One round of the loop of fread that ends within the cluster. */
    method WithinCluster(left: nat) returns (piece: seq<byte>)
      requires Loaded() && 0 < left && (buffptr == 0 || buffptr == fs.d.g.ClusterSize()) && Pos() + left <= fileSize
      requires buffptr + left <= fs.d.g.ClusterSize()
      modifies this`buffptr
      ensures Loaded() && Pos() == old(Pos()) + |piece| && |piece| == left && buffptr <= fs.d.g.ClusterSize()
      ensures old(Pos()) + |piece| <= |Content()| && piece == Content()[old(Pos())..old(Pos()) + |piece|]
      ensures x < |ch|
    {
      hide FsOk, ClustersOf, TableOk, Volume.Valid, Disk.Mounted, Disk.Table, Disk.Clusters, LoadedAs, ContentOf,
        Position, Geometry.Ok, Geometry.ClusterSize, Cut;
      VolumeFacts(fs);
      ghost var cs: nat, v, pos := fs.d.g.ClusterSize(), fs.V(), Pos();
      LoadedFacts(v, cs, ch, x, currCluster, currbuf, buffptr, fileSize);
      RoundFacts(v, cs, ch, x, currCluster, currbuf, buffptr, fileSize, left);
      piece := Take(left);
      CutIs(currbuf, 0, left);
      CutIs(Content(), pos, left);
      buffptr := buffptr + left;
    }

    method Round(left: nat) returns (piece: seq<byte>)
      requires Loaded() && 0 < left && (buffptr == 0 || buffptr == fs.d.g.ClusterSize()) && Pos() + left <= fileSize
      modifies this`currCluster, this`currbuf, this`buffptr, this`x
      ensures Loaded() && Pos() == old(Pos()) + |piece| && |piece| <= left
      ensures old(Pos()) + |piece| <= |Content()| && piece == Content()[old(Pos())..old(Pos()) + |piece|]
      ensures |piece| < left ==> buffptr == 0 && x == old(x) + 1
      ensures x < |ch| && buffptr <= fs.d.g.ClusterSize()
    {
      hide FsOk, ClustersOf, Volume.Valid, Disk.Table, LoadedAs, ContentOf, Position, Geometry.Ok,
        Geometry.ClusterSize;
      if buffptr + left > fs.d.g.ClusterSize() {
        piece := ToNextCluster(left);
      } else {
        piece := WithinCluster(left);
      }
    }

    /** fread; `want` is the product of its two int arguments. */
    method Read(want: nat) returns (bytes: seq<byte>)
      requires Valid() && Aligned() && want < 0x8000_0000 && fileSize < 0x8000_0000
      modifies this
      ensures Valid() && ch == old(ch) && fileSize == old(fileSize) && Content() == old(Content())
      ensures |Content()| == fileSize && old(fptr) + |bytes| <= fileSize && fptr == old(fptr) + |bytes|
      ensures |bytes| == if want < fileSize - old(fptr) then want else fileSize - old(fptr)
      ensures forall k | 0 <= k < |bytes| :: bytes[k] == Content()[old(fptr) + k]
      ensures WholeClusters(want, fs.d.g.ClusterSize()) ==> Aligned()
    {
      hide FsOk, ClustersOf, TableOk, Volume.Valid, Disk.Mounted, Disk.Table, Disk.Clusters, LoadedAs, ContentOf,
        Position, Geometry.Ok, Geometry.ClusterSize, WholeClusters;
      VolumeFacts(fs);
      ghost var cs: nat, v, start: nat, content := fs.d.g.ClusterSize(), fs.V(), fptr, Content();
      LoadedFacts(v, cs, ch, x, currCluster, currbuf, buffptr, fileSize);
      var left: nat := want;
      if fptr + left > fileSize {
        left := fileSize - fptr;
      }
      ghost var total, x0, b0 := left, x, buffptr;
      bytes := [];
      while left > 0
        invariant Loaded() && fs.V() == v && x < |ch| && buffptr <= cs
        invariant ch == old(ch) && fileSize == old(fileSize) && fptr == start
        invariant |bytes| + left == total && start + total <= |content|
        invariant Pos() == start + |bytes| && bytes == content[start..start + |bytes|]
        invariant left > 0 ==> buffptr == 0 || buffptr == cs
        decreases left, |ch| - x
      {
        ghost var at := Pos();
        var piece := Round(left);
        JoinSlices(content, start, at, at + |piece|);
        bytes := bytes + piece;
        left := left - |piece|;
      }
      fptr := fptr + |bytes|;
      if WholeClusters(want, cs) && fptr != fileSize {
        Boundary(x0, b0, x, buffptr, want, cs);
      }
    }

    /** Any sequence of reads whose lengths are multiples of the cluster size gives consecutive
        slices: together they are one read of the sum. */
    method ReadMany(lengths: seq<nat>) returns (bytes: seq<byte>)
      requires Valid() && Aligned()
      requires fileSize < 0x8000_0000
      requires forall i | 0 <= i < |lengths| :: lengths[i] < 0x8000_0000 && WholeClusters(lengths[i], fs.d.g.ClusterSize())
      modifies this
      ensures Valid() && Aligned() && ch == old(ch) && fileSize == old(fileSize) && Content() == old(Content())
      ensures |Content()| == fileSize && old(fptr) + |bytes| <= fileSize && fptr == old(fptr) + |bytes|
      ensures |bytes| == if Sum(lengths) < fileSize - old(fptr) then Sum(lengths) else fileSize - old(fptr)
      ensures forall k | 0 <= k < |bytes| :: bytes[k] == Content()[old(fptr) + k]
    {
      hide FsOk, ClustersOf, TableOk, Volume.Valid, Disk.Mounted, Disk.Table, Disk.Clusters, LoadedAs, ContentOf,
        Position, Geometry.Ok, Geometry.ClusterSize, WholeClusters;
      VolumeFacts(fs);
      ghost var content, start := Content(), fptr;
      LoadedFacts(fs.V(), fs.d.g.ClusterSize(), ch, x, currCluster, currbuf, buffptr, fileSize);
      bytes := [];
      var i := 0;
      while i < |lengths|
        invariant 0 <= i <= |lengths| && Valid() && Aligned() && ch == old(ch) && fileSize == old(fileSize)
        invariant Content() == content && fptr == start + |bytes| <= fileSize
        invariant |bytes| == if Sum(lengths[..i]) < fileSize - start then Sum(lengths[..i]) else fileSize - start
        invariant forall k | 0 <= k < |bytes| :: bytes[k] == content[start + k]
      {
        assert lengths[..i + 1][..i] == lengths[..i];
        var piece := Read(lengths[i]);
        bytes := bytes + piece;
        i := i + 1;
      }
      assert lengths[..i] == lengths;
    }
  }

  lemma VolumeFacts(fs: Volume)
    requires fs.Valid()
    ensures fs.d.g.Ok(fs.d.sectors.Length) && FsOk(fs.V(), fs.d.g.ClusterSize())
    ensures |fs.d.Table()| <= EOC && fs.d.g.ClusterSize() > 0 && fs.V().fat == fs.d.Table() && |fs.d.Table()| == fs.d.g.Limit()
  {
    hide FsOk, ClustersOf;
  }

  /** currbuf is declared as an array of words, so memcpy starts at byte 4 * buffptr.  That is
      right for every buffer exactly when the stream stands at the start of a cluster (or nothing
      is copied). */
  lemma ScaledOffset(b: nat, n: nat, m: nat)
    requires 4 * b + n <= m
    ensures (forall buf: seq<byte> | |buf| == m :: Cut(buf, 4 * b, n) == Cut(buf, b, n)) <==> b == 0 || n == 0
  {
    if b != 0 && n != 0 {
      var buf: seq<byte> := seq(m, i => if i == b then 1 else 0);
      assert Cut(buf, b, n)[0] == 1 && Cut(buf, 4 * b, n)[0] == 0;
    }
  }

  lemma JoinSlices(s: seq<byte>, a: nat, b: nat, c: nat)
    requires a <= b <= c <= |s|
    ensures s[a..b] + s[b..c] == s[a..c]
  {
  }

  ghost predicate WholeClusters(n: nat, cs: nat) {
    exists k: nat :: n == Times(k, cs)
  }

  function Times(k: nat, cs: nat): nat { k * cs }

  lemma MultipleBounds(k: int, cs: nat)
    ensures k >= 2 ==> k * cs >= 2 * cs
    ensures k <= -1 ==> k * cs <= -1 * cs
  {
  }

  lemma SmallMultiple(k: int, cs: nat, b: nat)
    requires cs > 0 && k * cs == b <= cs
    ensures b == 0 || b == cs
  {
    MultipleBounds(k, cs);
  }

  /** A read of whole clusters from a cluster boundary ends on one. */
  lemma Boundary(x0: nat, b0: nat, x: nat, b: nat, want: nat, cs: nat)
    requires cs > 0 && (b0 == 0 || b0 == cs) && b <= cs && WholeClusters(want, cs)
    requires Position(x, cs, b) == Position(x0, cs, b0) + want
    ensures b == 0 || b == cs
  {
    var k: nat :| want == Times(k, cs);
    var o := if b0 == 0 then 0 else 1;
    var n := x0 + o + k - x;
    assert n * cs == x0 * cs + o * cs + k * cs - x * cs;
    SmallMultiple(n, cs, b);
  }

  ghost function ContentOf(v: View, ch: seq<nat>, size: nat): seq<byte> {
    if (forall c | c in ch :: c < |v.clusters|) && size <= |FileBytes(v.clusters, ch)| then FileBytes(v.clusters, ch)[..size] else []
  }

  /** The n bytes at `at`, if there are so many. */
  function Cut(s: seq<byte>, at: nat, n: nat): seq<byte> {
    if at + n <= |s| then s[at..at + n] else []
  }

  lemma CutIs(s: seq<byte>, at: nat, n: nat)
    ensures at + n <= |s| ==> Cut(s, at, n) == s[at..at + n]
  {
  }

  lemma LoadedFacts(v: View, cs: nat, ch: seq<nat>, x: nat, curr: nat, buf: seq<byte>, b: nat, size: nat)
    requires FsOk(v, cs) && LoadedAs(v, cs, ch, x, curr, buf, b, size)
    ensures |ContentOf(v, ch, size)| == size && b <= cs && x < |ch|
  {
    hide FsOk, ContentOf;
    ContentFacts(v, cs, ch, size);
  }

  /** Cluster x of the chain is the current one, and the buffer holds it. */
  ghost predicate LoadedAs(v: View, cs: nat, ch: seq<nat>, x: nat, curr: nat, buf: seq<byte>, b: nat, size: nat) {
    && ch in v.chains && x < |ch| && curr == ch[x] && curr < |v.clusters| && buf == v.clusters[curr]
    && b <= cs && size <= |ch| * cs
  }

  /** What one round of fread copies, and where it leaves the stream. */
  lemma RoundFacts(v: View, cs: nat, ch: seq<nat>, x: nat, curr: nat, buf: seq<byte>, b: nat, size: nat, left: nat)
    requires FsOk(v, cs) && cs > 0 && LoadedAs(v, cs, ch, x, curr, buf, b, size)
    requires left > 0 && (b == 0 || b == cs) && Position(x, cs, b) + left <= size
    ensures curr < |v.fat| && |buf| == cs && |ContentOf(v, ch, size)| == size
    ensures b + left > cs ==> x + 1 < |ch|
    ensures b + left > cs ==>
              var next := v.fat[curr] % 0x1000_0000;
              && 2 <= next < |v.clusters| == |v.fat|
              && LoadedAs(v, cs, ch, x + 1, next, v.clusters[next], 0, size)
              && Position(x + 1, cs, 0) == Position(x, cs, b) + (cs - b)
              && (b == 0 ==> Cut(buf, 0, cs) == Cut(ContentOf(v, ch, size), Position(x, cs, 0), cs))
    ensures b + left <= cs ==>
              && b == 0 && Position(x, cs, b + left) == Position(x, cs, b) + left
              && LoadedAs(v, cs, ch, x, curr, buf, b + left, size)
              && Cut(buf, 0, left) == Cut(ContentOf(v, ch, size), Position(x, cs, 0), left)
  {
    hide FsOk, FileBytes, IsChain, ContentOf;
    ChainFacts(v, cs, ch);
    ContentFacts(v, cs, ch, size);
    PartOfFile(v.clusters, ch, x, cs);
    WithinChain(ch, x, cs, x * cs + b + left);
    ChainSteps(v.fat, ch, x);
    EntryMasked(v, cs, ch[x]);
    if x + 1 < |ch| {
      assert ch[x + 1] in ch;
    }
    CutCut(FileBytes(v.clusters, ch), size, x * cs, v.clusters[ch[x]], if b + left > cs then cs else left, b);
  }

  lemma CutCut(whole: seq<byte>, size: nat, at: nat, part: seq<byte>, n: nat, b: nat)
    requires size <= |whole| && n <= |part| && at + |part| <= |whole| && whole[at..at + |part|] == part
    ensures b == 0 && at + n <= size ==> part[0..n] == whole[..size][at..at + n]
  {
  }

  /** A position inside the file is no further than the clusters of its chain reach. */
  lemma WithinChain(ch: seq<nat>, x: nat, cs: nat, end: nat)
    requires x < |ch| && end <= |ch| * cs
    ensures x + 1 == |ch| ==> end <= x * cs + cs
    ensures x * cs + cs == (x + 1) * cs
  {
  }

  lemma ContentByCluster(v: View, cs: nat, ch: seq<nat>, size: nat)
    requires FsOk(v, cs) && ch in v.chains && size <= |ch| * cs && cs > 0
    ensures ByCluster(ContentOf(v, ch, size), v.clusters, ch, cs)
  {
    hide FsOk, FileBytes, ByCluster;
    ChainFacts(v, cs, ch);
    FileLength(v.clusters, ch, cs);
    FileByCluster(v.clusters, ch, cs, size);
  }

  lemma ContentFacts(v: View, cs: nat, ch: seq<nat>, size: nat)
    requires FsOk(v, cs) && ch in v.chains && size <= |ch| * cs
    ensures |ContentOf(v, ch, size)| == size
    ensures forall c | c in ch :: c < |v.clusters|
    ensures size <= |FileBytes(v.clusters, ch)| && ContentOf(v, ch, size) == FileBytes(v.clusters, ch)[..size]
  {
    hide FsOk, FileBytes;
    ChainFacts(v, cs, ch);
    FileLength(v.clusters, ch, cs);
  }
}
