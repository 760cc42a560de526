/** A directory and its files as values: what the table, the clusters and the directory
    entries say together, and which changes keep them in agreement. */
module FatFiles {
  import opened Bytes
  import opened FatTable
  import opened FatDirectory

  /** `dir` is the chain of the directory, files[j] the chain of its j-th entry; `chains` are all
      chains of the volume, those of other directories included. */
  datatype View = View(fat: seq<nat>, clusters: seq<seq<byte>>, dir: seq<nat>, files: seq<seq<nat>>,
                       chains: set<seq<nat>>)

  ghost predicate DirOk(clusters: seq<seq<byte>>, dir: seq<nat>) {
    forall c | c in dir :: c < |clusters| && Wf(clusters[c], 0)
  }

  /** What reading the directory from its first cluster to its last lists. */
  ghost function DirList(clusters: seq<seq<byte>>, dir: seq<nat>): seq<Listing>
    requires DirOk(clusters, dir)
  {
    if dir == [] then []
    else
      var n := |dir| - 1;
      assert dir[n] in dir && forall c | c in dir[..n] :: c in dir;
      DirList(clusters, dir[..n]) + List(clusters[dir[n]], 0)
  }

  function FileBytes(clusters: seq<seq<byte>>, ch: seq<nat>): seq<byte>
    requires forall c | c in ch :: c < |clusters|
  {
    if ch == [] then []
    else
      var n := |ch| - 1;
      assert ch[n] in ch && forall c | c in ch[..n] :: c in ch;
      FileBytes(clusters, ch[..n]) + clusters[ch[n]]
  }

  ghost predicate FileOk(v: View, cs: nat, list: seq<Listing>, j: nat)
    requires j < |v.files| && j < |list|
  {
    var ch := v.files[j];
    ch in v.chains && ch != v.dir && ch != [] && ch[0] == list[j].firstCluster && list[j].fileSize <= |ch| * cs
  }

  ghost predicate FilesOk(v: View, cs: nat)
    requires DirOk(v.clusters, v.dir)
  {
    var list := DirList(v.clusters, v.dir);
    && |v.files| == |list|
    && (forall j: nat | j < |v.files| :: FileOk(v, cs, list, j))
    && (forall i, j | 0 <= i < j < |v.files| :: v.files[i] != v.files[j])
  }

  ghost predicate ClustersOk(v: View, cs: nat) {
    |v.clusters| == |v.fat| && forall c | 2 <= c < |v.clusters| :: |v.clusters[c]| == cs
  }

  ghost predicate FsOk(v: View, cs: nat) {
    && TableOk(v.fat)
    && ClustersOk(v, cs)
    && Partition(v.fat, v.chains)
    && v.dir in v.chains
    && DirOk(v.clusters, v.dir)
    && FilesOk(v, cs)
  }

  ghost function Listed(v: View): seq<Listing> {
    if DirOk(v.clusters, v.dir) then DirList(v.clusters, v.dir) else []
  }

  // ----- directory lists

  lemma {:induction false} DirFrame(clusters: seq<seq<byte>>, clusters': seq<seq<byte>>, dir: seq<nat>)
    requires DirOk(clusters, dir) && forall c | c in dir :: c < |clusters'| && clusters'[c] == clusters[c]
    ensures DirOk(clusters', dir) && DirList(clusters', dir) == DirList(clusters, dir)
  {
    if dir != [] {
      var n := |dir| - 1;
      assert dir[n] in dir && forall c | c in dir[..n] :: c in dir;
      DirFrame(clusters, clusters', dir[..n]);
    }
  }

  lemma DirOkJoin(clusters: seq<seq<byte>>, a: seq<nat>, b: seq<nat>)
    requires DirOk(clusters, a) && DirOk(clusters, b)
    ensures DirOk(clusters, a + b)
  {
  }

  lemma NoClusters(clusters: seq<seq<byte>>)
    ensures DirOk(clusters, []) && DirList(clusters, []) == []
  {
  }

  /** The entries of a directory end with those of its last cluster. */
  lemma LastClusterEntries(clusters: seq<seq<byte>>, dir: seq<nat>)
    requires DirOk(clusters, dir) && dir != []
    ensures var n := |dir| - 1;
            && DirOk(clusters, dir[..n]) && dir[n] < |clusters| && Wf(clusters[dir[n]], 0)
            && DirList(clusters, dir) == DirList(clusters, dir[..n]) + List(clusters[dir[n]], 0)
  {
    hide Wf, List;
    assert dir[|dir| - 1] in dir;
    DirOkPart(clusters, dir, 0, |dir| - 1);
  }

  lemma {:induction false} DirConcat(clusters: seq<seq<byte>>, a: seq<nat>, b: seq<nat>)
    requires DirOk(clusters, a) && DirOk(clusters, b)
    ensures DirOk(clusters, a + b) && DirList(clusters, a + b) == DirList(clusters, a) + DirList(clusters, b)
  {
    hide Wf, List, DirOk, DirList;
    DirOkJoin(clusters, a, b);
    if b == [] {
      assert a + b == a;
      NoClusters(clusters);
    } else {
      var n := |b| - 1;
      assert (a + b)[..|a + b| - 1] == a + b[..n];
      DirOkPart(clusters, b, 0, n);
      DirConcat(clusters, a, b[..n]);
      LastClusterEntries(clusters, b);
      LastClusterEntries(clusters, a + b);
    }
  }

  lemma DirOne(clusters: seq<seq<byte>>, c: nat)
    requires c < |clusters| && Wf(clusters[c], 0)
    ensures DirOk(clusters, [c]) && DirList(clusters, [c]) == List(clusters[c], 0)
  {
    assert [c][..0] == [];
  }

  lemma DirOkPart(clusters: seq<seq<byte>>, dir: seq<nat>, x: nat, y: nat)
    requires DirOk(clusters, dir) && x <= y <= |dir|
    ensures DirOk(clusters, dir[x..y])
  {
    forall c | c in dir[x..y]
      ensures c < |clusters| && Wf(clusters[c], 0)
    {
      assert c in dir;
    }
  }

  /** How many entries lie before cluster p of the directory. */
  ghost function Before(clusters: seq<seq<byte>>, dir: seq<nat>, p: nat): nat
    requires DirOk(clusters, dir) && p <= |dir|
  {
    DirOkPart(clusters, dir, 0, p);
    |DirList(clusters, dir[..p])|
  }

  /** The directory list around the entries of cluster p. */
  lemma DirOkSides(clusters: seq<seq<byte>>, dir: seq<nat>, p: nat)
    requires DirOk(clusters, dir) && p < |dir|
    ensures DirOk(clusters, dir[..p]) && DirOk(clusters, dir[p + 1..])
  {
    hide Wf, DirOk;
    DirOkPart(clusters, dir, 0, p);
    DirOkPart(clusters, dir, p + 1, |dir|);
    assert dir[0..p] == dir[..p] && dir[p + 1..|dir|] == dir[p + 1..];
  }

  lemma ClusterListed(clusters: seq<seq<byte>>, dir: seq<nat>, p: nat)
    requires DirOk(clusters, dir) && p < |dir|
    ensures dir[p] < |clusters| && Wf(clusters[dir[p]], 0)
  {
    hide Wf;
    assert dir[p] in dir;
  }

  lemma DirAround(clusters: seq<seq<byte>>, dir: seq<nat>, p: nat)
    requires DirOk(clusters, dir) && p < |dir|
    ensures dir[p] < |clusters| && Wf(clusters[dir[p]], 0)
    ensures DirOk(clusters, dir[..p]) && DirOk(clusters, dir[p + 1..])
    ensures DirList(clusters, dir) == DirList(clusters, dir[..p]) + List(clusters[dir[p]], 0) + DirList(clusters, dir[p + 1..])
  {
    hide Wf, List, DirList, DirOk;
    DirOkSides(clusters, dir, p);
    ClusterListed(clusters, dir, p);
    DirOne(clusters, dir[p]);
    DirThree(clusters, dir[..p], [dir[p]], dir[p + 1..]);
    assert dir == dir[..p] + [dir[p]] + dir[p + 1..];
  }

  lemma DirThree(clusters: seq<seq<byte>>, a: seq<nat>, b: seq<nat>, c: seq<nat>)
    requires DirOk(clusters, a) && DirOk(clusters, b) && DirOk(clusters, c)
    ensures DirOk(clusters, a + b + c)
    ensures DirList(clusters, a + b + c) == DirList(clusters, a) + DirList(clusters, b) + DirList(clusters, c)
  {
    hide DirOk, DirList;
    DirConcat(clusters, a, b);
    DirConcat(clusters, a + b, c);
  }

  /** Replacing cluster p of the directory replaces its entries in the list. */
  lemma DirUpdate(clusters: seq<seq<byte>>, dir: seq<nat>, p: nat, buf: seq<byte>)
    requires DirOk(clusters, dir) && p < |dir| && Wf(buf, 0)
    requires forall x, y | 0 <= x < y < |dir| :: dir[x] != dir[y]
    ensures dir[p] < |clusters| && Wf(clusters[dir[p]], 0)
    ensures DirOk(clusters, dir[..p]) && DirOk(clusters, dir[p + 1..])
    ensures DirOk(clusters[dir[p] := buf], dir)
    ensures DirList(clusters[dir[p] := buf], dir)
         == DirList(clusters, dir[..p]) + List(buf, 0) + DirList(clusters, dir[p + 1..])
  {
    hide Wf, List, DirList;
    assert dir[p] in dir;
    var clusters' := clusters[dir[p] := buf];
    DirAround(clusters, dir, p);
    forall c | c in dir
      ensures c < |clusters'| && Wf(clusters'[c], 0)
    {
    }
    DirAround(clusters', dir, p);
    DirFrame(clusters, clusters', dir[..p]);
    DirFrame(clusters, clusters', dir[p + 1..]);
  }

  // ----- file contents

  lemma {:induction false} FileFrame(clusters: seq<seq<byte>>, clusters': seq<seq<byte>>, ch: seq<nat>)
    requires forall c | c in ch :: c < |clusters| && c < |clusters'| && clusters'[c] == clusters[c]
    ensures FileBytes(clusters', ch) == FileBytes(clusters, ch)
  {
    if ch != [] {
      var n := |ch| - 1;
      assert ch[n] in ch && forall c | c in ch[..n] :: c in ch;
      FileFrame(clusters, clusters', ch[..n]);
    }
  }

  lemma OneMore(n: nat, cs: nat)
    ensures n * cs + cs == (n + 1) * cs
  {
  }

  lemma {:induction false} FileLength(clusters: seq<seq<byte>>, ch: seq<nat>, cs: nat)
    requires forall c | c in ch :: c < |clusters| && |clusters[c]| == cs
    ensures |FileBytes(clusters, ch)| == |ch| * cs
  {
    if ch != [] {
      var n: nat := |ch| - 1;
      assert ch[n] in ch;
      forall c | c in ch[..n]
        ensures c in ch
      {
      }
      FileLength(clusters, ch[..n], cs);
      OneMore(n, cs);
    }
  }

  lemma FileAppend(clusters: seq<seq<byte>>, ch: seq<nat>, c: nat)
    requires c < |clusters| && forall d | d in ch :: d < |clusters|
    ensures FileBytes(clusters, ch + [c]) == FileBytes(clusters, ch) + clusters[c]
  {
    assert (ch + [c])[..|ch|] == ch;
  }

  // ----- facts

  lemma ChainFacts(v: View, cs: nat, ch: seq<nat>)
    requires FsOk(v, cs) && ch in v.chains
    ensures IsChain(v.fat, ch) && ch != [] && |v.clusters| == |v.fat| <= EOC
    ensures forall c | c in ch :: 2 <= c < |v.clusters| && |v.clusters[c]| == cs
    ensures forall x, y | 0 <= x < y < |ch| :: ch[x] != ch[y]
  {
    assert IsChain(v.fat, ch);
    forall x, y | 0 <= x < y < |ch|
      ensures ch[x] != ch[y]
    {
      NoRepeat(v.chains, ch, x, y);
    }
  }

  lemma FileFacts(v: View, cs: nat, j: nat)
    requires FsOk(v, cs) && j < |v.files|
    ensures |v.files| == |Listed(v)| && v.files[j] in v.chains && v.files[j] != v.dir && v.files[j] != []
    ensures v.files[j][0] == Listed(v)[j].firstCluster && Listed(v)[j].fileSize <= |v.files[j]| * cs
  {
    assert FileOk(v, cs, Listed(v), j);
  }

  /** The same directory list with other chains around it. */
  lemma FilesFrame(v: View, v': View, cs: nat)
    requires DirOk(v.clusters, v.dir) && FilesOk(v, cs) && DirOk(v'.clusters, v'.dir)
    requires Listed(v') == Listed(v) && v'.files == v.files
    requires forall ch | ch in v.files :: ch in v'.chains && ch != v'.dir
    ensures FilesOk(v', cs)
  {
    forall j: nat | j < |v'.files|
      ensures FileOk(v', cs, Listed(v'), j)
    {
      assert FileOk(v, cs, Listed(v), j) && v.files[j] in v.files;
    }
  }

  lemma InChainNotIn(chains: set<seq<nat>>, a: seq<nat>, b: seq<nat>, c: nat)
    requires Disjoint(chains) && a in chains && b in chains && a != b && c in a
    ensures c !in b
  {
    if c in b {
      SharedCluster(chains, a, b, c);
    }
  }

  /** A volume on which nothing has been written yet: the directory is cluster 2, cleared, and
      every cluster behind it is free. */
  lemma EmptyVolumeOk(fat: seq<nat>, clusters: seq<seq<byte>>, cs: nat)
    requires 3 <= |fat| <= EOC && fat[0] == fat[1] == fat[2] == LAST && forall c | 3 <= c < |fat| :: fat[c] == 0
    requires |clusters| == |fat| && forall c | 2 <= c < |clusters| :: clusters[c] == seq(cs, _ => 0)
    ensures FsOk(View(fat, clusters, [2], [], {[2]}), cs)
    ensures Listed(View(fat, clusters, [2], [], {[2]})) == [] && CountFree(fat) == |fat| - 3
  {
    hide Wf, List;
    ClearedCluster(clusters[2], 0);
    DirOne(clusters, 2);
    OwnedBy({[2]}, [2], 2);
    FreeFrom(fat, |fat|);
    assert fat[..|fat|] == fat;
  }

  lemma {:induction false} FreeFrom(fat: seq<nat>, n: nat)
    requires n <= |fat| && forall c | 0 <= c < |fat| :: fat[c] == 0 <==> c >= 3
    ensures CountFree(fat[..n]) == if n < 3 then 0 else n - 3
  {
    if n > 0 {
      assert fat[..n][..n - 1] == fat[..n - 1];
      FreeFrom(fat, n - 1);
    }
  }

  // ----- the steps of a write

  /** A free cluster becomes a chain of its own, cleared. */
  function Taken(v: View, c: nat, cs: nat): View {
    if c < |v.fat| && c < |v.clusters| then
      v.(fat := v.fat[c := LAST], clusters := v.clusters[c := seq(cs, _ => 0)], chains := v.chains + {[c]})
    else v
  }

  lemma AllocOk(v: View, cs: nat, c: nat)
    requires FsOk(v, cs) && 2 <= c < |v.fat| && v.fat[c] == 0
    ensures FsOk(Taken(v, c, cs), cs) && Listed(Taken(v, c, cs)) == Listed(v) && !Owned(v.chains, c)
  {
    hide Partition, FilesOk, DirList;
    var v' := Taken(v, c, cs);
    NewChain(v.fat, v.chains, c);
    if c in v.dir {
      OwnedBy(v.chains, v.dir, c);
    }
    DirFrame(v.clusters, v'.clusters, v.dir);
    FilesInChains(v, cs);
    FilesFrame(v, v', cs);
  }

  lemma FilesInChains(v: View, cs: nat)
    requires DirOk(v.clusters, v.dir) && FilesOk(v, cs)
    ensures forall ch | ch in v.files :: ch in v.chains && ch != v.dir && ch != []
    ensures |v.files| == |Listed(v)|
  {
    forall ch | ch in v.files
      ensures ch in v.chains && ch != v.dir && ch != []
    {
      var j :| 0 <= j < |v.files| && v.files[j] == ch;
      assert FileOk(v, cs, Listed(v), j);
    }
  }

  /** Writing a cluster that is not the directory's. */
  lemma PutOk(v: View, cs: nat, ch: seq<nat>, c: nat, buf: seq<byte>, v': View)
    requires FsOk(v, cs) && ch in v.chains && ch != v.dir && c in ch && |buf| == cs && c < |v.clusters|
    requires v' == v.(clusters := v.clusters[c := buf])
    ensures FsOk(v', cs) && Listed(v') == Listed(v)
    ensures forall o | o in v.chains && o != ch :: c !in o
  {
    hide FilesOk, DirList, Wf, Disjoint, Owned, IsChain;
    forall o | o in v.chains && o != ch
      ensures c !in o
    {
      InChainNotIn(v.chains, ch, o, c);
    }
    DirFrame(v.clusters, v'.clusters, v.dir);
    FilesInChains(v, cs);
    FilesFrame(v, v', cs);
  }

  /** Linking a fresh cluster to the end of a chain that is no file of the directory yet. */
  lemma LinkOk(v: View, cs: nat, a: seq<nat>, c: nat, v': View)
    requires FsOk(v, cs) && a in v.chains && [c] in v.chains && a != [c] && a != [] && LastOf(a) < |v.fat|
    requires a != v.dir && [c] != v.dir && a !in v.files && [c] !in v.files
    requires v' == v.(fat := v.fat[LastOf(a) := c], chains := v.chains - {a, [c]} + {a + [c]})
    ensures FsOk(v', cs) && Listed(v') == Listed(v)
  {
    hide FilesOk, DirList, DirOk, Disjoint, Owned, IsChain;
    ChainFacts(v, cs, a);
    ChainFacts(v, cs, [c]);
    assert LastOf(a) in a && c in [c];
    LinkChain(v.fat, v.chains, a, c);
    FilesInChains(v, cs);
    FilesFrame(v, v', cs);
  }

  /** The directory grows by a cleared cluster. */
  lemma ExtendDirOk(v: View, cs: nat, c: nat, v': View)
    requires FsOk(v, cs) && [c] in v.chains && v.dir != [c] && v.dir != [] && [c] !in v.files && LastOf(v.dir) < |v.fat|
    requires c < |v.clusters| && forall i | 0 <= i < |v.clusters[c]| :: v.clusters[c][i] == 0
    requires v' == v.(fat := v.fat[LastOf(v.dir) := c], dir := v.dir + [c],
                      chains := v.chains - {v.dir, [c]} + {v.dir + [c]})
    ensures FsOk(v', cs) && Listed(v') == Listed(v)
  {
    hide FilesOk, DirList, Wf, Disjoint, Owned, IsChain;
    ChainFacts(v, cs, v.dir);
    ChainFacts(v, cs, [c]);
    assert LastOf(v.dir) in v.dir && c in [c];
    LinkChain(v.fat, v.chains, v.dir, c);
    ClearedCluster(v.clusters[c], 0);
    DirOne(v.clusters, c);
    DirConcat(v.clusters, v.dir, [c]);
    FilesInChains(v, cs);
    forall ch | ch in v.files
      ensures ch in v'.chains && ch != v'.dir
    {
      if ch == v.dir + [c] {
        assert c in ch && c in [c];
        InChainNotIn(v.chains, [c], ch, c);
      }
    }
    FilesFrame(v, v', cs);
  }

  function InsertAt<T>(s: seq<T>, j: nat, x: T): seq<T>
    requires j <= |s|
  {
    s[..j] + [x] + s[j..]
  }

  function DropAt<T>(s: seq<T>, j: nat): seq<T>
    requires j < |s|
  {
    s[..j] + s[j + 1..]
  }

  lemma InsertInMiddle<T>(a: seq<T>, s: seq<T>, b: seq<T>, j: nat, x: T)
    requires j <= |s|
    ensures a + InsertAt(s, j, x) + b == InsertAt(a + s + b, |a| + j, x)
  {
    assert (a + s + b)[..|a| + j] == a + s[..j];
    assert (a + s + b)[|a| + j..] == s[j..] + b;
  }

  lemma DropInMiddle<T>(a: seq<T>, s: seq<T>, b: seq<T>, j: nat)
    requires j < |s|
    ensures a + DropAt(s, j) + b == DropAt(a + s + b, |a| + j) && (a + s + b)[|a| + j] == s[j]
  {
    assert (a + s + b)[..|a| + j] == a + s[..j];
    assert (a + s + b)[|a| + j + 1..] == s[j + 1..] + b;
  }

  /** Writing the directory cluster with one entry more. */
  lemma InsertOk(v: View, cs: nat, p: nat, buf: seq<byte>, j: nat, e: Listing, ch: seq<nat>, v': View)
    requires FsOk(v, cs) && p < |v.dir| && v.dir[p] < |v.clusters| && Wf(v.clusters[v.dir[p]], 0) && |buf| == cs
    requires Wf(buf, 0) && j <= |List(v.clusters[v.dir[p]], 0)| && List(buf, 0) == InsertAt(List(v.clusters[v.dir[p]], 0), j, e)
    requires ch in v.chains && ch != v.dir && ch !in v.files && ch != [] && ch[0] == e.firstCluster && e.fileSize <= |ch| * cs
    requires var at := Before(v.clusters, v.dir, p) + j;
             at <= |v.files| &&
             v' == v.(clusters := v.clusters[v.dir[p] := buf], files := InsertAt(v.files, at, ch))
    ensures FsOk(v', cs)
    ensures Before(v.clusters, v.dir, p) + j <= |Listed(v)|
    ensures Listed(v') == InsertAt(Listed(v), Before(v.clusters, v.dir, p) + j, e)
  {
    hide DirList, List, Wf, DirOk, Partition, FilesOk, InsertAt, DropAt;
    ChainFacts(v, cs, v.dir);
    DirAround(v.clusters, v.dir, p);
    DirUpdate(v.clusters, v.dir, p, buf);
    FilesInChains(v, cs);
    InsertInMiddle(DirList(v.clusters, v.dir[..p]), List(v.clusters[v.dir[p]], 0), DirList(v.clusters, v.dir[p + 1..]), j, e);
    FilesInsert(v, cs, Before(v.clusters, v.dir, p) + j, e, ch, v');
  }

  lemma FilesInsert(v: View, cs: nat, at: nat, e: Listing, ch: seq<nat>, v': View)
    requires DirOk(v.clusters, v.dir) && FilesOk(v, cs) && DirOk(v'.clusters, v'.dir)
    requires at <= |v.files| && v'.files == InsertAt(v.files, at, ch) && v'.chains == v.chains && v'.dir == v.dir
    requires |v.files| == |Listed(v)| && Listed(v') == InsertAt(Listed(v), at, e)
    requires ch in v.chains && ch != v.dir && ch !in v.files && ch != [] && ch[0] == e.firstCluster && e.fileSize <= |ch| * cs
    ensures FilesOk(v', cs)
  {
    hide DirList, DirOk;
    forall x: nat | x < |v'.files|
      ensures FileOk(v', cs, Listed(v'), x)
    {
      if x != at {
        assert FileOk(v, cs, Listed(v), if x < at then x else x - 1);
      }
    }
    forall x, y | 0 <= x < y < |v'.files|
      ensures v'.files[x] != v'.files[y]
    {
      if x == at {
        assert v'.files[y] == v.files[y - 1];
      } else if y == at {
        assert v'.files[x] == v.files[x];
      }
    }
  }

  /** Writing the directory cluster with one entry less. */
  lemma RemoveOk(v: View, cs: nat, p: nat, buf: seq<byte>, j: nat, v': View)
    requires FsOk(v, cs) && p < |v.dir| && v.dir[p] < |v.clusters| && Wf(v.clusters[v.dir[p]], 0) && |buf| == cs
    requires Wf(buf, 0) && j < |List(v.clusters[v.dir[p]], 0)| && List(buf, 0) == DropAt(List(v.clusters[v.dir[p]], 0), j)
    requires var at := Before(v.clusters, v.dir, p) + j;
             at < |v.files| &&
             v' == v.(clusters := v.clusters[v.dir[p] := buf], files := DropAt(v.files, at))
    ensures FsOk(v', cs) && v.files[Before(v.clusters, v.dir, p) + j] !in v'.files
    ensures Before(v.clusters, v.dir, p) + j < |Listed(v)|
    ensures Listed(v)[Before(v.clusters, v.dir, p) + j] == List(v.clusters[v.dir[p]], 0)[j]
    ensures Listed(v') == DropAt(Listed(v), Before(v.clusters, v.dir, p) + j)
  {
    hide DirList, List, Wf, DirOk, Partition, FilesOk, InsertAt, DropAt;
    ChainFacts(v, cs, v.dir);
    DirAround(v.clusters, v.dir, p);
    DirUpdate(v.clusters, v.dir, p, buf);
    FilesInChains(v, cs);
    DropInMiddle(DirList(v.clusters, v.dir[..p]), List(v.clusters[v.dir[p]], 0), DirList(v.clusters, v.dir[p + 1..]), j);
    FilesRemove(v, cs, Before(v.clusters, v.dir, p) + j, v');
  }

  lemma FilesRemove(v: View, cs: nat, at: nat, v': View)
    requires DirOk(v.clusters, v.dir) && FilesOk(v, cs) && DirOk(v'.clusters, v'.dir)
    requires at < |v.files| && v'.files == DropAt(v.files, at) && v'.chains == v.chains && v'.dir == v.dir
    requires |v.files| == |Listed(v)| && Listed(v') == DropAt(Listed(v), at)
    ensures FilesOk(v', cs) && v.files[at] !in v'.files
  {
    hide DirList, DirOk;
    forall x: nat | x < |v'.files|
      ensures FileOk(v', cs, Listed(v'), x) && v'.files[x] != v.files[at]
    {
      assert FileOk(v, cs, Listed(v), if x < at then x else x + 1);
    }
  }

  /** Freeing a chain that no entry of the directory has. */
  lemma FreeOk(v: View, cs: nat, ch: seq<nat>, fat': seq<nat>, v': View)
    requires FsOk(v, cs) && ch in v.chains && ch != v.dir && ch !in v.files && ZeroedOn(v.fat, ch, fat')
    requires v' == v.(fat := fat', chains := v.chains - {ch}) && TableOk(fat')
    ensures FsOk(v', cs) && Listed(v') == Listed(v)
  {
    hide FilesOk, DirList, Partition;
    DropChain(v.fat, v.chains, ch, fat');
    FilesInChains(v, cs);
    FilesFrame(v, v', cs);
  }

  // ----- the clusters of a new file

  /** Between `before` and `v` the chain `built` came into being and holds `bytes`; nothing else
      changed. */
  ghost predicate Building(before: View, v: View, built: seq<nat>, bytes: seq<byte>) {
    && v.dir == before.dir && v.files == before.files && Listed(v) == Listed(before)
    && v.chains == (if built == [] then before.chains else before.chains + {built}) && built !in before.chains
    && |v.clusters| == |before.clusters|
    && (forall ch, c | ch in before.chains && c in ch && c < |v.clusters| :: v.clusters[c] == before.clusters[c])
    && (forall c | c in built :: 2 <= c < |v.clusters|) && FileBytes(v.clusters, built) == bytes
    && CountFree(v.fat) + |built| == CountFree(before.fat)
  }

  /** One round of the write loop: take a cluster, fill it, link it. */
  function Appended(v: View, cs: nat, built: seq<nat>, c: nat, buf: seq<byte>): View {
    var v1 := Taken(v, c, cs);
    var v2 := if c < |v1.clusters| then v1.(clusters := v1.clusters[c := buf]) else v1;
    if built == [] || LastOf(built) >= |v2.fat| then v2
    else v2.(fat := v2.fat[LastOf(built) := c], chains := v2.chains - {built, [c]} + {built + [c]})
  }

  lemma SizeFacts(v: View, cs: nat)
    requires FsOk(v, cs)
    ensures |v.clusters| == |v.fat| && TableOk(v.fat) && v.dir in v.chains
    ensures forall ch | ch in v.files :: ch in v.chains && ch != v.dir && ch != []
  {
    FilesInChains(v, cs);
  }

  /** A cluster that no chain owns occurs nowhere. */
  lemma UnownedNowhere(chains: set<seq<nat>>, c: nat)
    requires !Owned(chains, c)
    ensures forall ch | ch in chains :: c !in ch
    ensures [c] !in chains && forall a: seq<nat> :: a + [c] !in chains
  {
    forall a: seq<nat>
      ensures a + [c] !in chains
    {
      assert (a + [c])[|a|] == c;
    }
    assert [c][0] == c;
  }

  lemma AppendOk(before: View, v: View, cs: nat, built: seq<nat>, bytes: seq<byte>, c: nat, buf: seq<byte>)
    requires FsOk(before, cs) && FsOk(v, cs) && Building(before, v, built, bytes)
    requires 2 <= c < |v.fat| && v.fat[c] == 0 && |buf| == cs
    ensures FsOk(Appended(v, cs, built, c, buf), cs)
    ensures Building(before, Appended(v, cs, built, c, buf), built + [c], bytes + buf)
  {
    hide FsOk, Listed, Owned, FileBytes, CountFree, TableOk;
    SizeFacts(v, cs);
    SizeFacts(before, cs);
    AllocOk(v, cs, c);
    CountFreeUpdate(v.fat, c, LAST);
    UnownedNowhere(v.chains, c);
    var v1 := Taken(v, c, cs);
    var v2 := v1.(clusters := v1.clusters[c := buf]);
    assert c in [c] && built + [c] !in before.chains;
    PutOk(v1, cs, [c], c, buf, v2);
    FileFrame(v.clusters, v2.clusters, built);
    FileAppend(v2.clusters, built, c);
    if built == [] {
      assert built + [c] == [c];
    } else {
      ChainFacts(v, cs, built);
      assert LastOf(built) in built;
      var v3 := v2.(fat := v2.fat[LastOf(built) := c], chains := v2.chains - {built, [c]} + {built + [c]});
      LinkOk(v2, cs, built, c, v3);
      LastNonzero(v.fat, built);
      CountFreeUpdate(v2.fat, LastOf(built), c);
      assert v3.chains == before.chains + {built + [c]};
    }
  }

  lemma LastNonzero(fat: seq<nat>, ch: seq<nat>)
    requires IsChain(fat, ch)
    ensures LastOf(ch) < |fat| && fat[LastOf(ch)] != 0
  {
  }
}
