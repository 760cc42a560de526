/** The file allocation table as a value: chains of clusters, and how allocating, linking and
    freeing keep the table partitioned into them. */
module FatTable {

  const EOC: nat := 0x0FFF_FFF8       // this value and above end a chain
  const LAST: nat := 0x0FFF_FFFF      // what the driver writes to end a chain
  const ENTRY_LIMIT: nat := 0x1000_0000

  /** What the code needs of any table: entries 0 and 1 are reserved, and every entry is free,
      names a cluster or ends a chain. */
  ghost predicate TableOk(fat: seq<nat>) {
    && 2 <= |fat| <= EOC
    && fat[0] != 0 && fat[1] != 0
    && forall c | 0 <= c < |fat| :: fat[c] == 0 || 2 <= fat[c] < |fat| || EOC <= fat[c] < ENTRY_LIMIT
  }

  /** Every entry has 28 bits. */
  ghost predicate EntriesOk(fat: seq<nat>) {
    forall c | 0 <= c < |fat| :: fat[c] < ENTRY_LIMIT
  }

  ghost predicate IsChain(fat: seq<nat>, ch: seq<nat>) {
    && ch != []
    && (forall x | 0 <= x < |ch| :: 2 <= ch[x] < |fat|)
    && (forall x | 0 <= x < |ch| - 1 :: fat[ch[x]] == ch[x + 1])
    && EOC <= fat[ch[|ch| - 1]]
  }

  function LastOf(ch: seq<nat>): nat
    requires ch != []
  {
    ch[|ch| - 1]
  }

  /** No cluster occurs twice, neither in one chain nor in two. */
  ghost predicate Disjoint(chains: set<seq<nat>>) {
    forall a, b, x, y | a in chains && b in chains && 0 <= x < |a| && 0 <= y < |b| && a[x] == b[y] :: a == b && x == y
  }

  ghost predicate Owned(chains: set<seq<nat>>, c: nat) {
    exists ch :: ch in chains && c in ch
  }

  /** The clusters in use are exactly those of the given chains. */
  ghost predicate Partition(fat: seq<nat>, chains: set<seq<nat>>) {
    && (forall ch | ch in chains :: IsChain(fat, ch))
    && Disjoint(chains)
    && (forall c: nat | 2 <= c < |fat| && fat[c] != 0 :: Owned(chains, c))
  }

  lemma InPartition(fat: seq<nat>, chains: set<seq<nat>>, c: nat)
    requires Partition(fat, chains) && Owned(chains, c)
    ensures 2 <= c < |fat| && fat[c] != 0
  {
    hide Disjoint, IsChain;
    var ch :| ch in chains && c in ch;
    InChain(fat, ch, c);
  }

  lemma InChain(fat: seq<nat>, ch: seq<nat>, c: nat)
    requires IsChain(fat, ch) && c in ch
    ensures 2 <= c < |fat| && fat[c] != 0
  {
    var x :| 0 <= x < |ch| && ch[x] == c;
    if x < |ch| - 1 {
      assert fat[ch[x]] == ch[x + 1];
    }
  }

  /** A chain is determined by its first cluster. */
  lemma {:induction false} ChainUnique(fat: seq<nat>, a: seq<nat>, b: seq<nat>)
    requires IsChain(fat, a) && IsChain(fat, b) && a[0] == b[0] && |fat| <= EOC
    ensures a == b
    decreases |a|
  {
    ChainSteps(fat, a, 0);
    ChainSteps(fat, b, 0);
    if |a| > 1 {
      TailIsChain(fat, a);
      TailIsChain(fat, b);
      ChainUnique(fat, a[1..], b[1..]);
      assert a == [a[0]] + a[1..] && b == [b[0]] + b[1..];
    }
  }

  lemma TailIsChain(fat: seq<nat>, a: seq<nat>)
    requires IsChain(fat, a) && |a| > 1
    ensures IsChain(fat, a[1..])
  {
    forall x | 0 <= x < |a[1..]| - 1
      ensures fat[a[1..][x]] == a[1..][x + 1]
    {
      assert fat[a[x + 1]] == a[x + 2];
    }
  }

  /** Every entry of a chain but the last one names a cluster. */
  lemma ChainSteps(fat: seq<nat>, ch: seq<nat>, x: nat)
    requires IsChain(fat, ch) && x < |ch| && |fat| <= EOC
    ensures fat[ch[x]] >= EOC <==> x == |ch| - 1
    ensures x < |ch| - 1 ==> fat[ch[x]] == ch[x + 1]
  {
    if x < |ch| - 1 {
      assert fat[ch[x]] == ch[x + 1];
    }
  }

  lemma {:induction false} ChainSuffix(fat: seq<nat>, ch: seq<nat>, x: nat)
    requires IsChain(fat, ch) && x < |ch|
    ensures IsChain(fat, ch[x..])
  {
    if x > 0 {
      ChainSuffix(fat, ch, x - 1);
      TailIsChain(fat, ch[x - 1..]);
      assert ch[x - 1..][1..] == ch[x..];
    }
  }

  /** A chain that ends is no circle. */
  lemma ChainNoRepeat(fat: seq<nat>, ch: seq<nat>, x: nat, y: nat)
    requires IsChain(fat, ch) && |fat| <= EOC && x < y < |ch|
    ensures ch[x] != ch[y]
  {
    ChainSuffix(fat, ch, x);
    ChainSuffix(fat, ch, y);
    if ch[x] == ch[y] {
      ChainUnique(fat, ch[x..], ch[y..]);
    }
  }

  /** The same chain in a table that agrees on its clusters. */
  lemma ChainFrame(fat: seq<nat>, fat': seq<nat>, ch: seq<nat>)
    requires IsChain(fat, ch) && |fat'| == |fat|
    requires forall c | c in ch && c < |fat| :: fat'[c] == fat[c]
    ensures IsChain(fat', ch)
  {
  }

  lemma SharedCluster(chains: set<seq<nat>>, a: seq<nat>, b: seq<nat>, c: nat)
    requires Disjoint(chains) && a in chains && b in chains && c in a && c in b
    ensures a == b
  {
    var x, y :| 0 <= x < |a| && a[x] == c && 0 <= y < |b| && b[y] == c;
  }

  lemma NoRepeat(chains: set<seq<nat>>, a: seq<nat>, x: nat, y: nat)
    requires Disjoint(chains) && a in chains && x < |a| && y < |a| && x != y
    ensures a[x] != a[y]
  {
  }

  lemma OwnedBy(chains: set<seq<nat>>, ch: seq<nat>, c: nat)
    requires ch in chains && c in ch
    ensures Owned(chains, c)
  {
  }

  /** A cluster taken from the free ones is a chain of its own. */
  lemma NewChain(fat: seq<nat>, chains: set<seq<nat>>, c: nat)
    requires Partition(fat, chains) && 2 <= c < |fat| && fat[c] == 0
    ensures Partition(fat[c := LAST], chains + {[c]}) && !Owned(chains, c)
  {
    hide Disjoint, IsChain, Owned;
    var fat', chains' := fat[c := LAST], chains + {[c]};
    if Owned(chains, c) {
      InPartition(fat, chains, c);
    }
    forall ch | ch in chains'
      ensures IsChain(fat', ch)
    {
      if ch in chains {
        if c in ch {
          OwnedBy(chains, ch, c);
        }
        ChainFrame(fat, fat', ch);
      } else {
        OneCluster(fat', c);
      }
    }
    NewDisjoint(chains, c);
    forall d: nat | 2 <= d < |fat'| && fat'[d] != 0
      ensures Owned(chains', d)
    {
      if d == c {
        OwnedBy(chains', [c], d);
      } else {
        OwnedMore(chains, chains', d);
      }
    }
  }

  lemma OneCluster(fat: seq<nat>, c: nat)
    requires 2 <= c < |fat| && EOC <= fat[c]
    ensures IsChain(fat, [c])
  {
  }

  lemma NewDisjoint(chains: set<seq<nat>>, c: nat)
    requires Disjoint(chains) && !Owned(chains, c)
    ensures Disjoint(chains + {[c]})
  {
    forall a, b, x, y | a in chains + {[c]} && b in chains + {[c]} && 0 <= x < |a| && 0 <= y < |b| && a[x] == b[y]
      ensures a == b && x == y
    {
      if a in chains && b !in chains {
        OwnedBy(chains, a, c);
      } else if b in chains && a !in chains {
        OwnedBy(chains, b, c);
      }
    }
  }

  lemma OwnedMore(chains: set<seq<nat>>, more: set<seq<nat>>, c: nat)
    requires Owned(chains, c) && chains <= more
    ensures Owned(more, c)
  {
    var ch :| ch in chains && c in ch;
    OwnedBy(more, ch, c);
  }

  /** Pointing the end of chain a at the one-cluster chain [c] joins the two. */
  lemma LinkChain(fat: seq<nat>, chains: set<seq<nat>>, a: seq<nat>, c: nat)
    requires Partition(fat, chains) && a in chains && [c] in chains && a != [c] && a != []
    requires LastOf(a) < |fat|
    ensures c !in a
    ensures Partition(fat[LastOf(a) := c], chains - {a, [c]} + {a + [c]})
  {
    hide Disjoint, IsChain, Owned;
    var fat', chains' := fat[LastOf(a) := c], chains - {a, [c]} + {a + [c]};
    if c in a {
      SharedCluster(chains, a, [c], c);
    }
    LinkIsChain(fat, chains, a, c);
    forall ch | ch in chains' && ch != a + [c]
      ensures IsChain(fat', ch)
    {
      if LastOf(a) in ch {
        SharedCluster(chains, a, ch, LastOf(a));
      }
      ChainFrame(fat, fat', ch);
    }
    LinkDisjoint(chains, a, c);
    forall d: nat | 2 <= d < |fat'| && fat'[d] != 0
      ensures Owned(chains', d)
    {
      if d == LastOf(a) {
        OwnedBy(chains', a + [c], d);
      } else {
        OwnedAfterLink(chains, a, c, d);
      }
    }
  }

  lemma LinkIsChain(fat: seq<nat>, chains: set<seq<nat>>, a: seq<nat>, c: nat)
    requires IsChain(fat, a) && IsChain(fat, [c]) && Disjoint(chains) && a in chains && c !in a
    ensures IsChain(fat[LastOf(a) := c], a + [c])
  {
    forall x | 0 <= x < |a| - 1
      ensures fat[LastOf(a) := c][a[x]] == a[x + 1]
    {
      NoRepeat(chains, a, x, |a| - 1);
    }
  }

  lemma OwnedAfterLink(chains: set<seq<nat>>, a: seq<nat>, c: nat, d: nat)
    requires Owned(chains, d)
    ensures Owned(chains - {a, [c]} + {a + [c]}, d)
  {
    var ch :| ch in chains && d in ch;
    OwnedBy(chains - {a, [c]} + {a + [c]}, if ch == a || ch == [c] then a + [c] else ch, d);
  }

  lemma LinkDisjoint(chains: set<seq<nat>>, a: seq<nat>, c: nat)
    requires Disjoint(chains) && a in chains && [c] in chains && a != [c]
    ensures Disjoint(chains - {a, [c]} + {a + [c]})
  {
    var chains' := chains - {a, [c]} + {a + [c]};
    forall p, q, x, y | p in chains' && q in chains' && 0 <= x < |p| && 0 <= y < |q| && p[x] == q[y]
      ensures p == q && x == y
    {
      var p', x' := CameFrom(chains, a, c, p, x);
      var q', y' := CameFrom(chains, a, c, q, y);
      assert p' == q' && x' == y';
    }
  }

  /** Where a cluster of the joined chains came from. */
  lemma CameFrom(chains: set<seq<nat>>, a: seq<nat>, c: nat, p: seq<nat>, x: nat) returns (p': seq<nat>, x': nat)
    requires a in chains && [c] in chains && a != [c]
    requires p in chains - {a, [c]} + {a + [c]} && x < |p|
    ensures p' in chains && x' < |p'| && p'[x'] == p[x]
    ensures if p' == a then p == a + [c] && x == x' else if p' == [c] then p == a + [c] && x == |a| else p == p' && x == x'
  {
    if p == a + [c] {
      if x < |a| {
        p', x' := a, x;
      } else {
        p', x' := [c], 0;
      }
    } else {
      p', x' := p, x;
    }
  }

  // ----- freeing

  /** The table with the entries of the listed clusters set to zero. */
  ghost predicate ZeroedOn(fat: seq<nat>, cs: seq<nat>, fat': seq<nat>) {
    |fat'| == |fat| && forall c | 0 <= c < |fat| :: fat'[c] == if c in cs then 0 else fat[c]
  }

  /** Freeing a chain leaves the other chains and nothing else. */
  lemma DropChain(fat: seq<nat>, chains: set<seq<nat>>, a: seq<nat>, fat': seq<nat>)
    requires Partition(fat, chains) && a in chains && ZeroedOn(fat, a, fat')
    ensures Partition(fat', chains - {a})
  {
    hide Disjoint, IsChain, Owned;
    forall ch | ch in chains - {a}
      ensures IsChain(fat', ch)
    {
      forall c | c in ch && c < |fat|
        ensures fat'[c] == fat[c]
      {
        if c in a {
          SharedCluster(chains, a, ch, c);
        }
      }
      ChainFrame(fat, fat', ch);
    }
    DisjointLess(chains, chains - {a});
    forall c: nat | 2 <= c < |fat'| && fat'[c] != 0
      ensures Owned(chains - {a}, c)
    {
      OwnedAfterDrop(chains, a, c);
    }
  }

  lemma DisjointLess(chains: set<seq<nat>>, fewer: set<seq<nat>>)
    requires Disjoint(chains) && fewer <= chains
    ensures Disjoint(fewer)
  {
  }

  lemma OwnedAfterDrop(chains: set<seq<nat>>, a: seq<nat>, c: nat)
    requires Owned(chains, c) && c !in a
    ensures Owned(chains - {a}, c)
  {
    var ch :| ch in chains && c in ch;
    OwnedBy(chains - {a}, ch, c);
  }

  // ----- counting free entries

  function CountFree(fat: seq<nat>): nat {
    if fat == [] then 0 else CountFree(fat[..|fat| - 1]) + if fat[|fat| - 1] == 0 then 1 else 0
  }

  lemma {:induction false} CountFreeBound(fat: seq<nat>)
    ensures CountFree(fat) <= |fat|
  {
    if fat != [] {
      CountFreeBound(fat[..|fat| - 1]);
    }
  }

  lemma {:induction false} CountFreeUpdate(fat: seq<nat>, c: nat, v: nat)
    requires c < |fat|
    ensures CountFree(fat[c := v]) == CountFree(fat) - (if fat[c] == 0 then 1 else 0) + (if v == 0 then 1 else 0)
  {
    var n := |fat| - 1;
    if c == n {
      assert fat[c := v][..n] == fat[..n];
    } else {
      assert fat[c := v][..n] == fat[..n][c := v];
      CountFreeUpdate(fat[..n], c, v);
    }
  }

  lemma {:induction false} CountFreePositive(fat: seq<nat>, c: nat)
    requires c < |fat| && fat[c] == 0
    ensures CountFree(fat) > 0
  {
    if c < |fat| - 1 {
      CountFreePositive(fat[..|fat| - 1], c);
    }
  }

  lemma {:induction false} CountFreeZero(fat: seq<nat>)
    requires CountFree(fat) > 0
    ensures exists c :: 0 <= c < |fat| && fat[c] == 0
  {
    var n := |fat| - 1;
    if fat[n] != 0 {
      CountFreeZero(fat[..n]);
      var c :| 0 <= c < n && fat[..n][c] == 0;
      assert fat[c] == 0;
    }
  }

  lemma {:induction false} CountFreeSplit(fat: seq<nat>, k: nat)
    requires k <= |fat|
    ensures CountFree(fat) == CountFree(fat[..k]) + CountFree(fat[k..])
    decreases |fat|
  {
    var n := |fat| - 1;
    if k == |fat| {
      assert fat[..k] == fat;
    } else {
      assert fat[..n][..k] == fat[..k] && fat[..n][k..] == fat[k..][..|fat[k..]| - 1];
      CountFreeSplit(fat[..n], k);
    }
  }

  lemma {:induction false} NoneFree(fat: seq<nat>)
    requires forall c | 0 <= c < |fat| :: fat[c] != 0
    ensures CountFree(fat) == 0
  {
    if fat != [] {
      NoneFree(fat[..|fat| - 1]);
    }
  }

  // ----- the search for a free cluster

  /** The first free entry at or after the hint, else the first free one before it. */
  ghost predicate FirstFree(fat: seq<nat>, hint: nat, c: nat) {
    && c < |fat| && fat[c] == 0
    && (if hint <= c then forall i | hint <= i < c :: fat[i] != 0
        else (forall i | hint <= i < |fat| :: fat[i] != 0) && forall i | 0 <= i < c :: fat[i] != 0)
  }

  lemma FirstFreeIs(fat: seq<nat>, hint: nat, c: nat)
    requires FirstFree(fat, hint, c)
    ensures c < |fat| && fat[c] == 0
    ensures forall e | hint <= e < |fat| && fat[e] == 0 :: hint <= c <= e
    ensures c < hint ==> forall e | 0 <= e < c :: fat[e] != 0
  {
  }

  /** A table may have more entries than the volume has clusters.  A free one of these lies on the
      path of the search before it starts again from 0. */
  ghost predicate SpareAhead(fat: seq<nat>, hint: nat, limit: nat) {
    exists c: nat :: hint <= c < |fat| && limit <= c && fat[c] == 0
  }

  /** How many clusters in a row the search takes before it leaves the volume. */
  ghost function OnVolume(fat: seq<nat>, hint: nat, limit: nat): nat
    requires limit <= |fat|
  {
    if !SpareAhead(fat, hint, limit) then CountFree(fat[..limit])
    else if hint < limit then CountFree(fat[hint..limit]) else 0
  }

  lemma SameSpare(a: seq<nat>, b: seq<nat>, from: nat, from': nat, limit: nat)
    requires |a| == |b| && forall c | limit <= c < |a| :: a[c] == b[c]
    requires from == from' || (from <= limit && from' <= limit)
    ensures SpareAhead(a, from, limit) ==> SpareAhead(b, from', limit)
  {
    if SpareAhead(a, from, limit) {
      var c: nat :| from <= c < |a| && limit <= c && a[c] == 0;
      assert b[c] == 0;
    }
  }

  lemma FreeBefore(fat: seq<nat>, c: nat)
    requires c < |fat| && fat[c] == 0 && forall i | 0 <= i < c :: fat[i] != 0
    ensures CountFree(fat) == 1 + CountFree(fat[c + 1..])
  {
    CountFreeSplit(fat, c + 1);
    NoneFree(fat[..c]);
    assert fat[..c + 1][..c] == fat[..c];
  }

  lemma NoneOnVolume(fat: seq<nat>, hint: nat, limit: nat)
    requires limit <= |fat| && forall c | 0 <= c < |fat| :: fat[c] != 0
    ensures CountFree(fat) == 0 && OnVolume(fat, hint, limit) == 0
  {
    NoneFree(fat);
    NoneFree(fat[..limit]);
    if hint < limit {
      NoneFree(fat[hint..limit]);
    }
  }

  /** Exactly when the search stays on the volume. */
  lemma SearchStays(fat: seq<nat>, hint: nat, limit: nat, c: nat)
    requires limit <= |fat| && FirstFree(fat, hint, c)
    ensures c < limit <==> OnVolume(fat, hint, limit) > 0
  {
    if c < limit {
      if hint <= c {
        assert fat[hint..limit][c - hint] == 0;
        CountFreePositive(fat[hint..limit], c - hint);
      }
      CountFreePositive(fat[..limit], c);
    } else if hint <= c {
      assert SpareAhead(fat, hint, limit);
      if hint < limit {
        NoneFree(fat[hint..limit]);
      }
    } else {
      NoneFree(fat[..limit]);
    }
  }

  /** And then it has one cluster less before it leaves the volume. */
  lemma TakenOnVolume(fat: seq<nat>, hint: nat, limit: nat, c: nat)
    requires limit <= |fat| && FirstFree(fat, hint, c) && c < limit
    ensures OnVolume(fat[c := LAST], c + 1, limit) == OnVolume(fat, hint, limit) - 1
  {
    var after := fat[c := LAST];
    CountFreeUpdate(fat[..limit], c, LAST);
    assert fat[..limit][c := LAST] == after[..limit];
    assert after[c + 1..limit] == fat[c + 1..limit];
    if hint <= c {
      FreeBefore(fat[hint..limit], c - hint);
      assert fat[hint..limit][c - hint + 1..] == fat[c + 1..limit];
      SameSpare(fat, after, hint, c + 1, limit);
      SameSpare(after, fat, c + 1, hint, limit);
    } else {
      FreeBefore(fat[..limit], c);
      assert fat[..limit][c + 1..] == fat[c + 1..limit];
    }
  }

  /** Linking two clusters in use does not matter to the search. */
  lemma LinkedOnVolume(fat: seq<nat>, hint: nat, limit: nat, c: nat, v: nat)
    requires limit <= |fat| && c < limit && fat[c] != 0 && v != 0
    ensures OnVolume(fat[c := v], hint, limit) == OnVolume(fat, hint, limit)
  {
    var after := fat[c := v];
    CountFreeUpdate(fat[..limit], c, v);
    assert fat[..limit][c := v] == after[..limit];
    if hint <= c {
      CountFreeUpdate(fat[hint..limit], c - hint, v);
      assert fat[hint..limit][c - hint := v] == after[hint..limit];
    } else if hint < limit {
      assert after[hint..limit] == fat[hint..limit];
    }
    SameSpare(fat, after, hint, hint, limit);
    SameSpare(after, fat, hint, hint, limit);
  }

  lemma FirstFreeOnce(fat: seq<nat>, hint: nat, c: nat, d: nat)
    requires FirstFree(fat, hint, c) && FirstFree(fat, hint, d)
    ensures c == d
  {
  }

  lemma {:induction false} FindsFree(fat: seq<nat>, hint: nat, from: nat) returns (c: nat)
    requires from <= |fat| && (hint <= from || forall i | hint <= i < |fat| :: fat[i] != 0)
    requires if hint <= from then forall i | hint <= i < from :: fat[i] != 0 else forall i | 0 <= i < from :: fat[i] != 0
    requires exists i: nat :: from <= i < |fat| && fat[i] == 0 && (hint <= from || i < hint)
    ensures FirstFree(fat, hint, c)
    decreases |fat| - from
  {
    if fat[from] == 0 {
      c := from;
    } else {
      c := FindsFree(fat, hint, from + 1);
    }
  }

  lemma SomeFree(fat: seq<nat>, hint: nat, i: nat) returns (c: nat)
    requires i < |fat| && fat[i] == 0
    ensures FirstFree(fat, hint, c)
  {
    if j: nat :| hint <= j < |fat| && fat[j] == 0 {
      c := FindsFree(fat, hint, hint);
    } else {
      c := FindsFree(fat, hint, 0);
    }
  }

  /** n searches in a row, each marking what it finds, end at clusters of the volume. */
  ghost predicate AllStay(fat: seq<nat>, hint: nat, limit: nat, n: nat)
    decreases n
  {
    n == 0 || exists c: nat :: FirstFree(fat, hint, c) && c < limit && AllStay(fat[c := LAST], c + 1, limit, n - 1)
  }

  /** Exactly how many searches in a row stay on the volume. */
  lemma {:induction false} SearchesStay(fat: seq<nat>, hint: nat, limit: nat, n: nat)
    requires limit <= |fat|
    ensures AllStay(fat, hint, limit, n) <==> n <= OnVolume(fat, hint, limit)
    decreases n
  {
    hide FirstFree, OnVolume;
    if n > 0 {
      if i: nat :| i < |fat| && fat[i] == 0 {
        var c := SomeFree(fat, hint, i);
        SearchStays(fat, hint, limit, c);
        if c < limit {
          TakenOnVolume(fat, hint, limit, c);
          SearchesStay(fat[c := LAST], c + 1, limit, n - 1);
        }
        forall d: nat | FirstFree(fat, hint, d)
          ensures d == c
        {
          FirstFreeOnce(fat, hint, c, d);
        }
      } else {
        NoneOnVolume(fat, hint, limit);
        forall c: nat
          ensures !FirstFree(fat, hint, c)
        {
          FoundFree(fat, hint, c);
        }
      }
    }
  }

  lemma FoundFree(fat: seq<nat>, hint: nat, c: nat)
    ensures FirstFree(fat, hint, c) ==> c < |fat| && fat[c] == 0
  {
  }

  /** Links between clusters in use, made from one search to the next, do not matter. */
  lemma LinksDoNotMatter(fat: seq<nat>, hint: nat, limit: nat, n: nat, c: nat, v: nat)
    requires limit <= |fat| && c < limit && fat[c] != 0 && v != 0
    ensures AllStay(fat[c := v], hint, limit, n) <==> AllStay(fat, hint, limit, n)
  {
    hide AllStay, OnVolume;
    LinkedOnVolume(fat, hint, limit, c, v);
    SearchesStay(fat, hint, limit, n);
    SearchesStay(fat[c := v], hint, limit, n);
  }
}
