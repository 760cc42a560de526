/** What the hint of liballoc is after malloc and free, and which blocks free leaves. */
module LiballocHint {
  import opened LiballocSpec
  import opened LiballocLinks
  import opened LiballocState

  /** The outcome of comparing along a path: the old hint if no major there has more free bytes
      than it, and else the first of those with the most. */
  ghost predicate FirstMost(path: seq<Major>, was: Hint, now: Hint) {
    || (now == was && forall j | 0 <= j < |path| :: path[j].Size() - path[j].Usage() <= was.best)
    || exists j: nat :: MostAt(path, was, now, j)
  }

  ghost predicate MostAt(path: seq<Major>, was: Hint, now: Hint, j: nat) {
    && j < |path| && now == Hint(path[j].addr, path[j].Size() - path[j].Usage()) && was.best < now.best
    && (forall e | 0 <= e < j :: path[e].Size() - path[e].Usage() < now.best)
    && (forall e | j <= e < |path| :: path[e].Size() - path[e].Usage() <= now.best)
  }

  lemma TriedFirstMost(blocks: seq<Major>, from: nat, to: nat, h: Hint)
    requires from <= to <= |blocks|
    ensures FirstMost(blocks[from..to], h, Tried(blocks, from, to, h))
  {
    hide Tried, Major.Size, Major.Usage;
    HintIsBest(blocks, from, to, h);
    var r := Tried(blocks, from, to, h);
    if r != h {
      var j: nat :| from <= j < to && h.best < FreeOf(blocks[j]) && r == Hint(blocks[j].addr, FreeOf(blocks[j]))
                    && forall e | from <= e < j :: FreeOf(blocks[e]) < FreeOf(blocks[j]);
      assert MostAt(blocks[from..to], h, r, j - from);
    } else {
      forall j | 0 <= j < to - from
        ensures blocks[from..to][j].Size() - blocks[from..to][j].Usage() <= h.best
      {
        assert FreeOf(blocks[from + j]) <= r.best;
      }
    }
  }

  lemma FirstMostGrows(path: seq<Major>, h: Hint, r: Hint)
    requires FirstMost(path, h, r)
    ensures r.best >= h.best && forall j | 0 <= j < |path| :: path[j].Size() - path[j].Usage() <= r.best
  {
    hide Major.Size, Major.Usage;
  }

  lemma FirstMostChain(a: seq<Major>, b: seq<Major>, h: Hint, m: Hint, r: Hint)
    requires FirstMost(a, h, m) && FirstMost(b, m, r)
    ensures FirstMost(a + b, h, r)
  {
    hide Major.Size, Major.Usage;
    FirstMostGrows(a, h, m);
    if j: nat :| MostAt(b, m, r, j) {
      assert MostAt(a + b, h, r, |a| + j);
    } else if j: nat :| MostAt(a, h, m, j) {
      assert MostAt(a + b, h, r, j);
    }
  }

  /** The majors that malloc compares with the hint: on the path to the one it takes; all of them, from
      the start and from the root, if none has room, and a fresh one unless CASE 1 asked for it. */
  function Compared(before: seq<Major>, start: nat, size: nat, grant: nat, placed: bool, i: nat): seq<Major>
    requires start <= |before|
  {
    if placed && start <= i < |before| then before[start..i + 1]
    else if placed && i < start then before[start..] + before[..i + 1]
    else if placed && (before == [] || before[|before| - 1].Size() - before[|before| - 1].Usage() >= size + 40) then
      before[start..] + before + [Major(grant, PagesFor(size), [])]
    else before[start..] + before
  }

  /** The hint after malloc. */
  lemma BetIsFirstMost(before: seq<Major>, bet: nat, size: nat, grant: nat, placed: bool, i: nat)
    ensures var start := StartOf(before, bet, size + HEADER);
            exists best :: FirstMost(Compared(before, start, size, grant, placed, i),
                                     Hint(bet, FreeBytes(before, bet)),
                                     Hint(BetAfterMalloc(before, bet, size, grant, placed, i), best))
  {
    hide Tried, Major.Size, Major.Usage, StartOf, FreeBytes, FirstMost, PagesFor;
    var start, h, n := StartOf(before, bet, size + HEADER), Hint(bet, FreeBytes(before, bet)), |before|;
    var path, m := Compared(before, start, size, grant, placed, i), Tried(before, start, n, h);
    var r := m;
    if placed && start <= i < n {
      r := Tried(before, start, i + 1, h);
      TriedFirstMost(before, start, i + 1, h);
    } else {
      TriedFirstMost(before, start, n, h);
      assert before[start..n] == before[start..];
      var to := if placed && i < start then i + 1 else n;
      r := Tried(before, 0, to, m);
      TriedFirstMost(before, 0, to, m);
      assert before[0..to] == before[..to];
      FirstMostChain(before[start..], before[..to], h, m, r);
      if placed && i >= start && FreshCompared(before, size + HEADER) {
        var newest := Major(grant, PagesFor(size), []);
        BetterFirstMost(newest, r);
        FirstMostChain(before[start..] + before[..to], [newest], h, r, Better(newest, r));
        assert path == before[start..] + before[..to] + [newest];
        r := Better(newest, r);
      } else {
        assert path == before[start..] + before[..to];
      }
    }
    assert r == Hint(BetAfterMalloc(before, bet, size, grant, placed, i), r.best);
    assert FirstMost(path, h, Hint(BetAfterMalloc(before, bet, size, grant, placed, i), r.best));
  }

  lemma BetterFirstMost(b: Major, h: Hint)
    ensures FirstMost([b], h, Better(b, h))
  {
    hide Major.Size, Major.Usage;
    if h.best < FreeOf(b) {
      assert MostAt([b], h, Better(b, h), 0);
    }
  }

  /** The hint after a free in major i.  A major that has no other block goes, and with it a hint to
      it.  Else the hint moves there if that has more free bytes than the major of the hint, both
      read as signed. */
  lemma FreeMovesBet(blocks: seq<Major>, bet: nat, i: nat, k: nat, b: nat)
    requires HeapShaped(blocks) && i < |blocks| && k < |blocks[i].minors|
    requires b < |blocks| && bet == blocks[b].addr
    ensures var there, freed := blocks[b].Size() - blocks[b].Usage(),
                                blocks[i].Size() - blocks[i].Usage() + blocks[i].minors[k].size + 40;
            BetAfterFree(blocks, bet, i, k) ==
              if |blocks[i].minors| == 1 then if b == i then 0 else bet
              else if b == i then bet
              else if (freed < 0x8000_0000) == (there < 0x8000_0000) then if freed > there then blocks[i].addr else bet
              else if freed < 0x8000_0000 then blocks[i].addr else bet
  {
    hide HeapShaped, Major.Shaped, Major.Size, Major.Usage, FreeBytes, ToInt;
    var after := blocks[i := blocks[i].Remove(k)];
    if b != i {
      MajorOnce(blocks, i, b);
    }
    BlockFacts(blocks, b);
    BlockFacts(blocks, i);
    UsedRemove(blocks[i], k);
    RemoveKeepsShape(blocks, i, k);
    FreeBytesAt(after, i);
    FreeBytesAt(after, b);
    BlockFacts(after, i);
    SameSize(blocks[i], k);
    SignedOrder(after[i].Size() - after[i].Usage(), blocks[b].Size() - blocks[b].Usage());
  }

  lemma SameSize(b: Major, k: nat)
    requires k < |b.minors|
    ensures b.Remove(k).Size() == b.Size()
  {
  }

  lemma SignedOrder(x: int, y: int)
    requires 0 <= x < 0x1_0000_0000 && 0 <= y < 0x1_0000_0000
    ensures ToInt(x) > ToInt(y) <==> if (x < 0x8000_0000) == (y < 0x8000_0000) then x > y else x < 0x8000_0000
  {
  }

  lemma BlockFacts(blocks: seq<Major>, i: nat)
    requires HeapShaped(blocks) && i < |blocks|
    ensures blocks[i].addr > 0 && 0 <= blocks[i].Size() - blocks[i].Usage() < 0x1_0000_0000
  {
    hide Used, Apart;
    assert BlockOk(blocks[i]);
    GapAtMostFree(blocks[i], 0);
    assert blocks[i].Gap(0) >= 0;
  }

  lemma RemoveKeepsShape(blocks: seq<Major>, i: nat, k: nat)
    requires HeapShaped(blocks) && i < |blocks| && k < |blocks[i].minors|
    ensures HeapShaped(blocks[i := blocks[i].Remove(k)])
  {
    hide Major.Shaped;
    assert BlockOk(blocks[i]);
    RemoveShaped(blocks[i], k);
    var after := blocks[i := blocks[i].Remove(k)];
    forall x, y | 0 <= x < y < |blocks|
      ensures Apart(after[x], after[y])
    {
      assert Apart(blocks[x], blocks[y]);
    }
  }

  /** After free exactly the other blocks are live. */
  lemma FreedHoldsOthers(blocks: seq<Major>, i: nat, k: nat, m: Minor)
    requires HeapShaped(blocks) && i < |blocks| && k < |blocks[i].minors|
    ensures Holds(Freed(blocks, i, k), m) <==> Holds(blocks, m) && m != blocks[i].minors[k]
  {
    hide HeapShaped, Freed, Holds;
    if Holds(blocks, m) && m != blocks[i].minors[k] {
      FreedKeeps(blocks, i, k, m);
    }
    if Holds(Freed(blocks, i, k), m) {
      FreedFrom(blocks, i, k, m);
    }
  }

  /** The majors after free: all but one left without a block, in their order, with the others' blocks
      as they were. */
  lemma FreedMajors(blocks: seq<Major>, i: nat, k: nat)
    requires i < |blocks| && k < |blocks[i].minors|
    ensures var after, gone := Freed(blocks, i, k), |blocks[i].minors| == 1;
            && |after| == |blocks| - (if gone then 1 else 0)
            && (forall j | 0 <= j < |blocks| && j != i :: after[if gone && j > i then j - 1 else j] == blocks[j])
            && (!gone ==> after[i].addr == blocks[i].addr && after[i].pages == blocks[i].pages
                          && |after[i].minors| == |blocks[i].minors| - 1)
  {
  }

  lemma FreedFrom(blocks: seq<Major>, i: nat, k: nat, m: Minor)
    requires HeapShaped(blocks) && i < |blocks| && k < |blocks[i].minors| && Holds(Freed(blocks, i, k), m)
    ensures Holds(blocks, m) && m != blocks[i].minors[k]
  {
    hide HeapShaped;
    var after := Freed(blocks, i, k);
    var x: nat, y: nat :| x < |after| && y < |after[x].minors| && after[x].minors[y] == m;
    var x' := if |after| < |blocks| && x >= i then x + 1 else x;
    var y' := if x' == i && y >= k then y + 1 else y;
    assert IsMinor(blocks, x', y', m.addr) && blocks[x'].minors[y'] == m;
    if m == blocks[i].minors[k] {
      assert IsMinor(blocks, i, k, m.addr);
      LiveOnce(blocks, i, k, x', y', m.addr);
    }
  }
}
