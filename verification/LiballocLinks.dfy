/** The linked header structures of liballoc in memory, and what it means for them to
    represent a list of majors.  Each lemma says that one splice of the links is one
    change of the represented list. */
module LiballocLinks {
  import opened LiballocSpec

  const MAGIC: nat := 0xc001_c0de
  const DEAD: nat := 0xdead_dead

  /** struct liballoc_major and struct liballoc_minor; every pointer is an address. */
  datatype MajorHdr = MajorHdr(prev: nat, next: nat, pages: nat, size: nat, usage: nat, first: nat)
  datatype MinorHdr = MinorHdr(prev: nat, next: nat, block: nat, magic: nat, size: nat, reqSize: nat)

  function AddrAt(blocks: seq<Major>, i: int): nat {
    if 0 <= i < |blocks| then blocks[i].addr else 0
  }

  function MinorAt(b: Major, k: int): nat {
    if 0 <= k < |b.minors| then b.minors[k].addr else 0
  }

  function MajorHdrOf(blocks: seq<Major>, i: nat): MajorHdr
    requires i < |blocks|
  {
    var b := blocks[i];
    MajorHdr(AddrAt(blocks, i - 1), AddrAt(blocks, i + 1), b.pages, b.Size(), b.Usage(), MinorAt(b, 0))
  }

  function MinorHdrOf(b: Major, k: nat): MinorHdr
    requires k < |b.minors|
  {
    MinorHdr(MinorAt(b, k - 1), MinorAt(b, k + 1), b.addr, MAGIC, b.minors[k].size, b.minors[k].reqSize)
  }

  ghost predicate IsMinor(blocks: seq<Major>, i: nat, k: nat, a: nat) {
    i < |blocks| && k < |blocks[i].minors| && blocks[i].minors[k].addr == a
  }

  ghost predicate LiveAt(blocks: seq<Major>, a: nat) {
    exists i: nat, k: nat :: IsMinor(blocks, i, k, a)
  }

  ghost predicate MinorRep(minors: map<nat, MinorHdr>, b: Major, k: nat)
    requires k < |b.minors|
  {
    b.minors[k].addr in minors && minors[b.minors[k].addr] == MinorHdrOf(b, k)
  }

  ghost predicate MinorsRep(minors: map<nat, MinorHdr>, b: Major) {
    forall k: nat | k < |b.minors| :: MinorRep(minors, b, k)
  }

  ghost predicate MajorRep(majors: map<nat, MajorHdr>, blocks: seq<Major>, i: nat)
    requires i < |blocks|
  {
    blocks[i].addr in majors && majors[blocks[i].addr] == MajorHdrOf(blocks, i)
  }

  ghost predicate MajorsRep(majors: map<nat, MajorHdr>, blocks: seq<Major>) {
    forall i: nat | i < |blocks| :: MajorRep(majors, blocks, i)
  }

  /** Exactly the live minors carry the live magic number. */
  ghost predicate MagicIsLive(minors: map<nat, MinorHdr>, blocks: seq<Major>) {
    forall a | a in minors && minors[a].magic == MAGIC :: LiveAt(blocks, a)
  }

  ghost predicate Represents(majors: map<nat, MajorHdr>, minors: map<nat, MinorHdr>, blocks: seq<Major>) {
    && MajorsRep(majors, blocks)
    && (forall i: nat | i < |blocks| :: MinorsRep(minors, blocks[i]))
    && MagicIsLive(minors, blocks)
  }

  lemma LiveDistinct(blocks: seq<Major>, i: nat, k: nat, i': nat, k': nat)
    requires HeapShaped(blocks) && i < |blocks| && i' < |blocks|
    requires k < |blocks[i].minors| && k' < |blocks[i'].minors| && (i != i' || k != k')
    ensures blocks[i].minors[k].addr != blocks[i'].minors[k'].addr
  {
    assert BlockOk(blocks[i]) && BlockOk(blocks[i']);
    if i != i' {
      MinorsInside(blocks[i], k);
      OtherMajorApart(blocks, i, i', k', blocks[i].minors[k].addr);
    } else {
      MinorsDistinct(blocks[i], k, k');
    }
  }

  /** An address belongs to at most one minor. */
  lemma LiveOnce(blocks: seq<Major>, i: nat, k: nat, i': nat, k': nat, a: nat)
    requires HeapShaped(blocks)
    requires IsMinor(blocks, i, k, a) && IsMinor(blocks, i', k', a)
    ensures i == i' && k == k'
  {
    if i != i' || k != k' {
      LiveDistinct(blocks, i, k, i', k');
    }
  }

  lemma MajorOnce(blocks: seq<Major>, i: nat, j: nat)
    requires HeapShaped(blocks) && i < |blocks| && j < |blocks| && i != j
    ensures blocks[i].addr != blocks[j].addr
  {
    assert BlockOk(blocks[i]) && BlockOk(blocks[j]);
    GapInside(blocks[i], 0);
    GapInside(blocks[j], 0);
    assert blocks[i].Gap(0) >= 0 && blocks[j].Gap(0) >= 0;
    assert Apart(blocks[if i < j then i else j], blocks[if i < j then j else i]);
  }

  // ----- splicing a minor in

  /** A header at `a` and the block m have bytes in common. */
  predicate Overlaps(a: nat, m: Minor) { a < m.End() && m.addr < a + HEADER }

  /** Old headers in the place of a new block are gone: their bytes are the block's from now on. */
  function Covered(minors: map<nat, MinorHdr>, m: Minor): map<nat, MinorHdr> {
    map a | a in minors && !Overlaps(a, m) :: minors[a]
  }

  ghost predicate ClearOf(minors: map<nat, MinorHdr>, m: Minor) {
    forall a | a in minors :: !Overlaps(a, m)
  }

  /** The only header that can be read inside a live block is its own. */
  ghost predicate NoStale(minors: map<nat, MinorHdr>, blocks: seq<Major>) {
    forall a, i: nat, k: nat | a in minors && i < |blocks| && k < |blocks[i].minors| && a != blocks[i].minors[k].addr ::
      !Overlaps(a, blocks[i].minors[k])
  }

  /** A block placed in a gap overlaps no live one. */
  lemma GapApart(blocks: seq<Major>, i: nat, k: nat, m: Minor, x: nat, y: nat)
    requires HeapShaped(blocks) && i < |blocks| && k <= |blocks[i].minors|
    requires m.addr == blocks[i].GapStart(k) && blocks[i].Gap(k) >= m.size + HEADER
    requires x < |blocks| && y < |blocks[x].minors|
    ensures var o := blocks[x].minors[y]; o.End() <= m.addr || m.End() <= o.addr
  {
    var b := blocks[i];
    assert BlockOk(b) && BlockOk(blocks[x]);
    GapInside(b, k);
    MinorsInside(blocks[x], y);
    if x != i {
      assert Apart(blocks[if x < i then x else i], blocks[if x < i then i else x]);
    } else if y < k {
      MinorsOrdered(b, y, k);
    } else if k < y {
      MinorsOrdered(b, k, y);
      assert b.Gap(y) >= 0;
    }
  }

  /** Live headers are not in the place of a new block. */
  lemma CoveredRep(majors: map<nat, MajorHdr>, minors: map<nat, MinorHdr>, blocks: seq<Major>, i: nat, k: nat, m: Minor)
    requires HeapShaped(blocks) && Represents(majors, minors, blocks) && i < |blocks| && k <= |blocks[i].minors|
    requires m.addr == blocks[i].GapStart(k) && blocks[i].Gap(k) >= m.size + HEADER
    ensures Represents(majors, Covered(minors, m), blocks)
  {
    forall x: nat | x < |blocks|
      ensures MinorsRep(Covered(minors, m), blocks[x])
    {
      forall y: nat | y < |blocks[x].minors|
        ensures MinorRep(Covered(minors, m), blocks[x], y)
      {
        assert MinorsRep(minors, blocks[x]) && MinorRep(minors, blocks[x], y);
        GapApart(blocks, i, k, m, x, y);
      }
    }
  }

  lemma InsertNoStale(minors: map<nat, MinorHdr>, blocks: seq<Major>, i: nat, k: nat, m: Minor, minors': map<nat, MinorHdr>)
    requires HeapShaped(blocks) && NoStale(minors, blocks) && i < |blocks| && k <= |blocks[i].minors|
    requires m.addr == blocks[i].GapStart(k) && blocks[i].Gap(k) >= m.size + HEADER
    requires ClearOf(minors, m)
    requires minors'.Keys == minors.Keys + {m.addr}
    ensures NoStale(minors', blocks[i := blocks[i].Insert(k, m)])
  {
    var after := blocks[i := blocks[i].Insert(k, m)];
    forall a, x: nat, y: nat | a in minors' && x < |after| && y < |after[x].minors| && a != after[x].minors[y].addr
      ensures !Overlaps(a, after[x].minors[y])
    {
      if x != i || y != k {
        var y' := if x == i && y > k then y - 1 else y;
        assert after[x].minors[y] == blocks[x].minors[y'];
        if a == m.addr {
          GapApart(blocks, i, k, m, x, y');
        }
      }
    }
  }

  ghost predicate LinkedIn(before: map<nat, MinorHdr>, after: map<nat, MinorHdr>, b: Major, k: nat, m: Minor)
    requires k <= |b.minors|
  {
    var prev, next := MinorAt(b, k - 1), MinorAt(b, k);
    && after.Keys == before.Keys + {m.addr}
    && after[m.addr] == MinorHdr(prev, next, b.addr, MAGIC, m.size, m.reqSize)
    && forall a | a in before && a != m.addr ::
         after[a] == if k > 0 && a == prev then before[a].(next := m.addr)
                     else if k < |b.minors| && a == next then before[a].(prev := m.addr)
                     else before[a]
  }

  lemma LinkedKeys(before: map<nat, MinorHdr>, after: map<nat, MinorHdr>, b: Major, k: nat, m: Minor)
    requires k <= |b.minors| && LinkedIn(before, after, b, k, m)
    ensures after.Keys == before.Keys + {m.addr}
  {
  }

  lemma RemoveNoStale(minors: map<nat, MinorHdr>, minors': map<nat, MinorHdr>, blocks: seq<Major>, i: nat, k: nat)
    requires i < |blocks| && k < |blocks[i].minors| && NoStale(minors, blocks)
    requires LinkedOut(minors, minors', blocks[i], k)
    ensures NoStale(minors', blocks[i := blocks[i].Remove(k)])
  {
    var after := blocks[i := blocks[i].Remove(k)];
    forall a, x: nat, y: nat | a in minors' && x < |after| && y < |after[x].minors| && a != after[x].minors[y].addr
      ensures !Overlaps(a, after[x].minors[y])
    {
      assert after[x].minors[y] == blocks[x].minors[if x != i || y < k then y else y + 1];
    }
  }

  /** The three writes that hang a block behind the minor at `min`. */
  function BehindMap(minors: map<nat, MinorHdr>, maj: nat, min: nat, m: Minor): map<nat, MinorHdr>
    requires min in minors && (minors[min].next != 0 ==> minors[min].next in minors)
  {
    var next := minors[min].next;
    var one := minors[m.addr := MinorHdr(min, next, maj, MAGIC, m.size, m.reqSize)];
    var two := if next != 0 then one[next := one[next].(prev := m.addr)] else one;
    two[min := two[min].(next := m.addr)]
  }

  lemma BehindMapIn(minors: map<nat, MinorHdr>, b: Major, k: nat, m: Minor)
    requires BlockOk(b) && MinorsRep(minors, b) && 0 < k <= |b.minors|
    requires b.Gap(k) >= m.size + HEADER && m.addr == b.GapStart(k)
    ensures var min := b.minors[k - 1].addr;
            && min in minors && (minors[min].next != 0 ==> minors[min].next in minors)
            && min + HEADER + minors[min].size == m.addr && minors[min].next != m.addr
            && LinkedIn(minors, BehindMap(minors, b.addr, min, m), b, k, m)
  {
    assert MinorRep(minors, b, k - 1);
    MinorsInside(b, k - 1);
    MinorsDistinct(b, k - 1, k);
    NotInGap(b, k - 1, k, m);
    if k < |b.minors| {
      assert MinorRep(minors, b, k);
      MinorsInside(b, k);
      NotInGap(b, k, k, m);
    }
  }

  lemma InsertMinorsRep(before: map<nat, MinorHdr>, after: map<nat, MinorHdr>, b: Major, k: nat, m: Minor)
    requires b.Shaped() && MinorsRep(before, b) && k <= |b.minors|
    requires b.Gap(k) >= m.size + HEADER && m.addr == b.GapStart(k)
    requires LinkedIn(before, after, b, k, m)
    ensures MinorsRep(after, b.Insert(k, m))
  {
    var c := b.Insert(k, m);
    forall j: nat | j < |c.minors|
      ensures MinorRep(after, c, j)
    {
      if j != k {
        var o := if j < k then j else j - 1;
        assert c.minors[j] == b.minors[o];
        assert MinorRep(before, b, o);
        MinorsDistinct(b, o, k - 1);
        MinorsDistinct(b, o, k);
        NotInGap(b, o, k, m);
      }
    }
  }

  lemma MinorsDistinct(b: Major, j: int, k: int)
    requires b.Shaped() && 0 <= j < |b.minors|
    ensures 0 <= k < |b.minors| && j != k ==> b.minors[j].addr != b.minors[k].addr
  {
    if 0 <= k < |b.minors| {
      if j < k {
        MinorsOrdered(b, j, k);
        assert b.Gap(k) >= 0;
      } else if k < j {
        MinorsOrdered(b, k, j);
        assert b.Gap(j) >= 0;
      }
    }
  }

  lemma NotInGap(b: Major, j: nat, k: nat, m: Minor)
    requires b.Shaped() && j < |b.minors| && k <= |b.minors|
    requires b.Gap(k) >= m.size + HEADER && m.addr == b.GapStart(k)
    ensures b.minors[j].addr != m.addr
  {
    if j < k {
      MinorsOrdered(b, j, k);
    } else {
      assert b.Gap(j) >= 0 && b.GapStop(k) == b.minors[k].addr;
      if k < j {
        MinorsOrdered(b, k, j);
      }
    }
  }

  /** Where the header of a minor of another major lies. */
  lemma OtherMajorApart(blocks: seq<Major>, i: nat, j: nat, k: nat, a: nat)
    requires HeapShaped(blocks) && i < |blocks| && j < |blocks| && i != j && k < |blocks[j].minors|
    requires blocks[i].addr <= a < blocks[i].End()
    ensures blocks[j].minors[k].addr != a
  {
    assert BlockOk(blocks[j]);
    MinorsInside(blocks[j], k);
    assert Apart(blocks[if i < j then i else j], blocks[if i < j then j else i]);
  }

  lemma GapInside(b: Major, k: nat)
    requires b.Shaped() && k <= |b.minors|
    ensures b.addr + HEADER <= b.GapStart(k) && b.GapStop(k) <= b.End()
  {
    if k > 0 {
      MinorsInside(b, k - 1);
    }
    if k < |b.minors| {
      MinorsInside(b, k);
    }
  }

  /** Changing the contents of major i, and its header with them. */
  lemma UpdateMajorsRep(majors: map<nat, MajorHdr>, blocks: seq<Major>, i: nat, c: Major, majors': map<nat, MajorHdr>)
    requires HeapShaped(blocks) && MajorsRep(majors, blocks) && i < |blocks| && c.Shaped()
    requires c.addr == blocks[i].addr && c.pages == blocks[i].pages
    requires c.addr in majors
    requires majors' == majors[c.addr := majors[c.addr].(usage := c.Usage(), first := MinorAt(c, 0))]
    ensures HeapShaped(blocks[i := c]) && MajorsRep(majors', blocks[i := c])
  {
    var after := blocks[i := c];
    assert BlockOk(blocks[i]);
    forall x, y | 0 <= x < y < |after|
      ensures Apart(after[x], after[y])
    {
      assert Apart(blocks[x], blocks[y]);
    }
    forall j: nat | j < |after|
      ensures MajorRep(majors', after, j)
    {
      assert MajorRep(majors, blocks, j) && MajorRep(majors, blocks, i);
      if j != i {
        assert BlockOk(blocks[j]);
        MajorOnce(blocks, i, j);
      }
    }
  }

  /** Placing a minor in gap k of major i. */
  lemma InsertRep(majors: map<nat, MajorHdr>, minors: map<nat, MinorHdr>, blocks: seq<Major>, i: nat, k: nat, m: Minor,
                  majors': map<nat, MajorHdr>, minors': map<nat, MinorHdr>)
    requires HeapShaped(blocks) && Represents(majors, minors, blocks)
    requires i < |blocks| && k <= |blocks[i].minors|
    requires m.addr == blocks[i].GapStart(k) && m.reqSize + SLACK <= m.size
    requires blocks[i].Gap(k) >= m.size + HEADER
    requires blocks[i].addr in majors
    requires var h := majors[blocks[i].addr];
             majors' == majors[blocks[i].addr :=
                                 h.(usage := h.usage + m.size + HEADER, first := if k == 0 then m.addr else h.first)]
    requires LinkedIn(minors, minors', blocks[i], k, m)
    ensures HeapShaped(blocks[i := blocks[i].Insert(k, m)])
    ensures Represents(majors', minors', blocks[i := blocks[i].Insert(k, m)])
  {
    var b := blocks[i];
    var c := b.Insert(k, m);
    assert BlockOk(b) && MajorRep(majors, blocks, i);
    InsertShaped(b, k, m);
    UsedInsert(b, k, m);
    var after := blocks[i := c];
    UpdateMajorsRep(majors, blocks, i, c, majors');
    LinkedInLocal(minors, minors', b, k, m);
    forall j: nat | j < |after|
      ensures MinorsRep(minors', after[j])
    {
      if j == i {
        InsertMinorsRep(minors, minors', b, k, m);
      } else {
        OtherMinorsRep(minors, minors', blocks, i, j);
      }
    }
    InsertMagic(minors, minors', blocks, i, k, m);
  }

  lemma LinkedInLocal(before: map<nat, MinorHdr>, after: map<nat, MinorHdr>, b: Major, k: nat, m: Minor)
    requires b.Shaped() && k <= |b.minors| && LinkedIn(before, after, b, k, m)
    requires b.Gap(k) >= m.size + HEADER && m.addr == b.GapStart(k)
    ensures forall a | a in before && !(b.addr <= a < b.End()) :: a in after && after[a] == before[a]
  {
    GapInside(b, k);
    if k > 0 {
      MinorsInside(b, k - 1);
    }
    if k < |b.minors| {
      MinorsInside(b, k);
    }
  }

  /** Headers of other majors' minors do not see a change inside major i. */
  lemma OtherMinorsRep(before: map<nat, MinorHdr>, after: map<nat, MinorHdr>, blocks: seq<Major>, i: nat, j: nat)
    requires HeapShaped(blocks) && i < |blocks| && j < |blocks| && i != j
    requires MinorsRep(before, blocks[j])
    requires forall a | a in before && !(blocks[i].addr <= a < blocks[i].End()) :: a in after && after[a] == before[a]
    ensures MinorsRep(after, blocks[j])
  {
    forall q: nat | q < |blocks[j].minors|
      ensures MinorRep(after, blocks[j], q)
    {
      assert MinorRep(before, blocks[j], q);
      var a := blocks[j].minors[q].addr;
      if blocks[i].addr <= a < blocks[i].End() {
        OtherMajorApart(blocks, i, j, q, a);
      }
    }
  }

  lemma InsertMagic(before: map<nat, MinorHdr>, after: map<nat, MinorHdr>, blocks: seq<Major>, i: nat, k: nat, m: Minor)
    requires i < |blocks| && k <= |blocks[i].minors| && MagicIsLive(before, blocks)
    requires LinkedIn(before, after, blocks[i], k, m)
    ensures MagicIsLive(after, blocks[i := blocks[i].Insert(k, m)])
  {
    var blocks' := blocks[i := blocks[i].Insert(k, m)];
    forall a | a in after && after[a].magic == MAGIC
      ensures LiveAt(blocks', a)
    {
      if a == m.addr {
        assert IsMinor(blocks', i, k, a);
      } else {
        var x: nat, y: nat :| IsMinor(blocks, x, y, a);
        assert IsMinor(blocks', x, if x == i && y >= k then y + 1 else y, a);
      }
    }
  }

  // ----- taking a minor out

  ghost predicate LinkedOut(before: map<nat, MinorHdr>, after: map<nat, MinorHdr>, b: Major, k: nat)
    requires k < |b.minors|
  {
    var prev, next := MinorAt(b, k - 1), MinorAt(b, k + 1);
    && after.Keys == before.Keys
    && forall a | a in before ::
         after[a] == if a == b.minors[k].addr then before[a].(magic := DEAD)
                     else if k > 0 && a == prev then before[a].(next := next)
                     else if k + 1 < |b.minors| && a == next then before[a].(prev := prev)
                     else before[a]
  }

  /** The three writes that take the minor at `a` out of its list. */
  function UnlinkMap(minors: map<nat, MinorHdr>, a: nat): map<nat, MinorHdr>
    requires a in minors
    requires minors[a].next != 0 ==> minors[a].next in minors
    requires minors[a].prev != 0 ==> minors[a].prev in minors
  {
    var h := minors[a];
    var m1 := minors[a := h.(magic := DEAD)];
    var m2 := if h.next != 0 then m1[h.next := m1[h.next].(prev := h.prev)] else m1;
    if h.prev != 0 then m2[h.prev := m2[h.prev].(next := h.next)] else m2
  }

  lemma UnlinkMapOut(minors: map<nat, MinorHdr>, b: Major, k: nat)
    requires b.Shaped() && b.addr > 0 && k < |b.minors| && MinorsRep(minors, b)
    ensures var a := b.minors[k].addr;
            && a in minors
            && (minors[a].next != 0 ==> minors[a].next in minors)
            && (minors[a].prev != 0 ==> minors[a].prev in minors)
            && LinkedOut(minors, UnlinkMap(minors, a), b, k)
  {
    assert MinorRep(minors, b, k);
    MinorsInside(b, k);
    MinorsDistinct(b, k, k - 1);
    MinorsDistinct(b, k, k + 1);
    if k > 0 {
      assert MinorRep(minors, b, k - 1);
      MinorsInside(b, k - 1);
      MinorsDistinct(b, k - 1, k + 1);
    }
    if k + 1 < |b.minors| {
      assert MinorRep(minors, b, k + 1);
      MinorsInside(b, k + 1);
    }
  }

  lemma RemoveMinorsRep(before: map<nat, MinorHdr>, after: map<nat, MinorHdr>, b: Major, k: nat)
    requires b.Shaped() && MinorsRep(before, b) && k < |b.minors|
    requires LinkedOut(before, after, b, k)
    ensures MinorsRep(after, b.Remove(k))
  {
    hide LinkedOut, MinorRep, Major.Shaped;
    forall j: nat | j < |b.Remove(k).minors|
      ensures MinorRep(after, b.Remove(k), j)
    {
      assert MinorRep(before, b, if j < k then j else j + 1);
      MinorRelinked(before, after, b, k, j);
    }
  }

  /** The header of a minor left after the unlinking writes. */
  lemma MinorRelinked(before: map<nat, MinorHdr>, after: map<nat, MinorHdr>, b: Major, k: nat, j: nat)
    requires b.Shaped() && k < |b.minors| && j + 1 < |b.minors| && LinkedOut(before, after, b, k)
    requires MinorRep(before, b, if j < k then j else j + 1)
    ensures MinorRep(after, b.Remove(k), j)
  {
    hide Major.Shaped, Major.Remove, MinorAt;
    var o := if j < k then j else j + 1;
    HeaderRelinked(before, after, b, k, o);
    AtRemoved(b, k, j - 1);
    AtRemoved(b, k, j);
    AtRemoved(b, k, j + 1);
  }

  lemma AtRemoved(b: Major, k: nat, j: int)
    requires k < |b.minors|
    ensures b.Remove(k).addr == b.addr && |b.Remove(k).minors| == |b.minors| - 1
    ensures MinorAt(b.Remove(k), j) == MinorAt(b, if j < k then j else j + 1)
    ensures 0 <= j < |b.minors| - 1 ==> b.Remove(k).minors[j] == b.minors[if j < k then j else j + 1]
  {
  }

  lemma HeaderRelinked(before: map<nat, MinorHdr>, after: map<nat, MinorHdr>, b: Major, k: nat, o: nat)
    requires b.Shaped() && k < |b.minors| && o < |b.minors| && o != k && LinkedOut(before, after, b, k)
    requires b.minors[o].addr in before
    ensures var a := b.minors[o].addr;
            a in after && after[a] == if o + 1 == k then before[a].(next := MinorAt(b, k + 1))
                                      else if o == k + 1 then before[a].(prev := MinorAt(b, k - 1)) else before[a]
  {
    hide Major.Shaped;
    MinorsDistinct(b, o, k - 1);
    MinorsDistinct(b, o, k);
    MinorsDistinct(b, o, k + 1);
  }

  /** Unlinking minor k of major i, which may leave that major empty. */
  lemma RemoveRep(majors: map<nat, MajorHdr>, minors: map<nat, MinorHdr>, blocks: seq<Major>, i: nat, k: nat,
                  majors': map<nat, MajorHdr>, minors': map<nat, MinorHdr>)
    requires HeapShaped(blocks) && Represents(majors, minors, blocks)
    requires i < |blocks| && k < |blocks[i].minors|
    requires blocks[i].addr in majors
    requires majors[blocks[i].addr].usage >= blocks[i].minors[k].size + HEADER
    requires var h := majors[blocks[i].addr];
             majors' == majors[blocks[i].addr :=
                                 h.(usage := h.usage - blocks[i].minors[k].size - HEADER,
                                    first := if k == 0 then MinorAt(blocks[i], 1) else h.first)]
    requires LinkedOut(minors, minors', blocks[i], k)
    ensures HeapShaped(blocks[i := blocks[i].Remove(k)])
    ensures Represents(majors', minors', blocks[i := blocks[i].Remove(k)])
  {
    var b := blocks[i];
    var c := b.Remove(k);
    assert BlockOk(b) && MajorRep(majors, blocks, i);
    RemoveShaped(b, k);
    UsedRemove(b, k);
    var after := blocks[i := c];
    UpdateMajorsRep(majors, blocks, i, c, majors');
    LinkedOutLocal(minors, minors', b, k);
    forall j: nat | j < |after|
      ensures MinorsRep(minors', after[j])
    {
      if j == i {
        RemoveMinorsRep(minors, minors', b, k);
      } else {
        OtherMinorsRep(minors, minors', blocks, i, j);
      }
    }
    RemoveMagic(minors, minors', blocks, i, k);
  }

  lemma LinkedOutLocal(before: map<nat, MinorHdr>, after: map<nat, MinorHdr>, b: Major, k: nat)
    requires b.Shaped() && k < |b.minors| && LinkedOut(before, after, b, k)
    ensures forall a | a in before && !(b.addr <= a < b.End()) :: a in after && after[a] == before[a]
  {
    MinorsInside(b, k);
    if k > 0 {
      MinorsInside(b, k - 1);
    }
    if k + 1 < |b.minors| {
      MinorsInside(b, k + 1);
    }
  }

  lemma RemoveMagic(before: map<nat, MinorHdr>, after: map<nat, MinorHdr>, blocks: seq<Major>, i: nat, k: nat)
    requires HeapShaped(blocks) && i < |blocks| && k < |blocks[i].minors| && MagicIsLive(before, blocks)
    requires LinkedOut(before, after, blocks[i], k)
    ensures MagicIsLive(after, blocks[i := blocks[i].Remove(k)])
  {
    var blocks' := blocks[i := blocks[i].Remove(k)];
    forall a | a in after && after[a].magic == MAGIC
      ensures LiveAt(blocks', a)
    {
      var x: nat, y: nat :| IsMinor(blocks, x, y, a);
      assert x == i ==> y != k;
      assert IsMinor(blocks', x, if x == i && y > k then y - 1 else y, a);
    }
  }

  // ----- the list of majors

  /** The neighbours of major i now point past it. */
  ghost predicate Bypassed(before: map<nat, MajorHdr>, after: map<nat, MajorHdr>, blocks: seq<Major>, i: nat)
    requires i < |blocks|
  {
    var prev, next := AddrAt(blocks, i - 1), AddrAt(blocks, i + 1);
    forall a | a in before && a != blocks[i].addr ::
      a in after && after[a] == if i > 0 && a == prev then before[a].(next := next)
                                else if i + 1 < |blocks| && a == next then before[a].(prev := prev)
                                else before[a]
  }

  /** Headers on pages that went back to the system are gone. */
  function Released(minors: map<nat, MinorHdr>, lo: nat, size: nat): map<nat, MinorHdr> {
    map a | a in minors && !(lo <= a < lo + size) :: minors[a]
  }

  /** The two writes that take the major at `a` out of the list, and the release of its pages. */
  function BypassMap(majors: map<nat, MajorHdr>, a: nat): map<nat, MajorHdr>
    requires a in majors
    requires majors[a].next != 0 ==> majors[a].next in majors
    requires majors[a].prev != 0 ==> majors[a].prev in majors
  {
    var h := majors[a];
    var m1 := if h.prev != 0 then majors[h.prev := majors[h.prev].(next := h.next)] else majors;
    (if h.next != 0 then m1[h.next := m1[h.next].(prev := h.prev)] else m1) - {a}
  }

  lemma BypassMapOk(majors: map<nat, MajorHdr>, blocks: seq<Major>, i: nat)
    requires HeapShaped(blocks) && MajorsRep(majors, blocks) && i < |blocks|
    ensures var a := blocks[i].addr;
            && a in majors
            && (majors[a].next != 0 ==> majors[a].next in majors)
            && (majors[a].prev != 0 ==> majors[a].prev in majors)
            && Bypassed(majors, BypassMap(majors, a), blocks, i)
  {
    hide Apart, Major.Shaped;
    assert MajorRep(majors, blocks, i);
    if i > 0 {
      assert MajorRep(majors, blocks, i - 1) && BlockOk(blocks[i - 1]);
      MajorOnce(blocks, i - 1, i);
    }
    if i + 1 < |blocks| {
      assert MajorRep(majors, blocks, i + 1) && BlockOk(blocks[i + 1]);
      MajorOnce(blocks, i, i + 1);
      if i > 0 {
        MajorOnce(blocks, i - 1, i + 1);
      }
    }
  }

  lemma AddrAfterRemove(blocks: seq<Major>, i: nat, x: int)
    requires i < |blocks|
    ensures AddrAt(RemoveAt(blocks, i), x) == AddrAt(blocks, if x < i then x else x + 1)
  {
  }

  lemma DropMajorRep(before: map<nat, MajorHdr>, after: map<nat, MajorHdr>, blocks: seq<Major>, i: nat, j: nat)
    requires HeapShaped(blocks) && MajorsRep(before, blocks) && i < |blocks| && j < |blocks| - 1
    requires Bypassed(before, after, blocks, i)
    ensures MajorRep(after, RemoveAt(blocks, i), j)
  {
    hide HeapShaped;
    var o := if j < i then j else j + 1;
    AddrAfterRemove(blocks, i, j - 1);
    AddrAfterRemove(blocks, i, j + 1);
    assert RemoveAt(blocks, i)[j] == blocks[o];
    assert MajorRep(before, blocks, o);
    MajorOnce(blocks, o, i);
    if i > 0 && o != i - 1 {
      MajorOnce(blocks, o, i - 1);
    }
    if i + 1 < |blocks| && o != i + 1 {
      MajorOnce(blocks, o, i + 1);
    }
  }

  lemma RemoveHeapShaped(blocks: seq<Major>, i: nat)
    requires HeapShaped(blocks) && i < |blocks|
    ensures HeapShaped(RemoveAt(blocks, i))
  {
    var after := RemoveAt(blocks, i);
    forall x, y | 0 <= x < y < |after|
      ensures Apart(after[x], after[y])
    {
      assert Apart(blocks[if x < i then x else x + 1], blocks[if y < i then y else y + 1]);
    }
  }

  lemma DropMagic(before: map<nat, MinorHdr>, after: map<nat, MinorHdr>, blocks: seq<Major>, i: nat)
    requires MagicIsLive(before, blocks) && i < |blocks| && blocks[i].minors == []
    requires forall a | a in after :: a in before && after[a] == before[a]
    ensures MagicIsLive(after, RemoveAt(blocks, i))
  {
    forall a | a in after && after[a].magic == MAGIC
      ensures LiveAt(RemoveAt(blocks, i), a)
    {
      var x: nat, y: nat :| IsMinor(blocks, x, y, a);
      assert IsMinor(RemoveAt(blocks, i), if x < i then x else x - 1, y, a);
    }
  }

  lemma DropMinors(before: map<nat, MinorHdr>, after: map<nat, MinorHdr>, blocks: seq<Major>, i: nat)
    requires HeapShaped(blocks) && i < |blocks|
    requires forall j: nat | j < |blocks| :: MinorsRep(before, blocks[j])
    requires forall a | a in before && !(blocks[i].addr <= a < blocks[i].End()) :: a in after && after[a] == before[a]
    ensures forall j: nat | j < |blocks| - 1 :: MinorsRep(after, RemoveAt(blocks, i)[j])
  {
    forall j: nat | j < |blocks| - 1
      ensures MinorsRep(after, RemoveAt(blocks, i)[j])
    {
      OtherMinorsRep(before, after, blocks, i, if j < i then j else j + 1);
    }
  }

  /** Returning the pages of the empty major i to the system. */
  lemma DropRep(majors: map<nat, MajorHdr>, minors: map<nat, MinorHdr>, blocks: seq<Major>, i: nat,
                majors': map<nat, MajorHdr>, minors': map<nat, MinorHdr>)
    requires HeapShaped(blocks) && Represents(majors, minors, blocks)
    requires i < |blocks| && blocks[i].minors == []
    requires Bypassed(majors, majors', blocks, i)
    requires minors' == Released(minors, blocks[i].addr, blocks[i].Size())
    ensures HeapShaped(RemoveAt(blocks, i))
    ensures Represents(majors', minors', RemoveAt(blocks, i))
  {
    RemoveHeapShaped(blocks, i);
    forall j: nat | j < |blocks| - 1
      ensures MajorRep(majors', RemoveAt(blocks, i), j)
    {
      DropMajorRep(majors, majors', blocks, i, j);
    }
    DropMinors(minors, minors', blocks, i);
    DropMagic(minors, minors', blocks, i);
  }

  /** Hanging a fresh, still empty major behind the last one. */
  lemma AppendRep(majors: map<nat, MajorHdr>, minors: map<nat, MinorHdr>, blocks: seq<Major>, b: Major,
                  majors': map<nat, MajorHdr>)
    requires HeapShaped(blocks) && Represents(majors, minors, blocks)
    requires BlockOk(b) && b.minors == []
    requires forall i | 0 <= i < |blocks| :: Apart(blocks[i], b)
    requires b.addr in majors'
    requires majors'[b.addr] == MajorHdr(AddrAt(blocks, |blocks| - 1), 0, b.pages, b.Size(), HEADER, 0)
    requires forall a | a in majors && a != b.addr ::
               a in majors' && majors'[a] == if |blocks| > 0 && a == AddrAt(blocks, |blocks| - 1) then majors[a].(next := b.addr) else majors[a]
    ensures HeapShaped(blocks + [b])
    ensures Represents(majors', minors, blocks + [b])
  {
    var n := |blocks|;
    var after := blocks + [b];
    forall j: nat | j < n
      ensures MajorRep(majors', after, j)
    {
      assert MajorRep(majors, blocks, j);
      assert HeapShaped(after);
      MajorOnce(after, j, n);
      if j != n - 1 {
        MajorOnce(blocks, j, n - 1);
      }
    }
    assert MajorRep(majors', after, n);
    assert MinorsRep(minors, b);
    forall a | a in minors && minors[a].magic == MAGIC
      ensures LiveAt(after, a)
    {
      var x: nat, y: nat :| IsMinor(blocks, x, y, a);
      assert IsMinor(after, x, y, a);
    }
  }

  // ----- noting a new requested size

  lemma ResizeMinorsRep(minors: map<nat, MinorHdr>, blocks: seq<Major>, i: nat, k: nat, reqSize: nat,
                        minors': map<nat, MinorHdr>, j: nat)
    requires HeapShaped(blocks) && i < |blocks| && k < |blocks[i].minors| && j < |blocks|
    requires MinorsRep(minors, blocks[j]) && blocks[i].minors[k].addr in minors
    requires minors' == minors[blocks[i].minors[k].addr := minors[blocks[i].minors[k].addr].(reqSize := reqSize)]
    ensures MinorsRep(minors', Resized(blocks, i, k, reqSize)[j])
  {
    var c := Resized(blocks, i, k, reqSize)[j];
    forall q: nat | q < |c.minors|
      ensures MinorRep(minors', c, q)
    {
      assert MinorRep(minors, blocks[j], q);
      if i != j || k != q {
        LiveDistinct(blocks, i, k, j, q);
      }
    }
  }

  lemma ResizeRep(majors: map<nat, MajorHdr>, minors: map<nat, MinorHdr>, blocks: seq<Major>, i: nat, k: nat,
                  reqSize: nat, minors': map<nat, MinorHdr>)
    requires HeapShaped(blocks) && Represents(majors, minors, blocks)
    requires i < |blocks| && k < |blocks[i].minors| && blocks[i].minors[k].addr in minors
    requires minors' == minors[blocks[i].minors[k].addr := minors[blocks[i].minors[k].addr].(reqSize := reqSize)]
    ensures Represents(majors, minors', Resized(blocks, i, k, reqSize))
  {
    hide HeapShaped, MinorsRep;
    var after := Resized(blocks, i, k, reqSize);
    ResizedTotals(blocks, i, k, reqSize);
    forall j: nat | j < |after|
      ensures MajorRep(majors, after, j) && MinorsRep(minors', after[j])
    {
      assert MajorRep(majors, blocks, j);
      ResizeMinorsRep(minors, blocks, i, k, reqSize, minors', j);
    }
    ResizeMagic(minors, blocks, i, k, reqSize, minors');
  }

  lemma ResizeMagic(minors: map<nat, MinorHdr>, blocks: seq<Major>, i: nat, k: nat, reqSize: nat,
                    minors': map<nat, MinorHdr>)
    requires MagicIsLive(minors, blocks)
    requires i < |blocks| && k < |blocks[i].minors| && blocks[i].minors[k].addr in minors
    requires minors' == minors[blocks[i].minors[k].addr := minors[blocks[i].minors[k].addr].(reqSize := reqSize)]
    ensures MagicIsLive(minors', Resized(blocks, i, k, reqSize))
  {
    forall a | a in minors' && minors'[a].magic == MAGIC
      ensures LiveAt(Resized(blocks, i, k, reqSize), a)
    {
      var x: nat, y: nat :| IsMinor(blocks, x, y, a);
      assert IsMinor(Resized(blocks, i, k, reqSize), x, y, a);
    }
  }
}
