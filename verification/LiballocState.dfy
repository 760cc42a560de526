/** The state of liballoc as a value, its invariant, and the lemmas that say which splice of
    the headers keeps it. */
module LiballocState {
  import opened Bytes
  import opened LiballocSpec
  import opened LiballocLinks

  // ----- the ALIGN and UNALIGN macros

  /** The first multiple of ALIGNMENT at least ALIGN_INFO bytes after x. */
  function AlignUp(x: nat): (p: nat)
    ensures p % ALIGNMENT == 0 && x + ALIGN_INFO <= p < x + SLACK
  {
    var p := x + ALIGN_INFO;
    var diff := p % ALIGNMENT;
    if diff != 0 then p + (ALIGNMENT - diff) else p
  }

  function Unalign(ram: seq<byte>, p: nat): int
    requires ALIGN_INFO <= p < |ram| + ALIGN_INFO
  {
    var diff := ram[p - ALIGN_INFO];
    if diff < SLACK then p - diff else p
  }

  /** The address handed out for the minor whose header is at `a`. */
  function Payload(a: nat): nat { AlignUp(a + HEADER) }

  /** The byte below each payload records the way back to its header. */
  ghost predicate Tagged(ram: seq<byte>, m: Minor) {
    var p := Payload(m.addr);
    p - ALIGN_INFO < |ram| && ram[p - ALIGN_INFO] == p - (m.addr + HEADER)
  }

  ghost predicate AllTagged(ram: seq<byte>, blocks: seq<Major>) {
    forall i: nat, k: nat | i < |blocks| && k < |blocks[i].minors| :: Tagged(ram, blocks[i].minors[k])
  }

  /** UNALIGN inverts ALIGN. */
  lemma UnalignAfterAlign(ram: seq<byte>, x: nat)
    requires AlignUp(x) - ALIGN_INFO < |ram|
    ensures Unalign(ram[AlignUp(x) - ALIGN_INFO := AlignUp(x) - x], AlignUp(x)) == x
  {
  }

  /** The payload is 16-aligned and lies, with the tag byte below it, between the minor's
      header and its end. */
  lemma PayloadInside(m: Minor)
    requires m.reqSize + SLACK <= m.size
    ensures Payload(m.addr) % 16 == 0 && m.addr + 56 <= Payload(m.addr) < m.addr + 72
    ensures m.addr + HEADER <= Payload(m.addr) - ALIGN_INFO < Payload(m.addr)
    ensures Payload(m.addr) + m.reqSize <= m.End()
  {
  }

  /** Two different live minors occupy disjoint addresses, headers included. */
  lemma ExtentsApart(blocks: seq<Major>, i: nat, k: nat, i': nat, k': nat)
    requires HeapShaped(blocks) && i < |blocks| && i' < |blocks|
    requires k < |blocks[i].minors| && k' < |blocks[i'].minors| && (i != i' || k != k')
    ensures var m, m' := blocks[i].minors[k], blocks[i'].minors[k']; m.End() <= m'.addr || m'.End() <= m.addr
  {
    var lo, hi := if k < k' then k else k', if k < k' then k' else k;
    assert BlockOk(blocks[i]) && BlockOk(blocks[i']);
    MinorsInside(blocks[i], k);
    MinorsInside(blocks[i'], k');
    if i == i' {
      MinorsOrdered(blocks[i], lo, hi);
      assert blocks[i].Gap(hi) >= 0;
    } else {
      assert Apart(blocks[if i < i' then i else i'], blocks[if i < i' then i' else i]);
    }
  }

  /** No payload byte of one live minor is a header or tag byte of any live minor, a payload
      byte of another one, or part of a major's header. */
  lemma PayloadsClear(blocks: seq<Major>, i: nat, k: nat, i': nat, k': nat, a: nat)
    requires HeapShaped(blocks) && i < |blocks| && i' < |blocks|
    requires k < |blocks[i].minors| && k' < |blocks[i'].minors|
    requires var m := blocks[i].minors[k]; Payload(m.addr) <= a < Payload(m.addr) + m.reqSize
    ensures var m' := blocks[i'].minors[k'];
            && !(m'.addr <= a < m'.addr + HEADER)
            && a != Payload(m'.addr) - ALIGN_INFO
            && ((i, k) != (i', k') ==> !(Payload(m'.addr) <= a < Payload(m'.addr) + m'.reqSize))
    ensures !(blocks[i'].addr <= a < blocks[i'].addr + HEADER)
  {
    assert BlockOk(blocks[i]) && BlockOk(blocks[i']);
    assert blocks[i].minors[k].reqSize + SLACK <= blocks[i].minors[k].size;
    assert blocks[i'].minors[k'].reqSize + SLACK <= blocks[i'].minors[k'].size;
    MinorsInside(blocks[i], k);
    MinorsInside(blocks[i'], k');
    PayloadInside(blocks[i].minors[k]);
    PayloadInside(blocks[i'].minors[k']);
    if i != i' || k != k' {
      ExtentsApart(blocks, i, k, i', k');
      if i != i' {
        assert Apart(blocks[if i < i' then i else i'], blocks[if i < i' then i' else i]);
      }
    }
  }

  // ----- where the scan starts

  function IndexOf(blocks: seq<Major>, a: nat): (i: nat)
    ensures i <= |blocks|
    ensures i < |blocks| ==> blocks[i].addr == a
    ensures forall j | 0 <= j < i :: blocks[j].addr != a
  {
    if blocks == [] then 0
    else
      var i := IndexOf(blocks[..|blocks| - 1], a);
      if i < |blocks| - 1 || blocks[i].addr == a then i else |blocks|
  }

  /** The scan starts at the best bet when that has more than `need` bytes free in total. */
  function StartOf(blocks: seq<Major>, bestBet: nat, need: nat): (start: nat)
    ensures start <= |blocks|
  {
    var i := IndexOf(blocks, bestBet);
    if bestBet != 0 && i < |blocks| && blocks[i].Size() - blocks[i].Usage() > need then i else 0
  }

  /** Which place malloc takes.  A hint whose major, at index b, has more free bytes than needed: the
      first major with room from there on, or if there is none the first one from the root.  Any
      other hint, or none: the first one from the root.  In the major, the first gap with room. */
  ghost predicate TakenInOrder(blocks: seq<Major>, bet: nat, need: nat, i: nat, k: nat) {
    && (i < |blocks| ==>
          && k <= |blocks[i].minors| && blocks[i].Gap(k) >= need
          && forall g: nat | g < k :: blocks[i].Gap(g) < need)
    && (forall b: nat | bet != 0 && b < |blocks| && blocks[b].addr == bet && blocks[b].Size() - blocks[b].Usage() > need ::
          forall j: nat, g: nat | j < |blocks| && g <= |blocks[j].minors| && blocks[j].Gap(g) >= need ::
            i < |blocks| && (b <= j ==> b <= i <= j) && (i < b ==> i <= j))
    && ((forall b: nat | bet != 0 && b < |blocks| && blocks[b].addr == bet :: blocks[b].Size() - blocks[b].Usage() <= need) ==>
          forall j: nat, g: nat | j < |blocks| && g <= |blocks[j].minors| && blocks[j].Gap(g) >= need :: i <= j)
  }

  /** What malloc puts there: a block that starts where the one before it ends, or else behind the
      major's header.  Nothing else changes.  Where no major has room, the new one is as large as the
      block and both headers need, and has 16 pages at least. */
  ghost predicate NewBlock(before: seq<Major>, reqSize: nat, grant: nat, i: nat, k: nat, after: seq<Major>) {
    && i < |after| && k < |after[i].minors| && i <= |before|
    && after[i].minors[k].size == reqSize + 32 && after[i].minors[k].reqSize == reqSize
    && after[i].minors[k].addr == (if k == 0 then after[i].addr + 40
                                   else after[i].minors[k - 1].addr + 40 + after[i].minors[k - 1].size)
    && (forall j | 0 <= j < |before| && j != i :: j < |after| && after[j] == before[j])
    && if i < |before| then
         && |after| == |before| && after[i].addr == before[i].addr && after[i].pages == before[i].pages
         && |after[i].minors| == |before[i].minors| + 1 && (forall y | 0 <= y < k :: after[i].minors[y] == before[i].minors[y])
         && (forall y | k < y < |after[i].minors| :: after[i].minors[y] == before[i].minors[y - 1])
       else
         && |after| == |before| + 1 && after[i].addr == grant && |after[i].minors| == 1
         && after[i].pages >= 16 && after[i].pages * 4096 >= reqSize + 112
         && (after[i].pages > 16 ==> (after[i].pages - 1) * 4096 < reqSize + 112)
  }

  /** A malloc of reqSize bytes as a whole: the place and the block. */
  ghost predicate Taken(before: seq<Major>, bet: nat, reqSize: nat, grant: nat, i: nat, k: nat, after: seq<Major>) {
    TakenInOrder(before, bet, reqSize + 72, i, k) && NewBlock(before, reqSize, grant, i, k, after)
  }

  lemma PlacedIsTaken(before: seq<Major>, bet: nat, i: nat, k: nat, reqSize: nat, grant: nat, after: seq<Major>)
    requires HeapShaped(before)
    requires Placed(before, StartOf(before, bet, reqSize + SLACK + HEADER), i, k, reqSize + SLACK, reqSize, grant, after)
    ensures Taken(before, bet, reqSize, grant, i, k, after)
  {
    hide TakenInOrder, HeapShaped, NewBlock, Placed, StartOf;
    PathTaken(before, bet, i, k, reqSize + SLACK, reqSize, grant, after);
    PlacedIsNew(before, StartOf(before, bet, reqSize + SLACK + HEADER), i, k, reqSize, grant, after);
  }

  lemma PlacedIsNew(before: seq<Major>, start: nat, i: nat, k: nat, reqSize: nat, grant: nat, after: seq<Major>)
    requires Placed(before, start, i, k, reqSize + SLACK, reqSize, grant, after)
    ensures NewBlock(before, reqSize, grant, i, k, after)
  {
    hide Major.Gap, Major.Fits, FirstOnPath, NoFit;
  }

  lemma PathTaken(blocks: seq<Major>, bet: nat, i: nat, k: nat, size: nat, reqSize: nat, grant: nat, after: seq<Major>)
    requires HeapShaped(blocks)
    requires Placed(blocks, StartOf(blocks, bet, size + HEADER), i, k, size, reqSize, grant, after)
    ensures TakenInOrder(blocks, bet, size + HEADER, i, k)
  {
    hide Major.Fits, Major.Gap, Major.Insert, Major.Usage, Major.Size, HeapShaped, StartOf, Fresh, NoFit;
    var need, start := size + HEADER, StartOf(blocks, bet, size + HEADER);
    StartsAt(blocks, bet, need);
    forall j: nat, g: nat | j < |blocks| && g <= |blocks[j].minors| && blocks[j].Gap(g) >= need
      ensures blocks[j].Fits(need)
    {
      FitsGap(blocks[j], g, need);
    }
    if NoFit(blocks, need) {
      NothingFits(blocks, need);
    } else {
      FitsGap(blocks[i], k, need);
    }
  }

  lemma NothingFits(blocks: seq<Major>, need: nat)
    requires NoFit(blocks, need)
    ensures forall j | 0 <= j < |blocks| :: !blocks[j].Fits(need)
  {
    hide Major.Fits;
  }

  lemma FitsGap(b: Major, k: nat, need: nat)
    requires k <= |b.minors| && b.Gap(k) >= need
    ensures b.Fits(need)
  {
  }

  lemma StartsAt(blocks: seq<Major>, bet: nat, need: nat)
    requires HeapShaped(blocks)
    ensures forall b: nat | bet != 0 && b < |blocks| && blocks[b].addr == bet ::
              StartOf(blocks, bet, need) == if blocks[b].Size() - blocks[b].Usage() > need then b else 0
    ensures StartOf(blocks, bet, need) == 0 || (bet != 0 && StartOf(blocks, bet, need) < |blocks|
              && blocks[StartOf(blocks, bet, need)].addr == bet)
  {
    hide HeapShaped, Major.Usage, Major.Size, IndexOf;
    forall b: nat | bet != 0 && b < |blocks| && blocks[b].addr == bet
      ensures IndexOf(blocks, bet) == b
    {
      FoundAt(blocks, b);
    }
  }

  lemma FoundAt(blocks: seq<Major>, b: nat)
    requires HeapShaped(blocks) && b < |blocks|
    ensures IndexOf(blocks, blocks[b].addr) == b
  {
    hide HeapShaped;
    if IndexOf(blocks, blocks[b].addr) != b {
      MajorOnce(blocks, IndexOf(blocks, blocks[b].addr), b);
    }
  }

  /** The free bytes of the major at a, none if there is no such major. */
  function FreeBytes(blocks: seq<Major>, a: nat): int {
    var i := IndexOf(blocks, a);
    if a != 0 && i < |blocks| then blocks[i].Size() - blocks[i].Usage() else 0
  }

  lemma FreeBytesAt(blocks: seq<Major>, i: nat)
    requires HeapShaped(blocks) && i < |blocks|
    ensures FreeBytes(blocks, blocks[i].addr) == blocks[i].Size() - blocks[i].Usage()
  {
    assert BlockOk(blocks[i]);
    if IndexOf(blocks, blocks[i].addr) != i {
      MajorOnce(blocks, IndexOf(blocks, blocks[i].addr), i);
    }
  }

  /** How free moves the hint: away from a dropped major, or to the freed-in major when that has
      more free bytes, compared as ints. */
  function BetAfterFree(blocks: seq<Major>, bet: nat, i: nat, k: nat): nat
    requires i < |blocks| && k < |blocks[i].minors|
  {
    var a, after := blocks[i].addr, blocks[i := blocks[i].Remove(k)];
    if after[i].minors == [] then if bet == a then 0 else bet
    else if bet != 0 && ToInt(FreeBytes(after, a)) > ToInt(FreeBytes(after, bet)) then a
    else bet
  }

  ghost predicate IsMajor(blocks: seq<Major>, a: nat) {
    exists i: nat :: i < |blocks| && blocks[i].addr == a
  }

  /** The page hook was asked for PagesFor(size) pages and answers with the address of as
      many fresh ones, or with NULL. */
  ghost predicate GrantOk(blocks: seq<Major>, limit: nat, size: nat, grant: nat) {
    grant != 0 ==>
      && grant + PagesFor(size) * PAGE_SIZE <= limit
      && forall i | 0 <= i < |blocks| :: Apart(blocks[i], Major(grant, PagesFor(size), []))
  }

  /** An unsigned int put in an int, both of 32 bits. */
  function ToInt(x: int): int {
    var u := x % 0x1_0000_0000;
    if u < 0x8000_0000 then u else u - 0x1_0000_0000
  }

  /** Exactly the requests up to this bound get a major whose size fits its unsigned int. */
  lemma PagesForBound(size: nat)
    ensures PagesFor(size) * PAGE_SIZE < 0x1_0000_0000 <==> size + 2 * HEADER <= MAX_SIZE
    ensures size + 2 * HEADER <= MAX_SIZE ==> PagesFor(size) * PAGE_SIZE <= MAX_SIZE
  {
  }

  lemma TagStays(ram: seq<byte>, blocks: seq<Major>, a: nat, v: byte)
    requires HeapShaped(blocks) && AllTagged(ram, blocks) && a < |ram|
    requires forall i: nat, k: nat | i < |blocks| && k < |blocks[i].minors| ::
               !(blocks[i].minors[k].addr <= a < blocks[i].minors[k].End())
    ensures AllTagged(ram[a := v], blocks)
  {
    forall i: nat, k: nat | i < |blocks| && k < |blocks[i].minors|
      ensures Tagged(ram[a := v], blocks[i].minors[k])
    {
      assert BlockOk(blocks[i]) && Tagged(ram, blocks[i].minors[k]);
      PayloadInside(blocks[i].minors[k]);
    }
  }

  /** A minor that fills part of a gap overlaps no live minor. */
  lemma GapClear(blocks: seq<Major>, i: nat, k: nat, a: nat, x: nat, y: nat)
    requires HeapShaped(blocks) && i < |blocks| && k <= |blocks[i].minors|
    requires blocks[i].GapStart(k) <= a < blocks[i].GapStop(k)
    requires x < |blocks| && y < |blocks[x].minors|
    ensures !(blocks[x].minors[y].addr <= a < blocks[x].minors[y].End())
  {
    assert BlockOk(blocks[x]) && BlockOk(blocks[i]);
    MinorsInside(blocks[x], y);
    if x != i {
      GapInside(blocks[i], k);
      assert Apart(blocks[if x < i then x else i], blocks[if x < i then i else x]);
    } else if y < k {
      MinorsOrdered(blocks[i], y, k);
    } else if k < y {
      MinorsOrdered(blocks[i], k, y);
      assert blocks[i].Gap(y) >= 0;
    }
  }

  lemma TagsAfterInsert(ram: seq<byte>, blocks: seq<Major>, i: nat, k: nat, m: Minor)
    requires AllTagged(ram, blocks) && i < |blocks| && k <= |blocks[i].minors| && Tagged(ram, m)
    ensures AllTagged(ram, blocks[i := blocks[i].Insert(k, m)])
  {
    var after := blocks[i := blocks[i].Insert(k, m)];
    forall x: nat, y: nat | x < |after| && y < |after[x].minors|
      ensures Tagged(ram, after[x].minors[y])
    {
      if x != i {
        assert Tagged(ram, blocks[x].minors[y]);
      } else if y != k {
        assert Tagged(ram, blocks[x].minors[if y < k then y else y - 1]);
      }
    }
  }

  /** Writing the tag of a new minor in its gap leaves every other tag alone. */
  lemma TagNew(ram: seq<byte>, blocks: seq<Major>, i: nat, k: nat, m: Minor)
    requires HeapShaped(blocks) && AllTagged(ram, blocks)
    requires i < |blocks| && k <= |blocks[i].minors| && m.addr == blocks[i].GapStart(k)
    requires m.reqSize + SLACK <= m.size && blocks[i].Gap(k) >= m.size + HEADER && blocks[i].End() <= |ram|
    ensures Payload(m.addr) - ALIGN_INFO < |ram|
    ensures AllTagged(ram[Payload(m.addr) - ALIGN_INFO := Payload(m.addr) - (m.addr + HEADER)],
                      blocks[i := blocks[i].Insert(k, m)])
  {
    assert BlockOk(blocks[i]);
    GapInside(blocks[i], k);
    PayloadInside(m);
    var a := Payload(m.addr) - ALIGN_INFO;
    forall x: nat, y: nat | x < |blocks| && y < |blocks[x].minors|
      ensures !(blocks[x].minors[y].addr <= a < blocks[x].minors[y].End())
    {
      GapClear(blocks, i, k, a, x, y);
    }
    TagStays(ram, blocks, a, Payload(m.addr) - (m.addr + HEADER));
    TagsAfterInsert(ram[a := Payload(m.addr) - (m.addr + HEADER)], blocks, i, k, m);
  }

  lemma InsertTotals(blocks: seq<Major>, i: nat, k: nat, m: Minor)
    requires i < |blocks| && k <= |blocks[i].minors|
    ensures var after := blocks[i := blocks[i].Insert(k, m)];
            Total(after, InUse) == Total(blocks, InUse) + m.size && Total(after, SizeOf) == Total(blocks, SizeOf)
  {
    TotalUpdate(blocks, i, blocks[i].Insert(k, m), InUse);
    TotalUpdate(blocks, i, blocks[i].Insert(k, m), SizeOf);
    InUseInsert(blocks[i], k, m);
  }

  // ----- the invariant

  /** All fields but the headers, and what the headers represent. */
  datatype View = View(ram: seq<byte>, root: nat, bet: nat, reserved: nat, inUse: nat, blocks: seq<Major>)

  /** Everything but that no major is empty, which fails while one is being filled. */
  ghost predicate HeapOk(majors: map<nat, MajorHdr>, minors: map<nat, MinorHdr>, v: View) {
    && HeapShaped(v.blocks)
    && Represents(majors, minors, v.blocks)
    && v.root == AddrAt(v.blocks, 0)
    && (v.bet == 0 || IsMajor(v.blocks, v.bet))
    && (forall i | 0 <= i < |v.blocks| :: v.blocks[i].pages >= PAGE_COUNT && v.blocks[i].End() <= |v.ram|)
    && v.reserved == Total(v.blocks, SizeOf)
    && v.inUse == Total(v.blocks, InUse)
    && AllTagged(v.ram, v.blocks)
    && NoStale(minors, v.blocks)
  }

  /** What the invariant says of one major. */
  lemma Parts(majors: map<nat, MajorHdr>, minors: map<nat, MinorHdr>, v: View, i: nat)
    requires HeapOk(majors, minors, v) && i < |v.blocks|
    ensures BlockOk(v.blocks[i]) && MajorRep(majors, v.blocks, i) && MinorsRep(minors, v.blocks[i])
    ensures v.blocks[i].pages >= PAGE_COUNT && v.blocks[i].End() <= |v.ram|
  {
    hide BlockOk, MajorRep, MinorsRep, AllTagged, NoStale, Total, Apart;
  }

  lemma MajorFacts(majors: map<nat, MajorHdr>, minors: map<nat, MinorHdr>, v: View, i: nat)
    requires HeapOk(majors, minors, v) && i < |v.blocks|
    ensures var b := v.blocks[i];
            && b.addr in majors && majors[b.addr] == MajorHdrOf(v.blocks, i)
            && b.addr > 0 && b.Shaped() && PAGE_COUNT <= b.pages && b.Size() <= MAX_SIZE && b.End() <= |v.ram|
            && b.Usage() <= b.Size()
            && (b.minors == [] <==> majors[b.addr].first == 0)
  {
    hide HeapOk, Used;
    Parts(majors, minors, v, i);
    GapAtMostFree(v.blocks[i], 0);
    assert v.blocks[i].Gap(0) >= 0;
    if v.blocks[i].minors != [] {
      MinorsInside(v.blocks[i], 0);
    }
  }

  lemma MinorFacts(majors: map<nat, MajorHdr>, minors: map<nat, MinorHdr>, v: View, i: nat, k: nat)
    requires HeapOk(majors, minors, v) && i < |v.blocks| && k < |v.blocks[i].minors|
    ensures var b := v.blocks[i]; var a := b.minors[k].addr;
            && a > 0 && a in minors && minors[a] == MinorHdrOf(b, k)
            && (minors[a].next == 0 <==> k + 1 == |b.minors|)
            && (minors[a].prev == 0 <==> k == 0)
            && b.minors[k].reqSize + SLACK <= b.minors[k].size
            && a + HEADER + b.minors[k].size <= b.End()
  {
    hide HeapOk;
    var b := v.blocks[i];
    Parts(majors, minors, v, i);
    assert MinorRep(minors, b, k);
    MinorsInside(b, k);
    if k + 1 < |b.minors| {
      MinorsInside(b, k + 1);
    }
    if k > 0 {
      MinorsInside(b, k - 1);
    }
  }

  lemma UpdateKeepsMajors(blocks: seq<Major>, i: nat, b: Major)
    requires i < |blocks| && b.addr == blocks[i].addr
    ensures forall a | IsMajor(blocks, a) :: IsMajor(blocks[i := b], a)
  {
    forall a | IsMajor(blocks, a)
      ensures IsMajor(blocks[i := b], a)
    {
      var j: nat :| j < |blocks| && blocks[j].addr == a;
      assert blocks[i := b][j].addr == a;
    }
  }

  /** Making room for a block among the old headers. */
  lemma CoveredOk(majors: map<nat, MajorHdr>, minors: map<nat, MinorHdr>, v: View, i: nat, k: nat, m: Minor)
    requires HeapOk(majors, minors, v) && i < |v.blocks| && k <= |v.blocks[i].minors|
    requires m.addr == v.blocks[i].GapStart(k) && v.blocks[i].Gap(k) >= m.size + HEADER
    ensures HeapOk(majors, Covered(minors, m), v)
    ensures ClearOf(Covered(minors, m), m)
  {
    hide HeapShaped, Represents, AllTagged, Total, IsMajor;
    CoveredRep(majors, minors, v.blocks, i, k, m);
  }

  lemma BehindFacts(majors: map<nat, MajorHdr>, minors: map<nat, MinorHdr>, v: View, i: nat, k: nat, m: Minor)
    requires HeapOk(majors, minors, v) && i < |v.blocks| && 0 < k <= |v.blocks[i].minors|
    requires m.addr == v.blocks[i].GapStart(k) && v.blocks[i].Gap(k) >= m.size + HEADER
    ensures var min := v.blocks[i].minors[k - 1].addr;
            && min in minors && (minors[min].next != 0 ==> minors[min].next in minors)
            && min + HEADER + minors[min].size == m.addr && minors[min].next != m.addr
            && LinkedIn(minors, BehindMap(minors, v.blocks[i].addr, min, m), v.blocks[i], k, m)
  {
    hide HeapOk, LinkedIn, BehindMap, BlockOk, MinorsRep;
    Parts(majors, minors, v, i);
    BehindMapIn(minors, v.blocks[i], k, m);
  }

  /** CASES 2 to 4: splicing a minor into a gap and tagging its payload. */
  lemma PlaceOk(majors: map<nat, MajorHdr>, minors: map<nat, MinorHdr>, v: View, i: nat, k: nat, m: Minor,
                majors': map<nat, MajorHdr>, minors': map<nat, MinorHdr>)
    requires HeapOk(majors, minors, v) && i < |v.blocks| && k <= |v.blocks[i].minors|
    requires m.addr == v.blocks[i].GapStart(k) && m.reqSize + SLACK <= m.size
    requires v.blocks[i].Gap(k) >= m.size + HEADER
    requires v.blocks[i].addr in majors
    requires var h := majors[v.blocks[i].addr];
             majors' == majors[v.blocks[i].addr :=
                                 h.(usage := h.usage + m.size + HEADER, first := if k == 0 then m.addr else h.first)]
    requires LinkedIn(minors, minors', v.blocks[i], k, m)
    requires ClearOf(minors, m)
    ensures Payload(m.addr) - ALIGN_INFO < |v.ram|
    ensures HeapOk(majors', minors',
                   v.(ram := v.ram[Payload(m.addr) - ALIGN_INFO := Payload(m.addr) - (m.addr + HEADER)],
                      inUse := v.inUse + m.size,
                      blocks := v.blocks[i := v.blocks[i].Insert(k, m)]))
  {
    hide HeapShaped, Represents, AllTagged, LinkedIn, Total, IsMajor, NoStale, ClearOf;
    LinkedKeys(minors, minors', v.blocks[i], k, m);
    InsertNoStale(minors, v.blocks, i, k, m, minors');
    InsertRep(majors, minors, v.blocks, i, k, m, majors', minors');
    InsertTotals(v.blocks, i, k, m);
    TagNew(v.ram, v.blocks, i, k, m);
    UpdateKeepsMajors(v.blocks, i, v.blocks[i].Insert(k, m));
  }

  lemma EmptyMajorOk(b: Major)
    requires b.addr > 0 && b.minors == [] && PAGE_COUNT <= b.pages && b.Size() <= MAX_SIZE
    ensures BlockOk(b)
  {
  }

  lemma AppendKeepsMajors(blocks: seq<Major>, b: Major)
    ensures forall a | IsMajor(blocks, a) :: IsMajor(blocks + [b], a)
  {
    forall a | IsMajor(blocks, a)
      ensures IsMajor(blocks + [b], a)
    {
      var i: nat :| i < |blocks| && blocks[i].addr == a;
      assert (blocks + [b])[i].addr == a;
    }
  }

  /** A fresh empty major behind the last one. */
  lemma ExtendOk(majors: map<nat, MajorHdr>, minors: map<nat, MinorHdr>, v: View, b: Major,
                 majors': map<nat, MajorHdr>)
    requires HeapOk(majors, minors, v)
    requires b.addr > 0 && b.minors == [] && PAGE_COUNT <= b.pages && b.Size() <= MAX_SIZE && b.End() <= |v.ram|
    requires forall i | 0 <= i < |v.blocks| :: Apart(v.blocks[i], b)
    requires b.addr in majors'
    requires majors'[b.addr] == MajorHdr(AddrAt(v.blocks, |v.blocks| - 1), 0, b.pages, b.Size(), HEADER, 0)
    requires forall a | a in majors && a != b.addr ::
               a in majors' && majors'[a] == if v.blocks != [] && a == AddrAt(v.blocks, |v.blocks| - 1)
                                             then majors[a].(next := b.addr) else majors[a]
    ensures HeapOk(majors', minors, v.(root := if v.blocks == [] then b.addr else v.root,
                                       reserved := v.reserved + b.Size(), blocks := v.blocks + [b]))
  {
    hide HeapShaped, Represents, AllTagged, Total, IsMajor;
    EmptyMajorOk(b);
    AppendRep(majors, minors, v.blocks, b, majors');
    TotalAppend(v.blocks, b, SizeOf);
    TotalAppend(v.blocks, b, InUse);
    AppendKeepsMajors(v.blocks, b);
    AppendTags(v.ram, v.blocks, b);
  }

  lemma AppendTags(ram: seq<byte>, blocks: seq<Major>, b: Major)
    requires AllTagged(ram, blocks) && b.minors == []
    ensures AllTagged(ram, blocks + [b])
  {
  }

  // ----- the hint and the root

  lemma RootFacts(majors: map<nat, MajorHdr>, minors: map<nat, MinorHdr>, v: View)
    requires HeapOk(majors, minors, v)
    ensures v.root == 0 <==> v.blocks == []
    ensures v.blocks != [] ==> v.root == v.blocks[0].addr
  {
    if v.blocks != [] {
      assert BlockOk(v.blocks[0]);
    }
  }

  lemma BetFacts(majors: map<nat, MajorHdr>, minors: map<nat, MinorHdr>, v: View)
    requires HeapOk(majors, minors, v) && v.bet != 0
    ensures var i := IndexOf(v.blocks, v.bet);
            i < |v.blocks| && v.blocks[i].addr == v.bet && v.bet in majors && majors[v.bet] == MajorHdrOf(v.blocks, i)
            && v.blocks[i].Usage() <= v.blocks[i].Size() <= MAX_SIZE
  {
    MajorFacts(majors, minors, v, IndexOf(v.blocks, v.bet));
  }

  lemma NoBet(majors: map<nat, MajorHdr>, minors: map<nat, MinorHdr>, v: View)
    requires HeapOk(majors, minors, v) && v.blocks == []
    ensures v.bet == 0
  {
  }

  lemma BetOk(majors: map<nat, MajorHdr>, minors: map<nat, MinorHdr>, v: View, i: nat)
    requires HeapOk(majors, minors, v) && i < |v.blocks|
    ensures HeapOk(majors, minors, v.(bet := v.blocks[i].addr))
  {
    hide HeapShaped, Represents, AllTagged, Total;
    assert IsMajor(v.blocks, v.blocks[i].addr);
  }

  /** CASE 1 may hop over a major with too few free bytes. */
  lemma SkipSound(b: Major, need: nat)
    requires b.Shaped() && b.Size() - b.Usage() < need
    ensures !b.Fits(need)
  {
    forall k: nat | k <= |b.minors|
      ensures b.Gap(k) < need
    {
      GapAtMostFree(b, k);
    }
  }

  // ----- the scan of malloc

  /** Which majors the scan has ruled out when it looks at major `at`. */
  ghost predicate RuledOut(blocks: seq<Major>, start: nat, at: nat, startedBet: bool, need: nat) {
    if startedBet then
      start <= at && forall j | start <= j < at && j < |blocks| :: !blocks[j].Fits(need)
    else
      && (forall j | 0 <= j < at && j < |blocks| :: !blocks[j].Fits(need))
      && (start > 0 ==> forall j | start <= j < |blocks| :: !blocks[j].Fits(need))
  }

  ghost predicate Scanning(before: seq<Major>, blocks: seq<Major>, start: nat, at: nat, startedBet: bool, extended: bool,
                           size: nat, grant: nat)
  {
    if extended then
      && grant != 0 && at == |before| && NoFit(before, size + HEADER)
      && blocks == before + [Major(grant, PagesFor(size), [])]
    else
      blocks == before && at < |blocks| && RuledOut(blocks, start, at, startedBet, size + HEADER)
  }

  lemma ScanStart(before: seq<Major>, blocks: seq<Major>, start: nat, at: nat, startedBet: bool, extended: bool,
                  size: nat, grant: nat)
    requires if extended then grant != 0 && before == [] && blocks == [Major(grant, PagesFor(size), [])] && at == 0
             else blocks == before && at < |blocks|
    requires if startedBet then at == start else start == at == 0
    ensures Scanning(before, blocks, start, at, startedBet, extended, size, grant)
  {
  }

  lemma LastMajor(majors: map<nat, MajorHdr>, minors: map<nat, MinorHdr>, v: View, i: nat)
    requires HeapOk(majors, minors, v) && i < |v.blocks|
    ensures v.blocks[i].addr in majors
    ensures majors[v.blocks[i].addr].next == 0 <==> i + 1 == |v.blocks|
    ensures i + 1 < |v.blocks| ==> majors[v.blocks[i].addr].next == v.blocks[i + 1].addr
  {
    assert MajorRep(majors, v.blocks, i);
    if i + 1 < |v.blocks| {
      assert BlockOk(v.blocks[i + 1]);
    }
  }

  lemma BypassFacts(majors: map<nat, MajorHdr>, minors: map<nat, MinorHdr>, v: View, i: nat)
    requires HeapOk(majors, minors, v) && i < |v.blocks|
    ensures var a := v.blocks[i].addr;
            && a in majors
            && (majors[a].next != 0 ==> majors[a].next in majors)
            && (majors[a].prev != 0 ==> majors[a].prev in majors)
            && Bypassed(majors, BypassMap(majors, a), v.blocks, i)
            && (v.root == a <==> i == 0)
  {
    RootFacts(majors, minors, v);
    BypassMapOk(majors, v.blocks, i);
    if i > 0 {
      MajorOnce(v.blocks, 0, i);
    }
  }

  lemma UnlinkFacts(majors: map<nat, MajorHdr>, minors: map<nat, MinorHdr>, v: View, i: nat, k: nat)
    requires HeapOk(majors, minors, v) && i < |v.blocks| && k < |v.blocks[i].minors|
    ensures var a := v.blocks[i].minors[k].addr;
            && a in minors
            && (minors[a].next != 0 ==> minors[a].next in minors)
            && (minors[a].prev != 0 ==> minors[a].prev in minors)
            && LinkedOut(minors, UnlinkMap(minors, a), v.blocks[i], k)
  {
    assert BlockOk(v.blocks[i]) && MinorsRep(minors, v.blocks[i]);
    UnlinkMapOut(minors, v.blocks[i], k);
  }

  lemma ScanHop(blocks: seq<Major>, start: nat, at: nat, startedBet: bool, need: nat)
    requires at < |blocks| && RuledOut(blocks, start, at, startedBet, need) && !blocks[at].Fits(need)
    ensures RuledOut(blocks, start, at + 1, startedBet, need)
    ensures at + 1 == |blocks| ==> if startedBet then RuledOut(blocks, start, 0, false, need) else NoFit(blocks, need)
  {
  }

  /** The scan put the block where the specification of malloc says. */
  lemma ScanDone(before: seq<Major>, blocks: seq<Major>, start: nat, at: nat, startedBet: bool, extended: bool,
                 size: nat, reqSize: nat, grant: nat, k: nat, after: seq<Major>)
    requires Scanning(before, blocks, start, at, startedBet, extended, size, grant)
    requires PlacedIn(blocks, at, k, size, reqSize, after)
    requires forall j | 0 <= j < |before| :: before[j].minors != []
    ensures Placed(before, start, at, k, size, reqSize, grant, after)
    ensures NoFit(before, size + HEADER) ==> grant != 0
    ensures at < |after| && k < |after[at].minors| && after[at].minors[k].reqSize == reqSize
    ensures forall j | 0 <= j < |after| :: after[j].minors != []
  {
    if extended {
      assert after[at].minors == [Minor(grant + HEADER, size, reqSize)];
      assert after == before + [Fresh(size, reqSize, grant)];
    } else {
      assert blocks[at].Gap(k) >= size + HEADER;
      assert before[at].Fits(size + HEADER);
    }
  }

  // ----- the hint

  /** What the scan keeps: the hint, and how many free bytes it has seen there. */
  datatype Hint = Hint(addr: nat, best: int)

  function FreeOf(b: Major): int { b.Size() - b.Usage() }

  /** One comparison: the hint moves to a major with more free bytes. */
  function Better(b: Major, h: Hint): Hint { if h.best < FreeOf(b) then Hint(b.addr, FreeOf(b)) else h }

  /** The hint after a look at majors from..to, in order. */
  function Tried(blocks: seq<Major>, from: nat, to: nat, h: Hint): Hint
    requires to <= |blocks|
  {
    if to <= from then h else Better(blocks[to - 1], Tried(blocks, from, to - 1, h))
  }

  /** It stays if none of them has more free bytes, and else is the first of those with the most. */
  lemma {:induction false} HintIsBest(blocks: seq<Major>, from: nat, to: nat, h: Hint)
    requires from <= to <= |blocks|
    ensures var r := Tried(blocks, from, to, h);
            && r.best >= h.best
            && (forall j | from <= j < to :: FreeOf(blocks[j]) <= r.best)
            && (r == h || exists j: nat :: from <= j < to && h.best < FreeOf(blocks[j])
                                           && r == Hint(blocks[j].addr, FreeOf(blocks[j]))
                                           && forall e | from <= e < j :: FreeOf(blocks[e]) < FreeOf(blocks[j]))
  {
    hide FreeOf;
    if from < to {
      HintIsBest(blocks, from, to - 1, h);
    }
  }

  lemma {:induction false} TriedFrame(a: seq<Major>, b: seq<Major>, from: nat, to: nat, h: Hint)
    requires to <= |a| && to <= |b| && a[..to] == b[..to]
    ensures Tried(a, from, to, h) == Tried(b, from, to, h)
  {
    hide Better;
    if from < to {
      assert a[..to - 1] == a[..to][..to - 1] == b[..to - 1];
      assert a[..to][to - 1] == b[..to][to - 1];
      TriedFrame(a, b, from, to - 1, h);
    }
  }

  lemma {:induction false} NothingBetter(blocks: seq<Major>, from: nat, to: nat, h: Hint)
    requires to <= |blocks| && forall j | from <= j < to :: FreeOf(blocks[j]) <= h.best
    ensures Tried(blocks, from, to, h) == h
  {
    hide FreeOf;
    if from < to {
      NothingBetter(blocks, from, to - 1, h);
    }
  }

  /** Looking through the same majors once more changes nothing. */
  lemma TriedTwice(blocks: seq<Major>, h: Hint)
    ensures Tried(blocks, 0, |blocks|, Tried(blocks, 0, |blocks|, h)) == Tried(blocks, 0, |blocks|, h)
  {
    hide FreeOf, Tried;
    HintIsBest(blocks, 0, |blocks|, h);
    NothingBetter(blocks, 0, |blocks|, Tried(blocks, 0, |blocks|, h));
  }

  /** The hint after a look at all majors: from the start to the end, then from the root. */
  function AllTried(before: seq<Major>, start: nat, h: Hint): Hint {
    Tried(before, 0, |before|, Tried(before, start, |before|, h))
  }

  /** CASE 5 and an empty list take a fresh major through the comparison, CASE 1 does not. */
  predicate FreshCompared(before: seq<Major>, need: nat) { before == [] || FreeOf(before[|before| - 1]) >= need }

  /** The hint after a malloc that puts its block in major i. */
  function HintAfter(before: seq<Major>, start: nat, i: nat, size: nat, grant: nat, h: Hint): Hint
    requires start <= |before|
  {
    if i < start then Tried(before, 0, i + 1, Tried(before, start, |before|, h))
    else if i < |before| then Tried(before, start, i + 1, h)
    else if FreshCompared(before, size + HEADER) then Better(Major(grant, PagesFor(size), []), AllTried(before, start, h))
    else AllTried(before, start, h)
  }

  lemma NothingTried(start: nat, h: Hint)
    ensures AllTried([], start, h) == h
  {
  }

  /** The hint after a malloc, with a block in major i or with none. */
  function BetAfterMalloc(before: seq<Major>, bet: nat, size: nat, grant: nat, placed: bool, i: nat): nat {
    var start, h := StartOf(before, bet, size + HEADER), Hint(bet, FreeBytes(before, bet));
    if placed then HintAfter(before, start, i, size, grant, h).addr else AllTried(before, start, h).addr
  }

  /** The scan has compared the majors before `at` of its present leg, which began with the hint h1. */
  ghost predicate Noting(before: seq<Major>, blocks: seq<Major>, start: nat, at: nat, startedBet: bool, need: nat,
                         h0: Hint, h1: Hint, h: Hint)
  {
    && at <= |blocks| && start <= |before| && h == Tried(blocks, if startedBet then start else 0, at, h1)
    && if startedBet then h1 == h0
       else || (start == 0 && h1 == h0)
            || (h1 == Tried(before, start, |before|, h0) && forall j | start <= j < |before| :: !before[j].Fits(need))
  }

  lemma NotingStart(before: seq<Major>, blocks: seq<Major>, start: nat, at: nat, startedBet: bool, need: nat, h: Hint)
    requires at <= |blocks| && start <= |before| && if startedBet then at == start else start == at == 0
    ensures Noting(before, blocks, start, at, startedBet, need, h, h, h)
  {
  }

  lemma NotingCompare(before: seq<Major>, blocks: seq<Major>, start: nat, at: nat, startedBet: bool, need: nat,
                      h0: Hint, h1: Hint, h: Hint)
    requires Noting(before, blocks, start, at, startedBet, need, h0, h1, h) && at < |blocks| && (startedBet ==> start <= at)
    ensures Noting(before, blocks, start, at + 1, startedBet, need, h0, h1, Better(blocks[at], h))
  {
    hide Better;
  }

  lemma NotingWrap(blocks: seq<Major>, start: nat, at: nat, need: nat, h0: Hint, h1: Hint, h: Hint)
    requires Noting(blocks, blocks, start, at + 1, true, need, h0, h1, h) && at + 1 == |blocks|
    requires RuledOut(blocks, start, at, true, need) && !blocks[at].Fits(need)
    ensures Noting(blocks, blocks, start, 0, false, need, h0, h, h)
  {
    hide Major.Fits;
  }

  lemma NotingAppend(blocks: seq<Major>, b: Major, start: nat, need: nat, h0: Hint, h1: Hint, h: Hint)
    requires Noting(blocks, blocks, start, |blocks|, false, need, h0, h1, h)
    ensures Noting(blocks, blocks + [b], start, |blocks|, false, need, h0, h1, h)
  {
    hide Major.Fits;
    TriedFrame(blocks, blocks + [b], 0, |blocks|, h1);
  }

  lemma NotedAll(blocks: seq<Major>, start: nat, need: nat, h0: Hint, h1: Hint, h: Hint)
    requires Noting(blocks, blocks, start, |blocks|, false, need, h0, h1, h)
    ensures h == AllTried(blocks, start, h0)
  {
    hide Major.Fits, Tried;
    TriedTwice(blocks, h0);
  }

  /** Where the scan ends says which majors it has compared. */
  lemma HintDone(before: seq<Major>, blocks: seq<Major>, start: nat, at: nat, startedBet: bool, extended: bool, seen: nat,
                 size: nat, reqSize: nat, grant: nat, k: nat, after: seq<Major>, h0: Hint, h1: Hint, h: Hint)
    requires Scanning(before, blocks, start, at, startedBet, extended, size, grant)
    requires PlacedIn(blocks, at, k, size, reqSize, after)
    requires Noting(before, blocks, start, seen, startedBet, size + HEADER, h0, h1, h)
    requires if extended then !startedBet && seen == (if FreshCompared(before, size + HEADER) then at + 1 else at)
             else seen == at + 1
    ensures start <= |before| && h == HintAfter(before, start, at, size, grant, h0)
  {
    hide Better, PagesFor, FreshCompared;
    if extended {
      TriedFrame(before, blocks, 0, |before|, h1);
      NotedAll(before, start, size + HEADER, h0, h1, Tried(before, 0, |before|, h1));
    } else {
      assert blocks[at].Gap(k) >= size + HEADER;
      assert before[at].Fits(size + HEADER);
    }
  }

  /** A fresh major always has room; before one is obtained nothing has changed. */
  lemma ScanFacts(before: seq<Major>, blocks: seq<Major>, start: nat, at: nat, startedBet: bool, extended: bool,
                  size: nat, grant: nat)
    requires Scanning(before, blocks, start, at, startedBet, extended, size, grant)
    ensures extended ==> blocks[at].Usage() + size + HEADER <= blocks[at].Size() && blocks[at].Fits(size + HEADER)
    ensures !extended ==> blocks == before && RuledOut(blocks, start, at, startedBet, size + HEADER)
  {
    if extended {
      assert blocks[at].Gap(0) >= size + HEADER;
    }
  }

  // ----- free

  lemma MagicFacts(majors: map<nat, MajorHdr>, minors: map<nat, MinorHdr>, v: View, a: nat)
    requires HeapOk(majors, minors, v) && a in minors
    ensures minors[a].magic == MAGIC <==> LiveAt(v.blocks, a)
  {
    if LiveAt(v.blocks, a) {
      var i: nat, k: nat :| IsMinor(v.blocks, i, k, a);
      MinorFacts(majors, minors, v, i, k);
    }
  }

  lemma TagsAfterRemove(ram: seq<byte>, blocks: seq<Major>, i: nat, k: nat)
    requires AllTagged(ram, blocks) && i < |blocks| && k < |blocks[i].minors|
    ensures AllTagged(ram, blocks[i := blocks[i].Remove(k)])
  {
    var after := blocks[i := blocks[i].Remove(k)];
    forall x: nat, y: nat | x < |after| && y < |after[x].minors|
      ensures Tagged(ram, after[x].minors[y])
    {
      assert Tagged(ram, blocks[x].minors[if x != i || y < k then y else y + 1]);
    }
  }

  /** Taking a minor out of the links. */
  lemma UnlinkOk(majors: map<nat, MajorHdr>, minors: map<nat, MinorHdr>, v: View, i: nat, k: nat,
                 majors': map<nat, MajorHdr>, minors': map<nat, MinorHdr>, v': View)
    requires HeapOk(majors, minors, v) && i < |v.blocks| && k < |v.blocks[i].minors|
    requires v.blocks[i].addr in majors
    requires var h := majors[v.blocks[i].addr];
             && h.usage >= v.blocks[i].minors[k].size + HEADER
             && majors' == majors[v.blocks[i].addr :=
                                    h.(usage := h.usage - v.blocks[i].minors[k].size - HEADER,
                                       first := if k == 0 then MinorAt(v.blocks[i], 1) else h.first)]
    requires LinkedOut(minors, minors', v.blocks[i], k)
    requires v.inUse >= v.blocks[i].minors[k].size
    requires v' == v.(inUse := v.inUse - v.blocks[i].minors[k].size, blocks := v.blocks[i := v.blocks[i].Remove(k)])
    ensures HeapOk(majors', minors', v')
  {
    hide HeapShaped, Represents, AllTagged, LinkedOut, Total, IsMajor, NoStale;
    RemoveNoStale(minors, minors', v.blocks, i, k);
    RemoveRep(majors, minors, v.blocks, i, k, majors', minors');
    TotalUpdate(v.blocks, i, v.blocks[i].Remove(k), InUse);
    TotalUpdate(v.blocks, i, v.blocks[i].Remove(k), SizeOf);
    InUseRemove(v.blocks[i], k);
    TagsAfterRemove(v.ram, v.blocks, i, k);
    UpdateKeepsMajors(v.blocks, i, v.blocks[i].Remove(k));
  }

  /** The counters never underflow. */
  lemma {:induction false} TotalAtLeast(blocks: seq<Major>, i: nat, f: Major -> nat)
    requires i < |blocks|
    ensures f(blocks[i]) <= Total(blocks, f)
  {
    if i < |blocks| - 1 {
      TotalAtLeast(blocks[..|blocks| - 1], i, f);
    }
  }

  lemma CountersCover(majors: map<nat, MajorHdr>, minors: map<nat, MinorHdr>, v: View, i: nat)
    requires HeapOk(majors, minors, v) && i < |v.blocks|
    ensures v.reserved >= v.blocks[i].Size()
    ensures forall k: nat | k < |v.blocks[i].minors| ::
              && v.inUse >= v.blocks[i].minors[k].size
              && v.blocks[i].Usage() >= v.blocks[i].minors[k].size + HEADER
  {
    hide HeapShaped, Represents, AllTagged, IsMajor;
    TotalAtLeast(v.blocks, i, InUse);
    TotalAtLeast(v.blocks, i, SizeOf);
    forall k: nat | k < |v.blocks[i].minors|
      ensures InUse(v.blocks[i]) >= v.blocks[i].minors[k].size
      ensures v.blocks[i].Usage() >= v.blocks[i].minors[k].size + HEADER
    {
      InUseRemove(v.blocks[i], k);
      UsedRemove(v.blocks[i], k);
    }
  }

  lemma TagsAfterDrop(ram: seq<byte>, blocks: seq<Major>, i: nat)
    requires AllTagged(ram, blocks) && i < |blocks|
    ensures AllTagged(ram, RemoveAt(blocks, i))
  {
  }

  lemma DropKeepsMajors(blocks: seq<Major>, i: nat, a: nat)
    requires i < |blocks| && IsMajor(blocks, a) && a != blocks[i].addr
    ensures IsMajor(RemoveAt(blocks, i), a)
  {
    var j: nat :| j < |blocks| && blocks[j].addr == a;
    assert RemoveAt(blocks, i)[if j < i then j else j - 1].addr == a;
  }

  /** Giving an empty major back. */
  lemma DropOk(majors: map<nat, MajorHdr>, minors: map<nat, MinorHdr>, v: View, i: nat,
               majors': map<nat, MajorHdr>, minors': map<nat, MinorHdr>, v': View)
    requires HeapOk(majors, minors, v) && i < |v.blocks| && v.blocks[i].minors == []
    requires Bypassed(majors, majors', v.blocks, i)
    requires minors' == Released(minors, v.blocks[i].addr, v.blocks[i].Size())
    requires v.reserved >= v.blocks[i].Size()
    requires v' == v.(root := if i == 0 then AddrAt(v.blocks, 1) else v.root,
                      bet := if v.bet == v.blocks[i].addr then 0 else v.bet,
                      reserved := v.reserved - v.blocks[i].Size(),
                      blocks := RemoveAt(v.blocks, i))
    ensures HeapOk(majors', minors', v')
  {
    hide HeapShaped, Represents, AllTagged, Bypassed, Total, IsMajor;
    DropRep(majors, minors, v.blocks, i, majors', minors');
    TotalRemove(v.blocks, i, InUse);
    TotalRemove(v.blocks, i, SizeOf);
    TagsAfterDrop(v.ram, v.blocks, i);
    AddrAfterRemove(v.blocks, i, 0);
    if v'.bet != 0 {
      DropKeepsMajors(v.blocks, i, v.bet);
    }
  }

  // ----- realloc

  /** Noting a new requested size in a live header. */
  lemma ResizeOk(majors: map<nat, MajorHdr>, minors: map<nat, MinorHdr>, v: View, i: nat, k: nat, reqSize: nat,
                 minors': map<nat, MinorHdr>)
    requires HeapOk(majors, minors, v) && i < |v.blocks| && k < |v.blocks[i].minors|
    requires reqSize + SLACK <= v.blocks[i].minors[k].size && v.blocks[i].minors[k].addr in minors
    requires minors' == minors[v.blocks[i].minors[k].addr := minors[v.blocks[i].minors[k].addr].(reqSize := reqSize)]
    ensures HeapOk(majors, minors', v.(blocks := Resized(v.blocks, i, k, reqSize)))
  {
    hide HeapShaped, Represents, Total, IsMajor, AllTagged, NoStale, Resized;
    ResizedShaped(v.blocks, i, k, reqSize);
    ResizeRep(majors, minors, v.blocks, i, k, reqSize, minors');
    ResizedTotals(v.blocks, i, k, reqSize);
    ResizedPlaces(v.ram, minors, v.blocks, i, k, reqSize);
    SameNoStale(minors, minors', Resized(v.blocks, i, k, reqSize));
  }

  /** Where majors, headers and tags are does not change with a requested size. */
  lemma ResizedPlaces(ram: seq<byte>, minors: map<nat, MinorHdr>, blocks: seq<Major>, i: nat, k: nat, reqSize: nat)
    requires i < |blocks| && k < |blocks[i].minors| && AllTagged(ram, blocks) && NoStale(minors, blocks)
    ensures var after := Resized(blocks, i, k, reqSize);
            && AllTagged(ram, after) && NoStale(minors, after) && AddrAt(after, 0) == AddrAt(blocks, 0) && |after| == |blocks|
            && (forall a | IsMajor(blocks, a) :: IsMajor(after, a))
            && forall x | 0 <= x < |blocks| :: after[x].pages == blocks[x].pages && after[x].End() == blocks[x].End()
  {
    hide Tagged, Overlaps, IsMajor;
    var after := Resized(blocks, i, k, reqSize);
    UpdateKeepsMajors(blocks, i, after[i]);
    forall x: nat, y: nat | x < |blocks| && y < |blocks[x].minors|
      ensures Tagged(ram, after[x].minors[y])
    {
      assert Tagged(ram, blocks[x].minors[y]);
      SameTag(ram, blocks[x].minors[y], after[x].minors[y]);
    }
    forall a, x: nat, y: nat | a in minors && x < |after| && y < |after[x].minors| && a != after[x].minors[y].addr
      ensures !Overlaps(a, after[x].minors[y])
    {
      assert !Overlaps(a, blocks[x].minors[y]);
      SameTag(ram, blocks[x].minors[y], after[x].minors[y]);
    }
  }

  lemma SameTag(ram: seq<byte>, m: Minor, m': Minor)
    requires m'.addr == m.addr && m'.size == m.size
    ensures Tagged(ram, m') <==> Tagged(ram, m)
    ensures forall a :: Overlaps(a, m') <==> Overlaps(a, m)
  {
  }

  lemma SameNoStale(minors: map<nat, MinorHdr>, minors': map<nat, MinorHdr>, blocks: seq<Major>)
    requires NoStale(minors, blocks) && minors'.Keys == minors.Keys
    ensures NoStale(minors', blocks)
  {
    hide Overlaps;
  }

  /** Writing to the payload of a live minor keeps the invariant: payloads hold no header and
      no tag. */
  lemma PayloadWriteOk(majors: map<nat, MajorHdr>, minors: map<nat, MinorHdr>, v: View, i: nat, k: nat, ram: seq<byte>)
    requires HeapOk(majors, minors, v) && i < |v.blocks| && k < |v.blocks[i].minors|
    requires |ram| == |v.ram|
    requires var m := v.blocks[i].minors[k];
             forall a | 0 <= a < |ram| && !(Payload(m.addr) <= a < Payload(m.addr) + m.reqSize) :: ram[a] == v.ram[a]
    ensures HeapOk(majors, minors, v.(ram := ram))
  {
    forall x: nat, y: nat | x < |v.blocks| && y < |v.blocks[x].minors|
      ensures Tagged(ram, v.blocks[x].minors[y])
    {
      assert Tagged(v.ram, v.blocks[x].minors[y]);
      var m, a := v.blocks[i].minors[k], Payload(v.blocks[x].minors[y].addr) - ALIGN_INFO;
      if Payload(m.addr) <= a < Payload(m.addr) + m.reqSize {
        PayloadsClear(v.blocks, i, k, x, y, a);
      }
    }
  }

  /** The address malloc returned leads back to the header of its minor. */
  lemma TagLeadsBack(ram: seq<byte>, m: Minor)
    requires Tagged(ram, m) && ALIGN_INFO < Payload(m.addr)
    ensures Payload(m.addr) < |ram| + ALIGN_INFO && Unalign(ram, Payload(m.addr)) == m.addr + HEADER
  {
  }

  lemma PayloadLeadsBack(majors: map<nat, MajorHdr>, minors: map<nat, MinorHdr>, v: View, i: nat, k: nat)
    requires HeapOk(majors, minors, v) && i < |v.blocks| && k < |v.blocks[i].minors|
    ensures var m := v.blocks[i].minors[k]; var p := Payload(m.addr);
            && ALIGN_INFO < p < |v.ram| + ALIGN_INFO && Unalign(v.ram, p) == m.addr + HEADER
            && m.addr in minors && minors[m.addr] == MinorHdrOf(v.blocks[i], k)
            && p + m.reqSize <= |v.ram|
  {
    hide HeapShaped, Represents, NoStale, Total, Payload, Tagged, Unalign;
    MajorFacts(majors, minors, v, i);
    MinorFacts(majors, minors, v, i, k);
    PayloadInside(v.blocks[i].minors[k]);
    assert Tagged(v.ram, v.blocks[i].minors[k]);
    TagLeadsBack(v.ram, v.blocks[i].minors[k]);
  }

  // ----- which minors are live

  ghost predicate Holds(blocks: seq<Major>, m: Minor) {
    exists i: nat, k: nat :: i < |blocks| && k < |blocks[i].minors| && blocks[i].minors[k] == m
  }

  lemma HoldsAt(blocks: seq<Major>, i: nat, k: nat)
    requires i < |blocks| && k < |blocks[i].minors|
    ensures Holds(blocks, blocks[i].minors[k])
  {
  }

  lemma PlacedKeeps(blocks: seq<Major>, start: nat, i: nat, k: nat, size: nat, reqSize: nat, grant: nat,
                    after: seq<Major>, m: Minor)
    requires Placed(blocks, start, i, k, size, reqSize, grant, after) && Holds(blocks, m)
    ensures Holds(after, m)
  {
    var x: nat, y: nat :| x < |blocks| && y < |blocks[x].minors| && blocks[x].minors[y] == m;
    assert after[x].minors[if x == i && y >= k then y + 1 else y] == m;
  }

  lemma FreedKeeps(blocks: seq<Major>, i: nat, k: nat, m: Minor)
    requires i < |blocks| && k < |blocks[i].minors| && Holds(blocks, m) && m != blocks[i].minors[k]
    ensures Holds(Freed(blocks, i, k), m)
  {
    hide Freed;
    var x: nat, y: nat :| x < |blocks| && y < |blocks[x].minors| && blocks[x].minors[y] == m;
    FreedHolds(blocks, i, k, x, y);
  }

  lemma FreedHolds(blocks: seq<Major>, i: nat, k: nat, x: nat, y: nat)
    requires i < |blocks| && k < |blocks[i].minors| && x < |blocks| && y < |blocks[x].minors| && (x != i || y != k)
    ensures Holds(Freed(blocks, i, k), blocks[x].minors[y])
  {
    hide Holds;
    var b := blocks[i].Remove(k);
    if x == i {
      assert b.minors[if y < k then y else y - 1] == blocks[x].minors[y];
      HoldsAt(blocks[i := b], i, if y < k then y else y - 1);
    } else if b.minors == [] {
      HoldsAt(RemoveAt(blocks, i), if x < i then x else x - 1, y);
    } else {
      HoldsAt(blocks[i := b], x, y);
    }
  }

  /** A new minor overlaps no minor that was live before. */
  lemma PlacedApart(blocks: seq<Major>, start: nat, i: nat, k: nat, size: nat, reqSize: nat, grant: nat,
                    after: seq<Major>, m: Minor)
    requires Placed(blocks, start, i, k, size, reqSize, grant, after) && Holds(blocks, m) && HeapShaped(after)
    ensures i < |after| && k < |after[i].minors|
    ensures m.End() <= after[i].minors[k].addr || after[i].minors[k].End() <= m.addr
  {
    var x: nat, y: nat :| x < |blocks| && y < |blocks[x].minors| && blocks[x].minors[y] == m;
    var y' := if x == i && y >= k then y + 1 else y;
    assert after[x].minors[y'] == m;
    ExtentsApart(after, i, k, x, y');
  }

  lemma ShapeFacts(majors: map<nat, MajorHdr>, minors: map<nat, MinorHdr>, v: View)
    requires HeapOk(majors, minors, v)
    ensures HeapShaped(v.blocks)
  {
  }

  lemma HeldBounds(majors: map<nat, MajorHdr>, minors: map<nat, MinorHdr>, v: View, m: Minor)
    requires HeapOk(majors, minors, v) && Holds(v.blocks, m)
    ensures m.reqSize + SLACK <= m.size && m.End() <= |v.ram|
  {
    var i: nat, k: nat :| i < |v.blocks| && k < |v.blocks[i].minors| && v.blocks[i].minors[k] == m;
    MajorFacts(majors, minors, v, i);
    MinorFacts(majors, minors, v, i, k);
  }

  lemma AllHeldBounds(majors: map<nat, MajorHdr>, minors: map<nat, MinorHdr>, v: View)
    requires HeapOk(majors, minors, v)
    ensures forall m | Holds(v.blocks, m) :: m.reqSize + SLACK <= m.size && m.End() <= |v.ram|
  {
    hide HeapOk, Holds;
    forall m | Holds(v.blocks, m) {
      HeldBounds(majors, minors, v, m);
    }
  }

  lemma FindHeld(blocks: seq<Major>, m: Minor) returns (i: nat, k: nat)
    requires Holds(blocks, m)
    ensures i < |blocks| && k < |blocks[i].minors| && blocks[i].minors[k] == m && IsMinor(blocks, i, k, m.addr)
  {
    i, k :| i < |blocks| && k < |blocks[i].minors| && blocks[i].minors[k] == m;
  }

  /** The n bytes at `at` are the n bytes that were at `from` before. */
  ghost predicate Copied(before: seq<byte>, from: nat, after: seq<byte>, at: nat, n: nat) {
    && from + n <= |before| && at + n <= |after|
    && after[at..at + n] == before[from..from + n]
  }

  lemma CopiedBytes(before: seq<byte>, from: nat, after: seq<byte>, at: nat, n: nat, b: nat)
    requires Copied(before, from, after, at, n) && b < n
    ensures at + n <= |after| && from + n <= |before| && after[at + b] == before[from + b]
  {
    assert after[at..at + n][b] == before[from..from + n][b];
  }

  /** Tagging and filling a block elsewhere copies from the memory as it was. */
  lemma CopiedThrough(ram: seq<byte>, tagged: seq<byte>, after: seq<byte>, from: nat, at: nat, n: nat, low: nat, high: nat)
    requires |ram| == |tagged| == |after| && ALIGN_INFO + low <= at && at + n <= high && (from + n <= low || high <= from)
    requires forall a | 0 <= a < |ram| && a != at - ALIGN_INFO :: tagged[a] == ram[a]
    requires Copied(tagged, from, after, at, n)
    requires forall a | 0 <= a < |ram| && !(at <= a < at + n) :: after[a] == tagged[a]
    ensures Copied(ram, from, after, at, n)
    ensures forall a | 0 <= a < |ram| && !(low <= a < high) :: after[a] == ram[a]
  {
    assert tagged[from..from + n] == ram[from..from + n];
  }

  /** Every minor but `gone` is still live and its payload reads as before. */
  ghost predicate OthersKept(before: seq<Major>, ram: seq<byte>, after: seq<Major>, ram': seq<byte>, gone: Minor) {
    forall m | Holds(before, m) && m != gone ::
      Holds(after, m) && Copied(ram, Payload(m.addr), ram', Payload(m.addr), m.reqSize)
  }

  lemma OthersKeptBytes(before: seq<Major>, ram: seq<byte>, after: seq<Major>, ram': seq<byte>, gone: Minor, m: Minor,
                        b: nat)
    requires OthersKept(before, ram, after, ram', gone) && Holds(before, m) && m != gone && b < m.reqSize
    ensures Holds(after, m) && Payload(m.addr) + m.reqSize <= |ram| && Payload(m.addr) + m.reqSize <= |ram'|
    ensures ram'[Payload(m.addr) + b] == ram[Payload(m.addr) + b]
  {
    hide Holds, Payload, Copied;
    CopiedBytes(ram, Payload(m.addr), ram', Payload(m.addr), m.reqSize, b);
  }
}
