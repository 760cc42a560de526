/** liballoc: the kernel heap.  Locks are left out: every operation is atomic. */
module Liballoc {
  import opened Bytes
  import opened LiballocSpec
  import opened LiballocLinks
  import opened LiballocState

  class Heap {
    var majors: map<nat, MajorHdr>   // headers in memory, by address
    var minors: map<nat, MinorHdr>
    var ram: seq<byte>               // every other byte of memory
    var l_memRoot: nat
    var l_bestBet: nat
    var l_allocated: nat
    var l_inuse: nat
    var l_warningCount: nat
    var l_errorCount: nat
    var l_possibleOverruns: nat
    ghost var blocks: seq<Major>     // what the links represent

    ghost function V(): View
      reads this
    {
      View(ram, l_memRoot, l_bestBet, l_allocated, l_inuse, blocks)
    }

    ghost predicate Linked()
      reads this
    {
      HeapOk(majors, minors, V())
    }

    ghost predicate Valid()
      reads this
    {
      Linked() && forall i | 0 <= i < |blocks| :: blocks[i].minors != []
    }

    constructor (memory: seq<byte>)
      ensures Valid() && blocks == [] && ram == memory
      ensures l_inuse == 0 && l_allocated == 0
    {
      majors, minors, ram, blocks := map[], map[], memory, [];
      l_memRoot, l_bestBet, l_allocated, l_inuse := 0, 0, 0, 0;
      l_warningCount, l_errorCount, l_possibleOverruns := 0, 0, 0;
    }

    method Align(ptr: nat) returns (p: nat)
      requires AlignUp(ptr) - ALIGN_INFO < |ram|
      modifies this`ram
      ensures p == AlignUp(ptr) && |ram| == |old(ram)|
      ensures ram == old(ram)[p - ALIGN_INFO := p - ptr]
    {
      p := ptr + ALIGN_INFO;
      var diff := p % ALIGNMENT;
      if diff != 0 {
        diff := ALIGNMENT - diff;
        p := p + diff;
      }
      ram := ram[p - ALIGN_INFO := diff + ALIGN_INFO];
    }

    /** A major of its own, linked to nothing yet. */
    method AllocateNewPage(size: nat, grant: nat) returns (maj: nat)
      requires size + 2 * HEADER <= MAX_SIZE
      modifies this`majors, this`l_allocated, this`l_warningCount
      ensures maj == grant
      ensures grant == 0 ==> majors == old(majors) && l_allocated == old(l_allocated)
                             && l_warningCount == old(l_warningCount) + 1
      ensures grant != 0 ==>
                && majors == old(majors)[grant := MajorHdr(0, 0, PagesFor(size), PagesFor(size) * PAGE_SIZE, HEADER, 0)]
                && l_allocated == old(l_allocated) + PagesFor(size) * PAGE_SIZE
                && l_warningCount == old(l_warningCount)
    {
      var st := size + HEADER;
      st := st + HEADER;
      if st % PAGE_SIZE == 0 {
        st := st / PAGE_SIZE;
      } else {
        st := st / PAGE_SIZE + 1;
      }
      if st < PAGE_COUNT {
        st := PAGE_COUNT;
      }
      maj := grant;
      if maj == 0 {
        l_warningCount := l_warningCount + 1;
        return;
      }
      majors := majors[maj := MajorHdr(0, 0, st, st * PAGE_SIZE, HEADER, 0)];
      l_allocated := l_allocated + majors[maj].size;
    }

    /** The tail of CASE 1 and CASE 5: a new major behind the last one. */
    method ExtendList(maj: nat, size: nat, grant: nat) returns (next: nat)
      requires Linked() && blocks != [] && maj == blocks[|blocks| - 1].addr
      requires size + 2 * HEADER <= MAX_SIZE && GrantOk(blocks, |ram|, size, grant)
      modifies this`majors, this`l_allocated, this`l_warningCount, this`blocks
      ensures Linked() && next == grant
      ensures blocks == if grant == 0 then old(blocks) else old(blocks) + [Major(grant, PagesFor(size), [])]
    {
      hide HeapOk, PagesFor, Apart;
      ghost var b := Major(grant, PagesFor(size), []);
      ghost var majors0, v := majors, V();
      MajorFacts(majors, minors, v, |blocks| - 1);
      next := AllocateNewPage(size, grant);
      if next != 0 {
        PagesForBound(size);
        FreshAddr(blocks[|blocks| - 1], b);
        majors := majors[maj := majors[maj].(next := next)];
        majors := majors[next := majors[next].(prev := maj)];
        ExtendOk(majors0, minors, v, b, majors);
        blocks := blocks + [b];
      }
    }

    /** What CASES 2 to 4 do after splicing: count, align and return. */
    method Settle(maj: nat, min: nat, size: nat, reqSize: nat, ghost i: nat, ghost k: nat,
                  ghost majors0: map<nat, MajorHdr>, ghost minors0: map<nat, MinorHdr>) returns (p: nat)
      requires HeapOk(majors0, minors0, V())
      requires i < |blocks| && maj == blocks[i].addr && k <= |blocks[i].minors| && min == blocks[i].GapStart(k)
      requires size == reqSize + SLACK && blocks[i].Gap(k) >= size + HEADER
      requires LinkedIn(minors0, minors, blocks[i], k, Minor(min, size, reqSize))
      requires ClearOf(minors0, Minor(min, size, reqSize))
      requires maj in majors0 && majors == majors0[maj := majors0[maj].(first := if k == 0 then min else majors0[maj].first)]
      modifies this`majors, this`ram, this`l_inuse, this`blocks
      ensures Linked() && |ram| == |old(ram)|
      ensures blocks == old(blocks)[i := old(blocks)[i].Insert(k, Minor(min, size, reqSize))]
      ensures p == Payload(min) && ram == old(ram)[p - ALIGN_INFO := p - (min + HEADER)]
    {
      hide HeapOk, LinkedIn, ClearOf;
      ghost var m, v := Minor(min, size, reqSize), V();
      majors := majors[maj := majors[maj].(usage := majors[maj].usage + size + HEADER)];
      l_inuse := l_inuse + size;
      PlaceOk(majors0, minors0, v, i, k, m, majors, minors);
      blocks := blocks[i := blocks[i].Insert(k, m)];
      p := Align(min + HEADER);
    }

    /** CASE 2 and CASE 3: the block goes right behind the major's header. */
    method PlaceFront(maj: nat, size: nat, reqSize: nat, ghost i: nat) returns (p: nat)
      requires Linked() && i < |blocks| && maj == blocks[i].addr
      requires size == reqSize + SLACK && blocks[i].Gap(0) >= size + HEADER
      modifies this`majors, this`minors, this`ram, this`l_inuse, this`blocks
      ensures Linked() && |ram| == |old(ram)|
      ensures blocks == old(blocks)[i := old(blocks)[i].Insert(0, Minor(maj + HEADER, size, reqSize))]
      ensures p == Payload(maj + HEADER) && ram == old(ram)[p - ALIGN_INFO := p - (maj + HEADER + HEADER)]
    {
      hide HeapOk, Payload, ClearOf, Covered;
      ghost var b, v, m := blocks[i], V(), Minor(maj + HEADER, size, reqSize);
      CoveredOk(majors, minors, v, i, 0, m);
      minors := Covered(minors, Minor(maj + HEADER, size, reqSize));
      ghost var majors0, minors0 := majors, minors;
      MajorFacts(majors, minors, v, i);
      if b.minors != [] {
        MinorFacts(majors, minors, v, i, 0);
      }
      var first := majors[maj].first;
      var min := maj + HEADER;
      if first != 0 {
        minors := minors[first := minors[first].(prev := min)];
      }
      minors := minors[min := MinorHdr(0, first, maj, MAGIC, size, reqSize)];
      majors := majors[maj := majors[maj].(first := min)];
      p := Settle(maj, min, size, reqSize, i, 0, majors0, minors0);
    }

    /** CASE 4.1 and CASE 4.2: the block goes right behind the minor at `min`. */
    method PlaceBehind(maj: nat, min: nat, size: nat, reqSize: nat, ghost i: nat, ghost k: nat) returns (p: nat)
      requires Linked() && i < |blocks| && maj == blocks[i].addr && 0 < k <= |blocks[i].minors|
      requires min == blocks[i].minors[k - 1].addr
      requires size == reqSize + SLACK && blocks[i].Gap(k) >= size + HEADER
      modifies this`majors, this`minors, this`ram, this`l_inuse, this`blocks
      ensures Linked() && |ram| == |old(ram)|
      ensures blocks == old(blocks)[i := old(blocks)[i].Insert(k, Minor(old(blocks)[i].GapStart(k), size, reqSize))]
      ensures p == Payload(old(blocks)[i].GapStart(k))
      ensures ram == old(ram)[p - ALIGN_INFO := p - (old(blocks)[i].GapStart(k) + HEADER)]
    {
      hide HeapOk, Payload, ClearOf, Covered, Major.Shaped, Used, LinkedIn;
      ghost var v, m := V(), Minor(blocks[i].GapStart(k), size, reqSize);
      MinorFacts(majors, minors, v, i, k - 1);
      CoveredOk(majors, minors, v, i, k, m);
      minors := Covered(minors, Minor(min + HEADER + minors[min].size, size, reqSize));
      ghost var majors0, minors0 := majors, minors;
      MajorFacts(majors, minors, v, i);
      BehindFacts(majors, minors, v, i, k, m);
      var next := minors[min].next;
      var newMin := min + HEADER + minors[min].size;
      minors := minors[newMin := MinorHdr(min, next, maj, MAGIC, size, reqSize)];
      if next != 0 {
        minors := minors[next := minors[next].(prev := newMin)];
      }
      minors := minors[min := minors[min].(next := newMin)];
      p := Settle(maj, newMin, size, reqSize, i, k, majors0, minors0);
    }

    /** CASE 4: walk the minors of a major whose first gap is too small. */
    method PlaceLater(maj: nat, size: nat, reqSize: nat, ghost i: nat) returns (p: nat, ghost k: nat)
      requires Linked() && i < |blocks| && maj == blocks[i].addr && blocks[i].minors != []
      requires size == reqSize + SLACK && blocks[i].Gap(0) < size + HEADER
      modifies this`majors, this`minors, this`ram, this`l_inuse, this`blocks
      ensures Linked() && |ram| == |old(ram)|
      ensures p == 0 ==> unchanged(this) && !old(blocks)[i].Fits(size + HEADER)
      ensures p != 0 ==>
                && PlacedIn(old(blocks), i, k, size, reqSize, blocks)
                && p == Payload(blocks[i].minors[k].addr)
                && ram == old(ram)[p - ALIGN_INFO := p - (blocks[i].minors[k].addr + HEADER)]
    {
      hide HeapOk, Major.Shaped;
      ghost var b, v := blocks[i], V();
      MajorFacts(majors, minors, v, i);
      MinorFacts(majors, minors, v, i, 0);
      k := 0;
      var min := majors[maj].first;
      while min != 0
        invariant unchanged(this) && k <= |b.minors| && min == MinorAt(b, k)
        invariant min == 0 ==> k == |b.minors|
        invariant forall g: nat | g <= k && g <= |b.minors| :: b.Gap(g) < size + HEADER
        decreases |b.minors| - k
      {
        MinorFacts(majors, minors, v, i, k);
        if k + 1 < |b.minors| {
          MinorFacts(majors, minors, v, i, k + 1);
        }
        var h := minors[min];
        k := k + 1;
        if h.next == 0 {
          if maj + majors[maj].size - min - HEADER - h.size >= size + HEADER {
            p := PlaceBehind(maj, min, size, reqSize, i, k);
            return;
          }
        }
        if h.next != 0 {
          if h.next - min - HEADER - h.size >= size + HEADER {
            p := PlaceBehind(maj, min, size, reqSize, i, k);
            return;
          }
        }
        min := h.next;
      }
      p := 0;
    }

    /** CASES 2 to 4 for one major: the first gap that is large enough takes the block. */
    method PlaceInMajor(maj: nat, size: nat, reqSize: nat, ghost i: nat) returns (p: nat, ghost k: nat)
      requires Linked() && i < |blocks| && maj == blocks[i].addr
      requires size == reqSize + SLACK && blocks[i].Usage() + size + HEADER <= blocks[i].Size()
      modifies this`majors, this`minors, this`ram, this`l_inuse, this`blocks
      ensures Linked() && |ram| == |old(ram)|
      ensures p == 0 ==> unchanged(this) && !old(blocks)[i].Fits(size + HEADER)
      ensures p != 0 ==>
                && PlacedIn(old(blocks), i, k, size, reqSize, blocks)
                && p == Payload(blocks[i].minors[k].addr)
                && ram == old(ram)[p - ALIGN_INFO := p - (blocks[i].minors[k].addr + HEADER)]
    {
      hide HeapOk, Major.Shaped, Major.Fits;
      MajorFacts(majors, minors, V(), i);
      if blocks[i].minors != [] {
        MinorFacts(majors, minors, V(), i, 0);
      }
      var first := majors[maj].first;
      if first == 0 || first - maj - HEADER >= size + HEADER {
        k := 0;
        p := PlaceFront(maj, size, reqSize, i);
      } else {
        p, k := PlaceLater(maj, size, reqSize, i);
      }
    }

    /** The very first major. */
    method CreateRoot(size: nat, grant: nat)
      requires Linked() && blocks == [] && size + 2 * HEADER <= MAX_SIZE && GrantOk(blocks, |ram|, size, grant)
      modifies this`majors, this`l_memRoot, this`l_allocated, this`l_warningCount, this`blocks
      ensures Linked() && l_memRoot == grant
      ensures blocks == if grant == 0 then [] else [Major(grant, PagesFor(size), [])]
    {
      hide HeapOk, PagesFor;
      ghost var majors0, v := majors, V();
      RootFacts(majors, minors, v);
      l_memRoot := AllocateNewPage(size, grant);
      if l_memRoot != 0 {
        PagesForBound(size);
        ExtendOk(majors0, minors, v, Major(grant, PagesFor(size), []), majors);
        blocks := blocks + [Major(grant, PagesFor(size), [])];
      }
    }

    /** How CASE 1 and CASE 5 leave a major without room: hop to the next one, start over at
        the root, or ask for pages. */
    method Advance(maj: nat, startedBet: bool, size: nat, grant: nat, ghost start: nat, ghost i: nat,
                   ghost h0: Hint, ghost h1: Hint, ghost h: Hint)
      returns (maj': nat, startedBet': bool, extended: bool, ghost i': nat, ghost h1': Hint)
      requires Linked() && i < |blocks| && maj == blocks[i].addr
      requires RuledOut(blocks, start, i, startedBet, size + HEADER) && !blocks[i].Fits(size + HEADER)
      requires Noting(blocks, blocks, start, i + 1, startedBet, size + HEADER, h0, h1, h)
      requires size + 2 * HEADER <= MAX_SIZE && GrantOk(blocks, |ram|, size, grant)
      modifies this`majors, this`l_allocated, this`l_warningCount, this`blocks
      ensures Linked() && (!extended ==> blocks == old(blocks))
      ensures maj' == 0 ==> blocks == old(blocks) && grant == 0 && NoFit(blocks, size + HEADER)
      ensures maj' == 0 ==> h == AllTried(blocks, start, h0)
      ensures maj' != 0 ==> i' < |blocks| && maj' == blocks[i'].addr
                            && Scanning(old(blocks), blocks, start, i', startedBet', extended, size, grant)
      ensures maj' != 0 ==> extended || (startedBet && !startedBet') || (startedBet == startedBet' && i' == i + 1)
      ensures maj' != 0 ==> Noting(old(blocks), blocks, start, i', startedBet', size + HEADER, h0, h1', h)
      ensures extended ==> !startedBet && !startedBet' && i' == i + 1 == |old(blocks)|
      ensures extended ==> (FreshCompared(old(blocks), size + HEADER) <==> FreeOf(old(blocks)[i]) >= size + HEADER)
    {
      hide HeapOk, Major.Fits, RuledOut, PagesFor, GrantOk, NoFit, AddrAt, Noting, AllTried;
      MajorFacts(majors, minors, V(), i);
      LastMajor(majors, minors, V(), i);
      ScanHop(blocks, start, i, startedBet, size + HEADER);
      maj', startedBet', extended, i', h1' := majors[maj].next, startedBet, false, i + 1, h1;
      if maj' == 0 {
        if startedBet {
          RootFacts(majors, minors, V());
          NotingWrap(blocks, start, i, size + HEADER, h0, h1, h);
          maj', startedBet', i', h1' := l_memRoot, false, 0, h;
        } else {
          NotedAll(blocks, start, size + HEADER, h0, h1, h);
          NotingAppend(blocks, Major(grant, PagesFor(size), []), start, size + HEADER, h0, h1, h);
          maj' := ExtendList(maj, size, grant);
          extended := true;
        }
      }
    }

    /** The free bytes of the major at hand; if no major so far had more, it is the new hint. */
    method Compare(maj: nat, bestSize: int, ghost i: nat) returns (diff: int, best: int)
      requires Linked() && i < |blocks| && maj == blocks[i].addr
      modifies this`l_bestBet
      ensures Linked() && blocks[i].Shaped() && diff == FreeOf(blocks[i])
      ensures Hint(l_bestBet, best) == Better(blocks[i], Hint(old(l_bestBet), bestSize))
    {
      hide HeapOk, HeapShaped;
      MajorFacts(majors, minors, V(), i);
      ShapeFacts(majors, minors, V());
      diff, best := majors[maj].size - majors[maj].usage, bestSize;
      if best < diff {
        BetOk(majors, minors, V(), i);
        l_bestBet := maj;
        best := diff;
      }
    }

    /** CASES 2 to 4 where the scan stands, and what a place found there says of the whole call. */
    method PlaceScanned(maj: nat, size: nat, reqSize: nat, ghost before: seq<Major>, ghost start: nat, ghost i: nat,
                        ghost startedBet: bool, ghost extended: bool, ghost seen: nat, ghost grant: nat,
                        ghost h0: Hint, ghost h1: Hint, ghost h: Hint)
      returns (p: nat, ghost k: nat)
      requires Linked() && i < |blocks| && maj == blocks[i].addr
      requires size == reqSize + SLACK && blocks[i].Usage() + size + HEADER <= blocks[i].Size()
      requires Scanning(before, blocks, start, i, startedBet, extended, size, grant)
      requires Noting(before, blocks, start, seen, startedBet, size + HEADER, h0, h1, h)
      requires if extended then !startedBet && seen == (if FreshCompared(before, size + HEADER) then i + 1 else i)
               else seen == i + 1
      requires forall j | 0 <= j < |before| :: before[j].minors != []
      modifies this`majors, this`minors, this`ram, this`l_inuse, this`blocks
      ensures Linked() && |ram| == |old(ram)|
      ensures p == 0 ==> unchanged(this) && !old(blocks)[i].Fits(size + HEADER)
      ensures p != 0 ==>
                && Valid() && start <= |before| && h == HintAfter(before, start, i, size, grant, h0)
                && Placed(before, start, i, k, size, reqSize, grant, blocks) && (NoFit(before, size + HEADER) ==> grant != 0)
                && i < |blocks| && k < |blocks[i].minors| && blocks[i].minors[k].reqSize == reqSize
                && p == Payload(blocks[i].minors[k].addr)
                && ram == old(ram)[p - ALIGN_INFO := p - (blocks[i].minors[k].addr + HEADER)]
    {
      hide HeapOk, Scanning, Major.Fits, Major.Shaped, PagesFor, Payload, NoFit, Placed, Noting, HintAfter,
        FreshCompared;
      ghost var scanned := blocks;
      p, k := PlaceInMajor(maj, size, reqSize, i);
      if p != 0 {
        ScanDone(before, scanned, start, i, startedBet, extended, size, reqSize, grant, k, blocks);
        HintDone(before, scanned, start, i, startedBet, extended, seen, size, reqSize, grant, k, blocks, h0, h1, h);
      }
    }

    /** `grant` is what the page hook answers if it is asked. */
    method Malloc(reqSize: nat, grant: nat) returns (p: nat, ghost i: nat, ghost k: nat)
      requires Valid() && reqSize + SLACK + 2 * HEADER <= MAX_SIZE && GrantOk(blocks, |ram|, reqSize + SLACK, grant)
      modifies this`majors, this`minors, this`ram, this`l_memRoot, this`l_bestBet, this`l_allocated, this`l_inuse,
               this`l_warningCount, this`blocks
      ensures Valid() && |ram| == |old(ram)|
      ensures p == 0 <==> grant == 0 && NoFit(old(blocks), reqSize + SLACK + HEADER)
      ensures p == 0 ==> blocks == old(blocks) && ram == old(ram)
      ensures p != 0 ==> Taken(old(blocks), old(l_bestBet), reqSize, grant, i, k, blocks)
      ensures l_bestBet == BetAfterMalloc(old(blocks), old(l_bestBet), reqSize + SLACK, grant, p != 0, i)
      ensures p != 0 ==>
                && Placed(old(blocks), StartOf(old(blocks), old(l_bestBet), reqSize + SLACK + HEADER), i, k,
                          reqSize + SLACK, reqSize, grant, blocks)
                && i < |blocks| && k < |blocks[i].minors| && blocks[i].minors[k].reqSize == reqSize
                && p == Payload(blocks[i].minors[k].addr)
                && ram == old(ram)[p - ALIGN_INFO := p - (blocks[i].minors[k].addr + HEADER)]
    {
      hide HeapOk, Scanning, Major.Fits, Major.Shaped, RuledOut, PagesFor, Payload, GrantOk, NoFit, Placed, PlacedIn,
        StartOf, Used, Major.End, AddrAt, MinorAt, Noting, HintAfter, AllTried, Better, HeapShaped, FreeBytes,
        IndexOf, FreshCompared, Taken;
      p, i, k := 0, 0, 0;
      var size := reqSize + ALIGNMENT + ALIGN_INFO;
      ghost var before := blocks;
      ghost var start, h0 := StartOf(blocks, l_bestBet, size + HEADER), Hint(l_bestBet, FreeBytes(blocks, l_bestBet));
      ghost var h1 := h0;
      ShapeFacts(majors, minors, V());
      var maj: nat, startedBet: bool, extended: bool, bestSize: int;
      maj, startedBet, extended, bestSize, i := BeginScan(size, grant);
      NothingTried(start, h0);
      while maj != 0
        invariant Linked() && ram == old(ram) && (!extended ==> blocks == before)
        invariant maj == 0 ==> blocks == before && grant == 0 && NoFit(before, size + HEADER)
        invariant maj == 0 ==> Hint(l_bestBet, bestSize) == AllTried(before, start, h0)
        invariant maj != 0 ==> i < |blocks| && maj == blocks[i].addr
                               && Scanning(before, blocks, start, i, startedBet, extended, size, grant)
        invariant maj != 0 ==> Noting(before, blocks, start, i, startedBet, size + HEADER, h0, h1, Hint(l_bestBet, bestSize))
        invariant maj != 0 && extended ==> !startedBet && FreshCompared(before, size + HEADER)
        decreases maj != 0, !extended, startedBet, |blocks| - i
      {
        ghost var seen, h := i + 1, Hint(l_bestBet, bestSize);
        ScanFacts(before, blocks, start, i, startedBet, extended, size, grant);
        NotingCompare(before, blocks, start, i, startedBet, size + HEADER, h0, h1, h);
        var diff: int;
        diff, bestSize := Compare(maj, bestSize, i);
        h := Hint(l_bestBet, bestSize);
        if diff < size + HEADER {
          // CASE 1: not enough space in this major.
          SkipSound(blocks[i], size + HEADER);
          maj, startedBet, extended, i, h1 := Advance(maj, startedBet, size, grant, start, i, h0, h1, h);
          if maj == 0 || !extended {
            continue;
          }
          seen := i;
          MajorFacts(majors, minors, V(), i);
          ScanFacts(before, blocks, start, i, startedBet, extended, size, grant);
        }
        p, k := PlaceScanned(maj, size, reqSize, before, start, i, startedBet, extended, seen, grant, h0, h1, h);
        if p != 0 {
          PlacedIsTaken(before, h0.addr, i, k, reqSize, grant, blocks);
          return;
        }
        // CASE 5: block full.
        maj, startedBet, extended, i, h1 := Advance(maj, startedBet, size, grant, start, i, h0, h1, h);
      }
    }

    /** Where the scan begins: at a first major, at the best bet, or at the root. */
    method BeginScan(size: nat, grant: nat)
      returns (maj: nat, startedBet: bool, extended: bool, bestSize: nat, ghost i: nat)
      requires Linked() && size + 2 * HEADER <= MAX_SIZE && GrantOk(blocks, |ram|, size, grant)
      modifies this`majors, this`l_memRoot, this`l_allocated, this`l_warningCount, this`blocks
      ensures Linked() && bestSize == FreeBytes(old(blocks), l_bestBet)
      ensures !extended ==> blocks == old(blocks)
      ensures extended ==> !startedBet && old(blocks) == [] && FreshCompared(old(blocks), size + HEADER)
      ensures maj == 0 ==> blocks == []
      ensures maj == 0 ==> blocks == old(blocks) && grant == 0 && NoFit(blocks, size + HEADER)
      ensures maj != 0 ==>
                && i < |blocks| && maj == blocks[i].addr
                && Scanning(old(blocks), blocks, StartOf(old(blocks), old(l_bestBet), size + HEADER), i, startedBet, extended,
                            size, grant)
                && var h := Hint(l_bestBet, bestSize);
                   Noting(old(blocks), blocks, StartOf(old(blocks), old(l_bestBet), size + HEADER), i, startedBet,
                          size + HEADER, h, h, h)
    {
      hide HeapOk, Major.Fits, Scanning, PagesFor, GrantOk, IndexOf, Noting;
      maj, startedBet, extended, bestSize, i := 0, false, false, 0, 0;
      RootFacts(majors, minors, V());
      if l_memRoot == 0 {
        NoBet(majors, minors, V());
        CreateRoot(size, grant);
        if l_memRoot == 0 {
          return;
        }
        extended := true;
      }
      maj := l_memRoot;
      if l_bestBet != 0 {
        BetFacts(majors, minors, V());
        bestSize := majors[l_bestBet].size - majors[l_bestBet].usage;
        if bestSize > size + HEADER {
          maj, startedBet, i := l_bestBet, true, IndexOf(blocks, l_bestBet);
        }
      }
      RootFacts(majors, minors, V());
      ghost var start := StartOf(old(blocks), old(l_bestBet), size + HEADER);
      ScanStart(old(blocks), blocks, start, i, startedBet, extended, size, grant);
      NotingStart(old(blocks), blocks, start, i, startedBet, size + HEADER, Hint(l_bestBet, bestSize));
    }

    // ----- free

    /** The header that a pointer leads to can be read. */
    ghost predicate Readable(p: nat)
      reads this
    {
      && ALIGN_INFO <= p < |ram| + ALIGN_INFO
      && Unalign(ram, p) >= HEADER && Unalign(ram, p) - HEADER in minors
    }

    /** Taking a live minor out of its major. */
    method Unlink(min: nat, ghost i: nat, ghost k: nat)
      requires Linked() && IsMinor(blocks, i, k, min) && min in minors
      modifies this`majors, this`minors, this`l_inuse, this`blocks
      ensures Linked()
      ensures blocks == old(blocks)[i := old(blocks)[i].Remove(k)]
    {
      hide HeapOk, LinkedOut, UnlinkMap;
      ghost var b, v := blocks[i], V();
      ghost var majors0, minors0 := majors, minors;
      MajorFacts(majors, minors, v, i);
      MinorFacts(majors, minors, v, i, k);
      CountersCover(majors, minors, v, i);
      UnlinkFacts(majors, minors, v, i, k);
      UnlinkHeader(min);
      blocks := blocks[i := b.Remove(k)];
      UnlinkOk(majors0, minors0, v, i, k, majors, minors, V());
    }

    /** The writes that take a header out of its list. */
    method UnlinkHeader(min: nat)
      requires min in minors && minors[min].block in majors
      requires (minors[min].next != 0 ==> minors[min].next in minors) && (minors[min].prev != 0 ==> minors[min].prev in minors)
      requires minors[min].size <= l_inuse && minors[min].size + HEADER <= majors[minors[min].block].usage
      modifies this`majors, this`minors, this`l_inuse
      ensures minors == UnlinkMap(old(minors), min) && l_inuse == old(l_inuse) - old(minors)[min].size
      ensures var h := old(minors)[min];
              var a := old(majors)[h.block];
              majors == old(majors)[h.block := a.(usage := a.usage - h.size - HEADER,
                                                  first := if h.prev == 0 then h.next else a.first)]
    {
      var h := minors[min];
      var maj := h.block;
      l_inuse := l_inuse - h.size;
      majors := majors[maj := majors[maj].(usage := majors[maj].usage - (h.size + HEADER))];
      minors := minors[min := h.(magic := DEAD)];
      if h.next != 0 {
        minors := minors[h.next := minors[h.next].(prev := h.prev)];
      }
      if h.prev != 0 {
        minors := minors[h.prev := minors[h.prev].(next := h.next)];
      }
      if h.prev == 0 {
        majors := majors[maj := majors[maj].(first := h.next)];
      }
    }

    /** Giving the pages of an empty major back to the system. */
    method Release(maj: nat, ghost i: nat)
      requires Linked() && i < |blocks| && maj == blocks[i].addr && blocks[i].minors == []
      modifies this`majors, this`minors, this`l_memRoot, this`l_bestBet, this`l_allocated, this`blocks
      ensures Linked()
      ensures blocks == RemoveAt(old(blocks), i) && l_bestBet == if old(l_bestBet) == maj then 0 else old(l_bestBet)
    {
      hide HeapOk, Bypassed, Released, BypassMap;
      ghost var v := V();
      ghost var majors0, minors0 := majors, minors;
      MajorFacts(majors, minors, v, i);
      CountersCover(majors, minors, v, i);
      BypassFacts(majors, minors, v, i);
      var h := majors[maj];
      if l_memRoot == maj {
        l_memRoot := h.next;
      }
      if l_bestBet == maj {
        l_bestBet := 0;
      }
      l_allocated := l_allocated - h.size;
      Bypass(maj);
      minors := Released(minors, maj, h.pages * PAGE_SIZE);
      blocks := RemoveAt(blocks, i);
      DropOk(majors0, minors0, v, i, majors, minors, V());
    }

    /** The writes that take a major out of the list; its header goes with its pages. */
    method Bypass(maj: nat)
      requires maj in majors
      requires (majors[maj].next != 0 ==> majors[maj].next in majors) && (majors[maj].prev != 0 ==> majors[maj].prev in majors)
      modifies this`majors
      ensures majors == BypassMap(old(majors), maj)
    {
      var h := majors[maj];
      if h.prev != 0 {
        majors := majors[h.prev := majors[h.prev].(next := h.next)];
      }
      if h.next != 0 {
        majors := majors[h.next := majors[h.next].(prev := h.prev)];
      }
      majors := majors - {maj};
    }

    /** A pointer that leads to no live minor changes nothing but the error counters. */
    method Free(p: nat) returns (ghost i: nat, ghost k: nat)
      requires Valid() && (p == 0 || Readable(p))
      modifies this`majors, this`minors, this`l_memRoot, this`l_bestBet, this`l_allocated, this`l_inuse,
               this`l_warningCount, this`l_errorCount, this`l_possibleOverruns, this`blocks
      ensures Valid()
      ensures if p != 0 && LiveAt(old(blocks), Unalign(ram, p) - HEADER) then
                && IsMinor(old(blocks), i, k, Unalign(ram, p) - HEADER)
                && blocks == Freed(old(blocks), i, k) && l_bestBet == BetAfterFree(old(blocks), old(l_bestBet), i, k)
                && l_errorCount == old(l_errorCount)
              else
                && blocks == old(blocks) && majors == old(majors) && minors == old(minors) && l_bestBet == old(l_bestBet)
                && l_errorCount == old(l_errorCount) + (if p == 0 then 0 else 1)
                && l_warningCount == old(l_warningCount) + (if p == 0 then 1 else 0)
                && l_possibleOverruns == old(l_possibleOverruns) +
                     (if p != 0 && minors[Unalign(ram, p) - HEADER].magic % 0x100 == MAGIC % 0x100 then 1 else 0)
    {
      hide HeapOk, Unalign, LiveAt, IsMinor, Freed, BetAfterFree;
      i, k := 0, 0;
      if p == 0 {
        l_warningCount := l_warningCount + 1;
        return;
      }
      var min := Unalign(ram, p) - HEADER;
      MagicFacts(majors, minors, V(), min);
      var magic := minors[min].magic;
      if magic != MAGIC {
        l_errorCount := l_errorCount + 1;
        LowBytes(magic);
        if magic % 0x100_0000 == MAGIC % 0x100_0000 || magic % 0x1_0000 == MAGIC % 0x1_0000 || magic % 0x100 == MAGIC % 0x100 {
          l_possibleOverruns := l_possibleOverruns + 1;
        }
        return;
      }
      i, k := FindMinor(blocks, min);
      FreeLive(min, i, k);
    }

    method FreeLive(min: nat, ghost i: nat, ghost k: nat)
      requires Valid() && IsMinor(blocks, i, k, min) && min in minors
      modifies this`majors, this`minors, this`l_memRoot, this`l_bestBet, this`l_allocated, this`l_inuse, this`blocks
      ensures Valid() && blocks == Freed(old(blocks), i, k) && l_bestBet == BetAfterFree(old(blocks), old(l_bestBet), i, k)
    {
      hide HeapOk, ToInt, HeapShaped, Used, FreeBytes, Major.Shaped;
      MinorFacts(majors, minors, V(), i, k);
      var maj := minors[min].block;
      Unlink(min, i, k);
      MajorFacts(majors, minors, V(), i);
      if majors[maj].first == 0 {
        Release(maj, i);
      } else if l_bestBet != 0 {
        MoveBet(maj, i);
      }
    }

    /** The hint moves to the major just freed in if that has more free bytes, compared as ints. */
    method MoveBet(maj: nat, ghost i: nat)
      requires Linked() && i < |blocks| && maj == blocks[i].addr && l_bestBet != 0
      modifies this`l_bestBet
      ensures Linked()
      ensures l_bestBet == if ToInt(FreeBytes(blocks, maj)) > ToInt(FreeBytes(blocks, old(l_bestBet))) then maj else old(l_bestBet)
    {
      hide HeapOk, ToInt, HeapShaped, Used, FreeBytes, Major.Shaped;
      MajorFacts(majors, minors, V(), i);
      ShapeFacts(majors, minors, V());
      FreeBytesAt(blocks, i);
      BetFacts(majors, minors, V());
      FreeBytesAt(blocks, IndexOf(blocks, l_bestBet));
      var bestSize := ToInt(majors[l_bestBet].size - majors[l_bestBet].usage);
      var majSize := ToInt(majors[maj].size - majors[maj].usage);
      if majSize > bestSize {
        BetOk(majors, minors, V(), i);
        l_bestBet := maj;
      }
    }

    /** malloc immediately followed by free restores the majors, the minors and both counters. */
    method MallocThenFree(reqSize: nat, grant: nat)
      requires Valid() && reqSize + SLACK + 2 * HEADER <= MAX_SIZE && GrantOk(blocks, |ram|, reqSize + SLACK, grant)
      modifies this
      ensures Valid() && blocks == old(blocks)
      ensures l_inuse == old(l_inuse) && l_allocated == old(l_allocated) && l_memRoot == old(l_memRoot)
      ensures forall j | 0 <= j < |blocks| :: && blocks[j].addr in majors && blocks[j].addr in old(majors)
                                              && majors[blocks[j].addr] == old(majors)[blocks[j].addr]
      ensures forall m | Holds(blocks, m) :: && m.addr in minors && m.addr in old(minors)
                                             && minors[m.addr] == old(minors)[m.addr]
    {
      hide HeapOk, Placed, GrantOk, PagesFor, NoFit, BetAfterMalloc, BetAfterFree, Taken;
      ghost var v, majors0, minors0 := V(), majors, minors;
      var p: nat;
      ghost var i, k, i', k';
      p, i, k := Malloc(reqSize, grant);
      if p != 0 {
        PlacedThenFreed(v.blocks, StartOf(v.blocks, v.bet, reqSize + SLACK + HEADER), i, k, reqSize + SLACK, reqSize, grant, blocks);
        PayloadLeadsBack(majors, minors, V(), i, k);
        ShapeFacts(majors, minors, V());
        ghost var placed := blocks;
        i', k' := Free(p);
        assert IsMinor(placed, i, k, placed[i].minors[k].addr);
        LiveOnce(placed, i, k, i', k', placed[i].minors[k].addr);
      }
      SameStructure(majors0, minors0, v, majors, minors, V());
    }

    // ----- realloc

    /** Words first, then the bytes that are left over. */
    method Memcpy(dst: nat, src: nat, len: nat)
      requires dst + len <= |ram| && src + len <= |ram|
      requires dst + len <= src || src + len <= dst
      modifies this`ram
      ensures |ram| == |old(ram)| && Copied(old(ram), src, ram, dst, len)
      ensures forall a | 0 <= a < |ram| && !(dst <= a < dst + len) :: ram[a] == old(ram)[a]
    {
      var n, d, s := len, dst, src;
      while n >= 4
        invariant 0 <= n <= len && d + n == dst + len && s + n == src + len && |ram| == |old(ram)|
        invariant forall a {:trigger ram[a]} | 0 <= a < |ram| ::
                    ram[a] == if dst <= a < d then old(ram)[a + src - dst] else old(ram)[a]
      {
        var w0, w1, w2, w3 := ram[s], ram[s + 1], ram[s + 2], ram[s + 3];
        ram := ram[d := w0][d + 1 := w1][d + 2 := w2][d + 3 := w3];
        d, s := d + 4, s + 4;
        n := n - 4;
      }
      while n > 0
        invariant 0 <= n <= len && d + n == dst + len && s + n == src + len && |ram| == |old(ram)|
        invariant forall a {:trigger ram[a]} | 0 <= a < |ram| ::
                    ram[a] == if dst <= a < d then old(ram)[a + src - dst] else old(ram)[a]
      {
        ram := ram[d := ram[s]];
        d, s := d + 1, s + 1;
        n := n - 1;
      }
    }

    /** New memory and a copy of the old contents. */
    method Duplicate(p: nat, realSize: nat, size: nat, grant: nat, ghost m: Minor)
      returns (q: nat, ghost x: nat, ghost y: nat)
      requires Valid() && Holds(blocks, m) && p == Payload(m.addr) && realSize == m.reqSize < size
      requires size + SLACK + 2 * HEADER <= MAX_SIZE && GrantOk(blocks, |ram|, size + SLACK, grant)
      requires grant != 0 || !NoFit(blocks, size + SLACK + HEADER)
      modifies this
      ensures Valid() && |ram| == |old(ram)|
      ensures Placed(old(blocks), StartOf(old(blocks), old(l_bestBet), size + SLACK + HEADER), x, y,
                     size + SLACK, size, grant, blocks)
      ensures Taken(old(blocks), old(l_bestBet), size, grant, x, y, blocks)
      ensures x < |blocks| && y < |blocks[x].minors| && q == Payload(blocks[x].minors[y].addr)
      ensures blocks[x].minors[y].reqSize == size
      ensures Copied(old(ram), p, ram, q, realSize)
      ensures forall a | 0 <= a < |ram| && !(blocks[x].minors[y].addr <= a < blocks[x].minors[y].End()) :: ram[a] == old(ram)[a]
    {
      hide HeapOk, Placed, GrantOk, PagesFor, NoFit, Payload, Holds, StartOf, BetAfterMalloc, Taken, Copied;
      ghost var before, start := blocks, StartOf(blocks, l_bestBet, size + SLACK + HEADER);
      HeldBounds(majors, minors, V(), m);
      PayloadInside(m);
      q, x, y := Malloc(size, grant);
      ghost var newest := blocks[x].minors[y];
      ShapeFacts(majors, minors, V());
      MinorFacts(majors, minors, V(), x, y);
      PayloadLeadsBack(majors, minors, V(), x, y);
      PayloadInside(newest);
      PlacedApart(before, start, x, y, size + SLACK, size, grant, blocks, m);
      ghost var v := V();
      Memcpy(q, p, realSize);
      PayloadWriteOk(majors, minors, v, x, y, ram);
      CopiedThrough(old(ram), v.ram, ram, p, q, realSize, newest.addr, newest.End());
    }

    /** The block grows: new memory, copy, free.  The code does not check that malloc
        succeeded, so it must. */
    method Move(p: nat, realSize: nat, size: nat, grant: nat, ghost i: nat, ghost k: nat)
      returns (q: nat, ghost mid: seq<Major>, ghost x: nat, ghost y: nat)
      requires Valid() && i < |blocks| && k < |blocks[i].minors|
      requires p == Payload(blocks[i].minors[k].addr) && realSize == blocks[i].minors[k].reqSize < size
      requires size + SLACK + 2 * HEADER <= MAX_SIZE && GrantOk(blocks, |ram|, size + SLACK, grant)
      requires grant != 0 || !NoFit(blocks, size + SLACK + HEADER)
      modifies this
      ensures Valid()
      ensures Placed(old(blocks), StartOf(old(blocks), old(l_bestBet), size + SLACK + HEADER), x, y,
                     size + SLACK, size, grant, mid)
      ensures Taken(old(blocks), old(l_bestBet), size, grant, x, y, mid)
      ensures x < |mid| && y < |mid[x].minors| && q == Payload(mid[x].minors[y].addr)
      ensures Holds(blocks, mid[x].minors[y]) && mid[x].minors[y].reqSize == size
      ensures exists i': nat, k': nat :: IsMinor(mid, i', k', old(blocks)[i].minors[k].addr) && blocks == Freed(mid, i', k')
      ensures Copied(old(ram), p, ram, q, realSize)
      ensures OthersKept(old(blocks), old(ram), blocks, ram, old(blocks)[i].minors[k])
    {
      hide HeapOk, Placed, GrantOk, PagesFor, NoFit, Payload, Unalign, Holds, Freed, StartOf, OthersKept, Copied,
        BetAfterFree, Taken;
      ghost var before, ram0, m := blocks, ram, blocks[i].minors[k];
      ghost var start := StartOf(blocks, l_bestBet, size + SLACK + HEADER);
      HoldsAt(blocks, i, k);
      AllHeldBounds(majors, minors, V());
      q, x, y := Duplicate(p, realSize, size, grant, m);
      mid := blocks;
      ShapeFacts(majors, minors, V());
      HoldsAt(mid, x, y);
      PlacedKeeps(before, start, x, y, size + SLACK, size, grant, mid, m);
      ghost var i', k' := FindHeld(mid, m);
      PayloadLeadsBack(majors, minors, V(), i', k');
      ghost var i'', k'' := Free(p);
      LiveOnce(mid, i', k', i'', k'', m.addr);
      FreedKeeps(mid, i', k', mid[x].minors[y]);
      KeptByMove(before, ram0, start, x, y, size, grant, mid, i', k', blocks, ram);
    }

    /** The caller passes NULL or the address of a live block. */
    method Realloc(p: nat, size: nat, grant: nat, ghost i: nat, ghost k: nat)
      returns (q: nat, ghost mid: seq<Major>, ghost x: nat, ghost y: nat)
      requires Valid()
      requires p != 0 ==> i < |blocks| && k < |blocks[i].minors| && p == Payload(blocks[i].minors[k].addr)
      requires size + SLACK + 2 * HEADER <= MAX_SIZE && GrantOk(blocks, |ram|, size + SLACK, grant)
      requires p != 0 && size > blocks[i].minors[k].reqSize ==> grant != 0 || !NoFit(blocks, size + SLACK + HEADER)
      modifies this
      ensures Valid()
      ensures size == 0 ==> q == 0 && ram == old(ram) && blocks == if p == 0 then old(blocks) else Freed(old(blocks), i, k)
      ensures size > 0 && p == 0 ==>
                if q == 0 then grant == 0 && NoFit(old(blocks), size + SLACK + HEADER) && blocks == old(blocks)
                else Placed(old(blocks), StartOf(old(blocks), old(l_bestBet), size + SLACK + HEADER), x, y,
                            size + SLACK, size, grant, blocks)
                     && Taken(old(blocks), old(l_bestBet), size, grant, x, y, blocks)
                     && x < |blocks| && y < |blocks[x].minors| && q == Payload(blocks[x].minors[y].addr)
      ensures size > 0 && p != 0 && size <= old(blocks)[i].minors[k].reqSize ==>
                && q == p && ram == old(ram) && blocks == Resized(old(blocks), i, k, size)
                && blocks[i].minors[k] == Minor(old(blocks)[i].minors[k].addr, old(blocks)[i].minors[k].size, size)
      ensures size > 0 && p != 0 && size > old(blocks)[i].minors[k].reqSize ==>
                && Placed(old(blocks), StartOf(old(blocks), old(l_bestBet), size + SLACK + HEADER), x, y,
                          size + SLACK, size, grant, mid)
                && Taken(old(blocks), old(l_bestBet), size, grant, x, y, mid)
                && x < |mid| && y < |mid[x].minors| && q == Payload(mid[x].minors[y].addr)
                && Holds(blocks, mid[x].minors[y]) && mid[x].minors[y].reqSize == size
                && (exists i': nat, k': nat ::
                      IsMinor(mid, i', k', old(blocks)[i].minors[k].addr) && blocks == Freed(mid, i', k'))
                && Copied(old(ram), p, ram, q, old(blocks)[i].minors[k].reqSize)
                && OthersKept(old(blocks), old(ram), blocks, ram, old(blocks)[i].minors[k])
    {
      hide HeapOk, Placed, GrantOk, PagesFor, NoFit, Payload, Unalign, Holds, Freed, OthersKept, Copied, StartOf,
        Resized, BetAfterMalloc, BetAfterFree, Taken;
      q, mid, x, y := 0, [], 0, 0;
      if p != 0 {
        PayloadLeadsBack(majors, minors, V(), i, k);
      }
      if size == 0 {
        ShapeFacts(majors, minors, V());
        ghost var before := blocks;
        ghost var i', k' := Free(p);
        if p != 0 {
          assert IsMinor(before, i, k, before[i].minors[k].addr);
          LiveOnce(before, i, k, i', k', before[i].minors[k].addr);
        }
        return;
      }
      if p == 0 {
        q, x, y := Malloc(size, grant);
        return;
      }
      var min := Unalign(ram, p) - HEADER;
      assert minors[min].magic == MAGIC;
      var realSize := minors[min].reqSize;
      if realSize >= size {
        MinorFacts(majors, minors, V(), i, k);
        ghost var v, minors0 := V(), minors;
        minors := minors[min := minors[min].(reqSize := size)];
        blocks := Resized(blocks, i, k, size);
        ResizeOk(majors, minors0, v, i, k, size, minors);
        ResizedNonEmpty(v.blocks, i, k, size);
        ResizedThere(v.blocks, i, k, size);
        q := p;
        return;
      }
      q, mid, x, y := Move(p, realSize, size, grant, i, k);
    }
  }

  lemma ResizedThere(blocks: seq<Major>, i: nat, k: nat, size: nat)
    requires i < |blocks| && k < |blocks[i].minors|
    ensures var after := Resized(blocks, i, k, size);
            && i < |after| && k < |after[i].minors|
            && after[i].minors[k] == Minor(blocks[i].minors[k].addr, blocks[i].minors[k].size, size)
  {
  }

  lemma ResizedNonEmpty(blocks: seq<Major>, i: nat, k: nat, size: nat)
    requires i < |blocks| && k < |blocks[i].minors| && forall j | 0 <= j < |blocks| :: blocks[j].minors != []
    ensures forall j | 0 <= j < |Resized(blocks, i, k, size)| :: Resized(blocks, i, k, size)[j].minors != []
  {
  }

  /** What is represented fixes the counters and every live header. */
  lemma SameStructure(majors: map<nat, MajorHdr>, minors: map<nat, MinorHdr>, v: View,
                      majors': map<nat, MajorHdr>, minors': map<nat, MinorHdr>, v': View)
    requires HeapOk(majors, minors, v) && HeapOk(majors', minors', v') && v.blocks == v'.blocks
    ensures v.inUse == v'.inUse && v.reserved == v'.reserved && v.root == v'.root
    ensures forall j | 0 <= j < |v.blocks| :: && v.blocks[j].addr in majors && v.blocks[j].addr in majors'
                                              && majors'[v.blocks[j].addr] == majors[v.blocks[j].addr]
    ensures forall m | Holds(v.blocks, m) :: m.addr in minors && m.addr in minors' && minors'[m.addr] == minors[m.addr]
  {
    forall j: nat | j < |v.blocks|
      ensures v.blocks[j].addr in majors && v.blocks[j].addr in majors' && majors'[v.blocks[j].addr] == majors[v.blocks[j].addr]
    {
      MajorFacts(majors, minors, v, j);
      MajorFacts(majors', minors', v', j);
    }
    forall m | Holds(v.blocks, m)
      ensures m.addr in minors && m.addr in minors' && minors'[m.addr] == minors[m.addr]
    {
      var i, k := FindHeld(v.blocks, m);
      MinorFacts(majors, minors, v, i, k);
      MinorFacts(majors', minors', v', i, k);
    }
  }

  /** Writes inside the new minor, then a free, leave every other payload as it was. */
  lemma KeptByMove(before: seq<Major>, ram: seq<byte>, start: nat, x: nat, y: nat, size: nat, grant: nat, mid: seq<Major>,
                   i: nat, k: nat, after: seq<Major>, ram': seq<byte>)
    requires Placed(before, start, x, y, size + SLACK, size, grant, mid) && HeapShaped(mid)
    requires i < |mid| && k < |mid[i].minors| && after == Freed(mid, i, k)
    requires |ram'| == |ram| && x < |mid| && y < |mid[x].minors|
    requires forall a | 0 <= a < |ram| && !(mid[x].minors[y].addr <= a < mid[x].minors[y].End()) :: ram'[a] == ram[a]
    requires forall m | Holds(before, m) :: m.reqSize + SLACK <= m.size && m.End() <= |ram|
    ensures OthersKept(before, ram, after, ram', mid[i].minors[k])
  {
    hide Placed, Holds, Freed, HeapShaped, Payload;
    forall m | Holds(before, m) && m != mid[i].minors[k]
      ensures Holds(after, m) && Copied(ram, Payload(m.addr), ram', Payload(m.addr), m.reqSize)
    {
      PlacedKeeps(before, start, x, y, size + SLACK, size, grant, mid, m);
      PlacedApart(before, start, x, y, size + SLACK, size, grant, mid, m);
      FreedKeeps(mid, i, k, m);
      PayloadInside(m);
    }
  }

  /** A header overrun by one, two or three bytes still shares its lowest byte with MAGIC. */
  lemma LowBytes(magic: nat)
    ensures magic % 0x100_0000 == MAGIC % 0x100_0000 || magic % 0x1_0000 == MAGIC % 0x1_0000
            ==> magic % 0x100 == MAGIC % 0x100
  {
    LowByte(magic % 0x100_0000, magic / 0x100_0000 * 0x1_0000);
    LowByte(magic % 0x1_0000, magic / 0x1_0000 * 0x100);
  }

  lemma LowByte(low: nat, k: nat)
    ensures (low + 0x100 * k) % 0x100 == low % 0x100
  {
  }

  lemma FindMinor(blocks: seq<Major>, a: nat) returns (i: nat, k: nat)
    requires LiveAt(blocks, a)
    ensures IsMinor(blocks, i, k, a)
  {
    i, k :| IsMinor(blocks, i, k, a);
  }

  lemma FreshAddr(a: Major, b: Major)
    requires Apart(a, b) && a.pages > 0 && b.pages > 0
    ensures a.addr != b.addr
  {
  }
}
