/** The heap of liballoc seen as values: a list of page-backed majors, each holding an
    address-ordered list of minors.  Addresses are numbers and 0 is NULL.  The structure
    that the C code splices in place is related to these values in Liballoc.dfy. */
module LiballocSpec {

  const PAGE_SIZE: nat := 4096
  const PAGE_COUNT: nat := 16
  const HEADER: nat := 40             // sizeof both header structures
  const ALIGNMENT: nat := 16
  const ALIGN_INFO: nat := 16
  const SLACK: nat := 32              // ALIGNMENT + ALIGN_INFO
  const MAX_SIZE: nat := 0xFFFF_F000  // the largest page multiple in an unsigned int

  /** A block handed out: header at `addr`, then `size` bytes. */
  datatype Minor = Minor(addr: nat, size: nat, reqSize: nat) {
    function End(): nat { addr + HEADER + size }
  }

  /** A run of pages: header at `addr`, then minors and gaps. */
  datatype Major = Major(addr: nat, pages: nat, minors: seq<Minor>) {
    function Size(): nat { pages * PAGE_SIZE }

    function End(): nat { addr + Size() }

    function Usage(): nat { HEADER + Used(minors) }

    /** Gap k lies before minor k; the last gap lies after the last minor. */
    function GapStart(k: nat): nat
      requires k <= |minors|
    {
      if k == 0 then addr + HEADER else minors[k - 1].End()
    }

    function GapStop(k: nat): nat
      requires k <= |minors|
    {
      if k == |minors| then End() else minors[k].addr
    }

    function Gap(k: nat): int
      requires k <= |minors|
    {
      GapStop(k) - GapStart(k)
    }

    /** No gap is negative: minors are ordered, disjoint and inside the major. */
    ghost predicate Shaped() {
      && (forall k: nat | k <= |minors| :: Gap(k) >= 0)
      && (forall k | 0 <= k < |minors| :: minors[k].reqSize + SLACK <= minors[k].size)
    }

    ghost predicate Fits(need: nat) {
      exists k: nat :: k <= |minors| && Gap(k) >= need
    }

    function Insert(k: nat, m: Minor): Major
      requires k <= |minors|
    {
      this.(minors := minors[..k] + [m] + minors[k..])
    }

    function Remove(k: nat): Major
      requires k < |minors|
    {
      this.(minors := minors[..k] + minors[k + 1..])
    }
  }

  /** realloc in place only notes the new requested size. */
  function Resized(blocks: seq<Major>, i: nat, k: nat, reqSize: nat): seq<Major>
    requires i < |blocks| && k < |blocks[i].minors|
  {
    blocks[i := blocks[i].(minors := blocks[i].minors[k := blocks[i].minors[k].(reqSize := reqSize)])]
  }

  function Used(ms: seq<Minor>): nat {
    if ms == [] then 0 else Used(ms[..|ms| - 1]) + ms[|ms| - 1].size + HEADER
  }

  lemma {:induction false} UsedConcat(a: seq<Minor>, b: seq<Minor>)
    ensures Used(a + b) == Used(a) + Used(b)
  {
    if b == [] {
      assert a + b == a;
    } else {
      assert (a + b)[..|a + b| - 1] == a + b[..|b| - 1];
      UsedConcat(a, b[..|b| - 1]);
    }
  }

  lemma UsedInsert(b: Major, k: nat, m: Minor)
    requires k <= |b.minors|
    ensures b.Insert(k, m).Usage() == b.Usage() + m.size + HEADER
  {
    assert b.minors == b.minors[..k] + b.minors[k..];
    UsedConcat(b.minors[..k], b.minors[k..]);
    UsedConcat(b.minors[..k] + [m], b.minors[k..]);
    UsedConcat(b.minors[..k], [m]);
    assert [m][..0] == [];
    assert Used([m]) == m.size + HEADER;
  }

  lemma UsedRemove(b: Major, k: nat)
    requires k < |b.minors|
    ensures b.Usage() == b.Remove(k).Usage() + b.minors[k].size + HEADER
  {
    UsedInsert(b.Remove(k), k, b.minors[k]);
    RemoveThenInsert(b, k);
  }

  lemma RemoveThenInsert(b: Major, k: nat)
    requires k < |b.minors|
    ensures b.Remove(k).Insert(k, b.minors[k]) == b
  {
    assert b.Remove(k).Insert(k, b.minors[k]).minors == b.minors;
  }

  /** Freeing what was just placed gives the major back. */
  lemma InsertThenRemove(b: Major, k: nat, m: Minor)
    requires k <= |b.minors|
    ensures b.Insert(k, m).Remove(k) == b
  {
    assert b.Insert(k, m).Remove(k).minors == b.minors;
  }

  // ----- what a shape without negative gaps means

  /** Minors of a shaped major are ordered by address with disjoint extents, and all lie
      between the major's header and its end. */
  lemma {:induction false} MinorsOrdered(b: Major, j: nat, k: nat)
    requires b.Shaped() && j < k <= |b.minors|
    ensures b.minors[j].End() <= b.GapStart(k)
    decreases k - j
  {
    if j + 1 < k {
      MinorsOrdered(b, j, k - 1);
      assert b.Gap(k - 1) >= 0;
    }
  }

  lemma MinorsInside(b: Major, k: nat)
    requires b.Shaped() && k < |b.minors|
    ensures b.addr + HEADER <= b.minors[k].addr && b.minors[k].End() <= b.End()
  {
    if k > 0 {
      MinorsOrdered(b, 0, k);
    }
    assert b.Gap(0) >= 0 && b.Gap(k) >= 0;
    assert b.Gap(|b.minors|) >= 0;
    if k + 1 < |b.minors| {
      MinorsOrdered(b, k, |b.minors|);
    }
  }

  lemma {:induction false} UsedBelow(b: Major, k: nat)
    requires b.Shaped() && k <= |b.minors|
    ensures b.addr + HEADER + Used(b.minors[..k]) <= b.GapStart(k)
  {
    if k > 0 {
      UsedBelow(b, k - 1);
      assert b.minors[..k][..k - 1] == b.minors[..k - 1];
      assert b.Gap(k - 1) >= 0;
    }
  }

  lemma {:induction false} UsedAbove(b: Major, k: nat)
    requires b.Shaped() && k <= |b.minors|
    ensures b.GapStop(k) + Used(b.minors[k..]) <= b.End()
    decreases |b.minors| - k
  {
    if k < |b.minors| {
      UsedAbove(b, k + 1);
      UsedConcat([b.minors[k]], b.minors[k + 1..]);
      assert b.minors[k..] == [b.minors[k]] + b.minors[k + 1..];
      assert [b.minors[k]][..0] == [];
      assert b.Gap(k + 1) >= 0;
    }
  }

  /** CASE 1 may skip a major: no gap is larger than the free byte count. */
  lemma GapAtMostFree(b: Major, k: nat)
    requires b.Shaped() && k <= |b.minors|
    ensures b.Gap(k) <= b.Size() - b.Usage()
  {
    UsedBelow(b, k);
    UsedAbove(b, k);
    assert b.minors == b.minors[..k] + b.minors[k..];
    UsedConcat(b.minors[..k], b.minors[k..]);
  }

  lemma InsertShaped(b: Major, k: nat, m: Minor)
    requires b.Shaped() && k <= |b.minors|
    requires m.addr == b.GapStart(k) && m.reqSize + SLACK <= m.size
    requires b.Gap(k) >= m.size + HEADER
    ensures b.Insert(k, m).Shaped()
  {
    var c := b.Insert(k, m);
    forall g: nat | g <= |c.minors|
      ensures c.Gap(g) >= 0
    {
      if g < k {
        assert c.Gap(g) == b.Gap(g);
      } else if g > k + 1 {
        assert c.Gap(g) == b.Gap(g - 1);
      }
    }
  }

  lemma RemoveShaped(b: Major, k: nat)
    requires b.Shaped() && k < |b.minors|
    ensures b.Remove(k).Shaped()
  {
    var c := b.Remove(k);
    forall g: nat | g <= |c.minors|
      ensures c.Gap(g) >= 0
    {
      if g < k {
        assert c.Gap(g) == b.Gap(g);
      } else if g > k {
        assert c.Gap(g) == b.Gap(g + 1);
      } else {
        assert b.Gap(k) >= 0 && b.Gap(k + 1) >= 0;
      }
    }
  }

  // ----- lists of majors

  ghost predicate Apart(a: Major, b: Major) {
    a.End() <= b.addr || b.End() <= a.addr
  }

  ghost predicate BlockOk(b: Major) {
    b.addr > 0 && b.Shaped() && b.Size() <= MAX_SIZE
  }

  ghost predicate HeapShaped(blocks: seq<Major>) {
    && (forall i | 0 <= i < |blocks| :: BlockOk(blocks[i]))
    && (forall i, j | 0 <= i < j < |blocks| :: Apart(blocks[i], blocks[j]))
  }

  function RemoveAt<T>(s: seq<T>, i: nat): seq<T>
    requires i < |s|
  {
    s[..i] + s[i + 1..]
  }

  /** Free takes a minor out and drops the major that it leaves empty. */
  function Freed(blocks: seq<Major>, i: nat, k: nat): seq<Major>
    requires i < |blocks| && k < |blocks[i].minors|
  {
    var b := blocks[i].Remove(k);
    if b.minors == [] then RemoveAt(blocks, i) else blocks[i := b]
  }

  /** The pages a fresh major needs: both headers, rounded up, at least PAGE_COUNT. */
  function PagesFor(size: nat): (st: nat)
    ensures st >= PAGE_COUNT && st * PAGE_SIZE >= size + 2 * HEADER
    ensures st > PAGE_COUNT ==> (st - 1) * PAGE_SIZE < size + 2 * HEADER
  {
    var st := size + HEADER + HEADER;
    var st := if st % PAGE_SIZE == 0 then st / PAGE_SIZE else st / PAGE_SIZE + 1;
    if st < PAGE_COUNT then PAGE_COUNT else st
  }

  function Fresh(size: nat, reqSize: nat, grant: nat): Major {
    Major(grant, PagesFor(size), [Minor(grant + HEADER, size, reqSize)])
  }

  ghost predicate NoFit(blocks: seq<Major>, need: nat) {
    forall i | 0 <= i < |blocks| :: !blocks[i].Fits(need)
  }

  /** The state after a placement: gap k of major i is the first one in its major that holds
      `need` bytes, and the new minor starts where the gap starts. */
  ghost predicate PlacedIn(blocks: seq<Major>, i: nat, k: nat, size: nat, reqSize: nat, after: seq<Major>) {
    && i < |blocks|
    && k <= |blocks[i].minors|
    && blocks[i].Gap(k) >= size + HEADER
    && (forall g: nat | g < k :: blocks[i].Gap(g) < size + HEADER)
    && after == blocks[i := blocks[i].Insert(k, Minor(blocks[i].GapStart(k), size, reqSize))]
  }

  /** The scan goes from `start` to the end of the list and, if that finds nothing, again
      from the root: major i is the first one on that path with room. */
  ghost predicate FirstOnPath(blocks: seq<Major>, start: nat, i: nat, need: nat) {
    || (start <= i && forall j | start <= j < i && j < |blocks| :: !blocks[j].Fits(need))
    || (&& (forall j | start <= j < |blocks| :: !blocks[j].Fits(need))
        && (forall j | 0 <= j < i && j < |blocks| :: !blocks[j].Fits(need)))
  }

  /** malloc placed its block in an existing major or, when none had room, in a fresh one. */
  ghost predicate Placed(blocks: seq<Major>, start: nat, i: nat, k: nat, size: nat, reqSize: nat, grant: nat,
                         after: seq<Major>)
  {
    if NoFit(blocks, size + HEADER) then
      i == |blocks| && k == 0 && grant != 0 && after == blocks + [Fresh(size, reqSize, grant)]
    else
      PlacedIn(blocks, i, k, size, reqSize, after) && FirstOnPath(blocks, start, i, size + HEADER)
  }

  /** malloc followed by free of the same minor restores the whole structure. */
  lemma PlacedThenFreed(blocks: seq<Major>, start: nat, i: nat, k: nat, size: nat, reqSize: nat, grant: nat,
                        after: seq<Major>)
    requires Placed(blocks, start, i, k, size, reqSize, grant, after)
    requires forall j | 0 <= j < |blocks| :: blocks[j].minors != []
    ensures i < |after| && k < |after[i].minors|
    ensures Freed(after, i, k) == blocks
  {
    if NoFit(blocks, size + HEADER) {
      assert after[i].Remove(k).minors == [];
      assert RemoveAt(after, i) == blocks;
    } else {
      InsertThenRemove(blocks[i], k, Minor(blocks[i].GapStart(k), size, reqSize));
      assert after[i := blocks[i]] == blocks;
    }
  }

  // ----- running totals

  function Sizes(ms: seq<Minor>): nat {
    if ms == [] then 0 else Sizes(ms[..|ms| - 1]) + ms[|ms| - 1].size
  }

  lemma {:induction false} UsedIsSizes(ms: seq<Minor>)
    ensures Used(ms) == Sizes(ms) + HEADER * |ms|
  {
    if ms != [] {
      UsedIsSizes(ms[..|ms| - 1]);
    }
  }

  function InUse(b: Major): nat { Sizes(b.minors) }

  function SizeOf(b: Major): nat { b.Size() }

  function Total(blocks: seq<Major>, f: Major -> nat): nat {
    if blocks == [] then 0 else Total(blocks[..|blocks| - 1], f) + f(blocks[|blocks| - 1])
  }

  lemma {:induction false} TotalUpdate(blocks: seq<Major>, i: nat, b: Major, f: Major -> nat)
    requires i < |blocks|
    ensures Total(blocks[i := b], f) == Total(blocks, f) - f(blocks[i]) + f(b)
  {
    var n := |blocks| - 1;
    if i == n {
      assert blocks[i := b][..n] == blocks[..n];
    } else {
      assert blocks[i := b][..n] == blocks[..n][i := b];
      TotalUpdate(blocks[..n], i, b, f);
    }
  }

  lemma {:induction false} TotalRemove(blocks: seq<Major>, i: nat, f: Major -> nat)
    requires i < |blocks|
    ensures Total(RemoveAt(blocks, i), f) == Total(blocks, f) - f(blocks[i])
  {
    var n := |blocks| - 1;
    if i == n {
      assert RemoveAt(blocks, i) == blocks[..n];
    } else {
      assert RemoveAt(blocks, i)[..n - 1] == RemoveAt(blocks[..n], i);
      TotalRemove(blocks[..n], i, f);
    }
  }

  lemma TotalAppend(blocks: seq<Major>, b: Major, f: Major -> nat)
    ensures Total(blocks + [b], f) == Total(blocks, f) + f(b)
  {
    assert (blocks + [b])[..|blocks|] == blocks;
  }

  lemma InUseInsert(b: Major, k: nat, m: Minor)
    requires k <= |b.minors|
    ensures InUse(b.Insert(k, m)) == InUse(b) + m.size
  {
    UsedInsert(b, k, m);
    UsedIsSizes(b.minors);
    UsedIsSizes(b.Insert(k, m).minors);
  }

  lemma InUseRemove(b: Major, k: nat)
    requires k < |b.minors|
    ensures InUse(b) == InUse(b.Remove(k)) + b.minors[k].size
  {
    UsedRemove(b, k);
    UsedIsSizes(b.minors);
    UsedIsSizes(b.Remove(k).minors);
  }

  lemma ReplacedByInsert(b: Major, k: nat, m: Minor)
    requires k < |b.minors|
    ensures b.Remove(k).Insert(k, m) == b.(minors := b.minors[k := m])
  {
    assert b.Remove(k).Insert(k, m).minors == b.minors[k := m];
  }

  lemma ResizedTotals(blocks: seq<Major>, i: nat, k: nat, reqSize: nat)
    requires i < |blocks| && k < |blocks[i].minors|
    ensures var after := Resized(blocks, i, k, reqSize);
            && after[i].Usage() == blocks[i].Usage()
            && Total(after, InUse) == Total(blocks, InUse) && Total(after, SizeOf) == Total(blocks, SizeOf)
  {
    var b, c := blocks[i], Resized(blocks, i, k, reqSize)[i];
    ReplacedByInsert(b, k, c.minors[k]);
    UsedRemove(b, k);
    UsedInsert(b.Remove(k), k, c.minors[k]);
    UsedIsSizes(b.minors);
    UsedIsSizes(c.minors);
    TotalUpdate(blocks, i, c, InUse);
    TotalUpdate(blocks, i, c, SizeOf);
  }

  lemma ResizedShaped(blocks: seq<Major>, i: nat, k: nat, reqSize: nat)
    requires HeapShaped(blocks) && i < |blocks| && k < |blocks[i].minors| && reqSize + SLACK <= blocks[i].minors[k].size
    ensures HeapShaped(Resized(blocks, i, k, reqSize))
  {
    var b, c := blocks[i], Resized(blocks, i, k, reqSize)[i];
    assert BlockOk(b);
    forall g: nat | g <= |c.minors|
      ensures c.Gap(g) >= 0
    {
      assert c.Gap(g) == b.Gap(g);
    }
    forall x, y | 0 <= x < y < |blocks|
      ensures Apart(Resized(blocks, i, k, reqSize)[x], Resized(blocks, i, k, reqSize)[y])
    {
      assert Apart(blocks[x], blocks[y]);
    }
  }
}
