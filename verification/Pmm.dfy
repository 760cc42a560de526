/** The physical memory manager: one bit a frame.  Locks are left out. */
module Pmm {
  const PAGE_SIZE: nat := 0x1000

  function Mask(k: nat): bv8
    requires k < 8
  {
    1 << k
  }

  predicate OneHot(m: bv8) { m == 1 || m == 2 || m == 4 || m == 8 || m == 16 || m == 32 || m == 64 || m == 128 }

  lemma MaskIsOneHot(k: nat)
    requires k < 8
    ensures OneHot(Mask(k))
  {
    hide Mask;
    MaskValues(k);
  }

  lemma MaskValues(k: nat)
    requires k < 8
    ensures Mask(k) == match k { case 0 => 1 case 1 => 2 case 2 => 4 case 3 => 8 case 4 => 16 case 5 => 32 case 6 => 64 case _ => 128 }
  {
    if k == 0 {} else if k == 1 {} else if k == 2 {} else if k == 3 {} else if k == 4 {} else if k == 5 {} else if k == 6 {}
  }

  /** BIT_TEST on one byte. */
  function Bit(b: bv8, k: nat): bool
    requires k < 8
  {
    (b >> k) & 1 == 1
  }

  lemma BitIsMask(b: bv8, k: nat)
    requires k < 8
    ensures Bit(b, k) <==> b & Mask(k) != 0
  {
    if k == 0 {} else if k == 1 {} else if k == 2 {} else if k == 3 {} else if k == 4 {} else if k == 5 {} else if k == 6 {}
  }

  lemma MasksApart(a: bv8, b: bv8, c: bv8)
    requires OneHot(a) && OneHot(b)
    ensures (c | a) & b != 0 <==> a == b || c & b != 0
    ensures (c & !a) & b != 0 <==> a != b && c & b != 0
  {
  }

  /** BIT_SET on one byte. */
  function WithBit(b: bv8, k: nat): bv8
    requires k < 8
  {
    b | Mask(k)
  }

  /** BIT_CLEAR on one byte. */
  function WithoutBit(b: bv8, k: nat): bv8
    requires k < 8
  {
    b & !Mask(k)
  }

  lemma MasksTell(k: nat, j: nat)
    requires k < 8 && j < 8
    ensures Mask(k) == Mask(j) <==> k == j
  {
    hide Mask;
    MaskValues(k);
    MaskValues(j);
  }

  lemma BitSet(b: bv8, k: nat, j: nat)
    requires k < 8 && j < 8
    ensures Bit(WithBit(b, k), j) <==> j == k || Bit(b, j)
  {
    hide Bit, Mask, OneHot;
    BitIsMask(b, j);
    BitIsMask(WithBit(b, k), j);
    MaskIsOneHot(k);
    MaskIsOneHot(j);
    MasksTell(k, j);
    MasksApart(Mask(k), Mask(j), b);
  }

  lemma BitCleared(b: bv8, k: nat, j: nat)
    requires k < 8 && j < 8
    ensures Bit(WithoutBit(b, k), j) <==> j != k && Bit(b, j)
  {
    hide Bit, Mask, OneHot;
    BitIsMask(b, j);
    BitIsMask(WithoutBit(b, k), j);
    MaskIsOneHot(k);
    MaskIsOneHot(j);
    MasksTell(k, j);
    MasksApart(Mask(k), Mask(j), b);
  }

  /** BIT_SET and BIT_CLEAR change one bit of their byte. */
  lemma OneBit(b: bv8, k: nat, j: nat)
    requires k < 8 && j < 8
    ensures Bit(WithBit(b, k), j) <==> j == k || Bit(b, j)
    ensures Bit(WithoutBit(b, k), j) <==> j != k && Bit(b, j)
  {
    hide Bit, WithBit, WithoutBit;
    BitSet(b, k, j);
    BitCleared(b, k, j);
  }

  /** Frame i is marked as in use. */
  predicate Used(bitmap: seq<bv8>, i: nat) {
    i / 8 < |bitmap| && Bit(bitmap[i / 8], i % 8)
  }

  /** The frames that can be handed out. */
  ghost function FreeFrames(bitmap: seq<bv8>, frames: nat): set<nat> {
    set i: nat | 0 <= i < frames && !Used(bitmap, i)
  }

  lemma ByteChanged(bitmap: seq<bv8>, i: nat, j: nat, b: bv8, on: bool)
    requires i / 8 < |bitmap|
    requires Bit(b, j % 8) <==> if j % 8 == i % 8 then on else Bit(bitmap[i / 8], j % 8)
    ensures Used(bitmap[i / 8 := b], j) <==> if j == i then on else Used(bitmap, j)
  {
    hide Bit;
  }

  lemma BitChanged(bitmap: seq<bv8>, i: nat, j: nat)
    requires i / 8 < |bitmap|
    ensures Used(bitmap[i / 8 := WithBit(bitmap[i / 8], i % 8)], j) <==> j == i || Used(bitmap, j)
    ensures Used(bitmap[i / 8 := WithoutBit(bitmap[i / 8], i % 8)], j) <==> j != i && Used(bitmap, j)
  {
    hide Bit, WithBit, WithoutBit, Used;
    var b := bitmap[i / 8];
    OneBit(b, i % 8, j % 8);
    ByteChanged(bitmap, i, j, WithBit(b, i % 8), true);
    ByteChanged(bitmap, i, j, WithoutBit(b, i % 8), false);
  }

  lemma FreeChanged(bitmap: seq<bv8>, i: nat, frames: nat)
    requires i < frames && i / 8 < |bitmap|
    ensures FreeFrames(bitmap[i / 8 := WithoutBit(bitmap[i / 8], i % 8)], frames) == FreeFrames(bitmap, frames) + {i}
    ensures FreeFrames(bitmap[i / 8 := WithBit(bitmap[i / 8], i % 8)], frames) == FreeFrames(bitmap, frames) - {i}
  {
    hide Bit, WithBit, WithoutBit, Used;
    forall j: nat {
      BitChanged(bitmap, i, j);
    }
  }

  class FrameAllocator {
    const bitmap: array<bv8>
    var highestPage: nat   // an address, as in the source

    ghost predicate Valid()
      reads this
    {
      highestPage / PAGE_SIZE <= 8 * bitmap.Length
    }

    ghost function Free(): set<nat>
      reads this, bitmap
    {
      FreeFrames(bitmap[..], highestPage / PAGE_SIZE)
    }

    constructor (bitmap: array<bv8>, highestPage: nat)
      requires highestPage / PAGE_SIZE <= 8 * bitmap.Length
      ensures Valid() && this.bitmap == bitmap && this.highestPage == highestPage
    {
      this.bitmap, this.highestPage := bitmap, highestPage;
    }

    method FreePage(adr: nat)
      requires Valid() && adr / PAGE_SIZE < highestPage / PAGE_SIZE
      modifies bitmap
      ensures Free() == old(Free()) + {adr / PAGE_SIZE}
    {
      hide Bit, Mask, FreeFrames;
      ghost var before := bitmap[..];
      var i := adr / PAGE_SIZE;
      bitmap[i / 8] := WithoutBit(bitmap[i / 8], i % 8);
      assert bitmap[..] == before[i / 8 := WithoutBit(before[i / 8], i % 8)];
      FreeChanged(before, i, highestPage / PAGE_SIZE);
    }

    method AllocPage(adr: nat)
      requires Valid() && adr / PAGE_SIZE < highestPage / PAGE_SIZE
      modifies bitmap
      ensures Free() == old(Free()) - {adr / PAGE_SIZE}
    {
      hide Bit, Mask, FreeFrames;
      ghost var before := bitmap[..];
      var i := adr / PAGE_SIZE;
      bitmap[i / 8] := WithBit(bitmap[i / 8], i % 8);
      assert bitmap[..] == before[i / 8 := WithBit(before[i / 8], i % 8)];
      FreeChanged(before, i, highestPage / PAGE_SIZE);
    }

    /** pmalloc(1): the lowest free frame.  Where the source halts for want of memory, `ok` is
        false. */
    method Pmalloc() returns (ok: bool, adr: nat)
      requires Valid()
      modifies bitmap
      ensures ok <==> old(Free()) != {}
      ensures !ok ==> bitmap[..] == old(bitmap[..])
      ensures ok ==> adr % PAGE_SIZE == 0 && adr / PAGE_SIZE in old(Free()) && Free() == old(Free()) - {adr / PAGE_SIZE}
      ensures ok ==> forall f | f in old(Free()) :: adr / PAGE_SIZE <= f
    {
      hide Bit, Mask;
      var i: nat := 0;
      while i < highestPage / PAGE_SIZE
        invariant i <= highestPage / PAGE_SIZE && bitmap[..] == old(bitmap[..])
        invariant forall j: nat | j < i :: Used(bitmap[..], j)
      {
        if !Bit(bitmap[i / 8], i % 8) {
          ok, adr := true, i * PAGE_SIZE;
          assert i in Free();
          AllocPage(adr);
          return;
        }
        assert Used(bitmap[..], i);
        i := i + 1;
      }
      ok, adr := false, 0;
    }
  }

  // ----- the memory map

  datatype Kind = Usable | Reclaimable | KernelAndModules | Other

  datatype Region = Region(base: nat, length: nat, kind: Kind) {
    function Pages(): nat { length / PAGE_SIZE }
  }

  function AlignUp(n: nat): nat { (n + PAGE_SIZE - 1) / PAGE_SIZE * PAGE_SIZE }

  function BitmapSize(highest: nat): nat { AlignUp(highest / PAGE_SIZE / 8) }

  /** The bitmap has a bit for every frame exactly when rounding the byte count down did no harm:
      the frame count is a multiple of 8, or rounding up to a page makes good for it. */
  lemma BitmapCovers(highest: nat)
    ensures highest / PAGE_SIZE <= 8 * BitmapSize(highest) <==>
              highest / PAGE_SIZE % 8 == 0 || highest / PAGE_SIZE / 8 % PAGE_SIZE != 0
  {
    var n := highest / PAGE_SIZE;
    var q, r := n / 8 / PAGE_SIZE, n / 8 % PAGE_SIZE;
    assert n / 8 == q * PAGE_SIZE + r;
    if r == 0 {
      assert (n / 8 + PAGE_SIZE - 1) / PAGE_SIZE == q;
    } else {
      assert (n / 8 + PAGE_SIZE - 1) / PAGE_SIZE == q + 1;
    }
  }

  /** Frame f lies in a usable region. */
  ghost predicate InUsable(map_: seq<Region>, f: nat) {
    exists i, j: nat :: 0 <= i < |map_| && map_[i].kind == Usable && j < map_[i].Pages() && FrameAt(map_[i], j) == f
  }

  function FrameAt(r: Region, j: nat): nat { (r.base + j * PAGE_SIZE) / PAGE_SIZE }

  /** These are the frames from the one that a region begins in, as many as it has whole pages. */
  lemma UsableFrames(map_: seq<Region>, f: nat)
    ensures InUsable(map_, f) <==> exists i :: 0 <= i < |map_| && HoldsFrame(map_[i], f)
  {
    if InUsable(map_, f) {
      var i, j: nat :| 0 <= i < |map_| && map_[i].kind == Usable && j < map_[i].Pages() && FrameAt(map_[i], j) == f;
      FramesInRow(map_[i], j);
      assert HoldsFrame(map_[i], f);
    }
    if i :| 0 <= i < |map_| && HoldsFrame(map_[i], f) {
      FramesInRow(map_[i], f - map_[i].base / 4096);
    }
  }

  predicate HoldsFrame(r: Region, f: nat) { r.kind == Usable && r.base / 4096 <= f < r.base / 4096 + r.length / 4096 }

  lemma FramesInRow(r: Region, j: nat)
    ensures FrameAt(r, j) == r.base / 4096 + j
  {
    var q, rest := r.base / 4096, r.base % 4096;
    assert r.base + j * PAGE_SIZE == (q + j) * 4096 + rest;
  }

  /** As above, for the regions before index `at` only. */
  ghost predicate InUsableBefore(map_: seq<Region>, at: nat, f: nat) {
    exists i, j: nat :: 0 <= i < at && i < |map_| && map_[i].kind == Usable && j < map_[i].Pages() && FrameAt(map_[i], j) == f
  }

  function Counted(k: Kind): bool { k == Usable || k == Reclaimable || k == KernelAndModules }

  /** The end of the highest region that counts as memory. */
  function Highest(map_: seq<Region>): nat {
    if map_ == [] then 0
    else
      var r, rest := map_[|map_| - 1], Highest(map_[..|map_| - 1]);
      if Counted(r.kind) && r.base + r.length > rest then r.base + r.length else rest
  }

  /** It is the end of one of them, or 0. */
  lemma {:induction false} HighestIsOne(map_: seq<Region>)
    ensures Highest(map_) == 0 || exists i :: 0 <= i < |map_| && EndsAt(map_[i], Highest(map_))
  {
    if map_ != [] {
      var n := |map_| - 1;
      HighestIsOne(map_[..n]);
      if Highest(map_) == Highest(map_[..n]) != 0 {
        var i :| 0 <= i < n && EndsAt(map_[..n][i], Highest(map_[..n]));
        assert EndsAt(map_[i], Highest(map_));
      } else if Highest(map_) != 0 {
        assert EndsAt(map_[n], Highest(map_));
      }
    }
  }

  predicate EndsAt(r: Region, top: nat) {
    r.base + r.length == top && (r.kind == Usable || r.kind == Reclaimable || r.kind == KernelAndModules)
  }

  lemma {:induction false} HighestBounds(map_: seq<Region>, i: nat)
    requires i < |map_| && (map_[i].kind == Usable || map_[i].kind == Reclaimable || map_[i].kind == KernelAndModules)
    ensures map_[i].base + map_[i].length <= Highest(map_)
  {
    if i < |map_| - 1 {
      HighestBounds(map_[..|map_| - 1], i);
    }
  }

  /** The first usable region that can hold the bitmap gives up its first bytes. */
  ghost predicate Carved(before: seq<Region>, after: seq<Region>, size: nat) {
    exists i :: 0 <= i < |before| && before[i].kind == Usable && before[i].length >= size
                && (forall j | 0 <= j < i :: before[j].kind != Usable || before[j].length < size)
                && after == before[i := Region(before[i].base + size, before[i].length - size, Usable)]
  }

  lemma FrameBelowHighest(map_: seq<Region>, i: nat, j: nat, highest: nat)
    requires i < |map_| && j < map_[i].Pages() && map_[i].base + map_[i].length <= highest
    ensures FrameAt(map_[i], j) < highest / PAGE_SIZE
  {
    var r := map_[i];
    assert r.Pages() * PAGE_SIZE <= r.length;
    assert (j + 1) * PAGE_SIZE <= r.length;
  }

  /** The scan for the end of memory. */
  method FindHighest(map_: array<Region>) returns (highest: nat)
    ensures highest == Highest(map_[..])
  {
    highest := 0;
    var i := 0;
    while i < map_.Length
      invariant 0 <= i <= map_.Length && highest == Highest(map_[..i])
    {
      assert map_[..i + 1][..i] == map_[..i];
      if Counted(map_[i].kind) {
        var top := map_[i].base + map_[i].length;
        if top > highest {
          highest := top;
        }
      }
      i := i + 1;
    }
    assert map_[..map_.Length] == map_[..];
  }

  lemma IsCarved(before: seq<Region>, after: seq<Region>, size: nat, i: nat)
    requires i < |before| && before[i].kind == Usable && before[i].length >= size
    requires forall j | 0 <= j < i :: before[j].kind != Usable || before[j].length < size
    requires after == before[i := Region(before[i].base + size, before[i].length - size, Usable)]
    ensures Carved(before, after, size)
  {
  }

  /** The scan for a place for the bitmap. */
  method Carve(map_: array<Region>, size: nat)
    requires exists i :: 0 <= i < map_.Length && map_[i].kind == Usable && map_[i].length >= size
    modifies map_
    ensures Carved(old(map_[..]), map_[..], size)
  {
    hide Carved;
    ghost var before := map_[..];
    ghost var w :| 0 <= w < |before| && before[w].kind == Usable && before[w].length >= size;
    var i := 0;
    while !(map_[i].kind == Usable && map_[i].length >= size)
      invariant 0 <= i <= w < map_.Length && map_[..] == before
      invariant forall j | 0 <= j < i :: before[j].kind != Usable || before[j].length < size
      decreases w - i
    {
      i := i + 1;
    }
    map_[i] := Region(map_[i].base + size, map_[i].length - size, Usable);
    assert map_[..] == before[i := Region(before[i].base + size, before[i].length - size, Usable)];
    assert Carved(before, map_[..], size) by {
      IsCarved(before, map_[..], size, i);
    }
  }

  /** Carving moves no region's end. */
  lemma CarvedBelow(before: seq<Region>, after: seq<Region>, size: nat, k: nat)
    requires Carved(before, after, size) && k < |after| && after[k].kind == Usable
    ensures after[k].base + after[k].length <= Highest(before)
  {
    HighestBounds(before, k);
  }

  /** MmInitializePmm.  Afterwards exactly the frames of usable regions are free, less what the
      bitmap itself took. */
  method InitializePmm(map_: array<Region>) returns (a: FrameAllocator)
    requires var frames := Highest(map_[..]) / PAGE_SIZE; frames % 8 == 0 || frames / 8 % PAGE_SIZE != 0
    requires exists i :: 0 <= i < map_.Length && map_[i].kind == Usable && map_[i].length >= BitmapSize(Highest(map_[..]))
    modifies map_
    ensures fresh(a) && a.Valid() && a.highestPage == Highest(old(map_[..]))
    ensures Carved(old(map_[..]), map_[..], BitmapSize(a.highestPage))
    ensures forall f: nat :: f in a.Free() <==> InUsable(map_[..], f)
  {
    hide Highest, BitmapSize, Carved, InUsable, FreeFrames, Bit, Mask, Used;
    var highest := FindHighest(map_);
    BitmapCovers(highest);
    ghost var before := map_[..];
    var size := BitmapSize(highest);
    Carve(map_, size);
    forall k | 0 <= k < map_.Length && map_[k].kind == Usable
      ensures map_[k].base + map_[k].length <= highest
    {
      CarvedBelow(before, map_[..], size, k);
    }
    a := FreeUsable(map_[..], size, highest);
  }

  /** All frames are marked in use, then those of usable regions are freed. */
  method FreeUsable(map_: seq<Region>, size: nat, highest: nat) returns (a: FrameAllocator)
    requires highest / PAGE_SIZE <= 8 * size
    requires forall i | 0 <= i < |map_| && map_[i].kind == Usable :: map_[i].base + map_[i].length <= highest
    ensures fresh(a) && a.Valid() && a.highestPage == highest
    ensures forall f: nat :: f in a.Free() <==> InUsable(map_, f)
  {
    var bitmap := new bv8[size](_ => 0xFF);
    a := new FrameAllocator(bitmap, highest);
    AllOnes(bitmap[..], highest / PAGE_SIZE);
    var i := 0;
    while i < |map_|
      invariant 0 <= i <= |map_| && a.Valid() && a.highestPage == highest && a.bitmap == bitmap && fresh(bitmap)
      invariant forall f: nat :: f in a.Free() <==> InUsableBefore(map_, i, f)
    {
      if map_[i].kind == Usable {
        FreePages(a, map_, i);
      }
      i := i + 1;
    }
  }

  lemma AllOnes(bitmap: seq<bv8>, frames: nat)
    requires frames <= 8 * |bitmap| && forall i | 0 <= i < |bitmap| :: bitmap[i] == 0xFF
    ensures FreeFrames(bitmap, frames) == {}
  {
    forall i: nat | i < frames
      ensures Used(bitmap, i)
    {
      BitIsMask(0xFF, i % 8);
      MaskValues(i % 8);
    }
  }

  /** pmm_free_pages on one region. */
  method FreePages(a: FrameAllocator, map_: seq<Region>, i: nat)
    requires a.Valid() && i < |map_| && map_[i].kind == Usable && map_[i].base + map_[i].length <= a.highestPage
    requires forall f: nat :: f in a.Free() <==> InUsableBefore(map_, i, f)
    modifies a.bitmap
    ensures forall f: nat :: f in a.Free() <==> InUsableBefore(map_, i + 1, f)
  {
    var j: nat := 0;
    while j < map_[i].length / PAGE_SIZE
      invariant j <= map_[i].Pages()
      invariant forall f: nat :: f in a.Free() <==> InUsableBefore(map_, i, f) || exists k: nat :: k < j && FrameAt(map_[i], k) == f
    {
      FrameBelowHighest(map_, i, j, a.highestPage);
      a.FreePage(map_[i].base + j * PAGE_SIZE);
      j := j + 1;
    }
  }
}
