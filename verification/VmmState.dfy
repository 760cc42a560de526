/** Four-level page tables as values: memory is a sequence of pages of 512 entries, and an entry
    is a 64-bit number whose bit 0 says that it is present. */
module VmmState {
  import Pmm

  const ENTRIES: nat := 512
  const HALF: nat := 256             // entries from here on map the kernel's half
  const PAGES: nat := 0x10_0000_0000 // 2^36 page numbers in 48 bits of address
  const UPPER: nat := 0x8_0000_0000  // the first page number of the upper half
  const PAGE_SIZE: nat := Pmm.PAGE_SIZE

  type Page = s: seq<nat> | |s| == 512 witness seq(512, _ => 0)

  predicate Present(e: nat) { e % 2 == 1 }

  /** The bits of either word. */
  function Or(a: nat, b: nat): nat {
    if a == 0 && b == 0 then 0 else 2 * Or(a / 2, b / 2) + (if a % 2 == 1 || b % 2 == 1 then 1 else 0)
  }

  /** Bit k of a number. */
  predicate Bit(a: nat, k: nat) { if k == 0 then a % 2 == 1 else Bit(a / 2, k - 1) }

  /** A bit is set exactly if it is set in one word or the other. */
  lemma {:induction false} OrBits(a: nat, b: nat, k: nat)
    ensures Bit(Or(a, b), k) <==> Bit(a, k) || Bit(b, k)
  {
    hide Or;
    OrHalves(a, b);
    if k > 0 {
      OrBits(a / 2, b / 2, k - 1);
    }
  }

  lemma OrHalves(a: nat, b: nat)
    ensures Or(a, b) / 2 == Or(a / 2, b / 2)
    ensures Or(a, b) % 2 == 1 <==> a % 2 == 1 || b % 2 == 1
  {
    var low := if a % 2 == 1 || b % 2 == 1 then 1 else 0;
    assert Or(a, b) == 2 * Or(a / 2, b / 2) + low;
    hide Or;
  }

  function PowerOfTwo(k: nat): (m: nat) { if k == 0 then 1 else 2 * PowerOfTwo(k - 1) }

  /** A multiple of a power of two and a number below it have no bit in common. */
  lemma {:induction false} OrBelow(q: nat, b: nat, k: nat)
    requires b < PowerOfTwo(k)
    ensures PowerOfTwo(k) * q >= 0 && Or(PowerOfTwo(k) * q, b) == PowerOfTwo(k) * q + b
  {
    if k == 0 {
      OrZero(q);
    } else {
      var half: nat := PowerOfTwo(k - 1) * q;
      Twice(PowerOfTwo(k - 1), q);
      OrBelow(q, b / 2, k - 1);
    }
  }

  lemma Twice(x: nat, q: nat)
    ensures 2 * x * q == 2 * (x * q) && x * q >= 0
  {
  }

  /** The entry for an address on a page boundary is its sum with the flags. */
  lemma FlagsAdd(adr: nat, flags: nat)
    requires adr % PAGE_SIZE == 0 && flags < PAGE_SIZE
    ensures Or(adr, flags) == adr + flags
  {
    hide Or;
    assert PowerOfTwo(12) == 4096 by {
      assert PowerOfTwo(4) == 16;
      assert PowerOfTwo(8) == 256;
    }
    OrBelow(adr / 4096, flags, 12);
    assert 4096 * (adr / 4096) == adr;
  }

  function ShiftRight(a: nat, k: nat): nat {
    if k == 0 then a else ShiftRight(a / 2, k - 1)
  }

  lemma {:induction false} OrShifts(a: nat, b: nat, k: nat)
    requires ShiftRight(b, k) == 0
    ensures ShiftRight(Or(a, b), k) == ShiftRight(a, k)
  {
    if k == 0 {
      OrZero(a);
    } else {
      OrShifts(a / 2, b / 2, k - 1);
    }
  }

  lemma {:induction false} OrZero(a: nat)
    ensures Or(a, 0) == a
  {
    if a != 0 {
      OrZero(a / 2);
    }
  }

  lemma ShiftThree(a: nat, k: nat)
    requires k >= 3
    ensures ShiftRight(a, k) == ShiftRight(a / 8, k - 3)
  {
    assert ShiftRight(a, k) == ShiftRight(a / 2, k - 1) == ShiftRight(a / 2 / 2, k - 2) == ShiftRight(a / 2 / 2 / 2, k - 3);
    assert a / 2 / 2 / 2 == a / 8;
  }

  lemma NoShift(a: nat)
    ensures ShiftRight(a, 0) == a
  {
  }

  lemma ShiftTwelve(a: nat)
    ensures ShiftRight(a, 12) == a / PAGE_SIZE
  {
    hide ShiftRight;
    ShiftThree(a, 12);
    ShiftThree(a / 8, 9);
    ShiftThree(a / 8 / 8, 6);
    ShiftThree(a / 8 / 8 / 8, 3);
    NoShift(a / 8 / 8 / 8 / 8);
  }

  lemma OrLowest(a: nat, b: nat)
    ensures b % 2 == 1 ==> Or(a, b) % 2 == 1
  {
  }

  /** Flags below a page leave the frame in an entry as it is, whatever the address's low bits. */
  lemma FlagsKeepFrame(adr: nat, flags: nat)
    requires flags < PAGE_SIZE
    ensures Or(adr, flags) / PAGE_SIZE == adr / PAGE_SIZE
    ensures flags % 2 == 1 ==> Present(Or(adr, flags))
  {
    hide ShiftRight, Or;
    OrLowest(adr, flags);
    ShiftTwelve(flags);
    OrShifts(adr, flags, 12);
    ShiftTwelve(Or(adr, flags));
    ShiftTwelve(adr);
  }

  // ----- indices

  function PageNumber(va: nat): nat { va / PAGE_SIZE % PAGES }

  function Index4(p: nat): nat { p / 0x800_0000 % ENTRIES }
  function Index3(p: nat): nat { p / 0x4_0000 % ENTRIES }
  function Index2(p: nat): nat { p / 0x200 % ENTRIES }
  function Index1(p: nat): nat { p % ENTRIES }

  /** Shifting by nine bits two or three times. */
  lemma Shifts(n: nat)
    ensures n / 0x4_0000 == n / ENTRIES / ENTRIES
    ensures n / 0x800_0000 == n / ENTRIES / ENTRIES / ENTRIES
  {
  }

  lemma AddressShifts(va: nat)
    ensures va / 0x20_0000 == va / PAGE_SIZE / 0x200
    ensures va / 0x4000_0000 == va / PAGE_SIZE / 0x4_0000
    ensures va / 0x80_0000_0000 == va / PAGE_SIZE / 0x800_0000
  {
  }

  /** Cutting a number off at a multiple of 512 keeps the digit below and cuts the rest likewise. */
  lemma CutDigit(n: nat, h: nat, t: nat)
    requires n == h * ENTRIES + t
    ensures n % ENTRIES == t % ENTRIES && n / ENTRIES == h + t / ENTRIES
  {
  }

  /** The four bit fields of an address are those of its page number. */
  lemma IndicesOf(va: nat)
    ensures va / 0x80_0000_0000 % ENTRIES == Index4(PageNumber(va))
    ensures va / 0x4000_0000 % ENTRIES == Index3(PageNumber(va))
    ensures va / 0x20_0000 % ENTRIES == Index2(PageNumber(va))
    ensures va / 0x1000 % ENTRIES == Index1(PageNumber(va))
  {
    var q := va / PAGE_SIZE;
    var h, p := q / PAGES, q % PAGES;
    AddressShifts(va);
    Shifts(q);
    Shifts(p);
    CutDigit(q, h * 0x800_0000, p);
    CutDigit(q / ENTRIES, h * 0x4_0000, p / ENTRIES);
    CutDigit(q / ENTRIES / ENTRIES, h * ENTRIES, p / ENTRIES / ENTRIES);
    CutDigit(q / ENTRIES / ENTRIES / ENTRIES, h, p / ENTRIES / ENTRIES / ENTRIES);
  }

  lemma Composed(p: nat)
    requires p < PAGES
    ensures p == ((Index4(p) * ENTRIES + Index3(p)) * ENTRIES + Index2(p)) * ENTRIES + Index1(p)
  {
    Shifts(p);
  }

  /** A page is told from every other by its indices. */
  lemma IndicesTell(p: nat, q: nat)
    requires p < PAGES && q < PAGES
    requires Index4(p) == Index4(q) && Index3(p) == Index3(q) && Index2(p) == Index2(q) && Index1(p) == Index1(q)
    ensures p == q
  {
    hide Index4, Index3, Index2, Index1;
    Composed(p);
    Composed(q);
  }

  lemma UpperIndex(p: nat)
    requires p < PAGES
    ensures Index4(p) >= HALF <==> p >= UPPER
  {
  }

  // ----- walking

  /** Frames are numbers; -1 stands for a table that is not there. */
  function Entry(mem: seq<Page>, f: int, i: nat): nat {
    if 0 <= f < |mem| && i < ENTRIES then mem[f][i] else 0
  }

  function Child(mem: seq<Page>, f: int, i: nat): int {
    var e := Entry(mem, f, i);
    if Present(e) then e / PAGE_SIZE else -1
  }

  function Table3(mem: seq<Page>, root: nat, p: nat): int { Child(mem, root, Index4(p)) }
  function Table2(mem: seq<Page>, root: nat, p: nat): int { Child(mem, Table3(mem, root, p), Index3(p)) }
  function Table1(mem: seq<Page>, root: nat, p: nat): int { Child(mem, Table2(mem, root, p), Index2(p)) }

  /** The entry that decides page p, 0 if a table on the way is missing. */
  function Leaf(mem: seq<Page>, root: nat, p: nat): nat { Entry(mem, Table1(mem, root, p), Index1(p)) }

  /** The plain map that the tables under `root` stand for. */
  ghost function Translations(mem: seq<Page>, root: nat): map<nat, nat> {
    map p: nat | p < PAGES && Present(Leaf(mem, root, p)) :: Leaf(mem, root, p) / PAGE_SIZE
  }

  /** The same with the flags: the whole entry of every mapped page. */
  ghost function Pages(mem: seq<Page>, root: nat): map<nat, nat> {
    map p: nat | p < PAGES && Present(Leaf(mem, root, p)) :: Leaf(mem, root, p)
  }

  ghost function Frames(t: map<nat, nat>): map<nat, nat> { map p | p in t :: t[p] / PAGE_SIZE }

  lemma TranslationsAreFrames(mem: seq<Page>, root: nat)
    ensures Translations(mem, root) == Frames(Pages(mem, root))
  {
    hide Leaf;
  }

  // ----- memory through a loaded pagemap

  /** What the processor reads at a virtual address: a word, or a page fault. */
  datatype Read = Fault | Word(value: nat)

  /** Bits 48 to 63 of an address repeat bit 47. */
  predicate Canonical(va: nat) { va < 0x8000_0000_0000 || 0xffff_8000_0000_0000 <= va < 0x1_0000_0000_0000_0000 }

  function AddressOf(p: nat): nat { PAGE_SIZE * p + (if p >= UPPER then 0xffff_0000_0000_0000 else 0) }

  ghost function ReadAt(mem: seq<Page>, t: map<nat, nat>, va: nat): Read {
    var p := PageNumber(va);
    if Canonical(va) && p in t && t[p] < |mem| then Word(mem[t[p]][va % PAGE_SIZE / 8]) else Fault
  }

  /** The walk that the processor does for it. */
  function Load(mem: seq<Page>, root: nat, va: nat): (r: Read)
    ensures r == ReadAt(mem, Translations(mem, root), va)
  {
    var e := Leaf(mem, root, PageNumber(va));
    if Canonical(va) && Present(e) && e / PAGE_SIZE < |mem| then Word(mem[e / PAGE_SIZE][va % PAGE_SIZE / 8]) else Fault
  }

  /** The words of page p read as the entries of frame f, whatever the other frames hold. */
  ghost predicate ReadsFrame(mem: seq<Page>, t: map<nat, nat>, p: nat, f: nat)
    requires f < |mem|
  {
    forall other: seq<Page>, i: nat | |other| == |mem| && other[f] == mem[f] && i < ENTRIES ::
      ReadAt(other, t, AddressOf(p) + 8 * i) == Word(mem[f][i])
  }

  lemma WordAddress(p: nat, i: nat)
    requires p < PAGES && i < ENTRIES
    ensures var va := AddressOf(p) + 8 * i; Canonical(va) && PageNumber(va) == p && va % PAGE_SIZE / 8 == i
  {
    var va, high := AddressOf(p) + 8 * i, if p >= UPPER then 0xffff_0000_0000_0000 / PAGE_SIZE else 0;
    assert va == (p + high) * PAGE_SIZE + 8 * i;
    assert va / PAGE_SIZE == p + high && va % PAGE_SIZE == 8 * i;
  }

  /** A page shows a frame exactly if it is mapped to it. */
  lemma PageShowsFrame(mem: seq<Page>, t: map<nat, nat>, p: nat, f: nat)
    requires f < |mem| && p < PAGES
    ensures ReadsFrame(mem, t, p, f) <==> p in t && t[p] == f
  {
    hide AddressOf, PageNumber, Canonical;
    if p in t && t[p] == f {
      forall other: seq<Page>, i: nat | |other| == |mem| && other[f] == mem[f] && i < ENTRIES
        ensures ReadAt(other, t, AddressOf(p) + 8 * i) == Word(mem[f][i])
      {
        WordAddress(p, i);
      }
    } else {
      WordAddress(p, 0);
      var other := if p in t && t[p] < |mem| then mem[t[p] := mem[t[p]][0 := mem[f][0] + 1]] else mem;
      assert other[f] == mem[f] && ReadAt(other, t, AddressOf(p) + 8 * 0) != Word(mem[f][0]);
    }
  }

  /** A table in frame f can be used at its physical address. */
  predicate SeesFrame(t: map<nat, nat>, f: nat) { f < UPPER && f in t && t[f] == f }

  ghost predicate Sees(t: map<nat, nat>, frames: set<nat>) { forall f | f in frames :: SeesFrame(t, f) }

  // ----- the invariant

  /** What a frame in use as a table is for: its level, and the one entry that names it. */
  datatype Role = Role(level: nat, owner: nat, slot: nat)

  datatype Vm = Vm(mem: seq<Page>, tables: map<nat, Role>, roots: set<nat>, kernel: nat, free: set<nat>)

  /** Upper entries of all top levels count as the kernel's. */
  function Owner(v: Vm, f: nat, i: nat): nat {
    if f in v.roots && i >= HALF then v.kernel else f
  }

  ghost predicate Placed(v: Vm) {
    && v.kernel in v.roots
    && (forall f | f in v.roots :: f in v.tables)
    && (forall f | f in v.tables :: f < |v.mem| && f !in v.free && 1 <= v.tables[f].level <= 4)
    && (forall f | f in v.tables :: v.tables[f].level == 4 <==> f in v.roots)
    && (forall f | f in v.free :: f < |v.mem|)
  }

  /** Free frames read as zero: the tables are built in them without clearing. */
  ghost predicate FreeZero(v: Vm) {
    forall f, i: nat | f in v.free :: Entry(v.mem, f, i) == 0
  }

  ghost predicate Linked(v: Vm) {
    forall f, i: nat | f in v.tables && v.tables[f].level > 1 && Child(v.mem, f, i) != -1 ::
      Child(v.mem, f, i) in v.tables && v.tables[Child(v.mem, f, i)] == Role(v.tables[f].level - 1, Owner(v, f, i), i)
  }

  ghost predicate Shared(v: Vm) {
    forall f, i: nat | f in v.roots && i >= HALF :: Entry(v.mem, f, i) == Entry(v.mem, v.kernel, i)
  }

  ghost predicate Prefilled(v: Vm) {
    forall i: nat | HALF <= i < ENTRIES :: Present(Entry(v.mem, v.kernel, i))
  }

  ghost predicate VmOk(v: Vm) {
    && Placed(v)
    && FreeZero(v)
    && Linked(v)
    && Shared(v)
    && (v.roots == {v.kernel} || Prefilled(v))
  }

  /** The tables met on the way to page p. */
  lemma PathRoles(v: Vm, root: nat, p: nat)
    requires VmOk(v) && root in v.roots
    ensures var f := Table3(v.mem, root, p);
            f == -1 || (f in v.tables && v.tables[f] == Role(3, Owner(v, root, Index4(p)), Index4(p)))
    ensures var f := Table2(v.mem, root, p);
            f == -1 || (f in v.tables && v.tables[f] == Role(2, Table3(v.mem, root, p), Index3(p)))
    ensures var f := Table1(v.mem, root, p);
            f == -1 || (f in v.tables && v.tables[f] == Role(1, Table2(v.mem, root, p), Index2(p)))
  {
    hide Index4, Index3, Index2, Entry, FreeZero, Shared, Prefilled;
    var f3 := Table3(v.mem, root, p);
    assert v.tables[root].level == 4;
    if f3 != -1 {
      var f2 := Table2(v.mem, root, p);
      assert v.tables[f3].level == 3 && f3 !in v.roots;
      if f2 != -1 {
        assert v.tables[f2].level == 2 && f2 !in v.roots;
      } else {
        MissingHasNone(v.mem, Index2(p));
      }
    } else {
      MissingHasNone(v.mem, Index3(p));
      MissingHasNone(v.mem, Index2(p));
    }
  }

  lemma MissingHasNone(mem: seq<Page>, i: nat)
    ensures Child(mem, -1, i) == -1
  {
  }

  /** No frame is reached by two paths: a last-level table belongs to one run of 512 pages, of one
      root, or of all roots when it lies in the upper half. */
  lemma PathUnique(v: Vm, root: nat, p: nat, root': nat, p': nat)
    requires VmOk(v) && root in v.roots && root' in v.roots
    requires Table1(v.mem, root, p) == Table1(v.mem, root', p') != -1
    ensures Index4(p) == Index4(p') && Index3(p) == Index3(p') && Index2(p) == Index2(p')
    ensures root == root' || Index4(p) >= HALF
  {
    hide Index4, Index3, Index2, Entry, VmOk, Child;
    PathRoles(v, root, p);
    PathRoles(v, root', p');
    assert Table2(v.mem, root, p) != -1 && Table3(v.mem, root, p) != -1 by {
      MissingHasNone(v.mem, Index2(p));
      MissingHasNone(v.mem, Index3(p));
    }
    assert Table2(v.mem, root', p') != -1 && Table3(v.mem, root', p') != -1 by {
      MissingHasNone(v.mem, Index2(p'));
      MissingHasNone(v.mem, Index3(p'));
    }
  }

  /** All roots agree on the upper half, table by table. */
  lemma PathShared(v: Vm, root: nat, p: nat)
    requires VmOk(v) && root in v.roots && Index4(p) >= HALF
    ensures Table1(v.mem, root, p) == Table1(v.mem, v.kernel, p)
    ensures Leaf(v.mem, root, p) == Leaf(v.mem, v.kernel, p)
  {
    assert Entry(v.mem, root, Index4(p)) == Entry(v.mem, v.kernel, Index4(p));
  }

  /** Every address space agrees with the kernel's on every upper-half translation. */
  lemma UpperHalfAgrees(v: Vm, root: nat, p: nat)
    requires VmOk(v) && root in v.roots && UPPER <= p < PAGES
    ensures p in Translations(v.mem, root) <==> p in Translations(v.mem, v.kernel)
    ensures p in Translations(v.mem, root) ==> Translations(v.mem, root)[p] == Translations(v.mem, v.kernel)[p]
  {
    UpperIndex(p);
    PathShared(v, root, p);
  }

  // ----- steps

  function Written(mem: seq<Page>, f: nat, i: nat, e: nat): seq<Page>
    requires f < |mem| && i < ENTRIES
  {
    mem[f := mem[f][i := e]]
  }

  lemma WrittenEntry(mem: seq<Page>, f: nat, i: nat, e: nat)
    requires f < |mem| && i < ENTRIES
    ensures forall g: int, j: nat :: Entry(Written(mem, f, i, e), g, j) == if g == f && j == i then e else Entry(mem, g, j)
  {
  }

  /** vmm_get_next_level finding nothing: a free frame becomes the missing table. */
  function TableAdded(v: Vm, f: nat, i: nat, c: nat, e: nat): Vm
    requires f < |v.mem| && i < ENTRIES && f in v.tables && v.tables[f].level > 0
  {
    v.(mem := Written(v.mem, f, i, e), tables := v.tables[c := Role(v.tables[f].level - 1, Owner(v, f, i), i)], free := v.free - {c})
  }

  ghost predicate CanAdd(v: Vm, f: nat, i: nat, c: nat, e: nat) {
    && f in v.tables && v.tables[f].level > 1 && i < ENTRIES && !Present(Entry(v.mem, f, i))
    && c in v.free && Present(e) && e / PAGE_SIZE == c
    && f < |v.mem|
  }

  lemma TableAddedOk(v: Vm, f: nat, i: nat, c: nat, e: nat)
    requires VmOk(v) && CanAdd(v, f, i, c, e)
    ensures VmOk(TableAdded(v, f, i, c, e))
    ensures Prefilled(v) ==> Prefilled(TableAdded(v, f, i, c, e))
  {
    var w := TableAdded(v, f, i, c, e);
    WrittenEntry(v.mem, f, i, e);
    hide Entry, Written;
    assert f !in v.free && c !in v.tables && c != f;
    assert forall j: nat :: Entry(w.mem, c, j) == 0;
    assert f in v.roots && i >= HALF ==> f == v.kernel && v.roots == {v.kernel};
    forall g, j: nat | g in w.tables && w.tables[g].level > 1 && Child(w.mem, g, j) != -1
      ensures Child(w.mem, g, j) in w.tables && w.tables[Child(w.mem, g, j)] == Role(w.tables[g].level - 1, Owner(w, g, j), j)
    {
      assert g != c;
      if !(g == f && j == i) {
        assert Child(w.mem, g, j) == Child(v.mem, g, j);
      }
    }
  }

  /** A new table is empty, so no translation changes. */
  lemma TableAddedKeeps(v: Vm, f: nat, i: nat, c: nat, e: nat, root: nat, p: nat)
    requires VmOk(v) && CanAdd(v, f, i, c, e) && root in v.roots
    ensures Leaf(TableAdded(v, f, i, c, e).mem, root, p) == Leaf(v.mem, root, p)
  {
    var w := TableAdded(v, f, i, c, e);
    WrittenEntry(v.mem, f, i, e);
    PathRoles(v, root, p);
    assert forall j: nat :: Entry(w.mem, c, j) == 0 && Entry(w.mem, -1, j) == 0;
  }

  /** Why free frames must be zero: a new last-level table answers for a page with whatever its
      frame held, so the page stays unmapped exactly if the frame holds nothing present there. */
  lemma NewTableShowsItsFrame(mem: seq<Page>, root: nat, p: nat, c: nat, e: nat)
    requires var f := Table2(mem, root, p);
             0 <= f < |mem| && f != root && f != Table3(mem, root, p) && f != c && Table1(mem, root, p) == -1
    requires Present(e) && e / PAGE_SIZE == c && Index2(p) < ENTRIES
    ensures var mem' := Written(mem, Table2(mem, root, p), Index2(p), e);
            Leaf(mem', root, p) == Entry(mem, c, Index1(p)) &&
            (Present(Leaf(mem', root, p)) == Present(Leaf(mem, root, p)) <==> !Present(Entry(mem, c, Index1(p))))
  {
    WrittenEntry(mem, Table2(mem, root, p), Index2(p), e);
  }

  /** The frames that are tables or may become ones. */
  ghost function TableFrames(v: Vm): set<nat> { v.tables.Keys + v.free }

  /** What looking for a table leaves as it was: only missing tables are added. */
  ghost predicate Kept(v: Vm, w: Vm) {
    && w.roots == v.roots && w.kernel == v.kernel && TableFrames(w) == TableFrames(v)
    && (Prefilled(v) ==> Prefilled(w))
    && (forall f | f in v.tables :: f in w.tables && w.tables[f] == v.tables[f])
    && (forall f, i: nat | f in v.tables && Child(v.mem, f, i) != -1 :: Child(w.mem, f, i) == Child(v.mem, f, i))
    && (forall root, p: nat | root in v.roots :: Leaf(w.mem, root, p) == Leaf(v.mem, root, p))
  }

  /** The only entries that changed named no table, and name one now, with those flags. */
  ghost predicate LinkedWith(before: seq<Page>, after: seq<Page>, flags: nat) {
    forall f: int, i: nat :: LinkedAt(before, after, f, i, flags)
  }

  ghost predicate LinkedAt(before: seq<Page>, after: seq<Page>, f: int, i: nat, flags: nat) {
    || Entry(after, f, i) == Entry(before, f, i)
    || (Entry(before, f, i) % 2 == 0 && exists c: nat :: Entry(after, f, i) == c * 4096 + flags)
  }

  lemma NoneWritten(before: seq<Page>, after: seq<Page>, flags: nat)
    requires LinkedWith(before, after, flags)
    ensures LinkedBut(before, after, 0, 0, flags)
  {
    hide Entry;
  }

  lemma LinkedSelf(mem: seq<Page>, flags: nat)
    ensures LinkedWith(mem, mem, flags)
  {
  }

  lemma LinkedWrite(mem: seq<Page>, f: nat, i: nat, c: nat, flags: nat)
    requires f < |mem| && i < ENTRIES && mem[f][i] % 2 == 0
    ensures LinkedWith(mem, Written(mem, f, i, c * 4096 + flags), flags)
  {
    WrittenEntry(mem, f, i, c * 4096 + flags);
    hide Written;
    assert Entry(Written(mem, f, i, c * 4096 + flags), f, i) == c * 4096 + flags;
  }

  lemma LinkedTransitive(a: seq<Page>, b: seq<Page>, c: seq<Page>, flags: nat)
    requires LinkedWith(a, b, flags) && LinkedWith(b, c, flags) && flags % 2 == 1
    ensures LinkedWith(a, c, flags)
  {
    hide Entry;
    forall f: int, i: nat
      ensures LinkedAt(a, c, f, i, flags)
    {
      assert LinkedAt(a, b, f, i, flags) && LinkedAt(b, c, f, i, flags);
      if e: nat :| Entry(b, f, i) == e * 4096 + flags {
        assert Entry(b, f, i) % 2 == 1;
      }
    }
  }

  ghost predicate LinkedBut(before: seq<Page>, after: seq<Page>, f: nat, i: nat, flags: nat) {
    forall g: int, j: nat | g != f || j != i :: LinkedAt(before, after, g, j, flags)
  }

  /** Then one last-level entry is written. */
  lemma LinkedThenWritten(before: seq<Page>, mid: seq<Page>, flags: nat, f: nat, i: nat, e: nat)
    requires LinkedWith(before, mid, flags) && f < |mid| && i < ENTRIES
    ensures LinkedBut(before, Written(mid, f, i, e), f, i, flags)
  {
    WrittenEntry(mid, f, i, e);
    hide Written, Entry;
    forall g: int, j: nat | g != f || j != i
      ensures LinkedAt(before, Written(mid, f, i, e), g, j, flags)
    {
      assert LinkedAt(before, mid, g, j, flags);
    }
  }

  lemma KeptSelf(v: Vm)
    ensures Kept(v, v)
  {
  }

  lemma TablePlaced(v: Vm, f: nat)
    requires VmOk(v) && f in v.tables
    ensures f < |v.mem| && 1 <= v.tables[f].level <= 4
  {
  }

  lemma RootPlaced(v: Vm, f: nat)
    requires VmOk(v) && f in v.roots
    ensures f in v.tables && v.tables[f].level == 4
  {
  }

  lemma ChildPlaced(v: Vm, f: nat, i: nat)
    requires VmOk(v) && f in v.tables && v.tables[f].level > 1 && Child(v.mem, f, i) != -1
    ensures Child(v.mem, f, i) in v.tables && v.tables[Child(v.mem, f, i)].level == v.tables[f].level - 1
  {
  }

  lemma KeptChild(v: Vm, w: Vm, f: nat, i: nat)
    requires Kept(v, w) && f in v.tables && Child(v.mem, f, i) != -1
    ensures f in w.tables && w.tables[f] == v.tables[f] && Child(w.mem, f, i) == Child(v.mem, f, i)
  {
  }

  lemma KeptTransitive(u: Vm, v: Vm, w: Vm)
    requires Kept(u, v) && Kept(v, w)
    ensures Kept(u, w)
  {
    hide Child, Leaf, Prefilled;
  }

  lemma KeptTranslations(v: Vm, w: Vm, root: nat)
    requires Kept(v, w) && root in v.roots
    ensures Translations(w.mem, root) == Translations(v.mem, root) && Pages(w.mem, root) == Pages(v.mem, root)
  {
    hide Child, Leaf, Prefilled;
  }

  lemma TableAddedKept(v: Vm, f: nat, i: nat, c: nat, e: nat)
    requires VmOk(v) && CanAdd(v, f, i, c, e)
    ensures VmOk(TableAdded(v, f, i, c, e)) && Kept(v, TableAdded(v, f, i, c, e))
    ensures Child(TableAdded(v, f, i, c, e).mem, f, i) == c
  {
    TableAddedOk(v, f, i, c, e);
    forall root, p: nat | root in v.roots {
      TableAddedKeeps(v, f, i, c, e, root, p);
    }
    WrittenEntry(v.mem, f, i, e);
    hide Entry, Written, Leaf, Prefilled, VmOk;
    assert c !in v.tables;
  }

  lemma LeafWritten(v: Vm, f: nat, i: nat, e: nat, root: nat, p: nat)
    requires VmOk(v) && root in v.roots && f in v.tables && v.tables[f].level == 1 && i < ENTRIES
    ensures f < |v.mem|
    ensures Leaf(Written(v.mem, f, i, e), root, p) ==
              if Table1(v.mem, root, p) == f && Index1(p) == i then e else Leaf(v.mem, root, p)
  {
    WrittenEntry(v.mem, f, i, e);
    PathRoles(v, root, p);
  }

  /** Writing the last-level entry of one page. */
  lemma LeafWrittenOk(v: Vm, f: nat, i: nat, e: nat)
    requires VmOk(v) && f in v.tables && v.tables[f].level == 1 && i < ENTRIES
    ensures f < |v.mem| && VmOk(v.(mem := Written(v.mem, f, i, e)))
    ensures Prefilled(v) ==> Prefilled(v.(mem := Written(v.mem, f, i, e)))
  {
    var w := v.(mem := Written(v.mem, f, i, e));
    WrittenEntry(v.mem, f, i, e);
    hide Entry, Written;
    forall g, j: nat | g in w.tables && w.tables[g].level > 1 && Child(w.mem, g, j) != -1
      ensures Child(w.mem, g, j) in w.tables && w.tables[Child(w.mem, g, j)] == Role(w.tables[g].level - 1, Owner(w, g, j), j)
    {
      assert g != f;
      assert Child(w.mem, g, j) == Child(v.mem, g, j);
    }
  }

  /** Writing page q's entry under `at` changes that page only: for `at` alone if the page lies in
      the lower half, for every address space otherwise. */
  lemma OnePageChanges(v: Vm, at: nat, q: nat, e: nat, root: nat)
    requires VmOk(v) && at in v.roots && root in v.roots && q < PAGES
    requires Table1(v.mem, at, q) != -1
    ensures Table1(v.mem, at, q) < |v.mem|
    ensures var mem' := Written(v.mem, Table1(v.mem, at, q), Index1(q), e);
            Translations(mem', root) ==
              if root != at && q < UPPER then Translations(v.mem, root)
              else if Present(e) then Translations(v.mem, root)[q := e / PAGE_SIZE]
              else Translations(v.mem, root) - {q}
    ensures var mem' := Written(v.mem, Table1(v.mem, at, q), Index1(q), e);
            Pages(mem', root) ==
              if root != at && q < UPPER then Pages(v.mem, root)
              else if Present(e) then Pages(v.mem, root)[q := e]
              else Pages(v.mem, root) - {q}
  {
    hide Index4, Index3, Index2, Index1, Leaf, Table1, Written, VmOk;
    PathRoles(v, at, q);
    UpperIndex(q);
    IndexBound(q);
    var f := Table1(v.mem, at, q);
    LeafWritten(v, f, Index1(q), e, at, q);
    var mem' := Written(v.mem, f, Index1(q), e);
    forall p: nat | p < PAGES
      ensures Leaf(mem', root, p) == if p == q && (root == at || q >= UPPER) then e else Leaf(v.mem, root, p)
    {
      LeafWritten(v, f, Index1(q), e, root, p);
      if Table1(v.mem, root, p) == f && Index1(p) == Index1(q) {
        PathUnique(v, root, p, at, q);
        IndicesTell(p, q);
      } else if p == q && q >= UPPER {
        PathShared(v, root, p);
        PathShared(v, at, p);
      }
    }
  }

  lemma IndexBound(p: nat)
    ensures Index4(p) < ENTRIES && Index3(p) < ENTRIES && Index2(p) < ENTRIES && Index1(p) < ENTRIES
  {
  }

  // ----- new address spaces

  /** vmm_create_new_pagemap before its framebuffer loop: a zero page with the kernel's upper half. */
  function RootAdded(v: Vm, c: nat): Vm
    requires v.kernel < |v.mem| && c < |v.mem|
  {
    v.(mem := v.mem[c := seq(HALF, _ => 0) + v.mem[v.kernel][HALF..]],
       tables := v.tables[c := Role(4, c, 0)], roots := v.roots + {c}, free := v.free - {c})
  }

  lemma RootAddedEntry(v: Vm, c: nat)
    requires v.kernel < |v.mem| && c < |v.mem| && c != v.kernel
    ensures forall g: int, j: nat :: Entry(RootAdded(v, c).mem, g, j) ==
              if g == c then (if j < HALF then 0 else Entry(v.mem, v.kernel, j)) else Entry(v.mem, g, j)
  {
  }

  lemma RootAddedOk(v: Vm, c: nat)
    requires VmOk(v) && Prefilled(v) && c in v.free
    ensures v.kernel < |v.mem| && c < |v.mem|
    ensures VmOk(RootAdded(v, c)) && Prefilled(RootAdded(v, c))
  {
    assert v.kernel in v.tables;
    RootAddedEntry(v, c);
    hide Entry;
    var w := RootAdded(v, c);
    forall g, j: nat | g in w.tables && w.tables[g].level > 1 && Child(w.mem, g, j) != -1
      ensures Child(w.mem, g, j) in w.tables && w.tables[Child(w.mem, g, j)] == Role(w.tables[g].level - 1, Owner(w, g, j), j)
    {
      assert Child(v.mem, if g == c then v.kernel else g, j) == Child(w.mem, g, j);
    }
  }

  lemma MissingIsUnmapped(mem: seq<Page>, root: nat, p: nat)
    requires Table3(mem, root, p) == -1
    ensures Leaf(mem, root, p) == 0
  {
  }

  /** The new address space has the kernel's upper half and nothing else; the others keep theirs. */
  lemma RootAddedMaps(v: Vm, c: nat, root: nat)
    requires VmOk(v) && Prefilled(v) && c in v.free && root in v.roots + {c}
    ensures v.kernel < |v.mem| && c < |v.mem|
    ensures Translations(RootAdded(v, c).mem, root) ==
              if root == c then UpperPart(Translations(v.mem, v.kernel)) else Translations(v.mem, root)
    ensures Pages(RootAdded(v, c).mem, root) == if root == c then UpperPart(Pages(v.mem, v.kernel)) else Pages(v.mem, root)
  {
    hide Leaf, RootAdded, Prefilled, VmOk;
    RootAddedOk(v, c);
    forall p: nat | p < PAGES
      ensures Leaf(RootAdded(v, c).mem, root, p) ==
                if root == c then (if p >= UPPER then Leaf(v.mem, v.kernel, p) else 0) else Leaf(v.mem, root, p)
    {
      RootAddedLeaf(v, c, root, p);
    }
  }

  lemma RootAddedLeaf(v: Vm, c: nat, root: nat, p: nat)
    requires VmOk(v) && Prefilled(v) && c in v.free && root in v.roots + {c} && p < PAGES
    ensures v.kernel < |v.mem| && c < |v.mem|
    ensures Leaf(RootAdded(v, c).mem, root, p) ==
              if root == c then (if p >= UPPER then Leaf(v.mem, v.kernel, p) else 0) else Leaf(v.mem, root, p)
  {
    hide Index4, Index3, Index2, Index1, Entry, RootAdded, Prefilled;
    RootAddedOk(v, c);
    RootAddedEntry(v, c);
    var w := RootAdded(v, c);
    assert v.kernel in v.tables;
    UpperIndex(p);
    if root != c || p >= UPPER {
      var from := if root == c then v.kernel else root;
      PathRoles(v, from, p);
      assert Table3(w.mem, root, p) == Table3(v.mem, from, p);
      assert Table2(w.mem, root, p) == Table2(v.mem, from, p);
      assert Table1(w.mem, root, p) == Table1(v.mem, from, p);
    } else {
      MissingIsUnmapped(w.mem, root, p);
    }
  }

  ghost function UpperPart(t: map<nat, nat>): map<nat, nat> {
    map p | p in t && p >= UPPER :: t[p]
  }
}
