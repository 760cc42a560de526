/** The virtual memory manager: page tables built on demand in frames of the physical memory
    manager.  A pagemap is known by the address of its top-level table, as in the source.  Where
    the source halts for want of memory the methods return with `ok` false. */
module Vmm {
  import opened VmmState
  import Pmm

  const PHYS_MEM_OFFSET: nat := 0xffff_8000_0000_0000
  const KERNEL_MEM_OFFSET: nat := 0xffff_ffff_8000_0000

  class PageTables {
    const pmm: Pmm.FrameAllocator
    const mem: array<Page>             // physical memory, frame by frame
    var kernel: nat                    // MiKernelPage.top_level
    ghost var tables: map<nat, Role>
    ghost var roots: set<nat>

    constructor (pmm: Pmm.FrameAllocator, mem: array<Page>)
      ensures this.pmm == pmm && this.mem == mem && tables == map[] && roots == {}
    {
      this.pmm, this.mem, kernel, tables, roots := pmm, mem, 0, map[], {};
    }

    ghost function State(): Vm
      reads this, mem, pmm, pmm.bitmap
    {
      Vm(mem[..], tables, roots, kernel / PAGE_SIZE, pmm.Free())
    }

    /** The bitmap is not one of the pages. */
    ghost predicate Separate() {
      var frames: object := mem;
      frames != pmm.bitmap
    }

    ghost predicate Valid()
      reads this, mem, pmm, pmm.bitmap
    {
      Separate() && pmm.Valid() && kernel % PAGE_SIZE == 0 && VmOk(State())
    }

    ghost predicate IsRoot(at: nat)
      reads this
    {
      at % PAGE_SIZE == 0 && at / PAGE_SIZE in roots
    }

    /** The plain map from page numbers to frames that a pagemap stands for. */
    ghost function Translations(root: nat): map<nat, nat>
      reads mem
    {
      VmmState.Translations(mem[..], root)
    }

    /** The same with the flags of each page. */
    ghost function Pages(root: nat): map<nat, nat>
      reads mem
    {
      VmmState.Pages(mem[..], root)
    }

    method Store(f: nat, i: nat, e: nat)
      requires f < mem.Length && i < ENTRIES
      modifies mem
      ensures mem[..] == Written(old(mem[..]), f, i, e)
    {
      mem[f] := mem[f][i := e];
    }

    /** The table that entry `index` of `table` names, made from a free frame if there is none. */
    method GetNextLevel(table: nat, index: nat, flags: nat) returns (ok: bool, ret: nat)
      requires Valid() && table / PAGE_SIZE in tables && tables[table / PAGE_SIZE].level > 1
      requires index < ENTRIES && flags < PAGE_SIZE && flags % 2 == 1
      modifies this`tables, mem, pmm.bitmap
      ensures Valid() && Kept(old(State()), State())
      ensures ok ==> ret % PAGE_SIZE == 0 && Child(mem[..], table / PAGE_SIZE, index) == ret / PAGE_SIZE
      ensures ok && Child(old(mem[..]), table / PAGE_SIZE, index) != -1 ==> State() == old(State())
      ensures ok && Child(old(mem[..]), table / PAGE_SIZE, index) == -1 ==>
                CanAdd(old(State()), table / PAGE_SIZE, index, ret / PAGE_SIZE, ret + flags) &&
                State() == TableAdded(old(State()), table / PAGE_SIZE, index, ret / PAGE_SIZE, ret + flags)
      ensures LinkedWith(old(mem[..]), mem[..], flags)
      ensures |old(pmm.Free())| <= |pmm.Free()| + 1
      ensures !ok ==> State() == old(State()) && pmm.Free() == {} && Child(mem[..], table / PAGE_SIZE, index) == -1
    {
      hide VmOk, Kept, Or, Pmm.FreeFrames, LinkedWith;
      ghost var before := State();
      ghost var f := table / PAGE_SIZE;
      TablePlaced(before, f);
      LinkedSelf(mem[..], flags);
      var e := mem[table / PAGE_SIZE][index];
      if e % 2 != 0 {
        ok, ret := true, e / PAGE_SIZE * PAGE_SIZE;
        KeptSelf(before);
      } else {
        ok, ret := pmm.Pmalloc();
        if !ok {
          assert State() == before;
          KeptSelf(before);
          return;
        }
        assert mem[..] == before.mem;
        Store(table / PAGE_SIZE, index, Or(ret, flags));
        FlagsKeepFrame(ret, flags);
        FlagsAdd(ret, flags);
        ghost var c := ret / PAGE_SIZE;
        LinkedWrite(before.mem, f, index, c, flags);
        tables := tables[c := Role(tables[f].level - 1, Owner(before, f, index), index)];
        TableAddedKept(before, f, index, c, ret + flags);
        assert State() == TableAdded(before, f, index, c, ret + flags);
      }
    }

    /** The three lookups that map, unmap and translate begin with. */
    method Walk(at: nat, va: nat, flags: nat) returns (ok: bool, pml1: nat)
      requires Valid() && IsRoot(at) && flags < PAGE_SIZE && flags % 2 == 1
      modifies this`tables, mem, pmm.bitmap
      ensures Valid() && Kept(old(State()), State())
      ensures ok ==> Table1(mem[..], at / PAGE_SIZE, PageNumber(va)) == pml1 / PAGE_SIZE && pml1 % PAGE_SIZE == 0
      ensures LinkedWith(old(mem[..]), mem[..], flags)
      ensures !ok ==> |old(pmm.Free())| < 3 && pmm.Free() == {} && Table1(mem[..], at / PAGE_SIZE, PageNumber(va)) == -1
    {
      hide VmOk, Kept, Or, Pmm.FreeFrames, Index4, Index3, Index2, Index1, PageNumber, Child, LinkedWith;
      IndicesOf(va);
      ghost var p := PageNumber(va);
      IndexBound(p);
      ghost var s0 := State();
      RootPlaced(s0, at / PAGE_SIZE);
      MissingHasNone(mem[..], Index3(p));
      var pml3, pml2 := 0, 0;
      pml1 := 0;
      ok, pml3 := GetNextLevel(at, va / 0x80_0000_0000 % ENTRIES, flags);
      ghost var s1 := State();
      MissingHasNone(s1.mem, Index3(p));
      MissingHasNone(s1.mem, Index2(p));
      if ok {
        ChildPlaced(s1, at / PAGE_SIZE, Index4(p));
        ok, pml2 := GetNextLevel(pml3, va / 0x4000_0000 % ENTRIES, flags);
        ghost var s2 := State();
        KeptTransitive(s0, s1, s2);
        LinkedTransitive(s0.mem, s1.mem, s2.mem, flags);
        KeptChild(s1, s2, at / PAGE_SIZE, Index4(p));
        MissingHasNone(s2.mem, Index2(p));
        if ok {
          ChildPlaced(s2, pml3 / PAGE_SIZE, Index3(p));
          ok, pml1 := GetNextLevel(pml2, va / 0x20_0000 % ENTRIES, flags);
          KeptTransitive(s0, s2, State());
          LinkedTransitive(s0.mem, s2.mem, mem[..], flags);
          KeptChild(s2, State(), at / PAGE_SIZE, Index4(p));
          KeptChild(s2, State(), pml3 / PAGE_SIZE, Index3(p));
        }
      }
    }

    /** Writes the last-level entry of the page of `va`, as map and unmap end. */
    method WriteLeaf(ghost at: nat, va: nat, pml1: nat, e: nat)
      requires Valid() && IsRoot(at) && Table1(mem[..], at / PAGE_SIZE, PageNumber(va)) == pml1 / PAGE_SIZE
      modifies mem
      ensures Valid() && (old(Prefilled(State())) ==> Prefilled(State()))
      ensures forall r | r in roots ::
                && Pages(r) == PageWritten(old(Pages(r)), r == at / PAGE_SIZE, PageNumber(va), e, e)
                && Translations(r) == PageWritten(old(Translations(r)), r == at / PAGE_SIZE, PageNumber(va), e, e / PAGE_SIZE)
      ensures TableFrames(State()) == old(TableFrames(State()))
      ensures pml1 / PAGE_SIZE < |old(mem[..])| && va / 0x1000 % ENTRIES < ENTRIES
      ensures mem[..] == Written(old(mem[..]), pml1 / PAGE_SIZE, va / 0x1000 % ENTRIES, e)
    {
      hide VmOk, Pmm.FreeFrames, Index4, Index3, Index2, PageNumber, Prefilled, Table1, VmmState.Translations,
        VmmState.Pages;
      IndicesOf(va);
      PageBound(va);
      ghost var s := State();
      ghost var p := PageNumber(va);
      ghost var f := pml1 / PAGE_SIZE;
      PathRoles(s, at / PAGE_SIZE, p);
      LeafWrittenOk(s, f, Index1(p), e);
      forall r | r in roots
        ensures VmmState.Pages(Written(s.mem, f, Index1(p), e), r) ==
                  PageWritten(VmmState.Pages(s.mem, r), r == at / PAGE_SIZE, p, e, e)
        ensures VmmState.Translations(Written(s.mem, f, Index1(p), e), r) ==
                  PageWritten(VmmState.Translations(s.mem, r), r == at / PAGE_SIZE, p, e, e / PAGE_SIZE)
      {
        OnePageChanges(s, at / PAGE_SIZE, p, e, r);
      }
      Store(pml1 / PAGE_SIZE, va / 0x1000 % ENTRIES, e);
      assert State() == s.(mem := Written(s.mem, f, Index1(p), e));
    }

    /** vmm_map_page. */
    method MapPage(at: nat, pa: nat, va: nat, flags: nat) returns (ok: bool)
      requires Valid() && IsRoot(at) && flags < PAGE_SIZE && flags % 2 == 1
      modifies this`tables, mem, pmm.bitmap
      ensures Valid() && (old(Prefilled(State())) ==> Prefilled(State()))
      ensures ok ==> forall r | r in roots && (r == at / PAGE_SIZE || PageNumber(va) >= UPPER) ::
                       Translations(r) == old(Translations(r))[PageNumber(va) := pa / PAGE_SIZE]
      ensures ok ==> forall r | r in roots && r != at / PAGE_SIZE && PageNumber(va) < UPPER ::
                       Translations(r) == old(Translations(r))
      ensures ok ==> forall r | r in roots ::
                       Pages(r) == if r != at / PAGE_SIZE && PageNumber(va) < UPPER then old(Pages(r))
                                   else old(Pages(r))
                                     [PageNumber(va) := if pa % PAGE_SIZE == 0 then pa + flags else Or(pa, flags)]
      ensures exists leaf: nat, index: nat :: LinkedBut(old(mem[..]), mem[..], leaf, index, flags)
      ensures TableFrames(State()) == old(TableFrames(State()))
      ensures !ok ==> |old(pmm.Free())| < 3 && pmm.Free() == {}
      ensures !ok ==> forall r | r in roots :: Translations(r) == old(Translations(r)) && Pages(r) == old(Pages(r))
    {
      hide VmOk, Kept, Or, Pmm.FreeFrames, PageNumber, Prefilled, Table1, VmmState.Translations, VmmState.Pages, TableFrames,
        Leaf, LinkedWith, LinkedBut, Written;
      ghost var s := State();
      var pml1: nat;
      ok, pml1 := Walk(at, va, flags);
      ghost var walked := mem[..];
      KeptFacts(s, State());
      NoneWritten(s.mem, walked, flags);
      if ok {
        WriteLeaf(at, va, pml1, Or(pa, flags));
        LinkedThenWritten(s.mem, walked, flags, pml1 / PAGE_SIZE, va / 0x1000 % ENTRIES, Or(pa, flags));
        FlagsKeepFrame(pa, flags);
        if pa % PAGE_SIZE == 0 {
          FlagsAdd(pa, flags);
        }
      }
    }

    /** vmm_unmap_page. */
    method UnmapPage(at: nat, va: nat) returns (ok: bool)
      requires Valid() && IsRoot(at)
      modifies this`tables, mem, pmm.bitmap
      ensures Valid() && (old(Prefilled(State())) ==> Prefilled(State()))
      ensures ok ==> forall r | r in roots && (r == at / PAGE_SIZE || PageNumber(va) >= UPPER) ::
                       Translations(r) == old(Translations(r)) - {PageNumber(va)}
      ensures ok ==> forall r | r in roots && r != at / PAGE_SIZE && PageNumber(va) < UPPER ::
                       Translations(r) == old(Translations(r))
      ensures ok ==> forall r | r in roots ::
                       Pages(r) == if r != at / PAGE_SIZE && PageNumber(va) < UPPER then old(Pages(r))
                                   else old(Pages(r)) - {PageNumber(va)}
      ensures TableFrames(State()) == old(TableFrames(State()))
      ensures !ok ==> |old(pmm.Free())| < 3 && pmm.Free() == {}
      ensures !ok ==> forall r | r in roots :: Translations(r) == old(Translations(r)) && Pages(r) == old(Pages(r))
    {
      hide VmOk, Kept, Or, Pmm.FreeFrames, PageNumber, Prefilled, Table1, VmmState.Translations, VmmState.Pages, TableFrames,
        Leaf;
      ghost var s := State();
      var pml1: nat;
      ok, pml1 := Walk(at, va, 7);
      KeptFacts(s, State());
      if ok {
        WriteLeaf(at, va, pml1, 0);
      }
    }

    /** vmm_virt_to_phys while the pagemap at `cur` is loaded.  It may add tables, but no translation
        changes.  The last-level table, in frame f, is read at its physical address: under `cur` that
        address may lead elsewhere or nowhere. */
    method VirtToPhys(cur: nat, at: nat, va: nat) returns (answer: Answer, ghost f: nat)
      requires Valid() && IsRoot(at) && IsRoot(cur)
      modifies this`tables, mem, pmm.bitmap
      ensures Valid() && (old(Prefilled(State())) ==> Prefilled(State())) && TableFrames(State()) == old(TableFrames(State()))
      ensures forall r | r in roots :: Translations(r) == old(Translations(r)) && Pages(r) == old(Pages(r))
      ensures answer.NoMemory? ==>
                |old(pmm.Free())| < 3 && pmm.Free() == {} && PageNumber(va) !in old(Translations(at / PAGE_SIZE))
      ensures !answer.NoMemory? ==>
                && f in tables && f == Table1(mem[..], at / PAGE_SIZE, PageNumber(va))
                && answer == Answered(ReadAt(mem[..], old(Translations(cur / PAGE_SIZE)),
                                             f * PAGE_SIZE + 8 * Index1(PageNumber(va))))
      ensures !answer.NoMemory? && SeesFrame(old(Translations(cur / PAGE_SIZE)), f) ==>
                answer == Address(Physical(old(Translations(at / PAGE_SIZE)), va))
    {
      hide VmOk, Kept, Or, Pmm.FreeFrames, PageNumber, Prefilled, Table1, VmmState.Translations, VmmState.Pages, ReadAt,
        Index1, TableFrames, SeesFrame, Leaf, Physical, Answered;
      ghost var s := State();
      var ok: bool, pml1: nat;
      ok, pml1 := Walk(at, va, 7);
      KeptFacts(s, State());
      f := pml1 / PAGE_SIZE;
      if !ok {
        NotMapped(mem[..], at / PAGE_SIZE, PageNumber(va));
        return NoMemory, 0;
      }
      IndicesOf(va);
      TableAnswers(State(), Translations(cur / PAGE_SIZE), at / PAGE_SIZE, va, f);
      answer := Answered(Load(mem[..], cur / PAGE_SIZE, pml1 + 8 * (va / 0x1000 % ENTRIES)));
    }

    /** Mapping a page and translating an address of it gives the frame's address, where tables can be read. */
    method MapThenTranslate(cur: nat, at: nat, pa: nat, va: nat, flags: nat) returns (ok: bool, answer: Answer, ghost f: nat)
      requires Valid() && IsRoot(at) && IsRoot(cur) && flags < PAGE_SIZE && flags % 2 == 1
      modifies this`tables, mem, pmm.bitmap
      ensures Valid() && (ok && SeesFrame(Translations(cur / PAGE_SIZE), f) ==> answer == Address(PageBase(pa)))
    {
      hide VmOk, Pmm.FreeFrames, PageNumber, Prefilled, Table1, VmmState.Translations, VmmState.Pages, ReadAt, Index1,
        TableFrames, SeesFrame, Physical, Answered, Or;
      answer, f := NoMemory, 0;
      ok := MapPage(at, pa, va, flags);
      if ok {
        answer, f := VirtToPhys(cur, at, va);
        PhysicalIs(Translations(at / PAGE_SIZE), va);
      }
    }

    /** An address of a page just unmapped translates to 0, where tables can be read. */
    method UnmapThenTranslate(cur: nat, at: nat, va: nat) returns (ok: bool, answer: Answer, ghost f: nat)
      requires Valid() && IsRoot(at) && IsRoot(cur)
      modifies this`tables, mem, pmm.bitmap
      ensures Valid() && (ok && !answer.NoMemory? && SeesFrame(Translations(cur / PAGE_SIZE), f) ==> answer == Address(0))
    {
      hide VmOk, Pmm.FreeFrames, PageNumber, Prefilled, Table1, VmmState.Translations, VmmState.Pages, ReadAt, Index1,
        TableFrames, SeesFrame, Physical, Answered, Or;
      answer, f := NoMemory, 0;
      ok := UnmapPage(at, va);
      if ok {
        answer, f := VirtToPhys(cur, at, va);
        PhysicalIs(Translations(at / PAGE_SIZE), va);
      }
    }

    // ----- whole address spaces

    /** A zeroed top level with the kernel's upper half. */
    method NewRoot() returns (ok: bool, at: nat)
      requires Valid() && Prefilled(State())
      modifies this`tables, this`roots, mem, pmm.bitmap
      ensures ok ==> at % PAGE_SIZE == 0 && at / PAGE_SIZE in old(pmm.Free()) && old(State()).kernel < |old(mem[..])|
                     && at / PAGE_SIZE < |old(mem[..])| && State() == RootAdded(old(State()), at / PAGE_SIZE)
      ensures !ok ==> State() == old(State()) && pmm.Free() == {}
    {
      hide VmOk, Prefilled, Pmm.FreeFrames;
      ghost var s := State();
      KernelPlaced(s);
      ok, at := pmm.Pmalloc();
      assert mem[..] == s.mem;
      if !ok {
        return;
      }
      ghost var c := at / PAGE_SIZE;
      mem[at / PAGE_SIZE] := seq(ENTRIES, _ => 0);
      var i := HALF;
      while i < ENTRIES
        modifies mem
        invariant HALF <= i <= ENTRIES
        invariant forall j | 0 <= j < ENTRIES :: mem[c][j] == if HALF <= j < i then s.mem[s.kernel][j] else 0
        invariant forall g | 0 <= g < mem.Length && g != c :: mem[g] == s.mem[g]
      {
        mem[at / PAGE_SIZE] := mem[at / PAGE_SIZE][i := mem[kernel / PAGE_SIZE][i]];
        i := i + 1;
      }
      assert mem[c] == seq(HALF, _ => 0) + s.mem[s.kernel][HALF..];
      tables, roots := tables[c := Role(4, c, 0)], roots + {c};
      assert mem[..] == s.mem[c := mem[c]];
    }

    /** One round of the framebuffer loop. */
    method MapFramebufferPage(cur: nat, at: nat, framebuffer: nat, i: nat) returns (ok: bool)
      requires Valid() && IsRoot(at) && at != kernel && IsRoot(cur) && cur != at
      requires Sees(Translations(cur / PAGE_SIZE), TableFrames(State()))
      requires PageNumber(Physical(Translations(kernel / PAGE_SIZE), framebuffer) + i) < UPPER
      modifies this`tables, mem, pmm.bitmap
      ensures Valid() && (old(Prefilled(State())) ==> Prefilled(State()))
      ensures ok ==> var adr := Physical(old(Translations(kernel / PAGE_SIZE)), framebuffer) + i;
                     Pages(at / PAGE_SIZE) == old(Pages(at / PAGE_SIZE))
                       [PageNumber(adr) := if adr % PAGE_SIZE == 0 then adr + 7 else Or(adr, 7)]
      ensures forall r | r in roots && (!ok || r != at / PAGE_SIZE) ::
                Translations(r) == old(Translations(r)) && Pages(r) == old(Pages(r))
      ensures !ok ==> pmm.Free() == {}
      ensures TableFrames(State()) == old(TableFrames(State()))
    {
      hide VmOk, Prefilled, Pmm.FreeFrames, PageNumber, VmmState.Translations, VmmState.Pages, Physical, ReadAt, SeesFrame,
        Table1, TableFrames, Leaf, Or, Index1;
      KernelPlaced(State());
      var phys: Answer, virt: Answer;
      ghost var f, g;
      phys, f := VirtToPhys(cur, kernel, framebuffer);
      if phys.NoMemory? {
        return false;
      }
      TableSeen(State(), Translations(cur / PAGE_SIZE), f);
      virt, g := VirtToPhys(cur, kernel, framebuffer);
      if virt.NoMemory? {
        return false;
      }
      TableSeen(State(), Translations(cur / PAGE_SIZE), g);
      ok := MapPage(at, phys.pa + i, virt.pa + i, 7);
    }

    /** vmm_create_new_pagemap: the kernel's upper half and the framebuffer, mapped to itself.
        The framebuffer is given by its kernel address and its size, and its physical address
        lies in the lower half.  The pagemap at `cur` is loaded, and tables can be read through it. */
    method CreateNewPagemap(cur: nat, framebuffer: nat, size: nat) returns (ok: bool, at: nat)
      requires Valid() && Prefilled(State()) && IsRoot(cur) && Sees(Translations(cur / PAGE_SIZE), TableFrames(State()))
      requires Physical(Translations(kernel / PAGE_SIZE), framebuffer) + size <= UPPER * PAGE_SIZE
      modifies this`tables, this`roots, mem, pmm.bitmap
      ensures Valid() && Prefilled(State())
      ensures ok ==> IsRoot(at) && at / PAGE_SIZE !in old(roots) && roots == old(roots) + {at / PAGE_SIZE}
      ensures ok ==> Pages(at / PAGE_SIZE) == UpperPart(old(Pages(kernel / PAGE_SIZE)))
                       + WithFlags(Identity(Physical(old(Translations(kernel / PAGE_SIZE)), framebuffer), size), 7)
      ensures ok ==> Translations(at / PAGE_SIZE) == UpperPart(old(Translations(kernel / PAGE_SIZE)))
                       + Identity(Physical(old(Translations(kernel / PAGE_SIZE)), framebuffer), size)
      ensures forall r | r in old(roots) :: r in roots && Translations(r) == old(Translations(r)) && Pages(r) == old(Pages(r))
      ensures !ok ==> pmm.Free() == {}
    {
      hide VmOk, Prefilled, Pmm.FreeFrames, PageNumber, VmmState.Translations, VmmState.Pages, UpperPart, Identity, Physical,
        RootAdded, TableFrames, SeesFrame, WithFlags, Or;
      ghost var s := State();
      ghost var base := Physical(Translations(kernel / PAGE_SIZE), framebuffer);
      ok, at := NewRoot();
      if !ok {
        return;
      }
      ghost var c := at / PAGE_SIZE;
      NewRootFacts(s, c);
      KernelPlaced(s);
      ghost var upper := UpperPart(VmmState.Pages(s.mem, s.kernel));
      var i := 0;
      IdentityStart(upper, base);
      while i < size
        invariant Valid() && Prefilled(State()) && i % PAGE_SIZE == 0 && IsRoot(at)
        invariant roots == s.roots + {c} && kernel == old(kernel) && TableFrames(State()) == TableFrames(s)
        invariant Pages(c) == upper + WithFlags(Identity(base, if i < size then i else size), 7)
        invariant forall r | r in s.roots ::
                    Translations(r) == VmmState.Translations(s.mem, r) && Pages(r) == VmmState.Pages(s.mem, r)
      {
        IdentityStep(upper, base, i, size);
        ok := MapFramebufferPage(cur, at, framebuffer, i);
        if !ok {
          return;
        }
        i := i + PAGE_SIZE;
      }
      NewMapFrames(mem[..], c, s.mem, s.kernel, Identity(base, size));
    }

    // ----- start-up

    /** Before MmInitializeVmm: no tables, and every free frame is a zero page of memory. */
    ghost predicate Idle()
      reads this, mem, pmm, pmm.bitmap
    {
      && Separate() && pmm.Valid() && tables == map[] && roots == {}
      && forall f | f in pmm.Free() :: f < mem.Length && forall i: nat | i < ENTRIES :: mem[f][i] == 0
    }

    /** The kernel's top level, with all its upper entries filled. */
    method MakeKernel() returns (ok: bool)
      requires Idle()
      modifies this, mem, pmm.bitmap
      ensures ok ==> Valid() && roots == {kernel / PAGE_SIZE} && Prefilled(State()) && Pages(kernel / PAGE_SIZE) == map[]
      ensures !ok ==> pmm.Free() == {}
    {
      hide VmOk, Kept, Pmm.FreeFrames, VmmState.Translations, VmmState.Pages, TableFrames, FilledTo, Child;
      ghost var before := mem[..];
      ok, kernel := pmm.Pmalloc();
      if !ok {
        return;
      }
      assert mem[..] == before;
      ghost var f := kernel / PAGE_SIZE;
      mem[kernel / PAGE_SIZE] := seq(ENTRIES, _ => 0);
      tables, roots := map[f := Role(4, f, 0)], {f};
      FirstRoot(State());
      FilledStart(mem[..], f);
      var i := HALF;
      while i < ENTRIES
        modifies this`tables, mem, pmm.bitmap
        invariant HALF <= i <= ENTRIES && Valid() && f in tables && tables[f].level == 4
        invariant FilledTo(mem[..], f, i)
        invariant Pages(f) == map[]
      {
        ghost var s := State();
        var table: nat;
        ok, table := GetNextLevel(kernel, i, 7);
        if !ok {
          return;
        }
        KeptFacts(s, State());
        FilledStep(s, State(), f, i);
        TableStays(s, State(), f);
        i := i + 1;
      }
      FilledUp(State());
    }

    /** The only pagemap is the kernel's, and it maps n pages of memory and k of the image, with their flags. */
    ghost predicate KernelMaps(n: nat, k: nat)
      reads this, mem, pmm, pmm.bitmap
    {
      Valid() && roots == {kernel / PAGE_SIZE} && Prefilled(State()) && Pages(kernel / PAGE_SIZE) == KernelPages(n, k)
    }

    method MapMemory() returns (ok: bool)
      requires KernelMaps(1, 0)
      modifies this`tables, mem, pmm.bitmap
      ensures ok ==> KernelMaps(0x10_0000, 0)
      ensures !ok ==> pmm.Free() == {}
    {
      hide VmOk, Prefilled, Pmm.FreeFrames, PageNumber, VmmState.Translations, VmmState.Pages, KernelPages, PageTables.Separate,
        Leaf, TableFrames, Or, Pmm.FrameAllocator.Free;
      ok := true;
      var i := PAGE_SIZE;
      while i < 0x1_0000_0000
        invariant PAGE_SIZE <= i <= 0x1_0000_0000 && i % PAGE_SIZE == 0 && ok && KernelMaps(i / PAGE_SIZE, 0)
      {
        ok := MapPage(kernel, i, i, 3);
        if !ok {
          return;
        }
        ok := MapPage(kernel, i, i + PHYS_MEM_OFFSET, 3);
        if !ok {
          return;
        }
        DirectStep(i);
        i := i + PAGE_SIZE;
      }
    }

    method MapImage() returns (ok: bool)
      requires KernelMaps(0x10_0000, 0)
      modifies this`tables, mem, pmm.bitmap
      ensures ok ==> KernelMaps(0x10_0000, 0x8_0000)
      ensures !ok ==> pmm.Free() == {}
    {
      hide VmOk, Prefilled, Pmm.FreeFrames, PageNumber, VmmState.Translations, VmmState.Pages, KernelPages, PageTables.Separate,
        Leaf, TableFrames, Or, Pmm.FrameAllocator.Free;
      ok := true;
      var i := 0;
      while i < 0x8000_0000
        invariant 0 <= i <= 0x8000_0000 && i % PAGE_SIZE == 0 && ok && KernelMaps(0x10_0000, i / PAGE_SIZE)
      {
        ok := MapPage(kernel, i, i + KERNEL_MEM_OFFSET, 7);
        if !ok {
          return;
        }
        ImageStep(i);
        i := i + PAGE_SIZE;
      }
    }

    /** MmInitializeVmm.  The kernel's pagemap maps the first 4 GiB less page 0 to themselves and
        at PHYS_MEM_OFFSET, and the first 2 GiB at KERNEL_MEM_OFFSET, and nothing else. */
    method InitializeVmm() returns (ok: bool)
      requires Idle()
      modifies this, mem, pmm.bitmap
      ensures ok ==> KernelMaps(0x10_0000, 0x8_0000)
      ensures ok ==> forall p: nat :: p in Pages(kernel / PAGE_SIZE) <==>
                       1 <= p < 0x10_0000 || UPPER + 1 <= p < UPPER + 0x10_0000 || PAGES - 0x8_0000 <= p < PAGES
      ensures ok ==> forall p: nat | p in Pages(kernel / PAGE_SIZE) :: Pages(kernel / PAGE_SIZE)[p] ==
                       if p < UPPER then p * 4096 + 3
                       else if p < PAGES - 0x8_0000 then (p - UPPER) * 4096 + 3
                       else (p - (PAGES - 0x8_0000)) * 4096 + 7
      ensures ok ==> Translations(kernel / PAGE_SIZE) == KernelMap(0x10_0000, 0x8_0000)
      ensures !ok ==> pmm.Free() == {}
    {
      hide VmOk, Prefilled, Pmm.FreeFrames, VmmState.Translations, VmmState.Pages, KernelMap;
      ok := MakeKernel();
      if ok {
        assert KernelPages(1, 0) == map[];
        ok := MapMemory();
        if ok {
          ok := MapImage();
          if ok {
            KernelFrames(mem[..], kernel / PAGE_SIZE, 0x10_0000, 0x8_0000);
          }
        }
      }
    }
  }

  /** A map of pages after the entry e was written for page q, by its owner or by another; x is what
      the map says of e. */
  ghost function PageWritten(t: map<nat, nat>, own: bool, q: nat, e: nat, x: nat): map<nat, nat> {
    if !own && q < UPPER then t else if Present(e) then t[q := x] else t - {q}
  }

  /** What vmm_virt_to_phys comes to: it halts for want of memory, faults, or returns an address. */
  datatype Answer = NoMemory | PageFault | Address(pa: nat)

  /** How it goes on from the word it reads. */
  function Answered(r: Read): (a: Answer)
    ensures !a.NoMemory? && (r.Fault? <==> a.PageFault?)
    ensures r.Word? ==> a == Address(if r.value % 2 == 1 then r.value - r.value % 4096 else 0)
  {
    match r
    case Fault => PageFault
    case Word(e) => Address(if Present(e) then e / PAGE_SIZE * PAGE_SIZE else 0)
  }

  lemma NotMapped(mem: seq<Page>, root: nat, p: nat)
    requires Table1(mem, root, p) == -1
    ensures p !in VmmState.Translations(mem, root)
  {
    hide Table1;
    MissingEntry(mem, Index1(p));
  }

  /** A table that is seen reads as it is. */
  lemma SeenEntry(mem: seq<Page>, t: map<nat, nat>, root: nat, p: nat, f: nat)
    requires SeesFrame(t, f) && f < |mem| && Table1(mem, root, p) == f
    ensures ReadAt(mem, t, f * PAGE_SIZE + 8 * Index1(p)) == Word(Leaf(mem, root, p))
  {
    hide Table1, PageNumber, Canonical;
    WordAddress(f, Index1(p));
  }

  lemma TableAnswers(v: Vm, t: map<nat, nat>, root: nat, va: nat, f: nat)
    requires VmOk(v) && root in v.roots && Table1(v.mem, root, PageNumber(va)) == f
    ensures f in v.tables
    ensures SeesFrame(t, f) ==> Answered(ReadAt(v.mem, t, f * PAGE_SIZE + 8 * Index1(PageNumber(va))))
                                == Address(Physical(VmmState.Translations(v.mem, root), va))
  {
    hide VmOk, PageNumber, Table1, VmmState.Translations, ReadAt, Physical, Index1, SeesFrame, Leaf, Answered;
    PathRoles(v, root, PageNumber(va));
    if SeesFrame(t, f) {
      TablePlaced(v, f);
      SeenEntry(v.mem, t, root, PageNumber(va), f);
      LeafAnswers(v.mem, root, va);
    }
  }

  lemma TableSeen(v: Vm, t: map<nat, nat>, f: nat)
    requires Sees(t, TableFrames(v)) && f in v.tables
    ensures SeesFrame(t, f)
  {
    hide SeesFrame;
  }

  lemma LeafAnswers(mem: seq<Page>, root: nat, va: nat)
    ensures Answered(Word(Leaf(mem, root, PageNumber(va)))) == Address(Physical(VmmState.Translations(mem, root), va))
  {
    hide Leaf;
    PageBound(va);
  }

  /** The map that MmInitializeVmm makes: exactly frames 1 to 2^20 - 1 can be used as tables, at
      their physical addresses and at PHYS_MEM_OFFSET. */
  lemma KernelMapSees(t: map<nat, nat>, f: nat)
    requires t == KernelMap(0x10_0000, 0x8_0000) && f < UPPER
    ensures SeesFrame(t, f) <==> 1 <= f < 0x10_0000
    ensures UPPER + f in t && t[UPPER + f] == f <==> 1 <= f < 0x10_0000
  {
  }

  /** In the map of a new pagemap the copy at PHYS_MEM_OFFSET is still there, but a table can be
      used at its physical address exactly if it lies in the framebuffer. */
  lemma NewMapSees(t: map<nat, nat>, base: nat, size: nat, f: nat)
    requires f < UPPER && base % PAGE_SIZE == 0 && base + size <= UPPER * PAGE_SIZE
    ensures var t' := UpperPart(t) + Identity(base, size);
            && (SeesFrame(t', f) <==> base / PAGE_SIZE <= f < (base + size + PAGE_SIZE - 1) / PAGE_SIZE)
            && (UPPER + f in t' && t'[UPPER + f] == f <==> UPPER + f in t && t[UPPER + f] == f)
  {
    assert (base + size + PAGE_SIZE - 1) / PAGE_SIZE <= UPPER;
  }

  ghost function Physical(t: map<nat, nat>, va: nat): (pa: nat)
    ensures pa % PAGE_SIZE == 0
  {
    if PageNumber(va) in t then t[PageNumber(va)] * PAGE_SIZE else 0
  }

  /** The start of the page that an address lies in. */
  function PageBase(adr: nat): (b: nat)
    ensures b % 4096 == 0 && b <= adr < b + 4096
  {
    adr / PAGE_SIZE * PAGE_SIZE
  }

  lemma PhysicalIs(t: map<nat, nat>, va: nat)
    ensures Physical(t, va) == if PageNumber(va) in t then t[PageNumber(va)] * 4096 else 0
  {
    hide PageNumber;
  }

  lemma PageBound(va: nat)
    ensures PageNumber(va) < PAGES
  {
  }

  lemma MissingEntry(mem: seq<Page>, i: nat)
    ensures Entry(mem, -1, i) == 0
  {
  }

  lemma KeptFacts(v: Vm, w: Vm)
    requires Kept(v, w)
    ensures w.roots == v.roots && w.kernel == v.kernel && TableFrames(w) == TableFrames(v)
    ensures Prefilled(v) ==> Prefilled(w)
    ensures forall r | r in v.roots ::
              && VmmState.Translations(w.mem, r) == VmmState.Translations(v.mem, r)
              && VmmState.Pages(w.mem, r) == VmmState.Pages(v.mem, r)
  {
    hide Prefilled, Leaf;
    forall r | r in v.roots {
      KeptTranslations(v, w, r);
    }
  }

  lemma KernelPlaced(v: Vm)
    requires VmOk(v)
    ensures v.kernel in v.roots && v.kernel < |v.mem| && v.kernel !in v.free
    ensures forall f | f in v.free :: f < |v.mem|
  {
    assert v.kernel in v.tables;
  }

  lemma NewRootFacts(v: Vm, c: nat)
    requires VmOk(v) && Prefilled(v) && c in v.free
    ensures v.kernel < |v.mem| && c < |v.mem| && c !in v.roots
    ensures var w := RootAdded(v, c);
            && VmOk(w) && Prefilled(w) && w.roots == v.roots + {c} && TableFrames(w) == TableFrames(v)
            && VmmState.Pages(w.mem, c) == UpperPart(VmmState.Pages(v.mem, v.kernel))
            && forall r | r in v.roots ::
                 && VmmState.Translations(w.mem, r) == VmmState.Translations(v.mem, r)
                 && VmmState.Pages(w.mem, r) == VmmState.Pages(v.mem, r)
  {
    hide VmOk, Prefilled, VmmState.Translations, VmmState.Pages, UpperPart;
    RootAddedOk(v, c);
    FreshFrame(v, c);
    forall r | r in v.roots + {c} {
      RootAddedMaps(v, c, r);
    }
  }

  lemma FreshFrame(v: Vm, c: nat)
    requires VmOk(v) && c in v.free
    ensures c !in v.roots
  {
  }

  /** The pages that overlap `size` bytes from `base`, each mapped to itself. */
  ghost function Identity(base: nat, size: nat): map<nat, nat> {
    SamePages(base / PAGE_SIZE, (base + size + PAGE_SIZE - 1) / PAGE_SIZE)
  }

  ghost function SamePages(lo: nat, hi: nat): map<nat, nat> {
    map p: nat | p < PAGES && Within(p, lo, hi) :: p
  }

  predicate Within(p: nat, lo: nat, hi: nat) { lo <= p < hi }

  /** The entries that map pages to those frames with the same flags. */
  ghost function WithFlags(t: map<nat, nat>, flags: nat): map<nat, nat> { map p | p in t :: t[p] * 4096 + flags }

  /** The frames of a new pagemap. */
  lemma NewMapFrames(mem: seq<Page>, root: nat, was: seq<Page>, kernel: nat, t: map<nat, nat>)
    requires VmmState.Pages(mem, root) == UpperPart(VmmState.Pages(was, kernel)) + WithFlags(t, 7)
    ensures VmmState.Translations(mem, root) == UpperPart(VmmState.Translations(was, kernel)) + t
  {
    hide VmmState.Pages, VmmState.Translations;
    TranslationsAreFrames(mem, root);
    TranslationsAreFrames(was, kernel);
    forall p | p in t
      ensures (t[p] * 4096 + 7) / PAGE_SIZE == t[p]
    {
      InPage(t[p], 7);
    }
  }

  lemma IdentityStart(t: map<nat, nat>, base: nat)
    requires base % PAGE_SIZE == 0
    ensures t + WithFlags(Identity(base, 0), 7) == t
  {
    assert (base + PAGE_SIZE - 1) / PAGE_SIZE == base / PAGE_SIZE;
  }

  lemma IdentityStep(t: map<nat, nat>, base: nat, i: nat, size: nat)
    requires base % PAGE_SIZE == 0 && i % PAGE_SIZE == 0 && i < size && base + size <= UPPER * PAGE_SIZE
    ensures var p := PageNumber(base + i);
            && p < UPPER && (base + i) % PAGE_SIZE == 0
            && (t + WithFlags(Identity(base, i), 7))[p := base + i + 7]
               == t + WithFlags(Identity(base, if i + PAGE_SIZE < size then i + PAGE_SIZE else size), 7)
  {
    hide Identity, SamePages, PageNumber, WithFlags;
    var b, k := base / PAGE_SIZE, i / PAGE_SIZE;
    var next := if i + PAGE_SIZE < size then i + PAGE_SIZE else size;
    assert base == b * PAGE_SIZE && i == k * PAGE_SIZE;
    WholePages(b, i, k);
    WholePages(b, next, k + 1);
    PageOf(b + k);
    assert base + i == (b + k) * PAGE_SIZE;
    OnePageMore(t, b, b + k);
  }

  lemma WholePages(b: nat, n: nat, k: nat)
    requires n <= k * PAGE_SIZE < n + PAGE_SIZE
    ensures Identity(b * PAGE_SIZE, n) == SamePages(b, b + k)
  {
    hide SamePages;
    InPage(b, 0);
    InPage(b + k, n + PAGE_SIZE - 1 - k * PAGE_SIZE);
  }

  lemma PageOf(n: nat)
    requires n < UPPER
    ensures PageNumber(n * PAGE_SIZE) == n && n * PAGE_SIZE / PAGE_SIZE == n
  {
  }

  lemma InPage(n: nat, r: nat)
    requires r < PAGE_SIZE
    ensures (n * PAGE_SIZE + r) / PAGE_SIZE == n
  {
  }

  lemma OnePageMore(t: map<nat, nat>, lo: nat, hi: nat)
    requires lo <= hi < UPPER
    ensures (t + WithFlags(SamePages(lo, hi), 7))[hi := hi * PAGE_SIZE + 7] == t + WithFlags(SamePages(lo, hi + 1), 7)
  {
  }

  /** The upper entries before i have their tables. */
  ghost predicate FilledTo(mem: seq<Page>, f: nat, i: nat) { forall j: nat | HALF <= j < i :: Child(mem, f, j) != -1 }

  lemma FilledStart(mem: seq<Page>, f: nat)
    ensures FilledTo(mem, f, HALF)
  {
  }

  lemma FilledStep(v: Vm, w: Vm, f: nat, i: nat)
    requires Kept(v, w) && f in v.tables && FilledTo(v.mem, f, i) && Child(w.mem, f, i) != -1
    ensures FilledTo(w.mem, f, i + 1)
  {
    hide Kept, Child;
    forall j: nat | HALF <= j < i
      ensures Child(w.mem, f, j) != -1
    {
      KeptChild(v, w, f, j);
    }
  }

  lemma FilledUp(v: Vm)
    requires FilledTo(v.mem, v.kernel, ENTRIES)
    ensures Prefilled(v)
  {
    forall i: nat | HALF <= i < ENTRIES
      ensures Present(Entry(v.mem, v.kernel, i))
    {
      assert Child(v.mem, v.kernel, i) != -1;
    }
  }

  lemma TableStays(v: Vm, w: Vm, f: nat)
    requires Kept(v, w) && f in v.tables
    ensures f in w.tables && w.tables[f] == v.tables[f]
  {
  }

  lemma FirstRoot(v: Vm)
    requires v.roots == {v.kernel} && v.tables == map[v.kernel := Role(4, v.kernel, 0)]
    requires v.kernel < |v.mem| && v.kernel !in v.free && forall i: nat :: Entry(v.mem, v.kernel, i) == 0
    requires forall f | f in v.free :: f < |v.mem| && forall i: nat | i < ENTRIES :: v.mem[f][i] == 0
    ensures VmOk(v) && VmmState.Pages(v.mem, v.kernel) == map[]
  {
    forall p: nat {
      MissingIsUnmapped(v.mem, v.kernel, p);
    }
  }

  /** The kernel's map after n pages of memory and k pages of the kernel image. */
  ghost function KernelMap(n: nat, k: nat): map<nat, nat> {
    map p: nat | p < PAGES && InKernelMap(p, n, k) ::
      if p < UPPER then p else if p < PAGES - 0x8_0000 then p - UPPER else p - (PAGES - 0x8_0000)
  }

  /** Its entries: memory is for the kernel only, the image for all. */
  ghost function KernelPages(n: nat, k: nat): map<nat, nat> {
    map p: nat | p < PAGES && InKernelMap(p, n, k) ::
      if p < UPPER then p * 4096 + 3
      else if p < PAGES - 0x8_0000 then (p - UPPER) * 4096 + 3
      else (p - (PAGES - 0x8_0000)) * 4096 + 7
  }

  lemma KernelFrames(mem: seq<Page>, root: nat, n: nat, k: nat)
    requires VmmState.Pages(mem, root) == KernelPages(n, k)
    ensures VmmState.Translations(mem, root) == KernelMap(n, k)
  {
    hide VmmState.Pages, VmmState.Translations, InKernelMap;
    TranslationsAreFrames(mem, root);
    forall p: nat | p < PAGES && InKernelMap(p, n, k)
      ensures KernelPages(n, k)[p] / PAGE_SIZE == KernelMap(n, k)[p]
    {
      InPage(KernelMap(n, k)[p], if p < PAGES - 0x8_0000 then 3 else 7);
    }
  }

  predicate InKernelMap(p: nat, n: nat, k: nat) {
    1 <= p < n || UPPER + 1 <= p < UPPER + n || PAGES - 0x8_0000 <= p < PAGES - 0x8_0000 + k
  }

  lemma DirectStep(i: nat)
    requires PAGE_SIZE <= i < 0x1_0000_0000 && i % PAGE_SIZE == 0
    ensures KernelPages(i / PAGE_SIZE, 0)[PageNumber(i) := i + 3][PageNumber(i + PHYS_MEM_OFFSET) := i + 3]
            == KernelPages((i + PAGE_SIZE) / PAGE_SIZE, 0)
  {
    hide KernelPages, PageNumber;
    var n := i / PAGE_SIZE;
    assert i == n * PAGE_SIZE;
    PageOf(n);
    PageOf(n + 1);
    DirectPage(n);
    MemoryMapped(n);
  }

  lemma DirectPage(n: nat)
    requires n < 0x10_0000
    ensures PageNumber(n * PAGE_SIZE + PHYS_MEM_OFFSET) == UPPER + n
  {
  }

  lemma MemoryMapped(n: nat)
    requires 1 <= n < 0x10_0000
    ensures KernelPages(n, 0)[n := n * PAGE_SIZE + 3][UPPER + n := n * PAGE_SIZE + 3] == KernelPages(n + 1, 0)
  {
  }

  lemma ImageStep(i: nat)
    requires i < 0x8000_0000 && i % PAGE_SIZE == 0
    ensures KernelPages(0x10_0000, i / PAGE_SIZE)[PageNumber(i + KERNEL_MEM_OFFSET) := i + 7]
            == KernelPages(0x10_0000, (i + PAGE_SIZE) / PAGE_SIZE)
  {
    hide KernelPages, PageNumber;
    var k := i / PAGE_SIZE;
    assert i == k * PAGE_SIZE;
    PageOf(k);
    PageOf(k + 1);
    ImagePage(k);
    ImageMapped(k);
  }

  lemma ImagePage(k: nat)
    requires k < 0x8_0000
    ensures PageNumber(k * PAGE_SIZE + KERNEL_MEM_OFFSET) == PAGES - 0x8_0000 + k
  {
  }

  lemma ImageMapped(k: nat)
    requires k < 0x8_0000
    ensures KernelPages(0x10_0000, k)[PAGES - 0x8_0000 + k := k * PAGE_SIZE + 7] == KernelPages(0x10_0000, k + 1)
  {
  }
}
