/** What the memory of a process means byte by byte: for the process, what the processor lets it
    do at an address; for the heap, which block of the table stands for the address. */
module ByteView {
  import opened Bits
  import opened HeapTable
  import opened K = Kernel
  import opened Mmu
  import opened Paging
  import opened AddressSpace
  import opened Process

  /** Byte `v` lies in what an allocation was asked for. */
  predicate InAllocation(a: Allocation, v: Word) {
    a.ptr != 0 && a.ptr <= v < a.ptr + a.size
  }

  /** Page `p` has a byte of the allocation. */
  predicate TouchesPage(a: Allocation, p: int) {
    a.ptr != 0 && a.ptr / 0x1000 <= p && 0x1000 * p < a.ptr + a.size
  }

  /** The blocks of a run of that size are those with a byte of the allocation. */
  lemma RunOfBytes(a: Allocation, g: nat)
    requires IsPointer(a.ptr) && 0 < a.size && BlocksFor(a.size) > 0
    ensures InRun(a, g) <==> TouchesPage(a, 0x1000 + g)
    ensures PageOf(g) == 0x1000 + g
  {
    var b, n := BlockOf(a.ptr), BlocksFor(a.size);
    BlocksForCovers(a.size);
    assert a.ptr == 0x1000000 + 0x1000 * b;
    assert 0x1000 * (0x1000 + g) < a.ptr + a.size <==> 0x1000 * (g - b) < a.size;
  }

  lemma BlockOfByte(a: Allocation, v: Word)
    requires IsPointer(a.ptr) && InAllocation(a, v) && BlocksFor(a.size) > 0
    requires BlockOf(a.ptr) + BlocksFor(a.size) <= HEAP_BLOCKS
    ensures 0x1000000 <= v < 0x7400000
    ensures var g := (v - 0x1000000) / 0x1000;
      0 <= g < 25600 && InRun(a, g) && PageOf(g) == v / 0x1000 && Addr(g) == v - v % 0x1000
  {
    var g := (v - 0x1000000) / 0x1000;
    BlocksForCovers(a.size);
    assert a.ptr == 0x1000000 + 0x1000 * BlockOf(a.ptr);
    assert v == 0x1000 * (v / 0x1000) + v % 0x1000;
    assert g == v / 0x1000 - 0x1000;
    RunOfBytes(a, g);
  }

  /** The joint invariant at byte `v` of the allocation in slot `i`: the process can read and write
      it and it is itself, its block is taken, and no other slot nor a released page has it. */
  lemma ValidMeans(m: Memory, sp: Space, i: nat, j: nat, v: Word)
    requires ValidMemory(m, sp) && i < |m.slots| && j < |m.slots| && i != j && InAllocation(m.slots[i], v)
    ensures Combine(7, m.pages[v / 0x1000], v) == Leads(v, true, true)
    ensures 0x1000000 <= v < 0x7400000
    ensures var g := (v - 0x1000000) / 0x1000;
      !IsFree(m.table[g]) && g !in m.released
      && m.table[g] == RunByte((m.slots[i].ptr - 0x1000000) / 0x1000, (m.slots[i].size + 0xFFF) / 0x1000, g)
    ensures !InAllocation(m.slots[j], v)
  {
    var a, b := m.slots[i], m.slots[j];
    assert SlotOk(m.live, a) && SlotOk(m.live, b);
    BlockOfByte(a, v);
    var g := (v - 0x1000000) / 0x1000;
    assert m.pages[PageOf(g)] == Addr(g) + MAP_ALL;
    assert m.table[g] == RunByte(BlockOf(a.ptr), BlocksFor(a.size), g);
    BlocksForCovers(a.size);
    AllRights(v / 0x1000, v);
    if InAllocation(b, v) {
      BlockOfByte(b, v);
      RunsDisjoint(m.table, m.live, BlockOf(a.ptr), BlockOf(b.ptr));
    }
  }

  /** And a released page is closed: any access to it faults. */
  lemma ReleasedMeans(m: Memory, sp: Space, v: Word, rights: nat)
    requires ValidMemory(m, sp) && v >= 0x1000000 && (v - 0x1000000) / 0x1000 in m.released
    ensures Combine(rights, m.pages[v / 0x1000], v) == Fault
  {
    var g := (v - 0x1000000) / 0x1000;
    assert m.pages[PageOf(g)] == Addr(g) && PageOf(g) == v / 0x1000;
    BitsAbove(0x1000 + g, 0);
  }

  /** The same on the machine: what the processor finds, from the directory that task_switch
      loads for the process, at any byte of any of its allocations. */
  lemma AllocationAccess(k: Kernel, p: Process, sp: Space, i: nat, v: Word)
    requires p.Inv(k, sp) && i < MAX_PROGRAM_ALLOCATION && InAllocation(p.allocations[i], v)
    ensures Walk(k, k.ram[BlockOf(p.task.pageDirectory), 0], v) == Leads(v, true, true)
  {
    var m := p.Snapshot(k, sp);
    ProcessSees(k, p, sp, v);
    ValidMeans(m, sp, i, if i == 0 then 1 else 0, v);
  }

  /** In general: the page's table word, with all its rights. */
  lemma ProcessSees(k: Kernel, p: Process, sp: Space, v: Word)
    requires p.Attached(k, sp)
    ensures k.ram[BlockOf(p.task.pageDirectory), 0] == Addr(sp.dir)
    ensures Walk(k, Addr(sp.dir), v) == Combine(7, Pages(k, sp)[v / 0x1000], v)
  {
    BlockOfAddr(sp.chunk);
    WalkIsEntry(k, sp, v);
    AllGranted(sp.rights);
  }

  lemma AllGranted(rights: nat)
    requires rights % 8 == 7
    ensures rights % 2 == 1 && rights / 2 % 2 == 1 && rights / 4 % 2 == 1
  {
    assert rights == 8 * (rights / 8) + 7;
  }

  // ---- One request ----

  /** process_malloc: null and no change, or the lowest empty slot takes the new pointer, every byte
      asked for was free and now is the process's own, and all other slots, pages and table bytes
      are as before. */
  lemma MallocMeans(m: Memory, sp: Space, size: Word, j: nat, v: Word, p: nat, g: nat)
    requires Good(m, sp) && Harmless(m, Malloced(size), sp) && j < |m.slots| && p < PAGES && g < HEAP_BLOCKS
    ensures var ptr, m' := Answer(m.table, m.slots, size), AfterMalloc(m, size); var a := Allocation(ptr, size);
      if ptr == 0 then
        m' == m && (m.slots[j].ptr != 0 || StartBlock(m.table, BlocksFor(size)) < 0)
      else
        && |m'.slots| == |m.slots| && (m.slots[j].ptr != 0 ==> m'.slots[j] == m.slots[j])
        && (m.slots[j].ptr == 0 ==>
              m'.slots[j] == if forall i :: 0 <= i < j ==> m.slots[i].ptr != 0 then a else m.slots[j])
        && 0 < size && ptr == 0x1000000 + 0x1000 * StartBlock(m.table, BlocksFor(size))
        && (InAllocation(a, v) ==>
              && Combine(7, m'.pages[v / 0x1000], v) == Leads(v, true, true) && 0x1000000 <= v < 0x7400000
              && IsFree(m.table[(v - 0x1000000) / 0x1000]) && !IsFree(m'.table[(v - 0x1000000) / 0x1000]))
        && (!TouchesPage(a, p) ==> m'.pages[p] == m.pages[p])
        && (!TouchesPage(a, 0x1000 + g) ==> m'.table[g] == m.table[g])
  {
    var ptr, m' := Answer(m.table, m.slots, size), AfterMalloc(m, size);
    if ptr != 0 {
      var n, r := BlocksFor(size), StartBlock(m.table, BlocksFor(size));
      var a := Allocation(ptr, size);
      BlockOfAddr(r);
      assert Fits(m.table, n) && FreeRun(m.table, r, n);
      NewPages(m.pages, a, p);
      RunOfBytes(a, g);
      if InAllocation(a, v) { MallocByte(m, sp, size, v); }
    }
  }

  lemma MallocByte(m: Memory, sp: Space, size: Word, v: Word)
    requires Good(m, sp) && Harmless(m, Malloced(size), sp) && Answer(m.table, m.slots, size) != 0
    requires InAllocation(Allocation(Answer(m.table, m.slots, size), size), v)
    ensures var m' := AfterMalloc(m, size);
      && Combine(7, m'.pages[v / 0x1000], v) == Leads(v, true, true) && 0x1000000 <= v < 0x7400000
      && IsFree(m.table[(v - 0x1000000) / 0x1000]) && !IsFree(m'.table[(v - 0x1000000) / 0x1000])
  {
    var n, r, i := BlocksFor(size), StartBlock(m.table, BlocksFor(size)), SlotOf(m.slots, 0);
    var a, m' := Allocation(Addr(r), size), AfterMalloc(m, size);
    MallocGoodIff(m, size, sp);
    BlockOfAddr(r);
    assert FreeRun(m.table, r, n) && m'.slots[i] == a;
    ValidMeans(m', sp, i, if i == 0 then 1 else 0, v);
    BlockOfByte(a, v);
  }

  /** Mapping an allocation changes only pages it has bytes on. */
  lemma NewPages(ps: seq<Word>, a: Allocation, p: nat)
    requires |ps| == PAGES && p < PAGES && IsPointer(a.ptr) && 0 < a.size && BlocksFor(a.size) > 0
    requires BlockOf(a.ptr) + BlocksFor(a.size) <= HEAP_BLOCKS
    ensures forall flags: Word :: !TouchesPage(a, p) ==>
              Mapped(ps, a.ptr, a.ptr, BlocksFor(a.size), flags)[p] == ps[p]
  {
    BlocksForCovers(a.size);
    assert a.ptr == 0x1000 * (0x1000 + BlockOf(a.ptr));
    if !TouchesPage(a, p) {
      InRange(a.ptr, BlocksFor(a.size), 0x1000 * p);
      assert !(a.ptr <= 0x1000 * p < a.ptr + BlocksFor(a.size) * 0x1000);
    }
  }

  /** process_free of a pointer that is not null: nothing for a foreign one; of an own one the slot is
      empty, every byte faults and its block is free, and all else is as before. */
  lemma FreeMeans(m: Memory, sp: Space, i: nat, j: nat, v: Word, p: nat, g: nat)
    requires Good(m, sp) && i < |m.slots| && j < |m.slots| && m.slots[i].ptr != 0 && p < PAGES && g < HEAP_BLOCKS
    ensures var a, m' := m.slots[i], AfterFree(m, m.slots[i].ptr);
      && |m'.slots| == |m.slots| && m'.slots[j] == (if j == i then Allocation(0, 0) else m.slots[j])
      && (InAllocation(a, v) ==>
            && Combine(7, m'.pages[v / 0x1000], v) == Fault && 0x1000000 <= v < 0x7400000
            && IsFree(m'.table[(v - 0x1000000) / 0x1000]))
      && (!TouchesPage(a, p) ==> m'.pages[p] == m.pages[p])
      && (!TouchesPage(a, 0x1000 + g) ==> m'.table[g] == m.table[g])
  {
    var a := m.slots[i];
    var b, m' := BlockOf(a.ptr), AfterFree(m, a.ptr);
    assert SlotOk(m.live, a);
    UnjoinedOne(m.live, m.slots, i);
    ReleaseGood(m, a.ptr, sp);
    FreeDropsRun(m.table, m.live, b);
    BlocksForCovers(a.size);
    NewPages(m.pages, a, p);
    RunOfBytes(a, g);
    if InAllocation(a, v) {
      BlockOfByte(a, v);
      ReleasedMeans(m', sp, v, 7);
      assert Freed(m.table, b)[(v - 0x1000000) / 0x1000] == FREE;
    }
  }

  lemma ForeignMeans(m: Memory, ptr: Word)
    requires Shaped(m) && forall i :: 0 <= i < |m.slots| ==> m.slots[i].ptr != ptr
    ensures AfterFree(m, ptr) == m
  {
  }
}
