/** Memory of a user process: its allocation table, the heap runs behind the
    table, and the pages that make them visible to the process. */
module Process {
  import opened Bits
  import opened HeapTable
  import opened K = Kernel
  import opened Paging
  import opened AddressSpace
  import opened TaskList
  import opened ElfLoader

  const MAX_PROGRAM_ALLOCATION := 1024

  datatype Allocation = Allocation(ptr: Word, size: Word)

  const EMPTY := Allocation(0, 0)

  /** The page heap block `g` lies in, under the identity mapping. */
  function PageOf(g: nat): nat {
    HEAP_ADDRESS / PAGE_SIZE + g
  }

  /** Block `g` belongs to the run of allocation `a`. */
  predicate InRun(a: Allocation, g: int) {
    a.ptr != 0 && BlockOf(a.ptr) <= g < BlockOf(a.ptr) + BlocksFor(a.size)
  }

  /** A slot is empty or holds a pointer that heads a live run of its size. */
  predicate SlotOk(live: map<nat, nat>, a: Allocation) {
    if a.ptr == 0 then a == EMPTY
    else
      && a.ptr >= HEAP_ADDRESS && a.ptr == Addr(BlockOf(a.ptr))
      && BlockOf(a.ptr) in live && live[BlockOf(a.ptr)] == BlocksFor(a.size) > 0
      && BlockOf(a.ptr) + BlocksFor(a.size) <= HEAP_BLOCKS
  }

  /** Live slots head live runs, no two the same one. */
  ghost predicate SlotsOk(live: map<nat, nat>, slots: seq<Allocation>) {
    && |slots| == MAX_PROGRAM_ALLOCATION
    && (forall i :: 0 <= i < |slots| ==> SlotOk(live, slots[i]))
    && forall i, j :: 0 <= i < j < |slots| && slots[i].ptr != 0 ==> slots[i].ptr != slots[j].ptr
  }

  /** Every page of a live allocation is mapped to itself, present, writable and
      open to the user; every page given back is mapped to nothing. */
  ghost predicate PagesOk(ps: seq<Word>, slots: seq<Allocation>, released: set<nat>)
    requires |ps| == PAGES
  {
    && (forall i, g: nat :: 0 <= i < |slots| && g < HEAP_BLOCKS && InRun(slots[i], g) ==>
          ps[PageOf(g)] == Addr(g) + MAP_ALL)
    && forall g: nat :: g in released ==> g < HEAP_BLOCKS && ps[PageOf(g)] == Addr(g)
  }

  /** Mapping the blocks of one run to themselves. */
  lemma IdentityRange(ps: seq<Word>, b: nat, n: nat, flags: Word, g: nat)
    requires |ps| == PAGES && b + n <= HEAP_BLOCKS && g < HEAP_BLOCKS && flags < PAGE_SIZE
    ensures Mapped(ps, Addr(b), Addr(b), n, flags)[PageOf(g)] ==
            if b <= g < b + n then Addr(g) + flags else ps[PageOf(g)]
  {
    InRange(Addr(b), n, Addr(g));
    assert Addr(g) / PAGE_SIZE == PageOf(g);
    if b <= g < b + n {
      assert Advance(Addr(b), g - b) == Addr(g);
      OrFlags(Addr(g), flags);
    }
  }

  /** Rounding the end of an allocation up gives the end of its run. */
  lemma RunLimit(b: nat, size: Word)
    requires b < HEAP_BLOCKS && size <= LARGEST
    ensures Addr(b) + size < WORD && AlignAddress(Addr(b) + size) == Addr(b) + BlocksFor(size) * BLOCK_SIZE
    ensures MapToAccepts(Addr(b), Addr(b), Addr(b) + BlocksFor(size) * BLOCK_SIZE)
    ensures (Addr(b) + BlocksFor(size) * BLOCK_SIZE - Addr(b)) / PAGE_SIZE == BlocksFor(size)
  {
    assert AlignUpper(size) == BlocksFor(size) * BLOCK_SIZE;
    assert AlignUpper(size) == if size % BLOCK_SIZE == 0 then size else size - size % BLOCK_SIZE + BLOCK_SIZE;
    assert Addr(b) % BLOCK_SIZE == 0 && (Addr(b) + size) % BLOCK_SIZE == size % BLOCK_SIZE;
  }

  lemma MallocSlots(live: map<nat, nat>, slots: seq<Allocation>, index: nat, ptr: Word, size: Word)
    requires SlotsOk(live, slots) && index < |slots| && slots[index].ptr == 0
    requires ptr >= HEAP_ADDRESS && ptr == Addr(BlockOf(ptr)) && BlockOf(ptr) !in live
    requires BlocksFor(size) > 0 && BlockOf(ptr) + BlocksFor(size) <= HEAP_BLOCKS
    ensures SlotsOk(live[BlockOf(ptr) := BlocksFor(size)], slots[index := Allocation(ptr, size)])
  {
    forall i | 0 <= i < |slots| && slots[i].ptr != 0 ensures slots[i].ptr != ptr {
      assert SlotOk(live, slots[i]);
    }
  }

  lemma MallocPages(ps: seq<Word>, live: map<nat, nat>, slots: seq<Allocation>, released: set<nat>,
                    index: nat, ptr: Word, size: Word)
    requires |ps| == PAGES && SlotsOk(live, slots) && PagesOk(ps, slots, released) && index < |slots|
    requires ptr >= HEAP_ADDRESS && ptr == Addr(BlockOf(ptr))
    requires BlocksFor(size) > 0 && BlockOf(ptr) + BlocksFor(size) <= HEAP_BLOCKS
    requires forall c :: c in live ==> c + live[c] <= BlockOf(ptr) || BlockOf(ptr) + BlocksFor(size) <= c
    ensures PagesOk(Mapped(ps, ptr, ptr, BlocksFor(size), MAP_ALL), slots[index := Allocation(ptr, size)],
                    released - RunBlocks(Allocation(ptr, size)))
  {
    var b, n, now := BlockOf(ptr), BlocksFor(size), slots[index := Allocation(ptr, size)];
    var qs := Mapped(ps, ptr, ptr, n, MAP_ALL);
    forall i, g: nat | 0 <= i < |now| && g < HEAP_BLOCKS && InRun(now[i], g)
      ensures qs[PageOf(g)] == Addr(g) + MAP_ALL
    {
      IdentityRange(ps, b, n, MAP_ALL, g);
      if i != index { assert InRun(slots[i], g) && SlotOk(live, slots[i]); }
    }
    forall g: nat | g in released && g !in RunBlocks(Allocation(ptr, size)) ensures qs[PageOf(g)] == Addr(g) {
      IdentityRange(ps, b, n, MAP_ALL, g);
    }
  }

  /** The heap blocks of an allocation's run. */
  ghost function RunBlocks(a: Allocation): (r: set<nat>)
    ensures forall g: nat :: g in r <==> g < HEAP_BLOCKS && InRun(a, g)
  {
    set g: nat | g < HEAP_BLOCKS && InRun(a, g)
  }

  lemma FreeSlots(live: map<nat, nat>, slots: seq<Allocation>, index: nat)
    requires SlotsOk(live, slots) && index < |slots| && slots[index].ptr != 0
    ensures SlotsOk(live - {BlockOf(slots[index].ptr)}, slots[index := EMPTY])
  {
    var rest, now := live - {BlockOf(slots[index].ptr)}, slots[index := EMPTY];
    forall i | 0 <= i < |now| ensures SlotOk(rest, now[i]) {
      assert SlotOk(live, slots[i]) && SlotOk(live, slots[index]);
    }
  }

  lemma FreePages(ps: seq<Word>, s: seq<bv8>, live: map<nat, nat>, slots: seq<Allocation>, released: set<nat>,
                  index: nat)
    requires |ps| == PAGES && Encodes(s, live) && SlotsOk(live, slots) && PagesOk(ps, slots, released)
    requires index < |slots| && slots[index].ptr != 0
    ensures var a := slots[index];
      PagesOk(Mapped(ps, a.ptr, a.ptr, BlocksFor(a.size), 0), slots[index := EMPTY], released + RunBlocks(a))
  {
    var a, now := slots[index], slots[index := EMPTY];
    var b, n := BlockOf(a.ptr), BlocksFor(a.size);
    var qs := Mapped(ps, a.ptr, a.ptr, n, 0);
    assert SlotOk(live, a);
    forall i, g: nat | 0 <= i < |now| && g < HEAP_BLOCKS && InRun(now[i], g)
      ensures qs[PageOf(g)] == Addr(g) + MAP_ALL
    {
      IdentityRange(ps, b, n, 0, g);
      assert InRun(slots[i], g) && SlotOk(live, slots[i]) && i != index;
      RunsDisjoint(s, live, b, BlockOf(slots[i].ptr));
    }
    forall g: nat | g in released + RunBlocks(a) ensures g < HEAP_BLOCKS && qs[PageOf(g)] == Addr(g) {
      IdentityRange(ps, b, n, 0, g);
    }
  }

  /** The run of a slot is no part of the address space. */
  predicate SlotApart(a: Allocation, sp: Space) {
    a.ptr != 0 ==> BlockOf(a.ptr) != sp.chunk && BlockOf(a.ptr) != sp.dir && BlockOf(a.ptr) !in sp.tables
  }

  /** The joint invariant on values: heap runs, allocation table, pages, releases. */
  ghost predicate MemoryOk(live: map<nat, nat>, slots: seq<Allocation>, ps: seq<Word>, released: set<nat>, sp: Space)
    requires |ps| == PAGES
  {
    && SlotsOk(live, slots) && PagesOk(ps, slots, released)
    && forall i :: 0 <= i < |slots| ==> SlotApart(slots[i], sp)
  }

  lemma MallocMemory(live: map<nat, nat>, slots: seq<Allocation>, ps: seq<Word>, released: set<nat>, sp: Space,
                     index: nat, ptr: Word, size: Word)
    requires |ps| == PAGES && MemoryOk(live, slots, ps, released, sp)
    requires index < |slots| && slots[index].ptr == 0
    requires ptr >= HEAP_ADDRESS && ptr == Addr(BlockOf(ptr)) && BlockOf(ptr) !in live && BlockOf(ptr) !in sp.Blocks()
    requires BlocksFor(size) > 0 && BlockOf(ptr) + BlocksFor(size) <= HEAP_BLOCKS
    requires forall c :: c in live ==> c + live[c] <= BlockOf(ptr) || BlockOf(ptr) + BlocksFor(size) <= c
    ensures var a := Allocation(ptr, size);
      MemoryOk(live[BlockOf(ptr) := BlocksFor(size)], slots[index := a],
               Mapped(ps, ptr, ptr, BlocksFor(size), MAP_ALL), released - RunBlocks(a), sp)
  {
    MallocSlots(live, slots, index, ptr, size);
    MallocPages(ps, live, slots, released, index, ptr, size);
  }

  lemma FreeMemory(s: seq<bv8>, live: map<nat, nat>, slots: seq<Allocation>, ps: seq<Word>, released: set<nat>,
                   sp: Space, index: nat)
    requires |ps| == PAGES && Encodes(s, live) && MemoryOk(live, slots, ps, released, sp)
    requires index < |slots| && slots[index].ptr != 0
    ensures var a := slots[index];
      MemoryOk(live - {BlockOf(a.ptr)}, slots[index := EMPTY],
               Mapped(ps, a.ptr, a.ptr, BlocksFor(a.size), 0), released + RunBlocks(a), sp)
  {
    FreeSlots(live, slots, index);
    FreePages(ps, s, live, slots, released, index);
  }

  /** What every slot looks like, whatever process_malloc was asked for: empty, or a heap
      address outside the address space. */
  predicate SlotShaped(a: Allocation, sp: Space) {
    if a.ptr == 0 then a == EMPTY
    else IsPointer(a.ptr) && a.size <= LARGEST && SlotApart(a, sp)
  }

  ghost predicate Shapely(slots: seq<Allocation>, sp: Space) {
    |slots| == MAX_PROGRAM_ALLOCATION && forall i :: 0 <= i < |slots| ==> SlotShaped(slots[i], sp)
  }

  lemma ValidIsShapely(live: map<nat, nat>, slots: seq<Allocation>, ps: seq<Word>, released: set<nat>, sp: Space)
    requires |ps| == PAGES && MemoryOk(live, slots, ps, released, sp)
    ensures Shapely(slots, sp)
  {
    forall i | 0 <= i < |slots| ensures SlotShaped(slots[i], sp) {
      assert SlotOk(live, slots[i]) && SlotApart(slots[i], sp);
      if slots[i].ptr != 0 { SizeOfBlocks(slots[i].size); }
    }
  }

  lemma SizeOfBlocks(size: Word)
    requires 0 < BlocksFor(size) <= HEAP_BLOCKS
    ensures size <= LARGEST
  {
  }

  /** paging_map_to over the pages of one allocation, onto themselves. It is never refused
      (RunLimit), so the error branches of its two callers are not reached. */
  method MapRun(k: Kernel, chunk: Word, a: Allocation, flags: Word, ghost sp: Space) returns (res: int)
    requires IsSpace(k, sp) && chunk == Addr(sp.chunk) && SlotShaped(a, sp)
    modifies k.ram
    ensures res == 0 && IsSpace(k, sp)
    ensures Pages(k, sp) == Mapped(old(Pages(k, sp)), a.ptr, a.ptr, BlocksFor(a.size), flags)
    ensures OnlyTables(k, sp.tables)
  {
    if a.ptr != 0 { RunLimit(BlockOf(a.ptr), a.size); }
    res := MapTo(k, chunk, a.ptr, a.ptr, AlignAddress(a.ptr + a.size), flags, sp);
  }

  /** No RAM outside the page tables has changed. */
  twostate predicate OnlyTables(k: Kernel, tables: seq<nat>)
    requires k.Shaped()
    reads k.ram
  {
    forall c, i | 0 <= c < HEAP_BLOCKS && 0 <= i < WORDS ::
      c !in tables ==> k.ram[c, i] == old(k.ram[c, i])
  }

  /** No block that the table `s` shows as taken has changed, apart from the page tables. */
  twostate predicate TakenKept(k: Kernel, s: seq<bv8>, tables: seq<nat>)
    requires k.Shaped() && |s| == HEAP_BLOCKS
    reads k.ram
  {
    forall c, i | 0 <= c < HEAP_BLOCKS && 0 <= i < WORDS ::
      !IsFree(s[c]) && c !in tables ==> k.ram[c, i] == old(k.ram[c, i])
  }

  /** The first slot with that pointer, or -1. */
  function SlotOf(slots: seq<Allocation>, ptr: Word): (i: int)
    ensures i == -1 <==> forall j :: 0 <= j < |slots| ==> slots[j].ptr != ptr
    ensures i != -1 ==> 0 <= i < |slots| && slots[i].ptr == ptr && forall j :: 0 <= j < i ==> slots[j].ptr != ptr
  {
    if slots == [] then -1
    else
      var n := |slots| - 1;
      var i := SlotOf(slots[..n], ptr);
      if i != -1 then i else if slots[n].ptr == ptr then n else -1
  }

  function Unjoined(slots: seq<Allocation>, ptr: Word): (r: seq<Allocation>) {
    seq(|slots|, j requires 0 <= j < |slots| => if slots[j].ptr == ptr then EMPTY else slots[j])
  }

  /** A pointer sits in one slot only, so unjoining it empties just that slot. */
  lemma UnjoinedOne(live: map<nat, nat>, slots: seq<Allocation>, index: nat)
    requires SlotsOk(live, slots) && index < |slots| && slots[index].ptr != 0
    ensures Unjoined(slots, slots[index].ptr) == slots[index := EMPTY]
    ensures SlotOf(slots, slots[index].ptr) == index
  {
    forall j | 0 <= j < |slots| && slots[j].ptr == slots[index].ptr ensures j == index {
    }
  }

  // ---- The same memory as a state machine ----

  /** Everything process_malloc and process_free work on. */
  datatype Memory = Memory(table: seq<bv8>, live: map<nat, nat>, slots: seq<Allocation>, pages: seq<Word>,
                           released: set<nat>)

  ghost predicate ValidMemory(m: Memory, sp: Space) {
    && |m.pages| == PAGES && |m.table| == HEAP_BLOCKS && Encodes(m.table, m.live)
    && MemoryOk(m.live, m.slots, m.pages, m.released, sp)
  }

  /** What process_malloc answers: null if the heap refuses or no slot is empty. */
  function Answer(table: seq<bv8>, slots: seq<Allocation>, size: Word): Word
    requires |table| == HEAP_BLOCKS
  {
    var r := StartBlock(table, BlocksFor(size));
    if r < 0 || SlotOf(slots, 0) < 0 then 0 else Addr(r)
  }

  /** process_malloc of any size: the blocks the heap answers with, the first empty slot,
      and the pages of the run mapped to themselves. */
  ghost function AfterMalloc(m: Memory, size: Word): (m': Memory)
    requires |m.table| == HEAP_BLOCKS && |m.pages| == PAGES
    ensures |m'.table| == HEAP_BLOCKS && |m'.pages| == PAGES
  {
    var n, r, i := BlocksFor(size), StartBlock(m.table, BlocksFor(size)), SlotOf(m.slots, 0);
    var ptr := Answer(m.table, m.slots, size);
    if ptr == 0 then m
    else
      Memory(Marked(m.table, r, n), if Fits(m.table, n) then m.live[r := n] else m.live,
             m.slots[i := Allocation(ptr, size)], Mapped(m.pages, ptr, ptr, n, MAP_ALL),
             m.released - RunBlocks(Allocation(ptr, size)))
  }

  /** process_free of a pointer that is not null. */
  ghost function AfterFree(m: Memory, ptr: Word): (m': Memory)
    requires |m.table| == HEAP_BLOCKS && |m.pages| == PAGES
    ensures |m'.table| == HEAP_BLOCKS && |m'.pages| == PAGES
  {
    var i, b := SlotOf(m.slots, ptr), BlockOf(ptr);
    if i < 0 then m
    else
      var a := m.slots[i];
      Memory(if b < 0 then m.table else Freed(m.table, b), m.live - {b}, Unjoined(m.slots, ptr),
             Mapped(m.pages, ptr, ptr, BlocksFor(a.size), 0), m.released + RunBlocks(a))
  }

  /** The memory after process_free has emptied slot and pages. */
  ghost predicate Left(m: Memory, i: nat, m': Memory)
    requires i < |m.slots| && |m.pages| == PAGES
  {
    var a := m.slots[i];
    && m'.pages == Mapped(m.pages, a.ptr, a.ptr, BlocksFor(a.size), 0) && m'.released == m.released + RunBlocks(a)
    && m'.slots == Unjoined(m.slots, a.ptr) && m'.table == m.table && m'.live == m.live
  }

  lemma LeftIs(m: Memory, i: nat, m': Memory)
    requires |m.table| == HEAP_BLOCKS && |m.pages| == PAGES && i < |m.slots| && i == SlotOf(m.slots, m.slots[i].ptr)
    requires Left(m, i, m') && forall j :: 0 <= j < |m.slots| && m.slots[j].ptr == 0 ==> m.slots[j] == EMPTY
    ensures var ptr := m.slots[i].ptr;
      if ptr == 0 then m' == m
      else
        var b := BlockOf(ptr);
        m'.(table := if b < 0 then m.table else Freed(m.table, b), live := m.live - {b}) == AfterFree(m, ptr)
  {
    if m.slots[i].ptr == 0 {
      assert Mapped(m.pages, 0, 0, 0, 0) == m.pages;
      assert Unjoined(m.slots, 0) == m.slots;
    }
  }

  /** process_free of null while a slot is empty: kfree releases an address below the heap,
      and here the walk reaches the table. */
  ghost function AfterStray(m: Memory): (m': Memory) {
    if SlotOf(m.slots, 0) < 0 then m else m.(table := Freed(m.table, 0), live := m.live - {0})
  }

  /** The two file types; the image pointer and the ELF file share one word. */
  datatype Program = Binary(ptr: Word, size: Word) | Elf(file: ElfFile?)

  class Process {
    /** Where the kernel heap put this struct. */
    const self: Word
    const allocations: array<Allocation>
    var task: Task?
    var program: Program
    var stack: Word
    /** Blocks whose pages this process gave back and did not get again. */
    ghost var released: set<nat>

    constructor (self: Word)
      ensures this.self == self && task == null && program == Elf(null) && stack == 0 && released == {}
      ensures fresh(allocations) && allocations.Length == MAX_PROGRAM_ALLOCATION
      ensures forall i :: 0 <= i < MAX_PROGRAM_ALLOCATION ==> allocations[i] == EMPTY
    {
      this.self, task, program, stack, released := self, null, Elf(null), 0, {};
      allocations := new Allocation[MAX_PROGRAM_ALLOCATION](_ => EMPTY);
    }

    /** The task's address space is `sp`, and its directory grants every access. */
    ghost predicate Attached(k: Kernel, sp: Space)
      reads this, k, k.ram, task
    {
      && IsSpace(k, sp) && task != null && task.pageDirectory == Addr(sp.chunk)
      && allocations.Length == MAX_PROGRAM_ALLOCATION && sp.rights % 8 == 7
    }

    /** The joint invariant of allocation table, heap table and page tables. */
    ghost predicate Inv(k: Kernel, sp: Space)
      reads this, allocations, k, k.heap.mem, k.ram, task
    {
      k.Valid() && Attached(k, sp) && MemoryOk(k.live, allocations[..], Pages(k, sp), released, sp)
    }

    ghost function Snapshot(k: Kernel, sp: Space): (m: Memory)
      requires IsSpace(k, sp)
      reads this, allocations, k, k.heap.mem, k.ram
      ensures |m.table| == HEAP_BLOCKS && |m.pages| == PAGES
    {
      Memory(k.Table(), k.live, allocations[..], Pages(k, sp), released)
    }

    /** process_find_free_allocation_index */
    method FindFree() returns (res: int)
      requires allocations.Length == MAX_PROGRAM_ALLOCATION
      ensures res == -ENOMEM <==> forall i :: 0 <= i < allocations.Length ==> allocations[i].ptr != 0
      ensures res != -ENOMEM ==>
                && 0 <= res < allocations.Length && allocations[res].ptr == 0
                && forall i :: 0 <= i < res ==> allocations[i].ptr != 0
    {
      res := -ENOMEM;
      for i := 0 to MAX_PROGRAM_ALLOCATION
        invariant res == -ENOMEM && forall j :: 0 <= j < i ==> allocations[j].ptr != 0
      {
        if allocations[i].ptr == 0 {
          res := i;
          break;
        }
      }
    }

    /** process_get_allocation_by_addr, as an index; -1 for the null result. */
    method GetByAddr(addr: Word) returns (res: int)
      requires allocations.Length == MAX_PROGRAM_ALLOCATION
      ensures res == -1 <==> forall i :: 0 <= i < allocations.Length ==> allocations[i].ptr != addr
      ensures res != -1 ==>
                && 0 <= res < allocations.Length && allocations[res].ptr == addr
                && forall i :: 0 <= i < res ==> allocations[i].ptr != addr
    {
      for i := 0 to MAX_PROGRAM_ALLOCATION
        invariant forall j :: 0 <= j < i ==> allocations[j].ptr != addr
      {
        if allocations[i].ptr == addr {
          return i;
        }
      }
      res := -1;
    }

    /** process_allocation_unjoin */
    method Unjoin(ptr: Word)
      requires allocations.Length == MAX_PROGRAM_ALLOCATION
      modifies allocations
      ensures allocations[..] == Unjoined(old(allocations[..]), ptr)
    {
      for i := 0 to MAX_PROGRAM_ALLOCATION
        invariant forall j :: 0 <= j < allocations.Length ==>
                    allocations[j] == if j < i && old(allocations[j].ptr) == ptr then EMPTY else old(allocations[j])
      {
        if allocations[i].ptr == ptr {
          allocations[i] := EMPTY;
        }
      }
    }

    /** process_malloc, of any size up to the one from which its memset wraps. */
    method Malloc(k: Kernel, size: Word, ghost sp: Space) returns (ptr: Word)
      requires k.Valid() && Attached(k, sp) && size <= LARGEST
      modifies k.heap.mem, k.ram, k`live, allocations, this`released
      ensures Attached(k, sp) && Snapshot(k, sp) == AfterMalloc(old(Snapshot(k, sp)), size)
      ensures ptr == Answer(old(k.Table()), old(allocations[..]), size)
      ensures TakenKept(k, old(k.Table()), sp.tables)
    {
      ghost var m := Snapshot(k, sp);
      var index;
      ptr, index := Acquire(k, size, sp);
      if ptr != 0 {
        Enter(k, index, Allocation(ptr, size), sp);
      }
    }

    /** kzalloc and the search for a slot; the memory goes back if there is no slot. */
    method Acquire(k: Kernel, size: Word, ghost sp: Space) returns (ptr: Word, index: int)
      requires k.Valid() && Attached(k, sp) && size <= LARGEST
      modifies k.heap.mem, k.ram, k`live
      ensures Attached(k, sp) && Pages(k, sp) == old(Pages(k, sp))
      ensures ptr == Answer(old(k.Table()), allocations[..], size) && (ptr != 0 ==> index == SlotOf(allocations[..], 0))
      ensures ptr == 0 ==> k.live == old(k.live) && k.Table() == old(k.Table())
      ensures ptr != 0 ==> k.Took(old(k.Table()), old(k.live), size, ptr) && SlotShaped(Allocation(ptr, size), sp)
      ensures TakenKept(k, old(k.Table()), [])
    {
      ghost var s, was := k.Table(), k.live;
      ptr := KzallocBeside(k, size, sp);
      index := -ENOMEM;
      if ptr == 0 {
        return;
      }
      index := FindFree();
      if index < 0 {
        GiveBackBeside(k, size, ptr, s, was, sp);
        ptr := 0;
      }
    }

    /** The rest of process_malloc. */
    method Enter(k: Kernel, index: nat, a: Allocation, ghost sp: Space)
      requires Attached(k, sp) && SlotShaped(a, sp) && index < allocations.Length
      modifies k.ram, allocations, this`released
      ensures Attached(k, sp)
      ensures Pages(k, sp) == Mapped(old(Pages(k, sp)), a.ptr, a.ptr, BlocksFor(a.size), MAP_ALL)
      ensures released == old(released) - RunBlocks(a)
      ensures allocations[..] == old(allocations[..])[index := a]
      ensures OnlyTables(k, sp.tables)
    {
      var res := MapRun(k, task.pageDirectory, a, MAP_ALL, sp);
      allocations[index] := a;
      released := released - RunBlocks(a);
    }

    /** process_free of any pointer. */
    method Free(k: Kernel, ptr: Word, ghost sp: Space)
      requires Attached(k, sp) && Shapely(allocations[..], sp)
      modifies k.heap.mem, k.ram, k`live, allocations, this`released, (if ptr == 0 then {k.heap.low} else {})
      ensures ptr != 0 ==> Attached(k, sp) && Snapshot(k, sp) == AfterFree(old(Snapshot(k, sp)), ptr)
      ensures ptr == 0 && old(!k.Strays(0) || SlotOf(allocations[..], 0) < 0) ==>
                Attached(k, sp) && Snapshot(k, sp) == old(Snapshot(k, sp))
      ensures ptr == 0 && old(k.Strays(0)) && 0 !in sp.Blocks() ==>
                Attached(k, sp) && Snapshot(k, sp) == AfterStray(old(Snapshot(k, sp)))
      ensures OnlyTables(k, sp.tables)
    {
      var index := GetByAddr(ptr);
      if index < 0 {
        return;
      }
      ghost var m := Snapshot(k, sp);
      Leave(k, index, sp);
      LeftIs(m, index, Snapshot(k, sp));
      FreeBeside(k, ptr, sp);
    }

    /** The pages and the slot of process_free. */
    method Leave(k: Kernel, index: nat, ghost sp: Space)
      requires Attached(k, sp) && Shapely(allocations[..], sp) && index < allocations.Length
      modifies k.ram, allocations, this`released
      ensures Attached(k, sp) && Left(old(Snapshot(k, sp)), index, Snapshot(k, sp))
      ensures OnlyTables(k, sp.tables)
    {
      var a := allocations[index];
      var res := MapRun(k, task.pageDirectory, a, 0, sp);
      Unjoin(a.ptr);
      released := released + RunBlocks(a);
    }
  }

  /** kfree of a block outside an address space leaves it alone. */
  method FreeBeside(k: Kernel, ptr: Word, ghost sp: Space)
    requires IsSpace(k, sp) && (ptr == 0 || (IsPointer(ptr) && BlockOf(ptr) !in sp.Blocks()))
    modifies k.heap.mem, k`live, (if ptr == 0 then {k.heap.low} else {})
    ensures ptr != 0 ==> k.live == old(k.live) - {BlockOf(ptr)} && k.Table() == Freed(old(k.Table()), BlockOf(ptr))
    ensures ptr == 0 ==>
              if old(k.Strays(0)) then k.live == old(k.live) - {0} && k.Table() == Freed(old(k.Table()), 0)
              else k.live == old(k.live) && k.Table() == old(k.Table())
    ensures (ptr == 0 && old(k.Strays(0)) ==> 0 !in sp.Blocks()) ==>
              IsSpace(k, sp) && Pages(k, sp) == old(Pages(k, sp))
  {
    SpaceOwned(k, sp);
    k.Kfree(ptr);
    if OwnedIn(k.live, sp) {
      assert Undisturbed(k, sp);
    }
  }

  // ---- Every run of the two ----

  datatype Event = Malloced(size: Word) | Released(ptr: Word) | Strayed

  /** The memory after any request, in any state. */
  ghost function After(m: Memory, e: Event): (m': Memory)
    requires |m.table| == HEAP_BLOCKS && |m.pages| == PAGES
    ensures |m'.table| == HEAP_BLOCKS && |m'.pages| == PAGES
  {
    match e
    case Malloced(size) => AfterMalloc(m, size)
    case Released(ptr) => if ptr == 0 then m else AfterFree(m, ptr)
    case Strayed => AfterStray(m)
  }

  /** The joint invariant, with the blocks of the address space live, so that no request is
      served from them. */
  ghost predicate Good(m: Memory, sp: Space) {
    ValidMemory(m, sp) && forall b :: b in sp.Blocks() ==> b in m.live
  }

  lemma InvIsGood(k: Kernel, p: Process, sp: Space)
    requires p.Inv(k, sp)
    ensures Good(p.Snapshot(k, sp), sp) && Shapely(p.allocations[..], sp)
  {
    SpaceOwned(k, sp);
    ValidIsShapely(k.live, p.allocations[..], Pages(k, sp), p.released, sp);
  }

  lemma GoodIsInv(k: Kernel, p: Process, sp: Space)
    requires p.Attached(k, sp) && Good(p.Snapshot(k, sp), sp)
    ensures p.Inv(k, sp)
  {
  }

  /** The requests after which it still holds. */
  ghost predicate Harmless(m: Memory, e: Event, sp: Space) {
    match e
    case Malloced(size) => Fits(m.table, BlocksFor(size)) || !LastIsFree(m.table) || SlotOf(m.slots, 0) < 0
    case Released(_) => true
    case Strayed => SlotOf(m.slots, 0) < 0 || (SlotOf(m.slots, Addr(0)) < 0 && 0 !in sp.Blocks())
  }

  /** A slot for no bytes agrees with no heap table at all. */
  lemma EmptyRunBreaks(m: Memory, sp: Space, i: nat)
    requires i < |m.slots| && m.slots[i].ptr != 0 && BlocksFor(m.slots[i].size) == 0
    ensures !ValidMemory(m, sp)
  {
  }

  /** process_malloc(0) with the last block free and an empty slot: the heap table stays as
      it is, well formed, and the joint invariant is lost. */
  lemma ZeroSizeBreaks(m: Memory, sp: Space)
    requires Good(m, sp) && LastIsFree(m.table) && SlotOf(m.slots, 0) >= 0
    ensures AfterMalloc(m, 0).table == m.table && WellFormed(m.table)
    ensures forall live :: !Good(AfterMalloc(m, 0).(live := live), sp)
  {
    MallocGoodIff(m, 0, sp);
    var r := StartBlock(m.table, BlocksFor(0));
    assert Marked(m.table, r, BlocksFor(0)) == m.table;
  }

  lemma MallocGoodIff(m: Memory, size: Word, sp: Space)
    requires Good(m, sp)
    ensures Good(AfterMalloc(m, size), sp) <==> Harmless(m, Malloced(size), sp)
    ensures !Harmless(m, Malloced(size), sp) ==> forall live :: !Good(AfterMalloc(m, size).(live := live), sp)
  {
    var n, r, i := BlocksFor(size), StartBlock(m.table, BlocksFor(size)), SlotOf(m.slots, 0);
    var m' := AfterMalloc(m, size);
    if Answer(m.table, m.slots, size) == 0 {
      assert m' == m;
    } else if Fits(m.table, n) {
      MarkAddsRun(m.table, m.live, r, n);
      MallocMemory(m.live, m.slots, m.pages, m.released, sp, i, Addr(r), size);
    } else {
      forall live ensures !Good(m'.(live := live), sp) {
        OverrunBreaks(m, size, live, sp);
      }
      assert m'.(live := m'.live) == m';
    }
  }

  /** A request that is answered with a run that does not fit. */
  lemma OverrunBreaks(m: Memory, size: Word, live: map<nat, nat>, sp: Space)
    requires Good(m, sp) && Answer(m.table, m.slots, size) != 0 && !Fits(m.table, BlocksFor(size))
    ensures !Good(AfterMalloc(m, size).(live := live), sp)
  {
    var n, i := BlocksFor(size), SlotOf(m.slots, 0);
    if n == 0 {
      EmptyRunBreaks(AfterMalloc(m, size).(live := live), sp, i);
    } else {
      MallocKeepsTableIff(m.table, n);
    }
  }

  lemma ReleaseGood(m: Memory, ptr: Word, sp: Space)
    requires Good(m, sp) && ptr != 0
    ensures Good(AfterFree(m, ptr), sp)
  {
    var i := SlotOf(m.slots, ptr);
    if i >= 0 {
      assert SlotOk(m.live, m.slots[i]) && SlotApart(m.slots[i], sp);
      FreeDropsRun(m.table, m.live, BlockOf(ptr));
      FreeMemory(m.table, m.live, m.slots, m.pages, m.released, sp, i);
      UnjoinedOne(m.live, m.slots, i);
    }
  }

  lemma StrayGoodIff(m: Memory, sp: Space)
    requires Good(m, sp)
    ensures Good(AfterStray(m), sp) <==> Harmless(m, Strayed, sp)
    ensures !Harmless(m, Strayed, sp) ==> forall live :: !Good(AfterStray(m).(live := live), sp)
  {
    if SlotOf(m.slots, 0) >= 0 {
      FirstRunDropped(m.table, m.live);
      if Harmless(m, Strayed, sp) {
        StrayKeeps(m, sp);
      } else {
        forall live ensures !Good(AfterStray(m).(live := live), sp) {
          StrayBreaks(m, live, sp);
        }
        assert AfterStray(m).(live := AfterStray(m).live) == AfterStray(m);
      }
    }
  }

  /** Block 0 is free or heads a run, so its release leaves a table. */
  lemma FirstRunDropped(s: seq<bv8>, live: map<nat, nat>)
    requires Encodes(s, live) && |s| > 0
    ensures Encodes(Freed(s, 0), live - {0})
  {
    CoveredIsTaken(s, live, 0);
    KfreeKeeps(s, live, 0);
  }

  lemma StrayKeeps(m: Memory, sp: Space)
    requires Good(m, sp) && SlotOf(m.slots, 0) >= 0 && SlotOf(m.slots, Addr(0)) < 0 && 0 !in sp.Blocks()
    requires Encodes(AfterStray(m).table, AfterStray(m).live)
    ensures Good(AfterStray(m), sp)
  {
    forall i | 0 <= i < |m.slots| ensures SlotOk(m.live - {0}, m.slots[i]) {
      assert SlotOk(m.live, m.slots[i]) && m.slots[i].ptr != Addr(0);
    }
  }

  lemma StrayBreaks(m: Memory, live: map<nat, nat>, sp: Space)
    requires Good(m, sp) && SlotOf(m.slots, 0) >= 0 && (SlotOf(m.slots, Addr(0)) >= 0 || 0 in sp.Blocks())
    requires Encodes(AfterStray(m).table, m.live - {0})
    ensures !Good(AfterStray(m).(live := live), sp)
  {
    var m' := AfterStray(m).(live := live);
    if Encodes(m'.table, live) {
      RunsDetermined(m'.table, live, m.live - {0});
      if SlotOf(m.slots, Addr(0)) >= 0 { assert !SlotOk(live, m.slots[SlotOf(m.slots, Addr(0))]); }
    }
  }

  /** One request, in any valid state: the joint invariant survives exactly the harmless. */
  lemma StepKeepsValidIff(m: Memory, e: Event, sp: Space)
    requires Good(m, sp)
    ensures Good(After(m, e), sp) <==> Harmless(m, e, sp)
    ensures !Harmless(m, e, sp) ==> forall live :: !Good(After(m, e).(live := live), sp)
  {
    match e
    case Malloced(size) => MallocGoodIff(m, size, sp);
    case Released(ptr) => if ptr != 0 { ReleaseGood(m, ptr, sp); }
    case Strayed => StrayGoodIff(m, sp);
  }

  ghost predicate Shaped(m: Memory) {
    |m.table| == HEAP_BLOCKS && |m.pages| == PAGES
  }

  /** If the good states are those that a fine step leads to from a good one, all states are
      good exactly if all steps are fine. */
  lemma {:induction false} GoodThroughout(good: nat -> bool, fine: nat -> bool, n: nat)
    requires good(0) && forall i :: 0 <= i < n && good(i) ==> (good(i + 1) <==> fine(i))
    ensures (forall i :: 0 <= i <= n ==> good(i)) <==> forall i :: 0 <= i < n ==> fine(i)
  {
    if n > 0 { GoodThroughout(good, fine, n - 1); }
    assert n > 0 && good(n - 1) ==> (good(n - 1 + 1) <==> fine(n - 1));
  }

  /** A run of requests of any kind: the invariant holds at every point of it exactly if
      every request is harmless when it comes. */
  lemma EveryRunValidIff(ms: seq<Memory>, es: seq<Event>, sp: Space)
    requires |ms| == |es| + 1 && Good(ms[0], sp)
    requires forall i :: 0 <= i < |es| ==> Shaped(ms[i]) && ms[i + 1] == After(ms[i], es[i])
    ensures (forall i :: 0 <= i < |ms| ==> Good(ms[i], sp))
            <==> forall i :: 0 <= i < |es| ==> Harmless(ms[i], es[i], sp)
  {
    var good := (i: nat) => i < |ms| && Good(ms[i], sp);
    var fine := (i: nat) => i < |es| && Harmless(ms[i], es[i], sp);
    forall i | 0 <= i < |es| && good(i) ensures good(i + 1) <==> fine(i) {
      StepKeepsValidIff(ms[i], es[i], sp);
    }
    GoodThroughout(good, fine, |es|);
    assert forall i :: 0 <= i < |ms| ==> good(i) == Good(ms[i], sp);
    assert forall i :: 0 <= i < |es| ==> fine(i) == Harmless(ms[i], es[i], sp);
  }
}
