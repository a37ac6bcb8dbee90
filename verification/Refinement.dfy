/** The code carries out the steps of Isolation: what it does for one process is one step of
    the whole system, and the address spaces of all others stay as they are. */
module Refinement {
  import opened Bits
  import opened HeapTable
  import opened K = Kernel
  import opened Paging
  import opened AddressSpace
  import opened TaskList
  import opened ElfLoader
  import opened Process
  import opened Teardown
  import opened ProgramMap
  import opened Confinement
  import opened StalePrev
  import opened Lifecycle
  import opened Isolation

  /** Heap and RAM are those of the system. */
  ghost predicate Realizes(k: Kernel, s: System)
    reads k, k.heap.mem, k.ram
  {
    && k.Shaped() && s.table == k.Table() && s.live == k.live
    && forall j :: 0 <= j < |s.procs| ==>
         IsSpace(k, s.procs[j].space) && Pages(k, s.procs[j].space) == s.procs[j].pages
  }

  /** `r` is the process `p`. */
  ghost predicate Runs(p: Process, r: Proc)
    reads p, p.allocations, p.task
  {
    && p.task != null && p.task.pageDirectory == Addr(r.space.chunk)
    && p.allocations.Length == MAX_PROGRAM_ALLOCATION
    && r.slots == p.allocations[..] && r.released == p.released && r.space.rights % 8 == 7
  }

  /** The table is one, and no block belongs to two address spaces: enough for the code to
      go on, also where processes no longer are apart. */
  ghost predicate Standing(s: System) {
    IsTable(s) && forall i, j :: 0 <= i < |s.procs| && 0 <= j < |s.procs| && i != j ==>
      s.procs[i].space.Blocks() !! s.procs[j].space.Blocks()
  }

  lemma SeparateStands(s: System)
    requires Separate(s)
    ensures Standing(s)
  {
    forall i, j | 0 <= i < |s.procs| && 0 <= j < |s.procs| && i != j
      ensures s.procs[i].space.Blocks() !! s.procs[j].space.Blocks()
    {
      assert Held(s.procs[i]) !! Held(s.procs[j]);
    }
  }

  /** The address spaces of all but process `i` are as the system says. */
  ghost predicate OthersThere(k: Kernel, s: System, i: nat)
    reads k, k.ram
  {
    forall j :: 0 <= j < |s.procs| && j != i ==>
      IsSpace(k, s.procs[j].space) && Pages(k, s.procs[j].space) == s.procs[j].pages
  }

  // ---- Address spaces of others ----

  ghost predicate AllTaken(table: seq<bv8>, sq: Space) {
    forall b :: b in sq.Blocks() ==> b < |table| && !IsFree(table[b])
  }

  /** Only page tables elsewhere and blocks that were free are written, and the blocks of the
      address space are still allocated: it stays as it is. */
  twostate predicate GrowsBeside(k: Kernel, table: seq<bv8>, tables: seq<nat>, sq: Space): (r: bool)
    requires old(IsSpace(k, sq)) && k.Shaped() && |table| == HEAP_BLOCKS
    reads k, k.ram
    ensures r ==> IsSpace(k, sq) && Pages(k, sq) == old(Pages(k, sq))
  {
    SpaceParts(sq);
    && TakenKept(k, table, tables) && OwnedIn(k.live, sq) && AllTaken(table, sq)
    && forall t :: t in tables ==> t !in sq.Blocks()
  }

  /** Where only page tables elsewhere are written. */
  twostate predicate ShrinksBeside(k: Kernel, tables: seq<nat>, sq: Space): (r: bool)
    requires old(IsSpace(k, sq)) && k.Shaped()
    reads k, k.ram
    ensures r ==> IsSpace(k, sq) && Pages(k, sq) == old(Pages(k, sq))
  {
    SpaceParts(sq);
    OnlyTables(k, tables) && OwnedIn(k.live, sq) && forall t :: t in tables ==> t !in sq.Blocks()
  }

  /** All address spaces of the system are allocated and taken. */
  lemma AllOwned(k: Kernel, s: System)
    requires Standing(s) && Realizes(k, s)
    ensures forall j :: 0 <= j < |s.procs| ==> OwnedIn(s.live, s.procs[j].space) && AllTaken(s.table, s.procs[j].space)
  {
    forall j | 0 <= j < |s.procs|
      ensures OwnedIn(s.live, s.procs[j].space) && AllTaken(s.table, s.procs[j].space)
    {
      SpaceOwned(k, s.procs[j].space);
      SpaceTaken(s.table, s.live, s.procs[j].space);
    }
  }

  /** The tables of process `i` are none of process `j`. */
  lemma TablesApart(s: System, i: nat, j: nat)
    requires Standing(s) && i < |s.procs| && j < |s.procs| && i != j
    ensures forall t :: t in s.procs[i].space.tables ==> t !in s.procs[j].space.Blocks()
  {
    SpaceParts(s.procs[i].space);
  }

  // ---- process_malloc and process_free ----

  method MallocBesideOthers(k: Kernel, p: Process, size: Word, ghost s: System, ghost i: nat) returns (ptr: Word)
    requires Standing(s) && Realizes(k, s) && i < |s.procs| && Runs(p, s.procs[i]) && size <= LARGEST
    modifies k.heap.mem, k.ram, k`live, p.allocations, p`released
    ensures p.Attached(k, s.procs[i].space) && OthersThere(k, s, i)
    ensures p.Snapshot(k, s.procs[i].space) == AfterMalloc(View(s.table, s.live, s.procs[i]), size)
    ensures ptr == Answer(s.table, s.procs[i].slots, size)
  {
    ghost var r := s.procs[i];
    AllOwned(k, s);
    assert p.Snapshot(k, r.space) == View(s.table, s.live, r);
    ptr := p.Malloc(k, size, r.space);
    forall j | 0 <= j < |s.procs| && j != i
      ensures IsSpace(k, s.procs[j].space) && Pages(k, s.procs[j].space) == s.procs[j].pages
    {
      TablesApart(s, i, j);
      SpaceKept(s.table, s.live, k.live, BlocksFor(size), s.procs[j].space);
      assert GrowsBeside(k, s.table, r.space.tables, s.procs[j].space);
    }
  }

  /** process_malloc, of any size: one step of the system. All processes still can write their
      own memory only, for some live runs, if and only if the request is served or refused or
      finds no slot. */
  method MallocInSystem(k: Kernel, p: Process, size: Word, ghost s: System, ghost i: nat)
    returns (ptr: Word, ghost s': System)
    requires Standing(s) && Realizes(k, s) && i < |s.procs| && Runs(p, s.procs[i]) && size <= LARGEST
    modifies k.heap.mem, k.ram, k`live, p.allocations, p`released
    ensures SystemStep(s, Act(i, Malloced(size)), s') && Realizes(k, s')
    ensures |s'.procs| == |s.procs| && Runs(p, s'.procs[i])
    ensures ptr == Answer(s.table, s.procs[i].slots, size)
    ensures SystemOk(s) ==>
              ((exists live :: SystemOk(s'.(live := live)))
               <==> Harmless(View(s.table, s.live, s.procs[i]), Malloced(size), s.procs[i].space))
  {
    s' := ActOn(s, i, Malloced(size));
    ptr := MallocBesideOthers(k, p, size, s, i);
    if SystemOk(s) {
      HarmlessForSomeRuns(s, i, Malloced(size), s');
    }
  }

  lemma HarmlessForSomeRuns(s: System, i: nat, e: Event, s': System)
    requires SystemOk(s) && SystemStep(s, Act(i, e), s')
    ensures (exists live :: SystemOk(s'.(live := live))) <==> KeepsApart(s, Act(i, e))
  {
    StepKeepsApartIff(s, Act(i, e), s');
    StepKeepsOkIff(s, Act(i, e), s');
    if KeepsApart(s, Act(i, e)) {
      assert SystemOk(s'.(live := s'.live));
    } else {
      forall live ensures !SystemOk(s'.(live := live)) {
        assert !Separate(s'.(live := live));
      }
    }
  }

  /** What process_free of `ptr` is to the system. */
  ghost function FreeEvent(k: Kernel, ptr: Word): Event
    requires k.Shaped()
    reads k.heap.low
  {
    if ptr == 0 && k.Strays(0) then Strayed else Released(ptr)
  }

  /** No address space has the block that is released. */
  ghost predicate SpacesSpared(s: System, slots: seq<Allocation>, e: Event) {
    match e
    case Released(ptr) =>
      ptr != 0 && SlotOf(slots, ptr) >= 0 ==>
        forall j :: 0 <= j < |s.procs| ==> BlockOf(ptr) !in s.procs[j].space.Blocks()
    case Strayed => SlotOf(slots, 0) >= 0 ==> forall j :: 0 <= j < |s.procs| ==> 0 !in s.procs[j].space.Blocks()
    case Malloced(_) => true
  }

  method FreeBesideOthers(k: Kernel, p: Process, ptr: Word, ghost s: System, ghost i: nat)
    requires Standing(s) && Realizes(k, s) && i < |s.procs| && Runs(p, s.procs[i])
    requires Shapely(s.procs[i].slots, s.procs[i].space) && SpacesSpared(s, s.procs[i].slots, FreeEvent(k, ptr))
    modifies k.heap.mem, k.ram, k`live, p.allocations, p`released, (if ptr == 0 then {k.heap.low} else {})
    ensures p.Attached(k, s.procs[i].space) && OthersThere(k, s, i)
    ensures p.Snapshot(k, s.procs[i].space) == After(View(s.table, s.live, s.procs[i]), old(FreeEvent(k, ptr)))
  {
    ghost var r, e := s.procs[i], FreeEvent(k, ptr);
    AllOwned(k, s);
    assert p.Snapshot(k, r.space) == View(s.table, s.live, r);
    p.Free(k, ptr, r.space);
    assert p.Snapshot(k, r.space) == After(View(s.table, s.live, r), e);
    forall j | 0 <= j < |s.procs| && j != i
      ensures IsSpace(k, s.procs[j].space) && Pages(k, s.procs[j].space) == s.procs[j].pages
    {
      TablesApart(s, i, j);
      FreedElsewhere(View(s.table, s.live, r), e, s.procs[j].space);
      assert ShrinksBeside(k, r.space.tables, s.procs[j].space);
    }
  }

  lemma FreedElsewhere(m: Memory, e: Event, sq: Space)
    requires |m.table| == HEAP_BLOCKS && |m.pages| == PAGES && OwnedIn(m.live, sq) && !e.Malloced?
    requires match e
             case Released(ptr) => ptr != 0 && SlotOf(m.slots, ptr) >= 0 ==> BlockOf(ptr) !in sq.Blocks()
             case Strayed => SlotOf(m.slots, 0) >= 0 ==> 0 !in sq.Blocks()
             case Malloced(_) => true
    ensures OwnedIn(After(m, e).live, sq)
  {
  }

  /** process_free, of any pointer: one step of the system. */
  method FreeInSystem(k: Kernel, p: Process, ptr: Word, ghost s: System, ghost i: nat)
    returns (ghost e: Event, ghost s': System)
    requires Standing(s) && Realizes(k, s) && i < |s.procs| && Runs(p, s.procs[i])
    requires Shapely(s.procs[i].slots, s.procs[i].space) && SpacesSpared(s, s.procs[i].slots, FreeEvent(k, ptr))
    modifies k.heap.mem, k.ram, k`live, p.allocations, p`released, (if ptr == 0 then {k.heap.low} else {})
    ensures e == old(FreeEvent(k, ptr)) && SystemStep(s, Act(i, e), s') && Realizes(k, s')
    ensures |s'.procs| == |s.procs| && Runs(p, s'.procs[i])
  {
    e := FreeEvent(k, ptr);
    s' := ActOn(s, i, e);
    FreeBesideOthers(k, p, ptr, s, i);
  }

  /** Where all processes are apart, process_free can be called with any pointer that does not
      stray into the table while block 0 is held. */
  lemma FreeAllowed(s: System, i: nat, e: Event)
    requires Separate(s) && i < |s.procs| && KeepsApart(s, Act(i, e))
    ensures Shapely(s.procs[i].slots, s.procs[i].space) && SpacesSpared(s, s.procs[i].slots, e)
  {
    var p := s.procs[i];
    assert ProcHeld(s.table, s.live, p);
    ValidIsShapely(s.live, p.slots, p.pages, p.released, p.space);
    match e
    case Released(ptr) =>
      if ptr != 0 && SlotOf(p.slots, ptr) >= 0 {
        assert BlockOf(ptr) in Slots(p) by { assert p.slots[SlotOf(p.slots, ptr)].ptr == ptr; }
        forall j | 0 <= j < |s.procs| ensures BlockOf(ptr) !in s.procs[j].space.Blocks() {
          if j != i { assert Held(p) !! Held(s.procs[j]); }
        }
      }
    case Strayed => assert forall j :: 0 <= j < |s.procs| && 0 in s.procs[j].space.Blocks() ==> 0 in Held(s.procs[j]);
    case Malloced(_) =>
  }

  /** Two processes of the system. */
  ghost predicate TwoRun(k: Kernel, a: Process, b: Process, s: System, i: nat, j: nat)
    reads k, k.heap.mem, k.ram, a, a.allocations, a.task, b, b.allocations, b.task
  {
    && Standing(s) && Realizes(k, s) && i < |s.procs| && j < |s.procs| && i != j
    && Runs(a, s.procs[i]) && Runs(b, s.procs[j]) && a != b && a.allocations != b.allocations
  }

  /** A call of the first of them. */
  method MallocOfTwo(k: Kernel, a: Process, b: Process, size: Word, ghost s: System, ghost i: nat, ghost j: nat)
    returns (ptr: Word)
    requires TwoRun(k, a, b, s, i, j) && size <= LARGEST && IsTable(ActOn(s, i, Malloced(size)))
    modifies k.heap.mem, k.ram, k`live, a.allocations, a`released
    ensures TwoRun(k, a, b, ActOn(s, i, Malloced(size)), i, j) && TwoRun(k, b, a, ActOn(s, i, Malloced(size)), j, i)
    ensures ptr == Answer(s.table, s.procs[i].slots, size)
  {
    ghost var s';
    StandsStill(s, i, Malloced(size));
    ptr, s' := MallocInSystem(k, a, size, s, i);
  }

  method FreeOfTwo(k: Kernel, a: Process, b: Process, ptr: Word, ghost s: System, ghost i: nat, ghost j: nat)
    requires TwoRun(k, a, b, s, i, j) && ptr != 0 && IsTable(ActOn(s, i, Released(ptr)))
    requires Shapely(s.procs[i].slots, s.procs[i].space) && SpacesSpared(s, s.procs[i].slots, Released(ptr))
    modifies k.heap.mem, k.ram, k`live, a.allocations, a`released
    ensures TwoRun(k, a, b, ActOn(s, i, Released(ptr)), i, j)
  {
    ghost var s', e;
    StandsStill(s, i, Released(ptr));
    e, s' := FreeInSystem(k, a, ptr, s, i);
  }

  /** The four calls of ZeroSizeTwoWriters, carried out: both processes can write the block. */
  method ZeroSizeRun(k: Kernel, a: Process, b: Process, size: Word, ghost s: System, ghost i: nat, ghost j: nat)
    returns (again: Word, ghost s4: System)
    requires Separate(s) && TwoRun(k, a, b, s, i, j) && size <= LARGEST
    requires StartBlock(s.table, 0) >= 0 && TwoRequests(s, i, j, size, StartBlock(s.table, 0))
    modifies k.heap.mem, k.ram, k`live, a.allocations, a`released, b.allocations, b`released
    ensures TwoRun(k, a, b, s4, i, j) && again == Addr(StartBlock(s.table, 0))
    ensures |s4.procs[i].pages| == |s4.procs[j].pages| == PAGES
    ensures CanWrite(s4.procs[i].pages, StartBlock(s.table, 0)) && CanWrite(s4.procs[j].pages, StartBlock(s.table, 0))
  {
    ghost var r: nat := StartBlock(s.table, 0);
    ZeroSizeFirst(s, i, j, size, r);
    var empty := MallocOfTwo(k, a, b, 0, s, i, j);
    ghost var s1 := ActOn(s, i, Malloced(0));
    var served := MallocOfTwo(k, b, a, size, s1, j, i);
    ghost var s2 := ActOn(s1, j, Malloced(size));
    ZeroSizeSecond(s, i, j, size, r, s2);
    StartNotLive(s.table, s.live, 0);
    EmptySlotFree(s, i, SlotOf(s.procs[i].slots, 0), r, s2);
    FreeOfTwo(k, a, b, empty, s2, i, j);
    ghost var s3 := ActOn(s2, i, Released(Addr(r)));
    again := MallocOfTwo(k, a, b, size, s3, i, j);
    s4 := ActOn(s3, i, Malloced(size));
  }

  lemma StandsStill(s: System, i: nat, e: Event)
    requires Standing(s) && i < |s.procs| && |s.procs[i].pages| == PAGES && IsTable(ActOn(s, i, e))
    ensures Standing(ActOn(s, i, e))
  {
    assert forall n :: 0 <= n < |s.procs| ==> ActOn(s, i, e).procs[n].space == s.procs[n].space;
  }

  /** The slot of a request for no bytes is shaped like any other, and its block is in no
      address space. */
  lemma EmptySlotFree(s: System, i: nat, x: nat, r: nat, s2: System)
    requires Separate(s) && i < |s.procs| == |s2.procs| && x < |s.procs[i].slots| && r < HEAP_BLOCKS && r !in s.live
    requires s2.procs[i].slots == s.procs[i].slots[x := Allocation(Addr(r), 0)]
    requires forall n :: 0 <= n < |s.procs| ==> s2.procs[n].space == s.procs[n].space
    ensures Shapely(s2.procs[i].slots, s2.procs[i].space) && SpacesSpared(s2, s2.procs[i].slots, Released(Addr(r)))
  {
    NotInSpaces(s, r);
    SlotsShapely(s, i, x, r);
  }

  lemma NotInSpaces(s: System, r: nat)
    requires Separate(s) && r !in s.live
    ensures forall n :: 0 <= n < |s.procs| ==> r !in s.procs[n].space.Blocks()
  {
    forall n | 0 <= n < |s.procs| ensures r !in s.procs[n].space.Blocks() {
      assert ProcHeld(s.table, s.live, s.procs[n]);
      assert s.procs[n].space.Blocks() <= Held(s.procs[n]);
    }
  }

  lemma SlotsShapely(s: System, i: nat, x: nat, r: nat)
    requires Separate(s) && i < |s.procs| && x < |s.procs[i].slots| && r < HEAP_BLOCKS
    requires r !in s.procs[i].space.Blocks()
    ensures Shapely(s.procs[i].slots[x := Allocation(Addr(r), 0)], s.procs[i].space)
  {
    var p := s.procs[i];
    assert ProcHeld(s.table, s.live, p);
    ValidIsShapely(s.live, p.slots, p.pages, p.released, p.space);
    SpaceParts(p.space);
  }

  // ---- The kernel's own runs ----

  /** kzalloc disturbs no address space. */
  method KzallocBesideAll(k: Kernel, size: Word, ghost s: System) returns (ptr: Word)
    requires Standing(s) && Realizes(k, s) && size <= LARGEST
    modifies k.heap.mem, k.ram, k`live
    ensures k.Took(s.table, s.live, size, ptr) && OthersThere(k, s, |s.procs|)
  {
    AllOwned(k, s);
    ptr := k.Kzalloc(size);
    forall j | 0 <= j < |s.procs|
      ensures IsSpace(k, s.procs[j].space) && Pages(k, s.procs[j].space) == s.procs[j].pages
    {
      SpaceKept(s.table, s.live, k.live, BlocksFor(size), s.procs[j].space);
      assert GrowsBeside(k, s.table, [], s.procs[j].space);
    }
  }

  lemma TakenIsTurn(s: System, s': System, n: nat)
    requires IsTable(s) && Keeps(s.table, n) && s'.procs == s.procs
    requires var r := StartBlock(s.table, n);
      if r < 0 then s'.live == s.live && s'.table == s.table
      else s'.table == Marked(s.table, r, n) && s'.live == if Fits(s.table, n) then s.live[r := n] else s.live
    ensures SystemStep(s, Turn.Kernel, s')
  {
    var r := StartBlock(s.table, n);
    StartNotLive(s.table, s.live, n);
    if Fits(s.table, n) {
      MarkAddsRun(s.table, s.live, r, n);
    } else if r >= 0 {
      assert Marked(s.table, r, n) == s.table;
    }
  }

  /** kzalloc for the kernel itself, of any size that keeps the table. */
  method KzallocInSystem(k: Kernel, size: Word, ghost s: System) returns (ptr: Word, ghost s': System)
    requires Standing(s) && Realizes(k, s) && size <= LARGEST && Keeps(s.table, BlocksFor(size))
    modifies k.heap.mem, k.ram, k`live
    ensures SystemStep(s, Turn.Kernel, s') && Realizes(k, s')
    ensures ptr == 0 <==> StartBlock(s.table, BlocksFor(size)) < 0
  {
    ptr := KzallocBesideAll(k, size, s);
    s' := System(k.Table(), k.live, s.procs);
    TakenIsTurn(s, s', BlocksFor(size));
  }

  /** kfree of a run of the kernel's own. */
  method KfreeInSystem(k: Kernel, ptr: Word, ghost s: System) returns (ghost s': System)
    requires Separate(s) && Realizes(k, s) && IsHead(s.live, ptr)
    requires forall j :: 0 <= j < |s.procs| ==> BlockOf(ptr) !in Held(s.procs[j])
    modifies k.heap.mem, k`live
    ensures SystemStep(s, Turn.Kernel, s') && Realizes(k, s') && s'.live == s.live - {BlockOf(ptr)}
  {
    SeparateStands(s);
    KfreeBesideAll(k, ptr, s);
    s' := System(k.Table(), k.live, s.procs);
  }

  /** kfree of a block of no address space disturbs none. */
  method KfreeBesideAll(k: Kernel, ptr: Word, ghost s: System)
    requires Standing(s) && Realizes(k, s) && IsHead(s.live, ptr)
    requires forall j :: 0 <= j < |s.procs| ==> BlockOf(ptr) !in s.procs[j].space.Blocks()
    modifies k.heap.mem, k`live
    ensures k.Valid() && k.live == s.live - {BlockOf(ptr)} && OthersThere(k, s, |s.procs|)
  {
    AllOwned(k, s);
    k.KfreeLive(ptr);
    forall j | 0 <= j < |s.procs|
      ensures IsSpace(k, s.procs[j].space) && Pages(k, s.procs[j].space) == s.procs[j].pages
    {
      OwnedStill(s.live, k.live, BlockOf(ptr), s.procs[j].space);
      assert ShrinksBeside(k, [], s.procs[j].space);
    }
  }

  // ---- Starting a process ----

  /** The runs the program can write from the start. */
  ghost function ImageHeads(p: Process): set<int>
    reads p, if p.program.Elf? then {p.program.file} else {}
  {
    StackHeads(p.stack) +
    match p.program
    case Binary(ptr, _) => if ptr == 0 then {} else {BlockOf(ptr)}
    case Elf(file) => if file == null || file.elfMemory == 0 then {} else {BlockOf(file.elfMemory)}
  }

  ghost function StructHeads(p: Process): set<int>
    requires p.task != null
    reads p, p.task, if p.program.Elf? then {p.program.file} else {}
  {
    {BlockOf(p.task.self)} + {BlockOf(p.self)} +
    if p.program.Elf? && p.program.file != null then {BlockOf(p.program.file.self)} else {}
  }

  ghost function ProcOf(k: Kernel, p: Process, sp: Space): (r: Proc)
    requires IsSpace(k, sp) && p.task != null
    reads k, k.ram, p, p.allocations, p.task, if p.program.Elf? then {p.program.file} else {}
    ensures |r.pages| == PAGES
  {
    Proc(p.allocations[..], Pages(k, sp), p.released, sp, ImageHeads(p), StructHeads(p))
  }

  /** What process_map_memory finds: the stack's run, and a binary's run of exactly its size. */
  ghost predicate Mappable(live: map<nat, nat>, p: Process, image: set<int>)
    reads p
  {
    && StackLaid(live, image, p.stack)
    && match p.program
       case Elf(file) => file != null
       case Binary(ptr, size) =>
         && IsHead(live, ptr) && BlockOf(ptr) in image && live[BlockOf(ptr)] == BlocksFor(size) > 0
         && BlockOf(ptr) + BlocksFor(size) <= HEAP_BLOCKS
  }

  lemma LoadedMappable(p: Process, table: seq<bv8>, was: map<nat, nat>, now: map<nat, nat>)
    requires |table| == HEAP_BLOCKS && Encodes(table, now) && Kept(was, now, was.Keys)
    requires OwnsProgram(was, p.program) && (p.program.Elf? ==> p.program.file != null)
    requires IsHead(was, p.stack) && was[BlockOf(p.stack)] >= STACK_SIZE / PAGE_SIZE
    requires p.program.Binary? ==> p.program.ptr != 0 && was[BlockOf(p.program.ptr)] == BlocksFor(p.program.size)
    ensures Mappable(now, p, ImageHeads(p))
  {
    var h: nat := BlockOf(p.stack);
    assert h in StackHeads(p.stack) && now[h] == was[h];
  }

  /** The address of a block of the heap or behind it. */
  predicate OnHeap(ptr: Word) {
    ptr >= HEAP_ADDRESS && ptr == Addr(BlockOf(ptr))
  }

  /** The pointers of the process are heap addresses, all different, and `r` names them. */
  ghost predicate Laid(p: Process, r: Proc)
    reads p, p.task, if p.program.Elf? then {p.program.file} else {}
  {
    && p.task != null && OnHeap(p.task.self) && OnHeap(p.self) && (p.stack != 0 ==> OnHeap(p.stack))
    && (match p.program
        case Binary(ptr, _) => ptr != 0 ==> OnHeap(ptr)
        case Elf(file) =>
          file != null ==> OnHeap(file.self) && (file.elfMemory != 0 ==>
            OnHeap(file.elfMemory) && BlockOf(file.elfMemory) != BlockOf(file.self)))
    && Apart({}, ProgramHeads(p.program), StackHeads(p.stack), r.space.Blocks(), BlockOf(p.task.self), BlockOf(p.self))
    && r.image == ImageHeads(p) && r.structs == StructHeads(p)
  }

  lemma LoadedLaid(p: Process, was: map<nat, nat>, r: Proc)
    requires p.task != null && OwnsProgram(was, p.program) && (p.program.Elf? ==> p.program.file != null)
    requires IsHead(was, p.stack) && IsHead(was, p.self) && OnHeap(p.task.self)
    requires Apart({}, ProgramHeads(p.program), StackHeads(p.stack), {}, BlockOf(p.self), -1)
    requires BlockOf(p.task.self) !in was && BlockOf(p.task.self) !in r.space.Blocks()
    requires forall b :: b in r.space.Blocks() ==> b !in was
    requires r.image == ImageHeads(p) && r.structs == StructHeads(p)
    ensures Laid(p, r)
  {
    assert forall h :: h in ProgramHeads(p.program) ==> h in was;
  }

  /** What a process owns before and after it gets struct and address space. */
  lemma LoadedHolds(k: Kernel, p: Process, sp: Space)
    requires IsSpace(k, sp) && p.task != null && HoldsNothing(ProcOf(k, p, sp))
    ensures Held(ProcOf(k, p, sp)) == LoadedHeads(p) + sp.Blocks() + {BlockOf(p.task.self)}
    ensures Slots(ProcOf(k, p, sp)) == {}
  {
    assert ImageHeads(p) + StructHeads(p) == LoadedHeads(p) + {BlockOf(p.task.self)};
  }

  /** A process that has just got its address space is valid. */
  lemma NewcomerOk(k: Kernel, p: Process, sp: Space, was: map<nat, nat>)
    requires p.Inv(k, sp) && HoldsNothing(ProcOf(k, p, sp)) && ReadOnly(Pages(k, sp))
    requires OwnsProgram(was, p.program) && IsHead(was, p.stack) && IsHead(was, p.self)
    requires Apart({}, ProgramHeads(p.program), StackHeads(p.stack), {}, BlockOf(p.self), -1)
    requires BlockOf(p.task.self) in k.live && BlockOf(p.task.self) !in was && BlockOf(p.task.self) !in sp.Blocks()
    requires forall b :: b in sp.Blocks() ==> b in k.live && b !in was
    requires Kept(was, k.live, was.Keys)
    ensures ProcHeld(k.Table(), k.live, ProcOf(k, p, sp))
  {
    LoadedHolds(k, p, sp);
    assert forall h :: h in LoadedHeads(p) ==> h in was;
  }

  /** task_new beside the processes there are. */
  method TaskNewBeside(k: Kernel, st: Scheduler, p: Process, size: Word, ghost order: seq<Task>, ghost s: System)
    returns (task: Task, ghost sp: Space)
    requires Standing(s) && Realizes(k, s) && Loaded(k, p) && Listed(st, order)
    requires 0 < size <= BLOCK_SIZE && FreeCount(k.Table()) > SPACE_BLOCKS
    modifies k.heap.mem, k.ram, k`live, st, (if st.tail != null then {st.tail} else {})`next, p`task
    ensures fresh(task) && p.task == task && p.Inv(k, sp) && IsLast(st, task, order) && ReadOnly(Pages(k, sp))
    ensures OthersThere(k, s, |s.procs|)
    ensures IsHead(k.live, task.self) && BlockOf(task.self) !in s.live && BlockOf(task.self) !in sp.Blocks()
    ensures Fresh(s.live[BlockOf(task.self) := 1], k.live, sp.Blocks())
  {
    AllOwned(k, s);
    task, sp := TaskNew(k, st, p, size, order);
    forall j | 0 <= j < |s.procs|
      ensures IsSpace(k, s.procs[j].space) && Pages(k, s.procs[j].space) == s.procs[j].pages
    {
      OwnedAmongMore(s.live, k.live, BlockOf(task.self), sp.Blocks(), s.procs[j].space);
      assert GrowsBeside(k, s.table, [], s.procs[j].space);
    }
  }

  lemma OwnedAmongMore(was: map<nat, nat>, now: map<nat, nat>, b: nat, taken: set<nat>, sq: Space)
    requires b !in was && Fresh(was[b := 1], now, taken) && OwnedIn(was, sq)
    ensures OwnedIn(now, sq)
  {
  }

  lemma FreshKeeps(was: map<nat, nat>, now: map<nat, nat>, b: nat, taken: set<nat>)
    requires b !in was && b !in taken && Fresh(was[b := 1], now, taken)
    ensures Kept(was, now, was.Keys) && b in now && forall t :: t in taken ==> t in now && t !in was
  {
  }

  /** A loaded process that has just got its address space. */
  ghost predicate Started(k: Kernel, p: Process, sp: Space, s: System)
    reads k, k.heap.mem, k.ram, p, p.allocations, p.task, if p.program.Elf? then {p.program.file} else {}
  {
    && p.Inv(k, sp) && ReadOnly(Pages(k, sp)) && OthersThere(k, s, |s.procs|)
    && OwnsProgram(s.live, p.program) && (p.program.Elf? ==> p.program.file != null)
    && IsHead(s.live, p.stack) && s.live[BlockOf(p.stack)] >= STACK_SIZE / PAGE_SIZE && IsHead(s.live, p.self)
    && (p.program.Binary? ==> p.program.ptr != 0 && s.live[BlockOf(p.program.ptr)] == BlocksFor(p.program.size))
    && Apart({}, ProgramHeads(p.program), StackHeads(p.stack), {}, BlockOf(p.self), -1)
    && p.released == {} && (forall n :: 0 <= n < p.allocations.Length ==> p.allocations[n] == EMPTY)
    && IsHead(k.live, p.task.self) && BlockOf(p.task.self) !in s.live && BlockOf(p.task.self) !in sp.Blocks()
    && Fresh(s.live[BlockOf(p.task.self) := 1], k.live, sp.Blocks())
  }

  method StartBeside(k: Kernel, st: Scheduler, p: Process, size: Word, ghost order: seq<Task>, ghost s: System)
    returns (task: Task, ghost sp: Space)
    requires Standing(s) && Realizes(k, s) && Loaded(k, p) && Listed(st, order)
    requires 0 < size <= BLOCK_SIZE && FreeCount(k.Table()) > SPACE_BLOCKS
    modifies k.heap.mem, k.ram, k`live, st, (if st.tail != null then {st.tail} else {})`next, p`task
    ensures fresh(task) && p.task == task && IsLast(st, task, order) && Started(k, p, sp, s)
    ensures LoadedHeads(p) == old(LoadedHeads(p))
  {
    task, sp := TaskNewBeside(k, st, p, size, order, s);
  }

  /** task_new lets a loaded process, whose runs nobody holds, join the system, with no page
      it can write. */
  method JoinInSystem(k: Kernel, st: Scheduler, p: Process, size: Word, ghost order: seq<Task>, ghost s: System)
    returns (task: Task, ghost r: Proc, ghost s': System)
    requires Separate(s) && Realizes(k, s) && Loaded(k, p) && Listed(st, order)
    requires forall j :: 0 <= j < |s.procs| ==> LoadedHeads(p) !! Held(s.procs[j])
    requires 0 < size <= BLOCK_SIZE && FreeCount(k.Table()) > SPACE_BLOCKS
    modifies k.heap.mem, k.ram, k`live, st, (if st.tail != null then {st.tail} else {})`next, p`task
    ensures SystemStep(s, Join(r), s') && Realizes(k, s') && Runs(p, r) && IsLast(st, task, order)
    ensures p.task == task && Laid(p, r) && Mappable(s'.live, p, r.image)
  {
    ghost var sp;
    SeparateStands(s);
    task, sp := StartBeside(k, st, p, size, order, s);
    r, s' := ProcOf(k, p, sp), System(k.Table(), k.live, s.procs + [ProcOf(k, p, sp)]);
    Newcomer(k, p, sp, s, r, s');
  }

  /** What the loaded process is once it has its address space. */
  lemma Newcomer(k: Kernel, p: Process, sp: Space, s: System, r: Proc, s': System)
    requires Separate(s) && Started(k, p, sp, s)
    requires forall j :: 0 <= j < |s.procs| ==> LoadedHeads(p) !! Held(s.procs[j])
    requires r == ProcOf(k, p, sp) && s' == System(k.Table(), k.live, s.procs + [r])
    ensures SystemStep(s, Join(r), s') && Realizes(k, s') && Runs(p, r)
    ensures Laid(p, r) && Mappable(s'.live, p, r.image)
  {
    FreshKeeps(s.live, k.live, BlockOf(p.task.self), sp.Blocks());
    NewcomerOk(k, p, sp, s.live);
    LoadedHolds(k, p, sp);
    LoadedLaid(p, s.live, r);
    LoadedMappable(p, k.Table(), s.live, k.live);
    JoinersApart(s, r, LoadedHeads(p), BlockOf(p.task.self));
  }

  lemma JoinersApart(s: System, r: Proc, loaded: set<int>, self: int)
    requires Separate(s) && Held(r) == loaded + r.space.Blocks() + {self}
    requires self !in s.live && forall b :: b in r.space.Blocks() ==> b !in s.live
    requires forall j :: 0 <= j < |s.procs| ==> loaded !! Held(s.procs[j])
    ensures forall j :: 0 <= j < |s.procs| ==> Held(s.procs[j]) !! Held(r)
  {
    forall j | 0 <= j < |s.procs| ensures Held(s.procs[j]) !! Held(r) {
      assert ProcHeld(s.table, s.live, s.procs[j]);
      assert forall h :: h in Held(s.procs[j]) ==> h in s.live;
    }
  }

  // ---- Mapping its program ----

  /** process_map_memory of a process that holds nothing yet, and cannot write anything, is a
      step of the system. The process can write its own memory only, after it, if and only if
      it is a flat binary or the program headers that were mapped are confined. */
  method MapInSystem(k: Kernel, p: Process, ghost s: System, ghost i: nat)
    returns (res: int, ghost done: nat, ghost l: Layout, ghost s': System)
    requires Standing(s) && Realizes(k, s) && i < |s.procs| && Runs(p, s.procs[i])
    requires HoldsNothing(s.procs[i]) && |s.procs[i].pages| == PAGES && ReadOnly(s.procs[i].pages)
    requires Mappable(s.live, p, s.procs[i].image)
    modifies k.ram
    ensures p.program.Elf? ==>
              var phdrs := p.program.file.phdrs;
              && done <= |phdrs| && (res == 0 <==> done == |phdrs|)
              && (done < |phdrs| ==> !Accepted(p.program.file.elfMemory, phdrs[done]))
    ensures l == LayoutOf(p.program, res, done, p.stack)
    ensures SystemStep(s, Map(i, l), s') && Realizes(k, s') && |s'.procs| == |s.procs| && Runs(p, s'.procs[i])
    ensures ProcConfined(s'.live, s'.procs[i]) <==> p.program.Binary? || LayoutConfined(s.live, s.procs[i].image, l)
  {
    ghost var program;
    res, done, program := MapBesideOthers(k, p, s, i);
    MappedIsLayout(p.program, res, done, s.procs[i].pages, program, p.stack);
    l := LayoutOf(p.program, res, done, p.stack);
    s' := s.(procs := s.procs[i := s.procs[i].(pages := MapLayout(s.procs[i].pages, l))]);
    Maps(s, i, p, res, done, l, s');
    RealizedWith(k, s, i, MapLayout(s.procs[i].pages, l), s');
  }

  lemma RealizedWith(k: Kernel, s: System, i: nat, ps: seq<Word>, s': System)
    requires k.Shaped() && s.table == k.Table() && s.live == k.live && i < |s.procs| && OthersThere(k, s, i)
    requires IsSpace(k, s.procs[i].space) && Pages(k, s.procs[i].space) == ps
    requires s' == s.(procs := s.procs[i := s.procs[i].(pages := ps)])
    ensures Realizes(k, s')
  {
  }

  lemma Maps(s: System, i: nat, p: Process, res: int, done: nat, l: Layout, s': System)
    requires i < |s.procs| && HoldsNothing(s.procs[i]) && |s.procs[i].pages| == PAGES && ReadOnly(s.procs[i].pages)
    requires Mappable(s.live, p, s.procs[i].image) && (p.program.Elf? ==> done <= |p.program.file.phdrs|)
    requires l == LayoutOf(p.program, res, done, p.stack) && AllAccepted(l.memory, l.phdrs)
    requires s' == s.(procs := s.procs[i := s.procs[i].(pages := MapLayout(s.procs[i].pages, l))])
    ensures SystemStep(s, Map(i, l), s')
    ensures ProcConfined(s'.live, s'.procs[i]) <==> p.program.Binary? || LayoutConfined(s.live, s.procs[i].image, l)
  {
    var r := s.procs[i];
    ConfinedIff(s.live, r.image, r.slots, r.pages, l);
    LayoutOfBinary(s.live, p, r.image, res, done);
  }

  lemma LayoutOfBinary(live: map<nat, nat>, p: Process, image: set<int>, res: int, done: nat)
    requires Mappable(live, p, image) && (p.program.Elf? ==> done <= |p.program.file.phdrs|)
    ensures p.program.Binary? ==> LayoutConfined(live, image, LayoutOf(p.program, res, done, p.stack))
  {
    match p.program
    case Binary(ptr, size) => if res == 0 { BinaryConfined(live, image, ptr, size, p.stack, true); }
    case Elf(_) =>
  }

  method MapBesideOthers(k: Kernel, p: Process, ghost s: System, ghost i: nat)
    returns (res: int, ghost done: nat, ghost program: seq<Word>)
    requires Standing(s) && Realizes(k, s) && i < |s.procs| && Runs(p, s.procs[i])
    requires Mappable(s.live, p, s.procs[i].image)
    modifies k.ram
    ensures IsSpace(k, s.procs[i].space) && OthersThere(k, s, i) && |program| == PAGES == |s.procs[i].pages|
    ensures ProgramMapped(p.program, res, done, s.procs[i].pages, program)
    ensures Pages(k, s.procs[i].space) == if res == 0 then WithStack(program, p.stack) else program
  {
    ghost var r := s.procs[i];
    AllOwned(k, s);
    res, done, program := MapMemory(k, p, r.space);
    forall j | 0 <= j < |s.procs| && j != i
      ensures IsSpace(k, s.procs[j].space) && Pages(k, s.procs[j].space) == s.procs[j].pages
    {
      TablesApart(s, i, j);
      assert ShrinksBeside(k, r.space.tables, s.procs[j].space);
    }
  }

  // ---- Ending a process ----

  lemma HeldInv(k: Kernel, p: Process, s: System, i: nat)
    requires Separate(s) && Realizes(k, s) && i < |s.procs| && Runs(p, s.procs[i])
    ensures p.Inv(k, s.procs[i].space)
  {
    assert ProcHeld(s.table, s.live, s.procs[i]);
  }

  lemma LaidOwns(k: Kernel, p: Process, r: Proc)
    requires k.Valid() && Runs(p, r) && Laid(p, r) && ProcHeld(k.Table(), k.live, r)
    ensures OwnsApart(k, p, r.space) && OwnedHeads(p, r.space) == Held(r)
  {
    assert ProgramHeads(p.program) <= r.image + r.structs;
    assert |r.slots| == MAX_PROGRAM_ALLOCATION;
    assert OwnedHeads(p, r.space) == Held(r);
    assert forall h :: h in ProgramHeads(p.program) ==> h in Held(r);
    assert p.stack != 0 ==> BlockOf(p.stack) in StackHeads(p.stack);
  }

  /** process_free_process beside the others, confined or not: another process keeps its
      address space and all its pages if and only if it is spared. */
  method FreeProcessBeside(k: Kernel, st: Scheduler, p: Process, ghost order: seq<Task>, ghost x: nat,
                           ghost s: System, ghost i: nat)
    requires Separate(s) && Realizes(k, s) && i < |s.procs| && Runs(p, s.procs[i]) && Laid(p, s.procs[i])
    requires st.Forward(order) && x < |order| && p.task == order[x] && st.current != null && PrevInRam(p.task)
    modifies k.heap.mem, k.ram, k`live, p, p.allocations, st, (if p.task.prev != null then {p.task.prev} else {})`next
    ensures k.Valid() && k.live == s.live - Held(s.procs[i])
    ensures forall j :: 0 <= j < |s.procs| && j != i ==>
              (IsSpace(k, s.procs[j].space) && Pages(k, s.procs[j].space) == s.procs[j].pages
               <==> old(Spared(k, s.procs[j].space, PrevBlock(p.task), NextWord(p.task.next))))
    ensures st.Forward(Without(order, x)) <==> old(UnlinksCleanly(order, x))
  {
    ghost var r, prev, word := s.procs[i], PrevBlock(p.task), NextWord(p.task.next);
    SeparateStands(s);
    AllOwned(k, s);
    HeldInv(k, p, s, i);
    LaidOwns(k, p, r);
    FreeProcess(k, st, p, order, x, r.space);
    forall j | 0 <= j < |s.procs| && j != i
      ensures IsSpace(k, s.procs[j].space) && Pages(k, s.procs[j].space) == s.procs[j].pages
              <==> old(Spared(k, s.procs[j].space, PrevBlock(p.task), NextWord(p.task.next)))
    {
      TablesApart(s, i, j);
      OwnedBeside(s, i, j);
      assert SparedExactly(k, r.space.tables, prev, word, s.procs[j].space);
    }
  }

  lemma OwnedBeside(s: System, i: nat, j: nat)
    requires Separate(s) && i < |s.procs| && j < |s.procs| && i != j && OwnedIn(s.live, s.procs[j].space)
    ensures OwnedIn(s.live - Held(s.procs[i]), s.procs[j].space)
  {
    assert Held(s.procs[i]) !! Held(s.procs[j]);
    assert s.procs[j].space.Blocks() <= Held(s.procs[j]);
  }

  /** process_free_process takes the process out of the system, whether it was mapped or not,
      confined or not; the other processes are as the system says if and only if they are all
      spared. */
  method LeaveInSystem(k: Kernel, st: Scheduler, p: Process, ghost order: seq<Task>, ghost x: nat,
                       ghost s: System, ghost i: nat) returns (ghost s': System)
    requires Separate(s) && Realizes(k, s) && i < |s.procs| && Runs(p, s.procs[i]) && Laid(p, s.procs[i])
    requires st.Forward(order) && x < |order| && p.task == order[x] && st.current != null && PrevInRam(p.task)
    modifies k.heap.mem, k.ram, k`live, p, p.allocations, st, (if p.task.prev != null then {p.task.prev} else {})`next
    ensures SystemStep(s, Leave(i), s')
    ensures Realizes(k, s') <==>
              forall j :: 0 <= j < |s.procs| && j != i ==>
                old(Spared(k, s.procs[j].space, PrevBlock(p.task), NextWord(p.task.next)))
    ensures st.Forward(Without(order, x)) <==> old(UnlinksCleanly(order, x))
  {
    FreeProcessBeside(k, st, p, order, x, s, i);
    s' := System(k.Table(), k.live, s.procs[..i] + s.procs[i + 1..]);
    Leaves(k, s, i, s');
  }

  /** The others are there exactly if the system without process `i` is realized. */
  lemma Leaves(k: Kernel, s: System, i: nat, s': System)
    requires k.Valid() && i < |s.procs| && k.live == s.live - Held(s.procs[i])
    requires s' == System(k.Table(), k.live, s.procs[..i] + s.procs[i + 1..])
    ensures SystemStep(s, Leave(i), s') && (Realizes(k, s') <==> OthersThere(k, s, i))
  {
    if OthersThere(k, s, i) {
      forall j | 0 <= j < |s'.procs|
        ensures IsSpace(k, s'.procs[j].space) && Pages(k, s'.procs[j].space) == s'.procs[j].pages
      {
        assert s'.procs[j] == s.procs[if j < i then j else j + 1];
      }
    }
    if Realizes(k, s') {
      forall j | 0 <= j < |s.procs| && j != i
        ensures IsSpace(k, s.procs[j].space) && Pages(k, s.procs[j].space) == s.procs[j].pages
      {
        assert s.procs[j] == s'.procs[if j < i then j else j - 1];
      }
    }
  }
}
