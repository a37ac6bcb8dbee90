/** The whole life of a process: from the end of loading to its termination. */
module Lifecycle {
  import opened Bits
  import opened HeapTable
  import opened K = Kernel
  import opened Mmu
  import opened Paging
  import opened AddressSpace
  import opened TaskList
  import opened ElfLoader
  import opened Process
  import opened Teardown
  import opened ProgramMap

  /** A process whose program and stack are loaded and which has done nothing yet. */
  ghost predicate Loaded(k: Kernel, p: Process)
    reads k, k.heap.mem, p, p.allocations, if p.program.Elf? then {p.program.file} else {}
  {
    && k.Valid() && p.task == null && p.released == {} && p.allocations.Length == MAX_PROGRAM_ALLOCATION
    && (forall i :: 0 <= i < MAX_PROGRAM_ALLOCATION ==> p.allocations[i] == EMPTY)
    && OwnsProgram(k.live, p.program) && (p.program.Elf? ==> p.program.file != null)
    && IsHead(k.live, p.stack) && k.live[BlockOf(p.stack)] >= STACK_SIZE / PAGE_SIZE && IsHead(k.live, p.self)
    && (p.program.Binary? ==>
          p.program.ptr != 0 && k.live[BlockOf(p.program.ptr)] == BlocksFor(p.program.size))
    && Apart({}, ProgramHeads(p.program), StackHeads(p.stack), {}, BlockOf(p.self), -1)
  }

  /** What it owns at that point. */
  ghost function LoadedHeads(p: Process): (r: set<int>)
    reads p, if p.program.Elf? then {p.program.file} else {}
  {
    ProgramHeads(p.program) + StackHeads(p.stack) + {BlockOf(p.self)}
  }

  /** The scheduler's list, good enough to append to. */
  ghost predicate Listed(s: Scheduler, order: seq<Task>)
    reads s, order
  {
    s.Forward(order) &&
    (order != [] ==>
       && s.tail == order[|order| - 1] && s.current != null
       && 0 <= BlockOf(order[|order| - 1].self) < HEAP_BLOCKS)
  }

  /** The scheduler's list is `order` followed by `task`. */
  ghost predicate IsLast(s: Scheduler, task: Task, order: seq<Task>)
    reads s, task, order
  {
    && s.Forward(order + [task]) && s.current != null
    && task.prev == (if order == [] then null else order[|order| - 1]) && PrevInRam(task)
  }

  /** A task's address space at its start: no page is writable, and the processor lets the task
      read every address, as itself, and write none. */
  ghost predicate NewSpace(k: Kernel, sp: Space, chunk: Word)
    reads k, k.ram
  {
    && IsSpace(k, sp) && chunk == Addr(sp.chunk) && sp.rights % 8 == 7 && ReadOnly(Pages(k, sp))
    && forall v: Word :: Walk(k, k.ram[BlockOf(chunk), 0], v) == Leads(v, false, true)
  }

  /** The address space of task_init. */
  method TaskSpace(k: Kernel) returns (chunk: Word, ghost sp: Space)
    requires k.Valid() && FreeCount(k.Table()) >= SPACE_BLOCKS
    modifies k.heap.mem, k.ram, k`live
    ensures k.Valid() && NewSpace(k, sp, chunk)
    ensures Fresh(old(k.live), k.live, sp.Blocks())
    ensures forall c, i | 0 <= c < HEAP_BLOCKS && 0 <= i < WORDS ::
              c !in sp.Blocks() ==> k.ram[c, i] == old(k.ram[c, i])
  {
    chunk, sp := New4gb(k, IS_PRESENT + ACCESS_FROM_ALL);
    NewSpaceIs(k, sp, chunk);
  }

  lemma NewSpaceIs(k: Kernel, sp: Space, chunk: Word)
    requires IsSpace(k, sp) && chunk == Addr(sp.chunk)
    requires sp.rights % 2 == 1 && sp.rights / 2 % 2 == 1 && sp.rights / 4 % 2 == 1
    requires forall p | 0 <= p < PAGES :: Pages(k, sp)[p] == Or(p * PAGE_SIZE, IS_PRESENT + ACCESS_FROM_ALL)
    requires forall v: Word :: Walk(k, Addr(sp.dir), v) == Leads(v, false, true)
    ensures NewSpace(k, sp, chunk)
  {
    BlockOfAddr(sp.chunk);
    assert k.ram[BlockOf(chunk), 0] == Addr(sp.dir);
    forall p | 0 <= p < PAGES ensures !Writable(Pages(k, sp)[p]) {
      IdentityReadOnly(p);
    }
  }

  /** The allocations of task_new and task_init. */
  method TaskMemory(k: Kernel, size: Word) returns (self: Word, chunk: Word, ghost sp: Space)
    requires k.Valid() && 0 < size <= BLOCK_SIZE && FreeCount(k.Table()) > SPACE_BLOCKS
    modifies k.heap.mem, k.ram, k`live
    ensures k.Valid() && NewSpace(k, sp, chunk)
    ensures IsHead(k.live, self) && BlockOf(self) !in sp.Blocks() && BlockOf(self) !in old(k.live)
    ensures Fresh(old(k.live)[BlockOf(self) := 1], k.live, sp.Blocks())
    ensures TakenKept(k, old(k.Table()), [])
  {
    ghost var s, was := k.Table(), k.live;
    self := TakeBlock(k, size);
    chunk, sp := TaskSpace(k);
    NewAreFree(s, was, k.Table(), k.live, {BlockOf(self)} + sp.Blocks());
  }

  /** Runs that are new were free before, all of their blocks. */
  lemma NewAreFree(s: seq<bv8>, was: map<nat, nat>, t: seq<bv8>, now: map<nat, nat>, taken: set<int>)
    requires Encodes(s, was) && Encodes(t, now) && |s| == |t|
    requires forall b :: b in was ==> b in now && now[b] == was[b]
    requires forall b :: b in taken ==> b in now && b !in was
    ensures forall b :: b in taken ==> 0 <= b < |s| && IsFree(s[b])
  {
    forall b | b in taken ensures 0 <= b < |s| && IsFree(s[b]) {
      CoveredIsTaken(s, was, b);
      assert t[b] == RunByte(b, now[b], b);
    }
  }

  /** A page mapped to itself for reading is not writable. */
  lemma IdentityReadOnly(p: nat)
    requires p < PAGES
    ensures Or(p * PAGE_SIZE, IS_PRESENT + ACCESS_FROM_ALL) < WORD
    ensures !Writable(Or(p * PAGE_SIZE, IS_PRESENT + ACCESS_FROM_ALL))
  {
    OrFlags(p * PAGE_SIZE, IS_PRESENT + ACCESS_FROM_ALL);
    BitNone(p * 1024);
  }

  lemma BitNone(q: nat)
    ensures (4 * q + 5) / 2 % 2 == 0
  {
  }

  /** Whatever its pages are, a process without allocations has valid memory. */
  lemma NothingHeld(live: map<nat, nat>, slots: seq<Allocation>, ps: seq<Word>, sp: Space)
    requires |slots| == MAX_PROGRAM_ALLOCATION && |ps| == PAGES
    requires forall i :: 0 <= i < |slots| ==> slots[i] == EMPTY
    ensures MemoryOk(live, slots, ps, {}, sp)
  {
  }

  /** task_new and task_init, with the assignment of the result by the caller. */
  method TaskNew(k: Kernel, s: Scheduler, p: Process, size: Word, ghost order: seq<Task>)
    returns (task: Task, ghost sp: Space)
    requires Loaded(k, p) && Listed(s, order)
    requires 0 < size <= BLOCK_SIZE && FreeCount(k.Table()) > SPACE_BLOCKS
    modifies k.heap.mem, k.ram, k`live, s, (if s.tail != null then {s.tail} else {})`next, p`task
    ensures fresh(task) && p.task == task && p.Inv(k, sp)
    ensures BlockOf(task.self) !in sp.Blocks() && IsHead(k.live, task.self)
    ensures BlockOf(task.self) !in old(k.live)
    ensures Fresh(old(k.live)[BlockOf(task.self) := 1], k.live, sp.Blocks())
    ensures IsLast(s, task, order)
    ensures NewSpace(k, sp, task.pageDirectory)
    ensures TakenKept(k, old(k.Table()), [])
  {
    var self, chunk;
    self, chunk, sp := TaskMemory(k, size);
    task := Adopt(k, s, p, self, chunk, order, sp);
  }

  /** The new task joins the list and belongs to the process. */
  method Adopt(k: Kernel, s: Scheduler, p: Process, self: Word, chunk: Word, ghost order: seq<Task>, ghost sp: Space)
    returns (task: Task)
    requires k.Valid() && NewSpace(k, sp, chunk) && Listed(s, order)
    requires p.allocations.Length == MAX_PROGRAM_ALLOCATION && p.released == {}
    requires forall i :: 0 <= i < MAX_PROGRAM_ALLOCATION ==> p.allocations[i] == EMPTY
    modifies s, (if s.tail != null then {s.tail} else {})`next, p`task
    ensures fresh(task) && task.self == self && NewSpace(k, sp, task.pageDirectory)
    ensures p.task == task && p.Inv(k, sp) && IsLast(s, task, order)
  {
    task := Enlist(s, self, chunk, order);
    p.task := task;
    FirstInv(k, p, sp);
  }

  lemma FirstInv(k: Kernel, p: Process, sp: Space)
    requires k.Valid() && IsSpace(k, sp) && sp.rights % 8 == 7
    requires p.task != null && p.task.pageDirectory == Addr(sp.chunk)
    requires p.allocations.Length == MAX_PROGRAM_ALLOCATION && p.released == {}
    requires forall i :: 0 <= i < MAX_PROGRAM_ALLOCATION ==> p.allocations[i] == EMPTY
    ensures p.Inv(k, sp)
  {
    NothingHeld(k.live, p.allocations[..], Pages(k, sp), sp);
  }

  method Enlist(s: Scheduler, self: Word, chunk: Word, ghost order: seq<Task>) returns (task: Task)
    requires Listed(s, order)
    modifies s, (if s.tail != null then {s.tail} else {})`next
    ensures fresh(task) && task.self == self && task.pageDirectory == chunk
    ensures IsLast(s, task, order)
  {
    task := new Task(self, chunk);
    s.Append(task, order);
  }

  // ---- What the process owns while it runs ----

  /** Without the blocks of the process the heap is as it was before them. */
  ghost predicate Owning(k: Kernel, p: Process, sp: Space, rest: map<nat, nat>)
    reads k, k.heap.mem, k.ram, p, p.allocations, p.task, if p.program.Elf? then {p.program.file} else {}
  {
    p.Inv(k, sp) && OwnsApart(k, p, sp) && k.live - OwnedHeads(p, sp) == rest
  }

  /** The owners apart from the slots. */
  datatype Rest = Rest(program: set<int>, stack: set<int>, space: set<nat>, task: int, self: int)

  ghost predicate SlotsApart(heads: set<int>, r: Rest) {
    Apart(heads, r.program, r.stack, r.space, r.task, r.self)
  }

  ghost function AllHeads(heads: set<int>, r: Rest): set<int> {
    heads + r.program + r.stack + r.space + {r.task} + {r.self}
  }

  /** The owners hold different blocks, those of `r` are allocated, and without all of them
      the heap is `rest`. */
  ghost predicate OwningRest(m: Memory, r: Rest, rest: map<nat, nat>) {
    HeadsOk(m.live, SlotHeads(m.slots, |m.slots|), r, rest)
  }

  ghost predicate HeadsOk(live: map<nat, nat>, heads: set<int>, r: Rest, rest: map<nat, nat>) {
    && SlotsApart(heads, r)
    && (forall x :: x in AllHeads({}, r) ==> x in live)
    && live - AllHeads(heads, r) == rest
  }

  lemma HeadTaken(live: map<nat, nat>, heads: set<int>, r: Rest, rest: map<nat, nat>, b: nat, n: nat)
    requires HeadsOk(live, heads, r, rest) && b !in live
    ensures HeadsOk(live[b := n], heads + {b}, r, rest)
  {
  }

  lemma HeadReleased(live: map<nat, nat>, heads: set<int>, r: Rest, rest: map<nat, nat>, b: int)
    requires HeadsOk(live, heads, r, rest) && b in heads
    ensures HeadsOk(live - {b}, heads - {b}, r, rest)
  {
  }

  lemma MallocMovesRun(m: Memory, size: Word, sp: Space, r: Rest, rest: map<nat, nat>)
    requires Good(m, sp) && Harmless(m, Malloced(size), sp) && OwningRest(m, r, rest)
    ensures OwningRest(AfterMalloc(m, size), r, rest)
  {
    if Answer(m.table, m.slots, size) != 0 {
      var b, n, i := StartBlock(m.table, BlocksFor(size)), BlocksFor(size), SlotOf(m.slots, 0);
      StartNotLive(m.table, m.live, n);
      var heads, m' := SlotHeads(m.slots, |m.slots|), AfterMalloc(m, size);
      HeadsAdded(m.slots, i, Allocation(Addr(b), size));
      HeadTaken(m.live, heads, r, rest, b, n);
      assert m'.live == m.live[b := n] && SlotHeads(m'.slots, |m'.slots|) == heads + {b};
    }
  }

  lemma ReleaseMovesRun(m: Memory, ptr: Word, sp: Space, r: Rest, rest: map<nat, nat>)
    requires Good(m, sp) && ptr != 0 && OwningRest(m, r, rest)
    ensures OwningRest(AfterFree(m, ptr), r, rest)
  {
    var i := SlotOf(m.slots, ptr);
    if i >= 0 {
      UnjoinedOne(m.live, m.slots, i);
      HeadsDropped(m.live, m.slots, i);
      HeadReleased(m.live, SlotHeads(m.slots, |m.slots|), r, rest, BlockOf(ptr));
    }
  }

  /** A harmless request changes the slots of the process and the heap together. */
  lemma StepKeepsRest(m: Memory, e: Event, sp: Space, r: Rest, rest: map<nat, nat>)
    requires Good(m, sp) && Harmless(m, e, sp) && e != Strayed && OwningRest(m, r, rest)
    ensures OwningRest(After(m, e), r, rest)
  {
    match e
    case Malloced(size) => MallocMovesRun(m, size, sp, r, rest);
    case Released(ptr) => if ptr != 0 { ReleaseMovesRun(m, ptr, sp, r, rest); }
  }

  /** What a program asks of the kernel. */
  datatype Call = Malloc(size: Word) | Free(ptr: Word)

  ghost function RestOf(p: Process, sp: Space): Rest
    requires p.task != null
    reads p, p.task, if p.program.Elf? then {p.program.file} else {}
  {
    Rest(ProgramHeads(p.program), StackHeads(p.stack), sp.Blocks(), BlockOf(p.task.self), BlockOf(p.self))
  }

  /** Heads that are still allocated are still owned. */
  lemma OwningAgain(k: Kernel, p: Process, sp: Space, rest: map<nat, nat>, was: map<nat, nat>)
    requires p.Inv(k, sp) && OwningRest(p.Snapshot(k, sp), RestOf(p, sp), rest)
    requires OwnsProgram(was, p.program) && IsHead(was, p.task.self) && IsHead(was, p.self)
    requires p.stack != 0 ==> IsHead(was, p.stack)
    ensures Owning(k, p, sp, rest)
  {
    assert p.stack != 0 ==> BlockOf(p.stack) in StackHeads(p.stack);
  }

  method MallocKeepsRest(k: Kernel, p: Process, size: Word, ghost sp: Space, ghost r: Rest, ghost rest: map<nat, nat>)
    requires p.Inv(k, sp) && size <= LARGEST && Harmless(p.Snapshot(k, sp), Malloced(size), sp)
    requires OwningRest(p.Snapshot(k, sp), r, rest)
    modifies k.heap.mem, k.ram, k`live, p.allocations, p`released
    ensures p.Inv(k, sp) && OwningRest(p.Snapshot(k, sp), r, rest)
  {
    ghost var m := p.Snapshot(k, sp);
    InvIsGood(k, p, sp);
    StepKeepsValidIff(m, Malloced(size), sp);
    StepKeepsRest(m, Malloced(size), sp, r, rest);
    var ptr := p.Malloc(k, size, sp);
    GoodIsInv(k, p, sp);
  }

  method FreeKeepsRest(k: Kernel, p: Process, ptr: Word, ghost sp: Space, ghost r: Rest, ghost rest: map<nat, nat>)
    requires p.Inv(k, sp) && ptr != 0 && OwningRest(p.Snapshot(k, sp), r, rest)
    modifies k.heap.mem, k.ram, k`live, p.allocations, p`released
    ensures p.Inv(k, sp) && OwningRest(p.Snapshot(k, sp), r, rest)
  {
    ghost var m := p.Snapshot(k, sp);
    InvIsGood(k, p, sp);
    StepKeepsValidIff(m, Released(ptr), sp);
    StepKeepsRest(m, Released(ptr), sp, r, rest);
    p.Free(k, ptr, sp);
    GoodIsInv(k, p, sp);
  }

  /** One call, if it is harmless when it comes. */
  method Serve(k: Kernel, p: Process, call: Call, ghost sp: Space, ghost r: Rest, ghost rest: map<nat, nat>)
    requires p.Inv(k, sp) && OwningRest(p.Snapshot(k, sp), r, rest)
    modifies k.heap.mem, k.ram, k`live, p.allocations, p`released
    ensures p.Inv(k, sp) && OwningRest(p.Snapshot(k, sp), r, rest)
  {
    match call
    case Malloc(size) =>
      var table, n := k.heap.mem[..k.heap.total], BlocksFor(size);
      if size <= LARGEST && (Fits(table, n) || !LastIsFree(table) || SlotOf(p.allocations[..], 0) < 0) {
        MallocKeepsRest(k, p, size, sp, r, rest);
      }
    case Free(ptr) =>
      if ptr != 0 {
        FreeKeepsRest(k, p, ptr, sp, r, rest);
      }
  }

  /** Any series of calls: the process keeps its other blocks, and what is left of the
      heap without all its blocks stays the same. */
  method ServeAll(k: Kernel, p: Process, calls: seq<Call>, ghost sp: Space, ghost r: Rest, ghost rest: map<nat, nat>)
    requires p.Inv(k, sp) && OwningRest(p.Snapshot(k, sp), r, rest)
    modifies k.heap.mem, k.ram, k`live, p.allocations, p`released
    ensures p.Inv(k, sp) && OwningRest(p.Snapshot(k, sp), r, rest)
  {
    for i := 0 to |calls|
      invariant p.Inv(k, sp) && OwningRest(p.Snapshot(k, sp), r, rest)
    {
      Serve(k, p, calls[i], sp, r, rest);
    }
  }

  // ---- From task_new to process_terminate ----

  /** What the heap holds besides the process once it has its address space. */
  lemma LoadedRest(live: map<nat, nat>, r: Rest, now: map<nat, nat>)
    requires r.task >= 0 && r.task !in live && Fresh(live[r.task as nat := 1], now, r.space)
    requires Apart({}, r.program, r.stack, {}, r.self, -1)
    requires forall x :: x in r.program + r.stack + {r.self} ==> x in live
    ensures SlotsApart({}, r) && forall x :: x in AllHeads({}, r) ==> x in now
    ensures now - AllHeads({}, r) == live - (r.program + r.stack + {r.self})
  {
  }

  /** A process that has just got its address space. */
  ghost predicate Ready(k: Kernel, p: Process, sp: Space, rest: map<nat, nat>)
    reads k, k.heap.mem, k.ram, p, p.allocations, p.task, if p.program.Elf? then {p.program.file} else {}
  {
    && p.Inv(k, sp) && OwningRest(p.Snapshot(k, sp), RestOf(p, sp), rest)
    && OwnsProgram(k.live, p.program) && (p.program.Elf? ==> p.program.file != null)
    && IsHead(k.live, p.stack) && BlockOf(p.stack) < HEAP_BLOCKS
    && IsHead(k.live, p.task.self) && IsHead(k.live, p.self)
    && p.released == {} && forall i :: 0 <= i < p.allocations.Length ==> p.allocations[i] == EMPTY
  }

  /** The loaded process gets its address space. */
  method Begin(k: Kernel, s: Scheduler, p: Process, size: Word, ghost order: seq<Task>)
    returns (task: Task, ghost sp: Space)
    requires Loaded(k, p) && Listed(s, order)
    requires 0 < size <= BLOCK_SIZE && FreeCount(k.Table()) > SPACE_BLOCKS
    modifies k.heap.mem, k.ram, k`live, s, (if s.tail != null then {s.tail} else {})`next, p`task
    ensures fresh(task) && p.task == task && Ready(k, p, sp, old(k.live) - LoadedHeads(p))
    ensures IsLast(s, task, order)
  {
    ghost var was := k.live;
    task, sp := TaskNew(k, s, p, size, order);
    LoadedReady(k, p, sp, was);
  }

  lemma LoadedReady(k: Kernel, p: Process, sp: Space, was: map<nat, nat>)
    requires p.Inv(k, sp) && p.released == {} && forall i :: 0 <= i < p.allocations.Length ==> p.allocations[i] == EMPTY
    requires OwnsProgram(was, p.program) && (p.program.Elf? ==> p.program.file != null)
    requires IsHead(was, p.stack) && BlockOf(p.stack) < HEAP_BLOCKS && IsHead(was, p.self)
    requires Apart({}, ProgramHeads(p.program), StackHeads(p.stack), {}, BlockOf(p.self), -1)
    requires IsHead(k.live, p.task.self) && BlockOf(p.task.self) !in was && BlockOf(p.task.self) !in sp.Blocks()
    requires Fresh(was[BlockOf(p.task.self) := 1], k.live, sp.Blocks())
    ensures Ready(k, p, sp, was - LoadedHeads(p))
  {
    var r := RestOf(p, sp);
    ProgramHere(was, p.program);
    LoadedRest(was, r, k.live);
    StillLoaded(was, k.live, p, r);
    NoHeads(p.allocations[..]);
  }

  lemma ProgramHere(live: map<nat, nat>, program: Program)
    requires OwnsProgram(live, program)
    ensures forall x :: x in ProgramHeads(program) ==> x in live
  {
  }

  lemma NoHeads(slots: seq<Allocation>)
    requires forall i :: 0 <= i < |slots| ==> slots[i] == EMPTY
    ensures SlotHeads(slots, |slots|) == {}
  {
  }

  /** What was allocated before is still. */
  lemma StillLoaded(was: map<nat, nat>, live: map<nat, nat>, p: Process, r: Rest)
    requires forall x :: x in AllHeads({}, r) ==> x in live
    requires r.program == ProgramHeads(p.program) && r.stack == StackHeads(p.stack) && r.self == BlockOf(p.self)
    requires OwnsProgram(was, p.program) && IsHead(was, p.stack) && IsHead(was, p.self)
    ensures OwnsProgram(live, p.program) && IsHead(live, p.stack) && IsHead(live, p.self)
  {
    assert BlockOf(p.stack) in StackHeads(p.stack);
  }

  /** process_map_memory and, if that works, any series of calls. */
  method Run(k: Kernel, p: Process, calls: seq<Call>, ghost sp: Space, ghost rest: map<nat, nat>)
    requires Ready(k, p, sp, rest)
    modifies k.heap.mem, k.ram, k`live, p.allocations, p`released
    ensures Owning(k, p, sp, rest)
  {
    ghost var was, r := k.live, RestOf(p, sp);
    var res, done, program := MapMemory(k, p, sp);
    NothingHeld(k.live, p.allocations[..], Pages(k, sp), sp);
    if res == 0 {
      ServeAll(k, p, calls, sp, r, rest);
    }
    OwningAgain(k, p, sp, rest, was);
  }

  /** process_free_process takes it out again. */
  method End(k: Kernel, s: Scheduler, p: Process, ghost order: seq<Task>, ghost sp: Space, ghost rest: map<nat, nat>)
    requires Owning(k, p, sp, rest) && IsLast(s, p.task, order)
    modifies k.heap.mem, k.ram, k`live, p, p.allocations, s, (if p.task.prev != null then {p.task.prev} else {})`next
    ensures k.Valid() && k.live == rest && s.Forward(order)
  {
    ghost var all := order + [p.task];
    assert all[|order|] == p.task && Without(all, |order|) == order;
    FreeProcess(k, s, p, all, |order|, sp);
  }

  method RunAndEnd(k: Kernel, s: Scheduler, p: Process, calls: seq<Call>, ghost order: seq<Task>, ghost sp: Space,
                   ghost rest: map<nat, nat>)
    requires Ready(k, p, sp, rest) && IsLast(s, p.task, order)
    modifies k.heap.mem, k.ram, k`live, p, p.allocations, s, (if p.task.prev != null then {p.task.prev} else {})`next
    ensures k.Valid() && k.live == rest && s.Forward(order)
  {
    Run(k, p, calls, sp, rest);
    End(k, s, p, order, sp, rest);
  }

  method StartToEnd(k: Kernel, s: Scheduler, p: Process, size: Word, calls: seq<Call>, ghost order: seq<Task>)
    requires Loaded(k, p) && Listed(s, order)
    requires 0 < size <= BLOCK_SIZE && FreeCount(k.Table()) > SPACE_BLOCKS
    modifies k.heap.mem, k.ram, k`live, p, p.allocations, s, (if s.tail != null then {s.tail} else {})`next
    ensures k.Valid() && k.live == old(k.live - LoadedHeads(p)) && s.Forward(order)
  {
    ghost var rest := k.live - LoadedHeads(p);
    var task, sp := Begin(k, s, p, size, order);
    RunAndEnd(k, s, p, calls, order, sp, rest);
  }

  /** A process that is loaded, started, run and terminated leaves the heap exactly as it
      was, less the blocks it was loaded with, and the scheduler's list as it was. */
  method WholeLife(k: Kernel, s: Scheduler, p: Process, size: Word, calls: seq<Call>, ghost order: seq<Task>)
    requires Loaded(k, p) && Listed(s, order)
    requires 0 < size <= BLOCK_SIZE && FreeCount(k.Table()) > SPACE_BLOCKS
    modifies k.heap.mem, k.ram, k`live, p, p.allocations, s, (if s.tail != null then {s.tail} else {})`next
    ensures k.Valid() && k.live == old(k.live - LoadedHeads(p)) && s.Forward(order)
    ensures k.OnlyFreed(old(k.Table()), old(k.live), old(LoadedHeads(p)))
  {
    ghost var table, was, gone := k.Table(), k.live, LoadedHeads(p);
    StartToEnd(k, s, p, size, calls, order);
    OthersUnchanged(table, k.Table(), was, gone);
  }
}
