/** Ending a process: every block it owns goes back to the heap, and nothing else. */
module Teardown {
  import opened Bits
  import opened HeapTable
  import opened K = Kernel
  import opened Paging
  import opened AddressSpace
  import opened TaskList
  import opened ElfLoader
  import opened Process

  /** The runs behind the first `n` slots. */
  ghost function SlotHeads(slots: seq<Allocation>, n: nat): (r: set<int>)
    requires n <= |slots|
  {
    set i | 0 <= i < n && slots[i].ptr != 0 :: BlockOf(slots[i].ptr)
  }

  ghost function ProgramHeads(program: Program): (r: set<int>)
    reads if program.Elf? then {program.file} else {}
  {
    match program
    case Binary(ptr, _) => if ptr == 0 then {} else {BlockOf(ptr)}
    case Elf(file) => FileBlocks(file)
  }

  ghost predicate OwnsProgram(live: map<nat, nat>, program: Program)
    reads if program.Elf? then {program.file} else {}
  {
    match program
    case Binary(ptr, _) => ptr != 0 ==> IsHead(live, ptr)
    case Elf(file) => OwnsFile(live, file)
  }

  ghost function StackHeads(stack: Word): (r: set<int>) {
    if stack == 0 then {} else {BlockOf(stack)}
  }

  /** process_terminate_allocations */
  method TerminateAllocations(k: Kernel, p: Process, ghost sp: Space)
    requires p.Inv(k, sp)
    modifies k.heap.mem, k.ram, k`live, p.allocations, p`released
    ensures p.Inv(k, sp)
    ensures k.live == old(k.live) - SlotHeads(old(p.allocations[..]), MAX_PROGRAM_ALLOCATION)
    ensures forall i :: 0 <= i < p.allocations.Length ==> p.allocations[i].ptr == 0
    ensures OnlyTables(k, sp.tables)
  {
    ghost var slots, was := p.allocations[..], k.live;
    for i := 0 to MAX_PROGRAM_ALLOCATION
      invariant p.Inv(k, sp) && k.live == was - SlotHeads(slots, i)
      invariant forall j :: 0 <= j < i ==> p.allocations[j].ptr == 0
      invariant forall j :: i <= j < p.allocations.Length ==> p.allocations[j] == slots[j]
      invariant OnlyTables(k, sp.tables)
    {
      if p.allocations[i].ptr != 0 {
        FreeSlot(k, p, i, sp);
      }
      SlotHeadsStep(was, slots, i);
    }
  }

  lemma SlotHeadsStep(live: map<nat, nat>, slots: seq<Allocation>, i: nat)
    requires i < |slots|
    ensures live - SlotHeads(slots, i + 1) ==
            if slots[i].ptr == 0 then live - SlotHeads(slots, i)
            else live - SlotHeads(slots, i) - {BlockOf(slots[i].ptr)}
  {
    assert SlotHeads(slots, i + 1) ==
           SlotHeads(slots, i) + if slots[i].ptr == 0 then {} else {BlockOf(slots[i].ptr)};
  }

  lemma HeadsAdded(slots: seq<Allocation>, index: nat, a: Allocation)
    requires index < |slots| && slots[index].ptr == 0 && a.ptr != 0
    ensures SlotHeads(slots[index := a], |slots|) == SlotHeads(slots, |slots|) + {BlockOf(a.ptr)}
  {
    var now := slots[index := a];
    forall x | x in SlotHeads(slots, |slots|) ensures x in SlotHeads(now, |slots|) {
      var i :| 0 <= i < |slots| && slots[i].ptr != 0 && BlockOf(slots[i].ptr) == x;
      assert now[i].ptr != 0 && BlockOf(now[i].ptr) == x;
    }
    assert now[index].ptr != 0 && BlockOf(now[index].ptr) in SlotHeads(now, |slots|);
  }

  lemma HeadsDropped(live: map<nat, nat>, slots: seq<Allocation>, index: nat)
    requires SlotsOk(live, slots) && index < |slots| && slots[index].ptr != 0
    ensures SlotHeads(slots[index := EMPTY], |slots|) == SlotHeads(slots, |slots|) - {BlockOf(slots[index].ptr)}
    ensures BlockOf(slots[index].ptr) in SlotHeads(slots, |slots|)
  {
    var now, b := slots[index := EMPTY], BlockOf(slots[index].ptr);
    forall x | x in SlotHeads(slots, |slots|) && x != b ensures x in SlotHeads(now, |slots|) {
      var i :| 0 <= i < |slots| && slots[i].ptr != 0 && BlockOf(slots[i].ptr) == x;
      assert now[i].ptr != 0 && BlockOf(now[i].ptr) == x;
    }
    forall x | x in SlotHeads(now, |slots|) ensures x in SlotHeads(slots, |slots|) && x != b {
      var i :| 0 <= i < |now| && now[i].ptr != 0 && BlockOf(now[i].ptr) == x;
      assert slots[i] == now[i] && SlotOk(live, slots[i]) && SlotOk(live, slots[index]);
    }
  }

  /** process_free of what slot `i` holds. */
  method FreeSlot(k: Kernel, p: Process, i: nat, ghost sp: Space)
    requires p.Inv(k, sp) && i < p.allocations.Length && p.allocations[i].ptr != 0
    modifies k.heap.mem, k.ram, k`live, p.allocations, p`released
    ensures p.Inv(k, sp)
    ensures k.live == old(k.live) - {BlockOf(old(p.allocations[i].ptr))}
    ensures p.allocations[..] == old(p.allocations[..])[i := EMPTY]
    ensures OnlyTables(k, sp.tables)
  {
    ghost var m := p.Snapshot(k, sp);
    InvIsGood(k, p, sp);
    ReleaseGood(m, m.slots[i].ptr, sp);
    UnjoinedOne(m.live, m.slots, i);
    p.Free(k, p.allocations[i].ptr, sp);
    GoodIsInv(k, p, sp);
  }

  /** process_free_program_data */
  method FreeProgramData(k: Kernel, program: Program)
    requires k.Valid() && OwnsProgram(k.live, program)
    modifies k.heap.mem, k`live
    ensures k.Valid() && k.live == old(k.live) - ProgramHeads(program)
  {
    match program
    case Binary(ptr, _) =>
      if ptr != 0 {
        k.KfreeLive(ptr);
      }
    case Elf(file) => Close(k, file);
  }

  /** Where `next` lies in struct task. */
  const NEXT_WORD := 14

  /** The word of `next`: a pointer to a struct, or null. */
  function NextWord(next: Task?): Word {
    if next == null then 0 else next.self
  }

  /** The heap block a task's `prev` points to, -1 for null. */
  function PrevBlock(task: Task): int
    reads task
  {
    if task.prev == null then -1 else BlockOf(task.prev.self)
  }

  predicate PrevInRam(task: Task)
    reads task
  {
    task.prev != null ==> 0 <= PrevBlock(task) < HEAP_BLOCKS
  }

  /** No RAM but the page tables and the `next` that is written through `prev` has changed,
      and that is now `word`. */
  twostate predicate OnlyTablesAndNext(k: Kernel, tables: seq<nat>, prev: int, word: Word)
    requires k.Shaped()
    reads k.ram
  {
    && (0 <= prev < HEAP_BLOCKS ==> k.ram[prev, NEXT_WORD] == word)
    && forall c, i | 0 <= c < HEAP_BLOCKS && 0 <= i < WORDS ::
         c !in tables && !(c == prev && i == NEXT_WORD) ==> k.ram[c, i] == old(k.ram[c, i])
  }

  /** task_free */
  method TaskFree(k: Kernel, s: Scheduler, task: Task, ghost order: seq<Task>, ghost i: nat, ghost sp: Space)
    requires k.Valid() && IsSpace(k, sp) && task.pageDirectory == Addr(sp.chunk)
    requires IsHead(k.live, task.self) && BlockOf(task.self) !in sp.Blocks()
    requires s.Forward(order) && i < |order| && task == order[i] && s.current != null && PrevInRam(task)
    modifies k.heap.mem, k.ram, k`live, s, (if task.prev != null then {task.prev} else {})`next
    ensures k.Valid() && k.live == old(k.live) - sp.Blocks() - {BlockOf(task.self)}
    ensures s.Forward(Without(order, i)) <==> old(UnlinksCleanly(order, i))
    ensures OnlyTablesAndNext(k, [], old(PrevBlock(task)), old(NextWord(task.next)))
  {
    Free4gb(k, task.pageDirectory, sp);
    UnlinkAndFree(k, s, task, order, i);
  }

  /** The rest of task_free. The block behind `prev` may have been given back and belong to
      somebody else by now, so the write to it is made in RAM too. */
  method UnlinkAndFree(k: Kernel, s: Scheduler, task: Task, ghost order: seq<Task>, ghost i: nat)
    requires k.Valid() && IsHead(k.live, task.self)
    requires s.Forward(order) && i < |order| && task == order[i] && s.current != null && PrevInRam(task)
    modifies k.heap.mem, k.ram, k`live, s, (if task.prev != null then {task.prev} else {})`next
    ensures k.Valid() && k.live == old(k.live) - {BlockOf(task.self)}
    ensures s.Forward(Without(order, i)) <==> old(UnlinksCleanly(order, i))
    ensures |order| > 1 ==> s.current != null
    ensures OnlyTablesAndNext(k, [], old(PrevBlock(task)), old(NextWord(task.next)))
    ensures old(task.prev) != null ==>
              k.ram[old(PrevBlock(task)), 14] == if old(task.next) == null then 0 else old(task.next.self)
  {
    WriteNext(k, task);
    Unlink(k, s, task, order, i);
  }

  method Unlink(k: Kernel, s: Scheduler, task: Task, ghost order: seq<Task>, ghost i: nat)
    requires k.Valid() && IsHead(k.live, task.self)
    requires s.Forward(order) && i < |order| && task == order[i] && s.current != null
    modifies k.heap.mem, k`live, s, (if task.prev != null then {task.prev} else {})`next
    ensures k.Valid() && k.live == old(k.live) - {BlockOf(task.self)}
    ensures s.Forward(Without(order, i)) <==> old(UnlinksCleanly(order, i))
    ensures |order| > 1 ==> s.current != null
  {
    s.Remove(task, order, i);
    k.KfreeLive(task.self);
  }

  method WriteNext(k: Kernel, task: Task)
    requires k.Shaped() && PrevInRam(task)
    modifies k.ram
    ensures OnlyTablesAndNext(k, [], PrevBlock(task), NextWord(task.next))
  {
    if task.prev != null {
      k.ram[BlockOf(task.prev.self), NEXT_WORD] := NextWord(task.next);
    }
  }

  /** Every block the process owns besides its allocations, by the head of its run. */
  ghost function RestHeads(p: Process, sp: Space): (r: set<int>)
    requires p.task != null
    reads p, p.task, if p.program.Elf? then {p.program.file} else {}
  {
    ProgramHeads(p.program) + StackHeads(p.stack) + sp.Blocks() + {BlockOf(p.task.self)} + {BlockOf(p.self)}
  }

  /** Every block the process owns. */
  ghost function OwnedHeads(p: Process, sp: Space): (r: set<int>)
    requires p.task != null && p.allocations.Length == MAX_PROGRAM_ALLOCATION
    reads p, p.allocations, p.task, if p.program.Elf? then {p.program.file} else {}
  {
    SlotHeads(p.allocations[..], MAX_PROGRAM_ALLOCATION) + RestHeads(p, sp)
  }

  /** Block `b` is where one of the pointers of the process leads that are not null. */
  ghost predicate PointedTo(p: Process, b: int)
    requires p.task != null && p.allocations.Length == MAX_PROGRAM_ALLOCATION
    reads p, p.allocations, p.task, if p.program.Elf? then {p.program.file} else {}
  {
    || (exists i :: 0 <= i < 1024 && p.allocations[i].ptr != 0 && b == (p.allocations[i].ptr - 0x1000000) / 0x1000)
    || (p.program.Binary? && p.program.ptr != 0 && b == (p.program.ptr - 0x1000000) / 0x1000)
    || (p.program.Elf? && p.program.file != null && b == (p.program.file.self - 0x1000000) / 0x1000)
    || (p.program.Elf? && p.program.file != null && p.program.file.elfMemory != 0
        && b == (p.program.file.elfMemory - 0x1000000) / 0x1000)
    || (p.stack != 0 && b == (p.stack - 0x1000000) / 0x1000)
    || b == (p.task.self - 0x1000000) / 0x1000 || b == (p.self - 0x1000000) / 0x1000
  }

  /** Block `b` is behind the page-directory pointer, or is the directory that it leads to, or the
      table behind one of the directory's words. */
  ghost predicate OfSpace(k: Kernel, sp: Space, pageDirectory: Word, b: int)
    requires k.Shaped() && sp.chunk < HEAP_BLOCKS && sp.dir < HEAP_BLOCKS
    reads k.ram
  {
    || b == (pageDirectory - 0x1000000) / 0x1000 || b == (k.ram[sp.chunk, 0] - 0x1000000) / 0x1000
    || exists i :: 0 <= i < 1024 && b == (k.ram[sp.dir, i] - k.ram[sp.dir, i] % 0x1000 - 0x1000000) / 0x1000
  }

  /** What a process owns: where its pointers lead, and its address space. */
  lemma OwnedAre(k: Kernel, p: Process, sp: Space, b: int)
    requires p.Attached(k, sp)
    ensures b in OwnedHeads(p, sp) <==> PointedTo(p, b) || OfSpace(k, sp, p.task.pageDirectory, b)
  {
    SlotHeadsAre(p.allocations[..], b);
    SpaceBlocksAre(k, sp, b);
    assert PointedTo(p, b) == (b in SlotHeads(p.allocations[..], MAX_PROGRAM_ALLOCATION)
                               || b in ProgramHeads(p.program) || b in StackHeads(p.stack)
                               || b == BlockOf(p.task.self) || b == BlockOf(p.self));
  }

  lemma SpaceBlocksAre(k: Kernel, sp: Space, b: int)
    requires IsSpace(k, sp)
    ensures b in sp.Blocks() <==> OfSpace(k, sp, Addr(sp.chunk), b)
  {
    BlockOfAddr(sp.chunk);
    BlockOfAddr(sp.dir);
    TablesAre(k, sp, b);
  }

  lemma SlotHeadsAre(slots: seq<Allocation>, b: int)
    ensures b in SlotHeads(slots, |slots|) <==>
      exists i :: 0 <= i < |slots| && slots[i].ptr != 0 && b == (slots[i].ptr - 0x1000000) / 0x1000
  {
  }

  lemma TablesAre(k: Kernel, sp: Space, b: int)
    requires IsSpace(k, sp)
    ensures b in sp.tables <==>
      exists i :: 0 <= i < 1024 && b == (k.ram[sp.dir, i] - k.ram[sp.dir, i] % 0x1000 - 0x1000000) / 0x1000
  {
    forall i | 0 <= i < 1024
      ensures (k.ram[sp.dir, i] - k.ram[sp.dir, i] % 0x1000 - 0x1000000) / 0x1000 == sp.tables[i]
    {
      assert k.ram[sp.dir, i] == (0x1000 + sp.tables[i]) * 0x1000 + sp.rights;
    }
  }

  ghost predicate Apart(a: set<int>, b: set<int>, c: set<int>, d: set<nat>, e: int, f: int) {
    && (forall x :: x in a ==> x !in b && x !in c && x !in d && x != e && x != f)
    && (forall x :: x in b ==> x !in c && x !in d && x != e && x != f)
    && (forall x :: x in c ==> x !in d && x != e && x != f)
    && e !in d && f !in d && e != f
  }

  /** No two owners share a block. */
  ghost predicate OwnsApart(k: Kernel, p: Process, sp: Space)
    reads k, p, p.allocations, p.task, if p.program.Elf? then {p.program.file} else {}
  {
    && p.task != null && p.allocations.Length == MAX_PROGRAM_ALLOCATION
    && OwnsProgram(k.live, p.program) && (p.stack != 0 ==> IsHead(k.live, p.stack))
    && IsHead(k.live, p.task.self) && IsHead(k.live, p.self)
    && Apart(SlotHeads(p.allocations[..], MAX_PROGRAM_ALLOCATION), ProgramHeads(p.program), StackHeads(p.stack),
             sp.Blocks(), BlockOf(p.task.self), BlockOf(p.self))
  }

  /** The middle of process_free_process: program data and stack. */
  method FreeImage(k: Kernel, p: Process, ghost sp: Space)
    requires k.Valid() && IsSpace(k, sp) && OwnsProgram(k.live, p.program) && (p.stack != 0 ==> IsHead(k.live, p.stack))
    requires forall x :: x in ProgramHeads(p.program) ==> x !in StackHeads(p.stack) && x !in sp.Blocks()
    requires forall x :: x in StackHeads(p.stack) ==> x !in sp.Blocks()
    modifies k.heap.mem, k`live, p`stack
    ensures k.Valid() && IsSpace(k, sp) && p.stack == 0
    ensures k.live == old(k.live) - ProgramHeads(p.program) - StackHeads(old(p.stack))
  {
    FreeProgramData(k, p.program);
    if p.stack != 0 {
      assert BlockOf(p.stack) in StackHeads(p.stack);
      k.KfreeLive(p.stack);
      p.stack := 0;
    }
    assert forall b :: b in sp.Blocks() ==> b in k.live && k.live[b] == 1;
  }

  /** The end of process_free_process: the task and the struct itself. */
  method FreeSelf(k: Kernel, s: Scheduler, p: Process, ghost order: seq<Task>, ghost i: nat, ghost sp: Space)
    requires k.Valid() && IsSpace(k, sp) && p.task != null && p.task.pageDirectory == Addr(sp.chunk)
    requires IsHead(k.live, p.task.self) && IsHead(k.live, p.self) && BlockOf(p.task.self) != BlockOf(p.self)
    requires BlockOf(p.task.self) !in sp.Blocks() && BlockOf(p.self) !in sp.Blocks()
    requires s.Forward(order) && i < |order| && p.task == order[i] && s.current != null && PrevInRam(p.task)
    modifies k.heap.mem, k.ram, k`live, p`task, s, (if p.task.prev != null then {p.task.prev} else {})`next
    ensures k.Valid() && p.task == null
    ensures k.live == old(k.live) - sp.Blocks() - {old(BlockOf(p.task.self))} - {BlockOf(p.self)}
    ensures s.Forward(Without(order, i)) <==> old(UnlinksCleanly(order, i))
    ensures OnlyTablesAndNext(k, [], old(PrevBlock(p.task)), old(NextWord(p.task.next)))
  {
    TaskFree(k, s, p.task, order, i, sp);
    FreeStruct(k, s, p, Without(order, i));
  }

  method FreeStruct(k: Kernel, s: Scheduler, p: Process, ghost rest: seq<Task>)
    requires k.Valid() && IsHead(k.live, p.self)
    modifies k.heap.mem, k`live, p`task
    ensures k.Valid() && p.task == null && k.live == old(k.live) - {BlockOf(p.self)}
    ensures s.Forward(rest) == old(s.Forward(rest))
  {
    p.task := null;
    k.KfreeLive(p.self);
  }

  /** process_free_process after the allocations are gone. */
  method FreeRest(k: Kernel, s: Scheduler, p: Process, ghost order: seq<Task>, ghost i: nat, ghost sp: Space)
    requires k.Valid() && IsSpace(k, sp) && p.task != null && p.task.pageDirectory == Addr(sp.chunk)
    requires OwnsProgram(k.live, p.program) && (p.stack != 0 ==> IsHead(k.live, p.stack))
    requires IsHead(k.live, p.task.self) && IsHead(k.live, p.self)
    requires Apart({}, ProgramHeads(p.program), StackHeads(p.stack), sp.Blocks(),
                   BlockOf(p.task.self), BlockOf(p.self))
    requires s.Forward(order) && i < |order| && p.task == order[i] && s.current != null && PrevInRam(p.task)
    modifies k.heap.mem, k.ram, k`live, p`stack, p`task, s, (if p.task.prev != null then {p.task.prev} else {})`next
    ensures k.Valid() && p.task == null
    ensures k.live == old(k.live) - old(RestHeads(p, sp))
    ensures s.Forward(Without(order, i)) <==> old(UnlinksCleanly(order, i))
    ensures OnlyTablesAndNext(k, [], old(PrevBlock(p.task)), old(NextWord(p.task.next)))
  {
    ghost var was, program, stack := k.live, ProgramHeads(p.program), StackHeads(p.stack);
    ghost var task, self := BlockOf(p.task.self), BlockOf(p.self);
    FreeImage(k, p, sp);
    FreeSelf(k, s, p, order, i, sp);
    DropAll(was, program, stack, sp.Blocks(), task, self);
  }

  method FreeAll(k: Kernel, s: Scheduler, p: Process, ghost order: seq<Task>, ghost i: nat, ghost sp: Space)
    requires p.Inv(k, sp) && OwnsApart(k, p, sp)
    requires s.Forward(order) && i < |order| && p.task == order[i] && s.current != null && PrevInRam(p.task)
    modifies k.heap.mem, k.ram, k`live, p, p.allocations, s, (if p.task.prev != null then {p.task.prev} else {})`next
    ensures k.Valid() && k.live == old(k.live) - old(OwnedHeads(p, sp))
    ensures s.Forward(Without(order, i)) <==> old(UnlinksCleanly(order, i))
    ensures OnlyTablesAndNext(k, sp.tables, old(PrevBlock(p.task)), old(NextWord(p.task.next)))
  {
    ghost var was, slots, rest := k.live, SlotHeads(p.allocations[..], MAX_PROGRAM_ALLOCATION), RestHeads(p, sp);
    StillOwned(was, p.program, slots);
    TerminateAllocations(k, p, sp);
    FreeRest(k, s, p, order, i, sp);
    DropTwo(was, slots, rest);
  }

  /** process_free_process releases exactly the blocks of the process, each once. */
  method FreeProcess(k: Kernel, s: Scheduler, p: Process, ghost order: seq<Task>, ghost i: nat, ghost sp: Space)
    requires p.Inv(k, sp) && OwnsApart(k, p, sp)
    requires s.Forward(order) && i < |order| && p.task == order[i] && s.current != null && PrevInRam(p.task)
    modifies k.heap.mem, k.ram, k`live, p, p.allocations, s, (if p.task.prev != null then {p.task.prev} else {})`next
    ensures k.Valid() && k.live == old(k.live) - old(OwnedHeads(p, sp))
    ensures k.OnlyFreed(old(k.Table()), old(k.live), old(OwnedHeads(p, sp)))
    ensures s.Forward(Without(order, i)) <==> old(UnlinksCleanly(order, i))
    ensures OnlyTablesAndNext(k, sp.tables, old(PrevBlock(p.task)), old(NextWord(p.task.next)))
  {
    ghost var was, table, gone := k.live, k.Table(), OwnedHeads(p, sp);
    FreeAll(k, s, p, order, i, sp);
    OthersUnchanged(table, k.Table(), was, gone);
  }

  /** process_free_process of a process that failed to load before it got a task: there
      are no allocations, and program data, stack and struct go back. */
  method FreeUnstarted(k: Kernel, p: Process)
    requires k.Valid() && p.task == null && OwnsProgram(k.live, p.program)
    requires forall i :: 0 <= i < p.allocations.Length ==> p.allocations[i].ptr == 0
    requires p.stack != 0 ==> IsHead(k.live, p.stack)
    requires IsHead(k.live, p.self)
    requires Apart({}, ProgramHeads(p.program), StackHeads(p.stack), {}, BlockOf(p.self), -1)
    modifies k.heap.mem, k`live, p`stack
    ensures k.Valid() && p.stack == 0
    ensures k.live == old(k.live) - ProgramHeads(p.program) - StackHeads(old(p.stack)) - {BlockOf(p.self)}
  {
    FreeProgramData(k, p.program);
    if p.stack != 0 {
      assert BlockOf(p.stack) in StackHeads(p.stack);
      k.KfreeLive(p.stack);
      p.stack := 0;
    }
    k.KfreeLive(p.self);
  }

  lemma StillOwned(live: map<nat, nat>, program: Program, gone: set<int>)
    requires OwnsProgram(live, program) && forall x :: x in gone ==> x !in ProgramHeads(program)
    ensures OwnsProgram(live - gone, program)
  {
  }

  lemma DropAll(live: map<nat, nat>, b: set<int>, c: set<int>, d: set<nat>, e: int, f: int)
    ensures live - b - c - d - {e} - {f} == live - (b + c + d + {e} + {f})
  {
  }

  lemma DropTwo(live: map<nat, nat>, a: set<int>, b: set<int>)
    ensures live - a - b == live - (a + b)
  {
  }

  /** Dropping some runs frees their blocks and changes no byte of the others. */
  lemma OthersUnchanged(s: seq<bv8>, t: seq<bv8>, live: map<nat, nat>, gone: set<int>)
    requires Encodes(s, live) && Encodes(t, live - gone) && |s| == |t|
    ensures forall k: nat :: k < |s| && (forall b :: b in gone && b in live ==> k < b || b + live[b] <= k) ==>
              s[k] == t[k]
    ensures forall b :: b in gone && b in live ==> forall k :: b <= k < b + live[b] && k < |s| ==> t[k] == 0
  {
    var rest := live - gone;
    forall b, k | b in gone && b in live && b <= k < b + live[b] && k < |s| ensures t[k] == 0 {
      if Covered(rest, k) {
        var c :| c in rest && c <= k < c + rest[c];
        RunsDisjoint(s, live, b, c);
      }
    }
    forall k: nat | k < |s| && (forall b :: b in gone && b in live ==> k < b || b + live[b] <= k)
      ensures s[k] == t[k]
    {
      if Covered(live, k) {
        var b :| b in live && b <= k < b + live[b];
        assert b in rest && rest[b] == live[b];
        assert s[k] == RunByte(b, live[b], k) == t[k];
      } else {
        assert !Covered(rest, k);
      }
    }
  }
}
