/** The write of task_list_remove through a `prev` whose block has been given back: exactly
    when it leaves another process's address space alone, and a run in which it does not. */
module StalePrev {
  import opened Bits
  import opened HeapTable
  import opened K = Kernel
  import opened Paging
  import opened AddressSpace
  import opened TaskList
  import opened ElfLoader
  import opened Process
  import opened Teardown

  /** What a write of `word` into the `next` of block `prev` needs to leave an address space
      alone: the block is neither its directory nor one of its tables with another word there. */
  ghost predicate Spared(k: Kernel, sq: Space, prev: int, word: Word)
    requires k.Shaped() && sq.Distinct()
    reads k.ram
  {
    && (prev == sq.dir < HEAP_BLOCKS ==> k.ram[prev, NEXT_WORD] == word)
    && (prev in sq.tables && prev < HEAP_BLOCKS ==> k.ram[prev, NEXT_WORD] == word)
  }

  /** Of an address space whose blocks are still allocated only that `next` may have been
      written: table words stay, apart from the one behind a `prev` that is a table. */
  twostate predicate NextWritten(k: Kernel, tables: seq<nat>, prev: int, word: Word, sq: Space): (r: bool)
    requires old(IsSpace(k, sq)) && k.Shaped()
    reads k, k.ram
    ensures r && old(Spared(k, sq, prev, word)) ==> IsSpace(k, sq) && Pages(k, sq) == old(Pages(k, sq))
    ensures r && prev == sq.dir && !old(Spared(k, sq, prev, word)) ==> !IsSpace(k, sq)
    ensures r && prev != sq.dir ==> IsSpace(k, sq)
    ensures forall t :: r && prev != sq.dir && 0 <= t < ENTRIES && prev == sq.tables[t] ==>
              Pages(k, sq) == old(Pages(k, sq))[t * ENTRIES + NEXT_WORD := word]
  {
    SpaceParts(sq);
    && OwnedIn(k.live, sq) && OnlyTablesAndNext(k, tables, prev, word) && forall t :: t in tables ==> t !in sq.Blocks()
  }

  /** So being spared is exactly what leaves the address space as it is. */
  twostate predicate SparedExactly(k: Kernel, tables: seq<nat>, prev: int, word: Word, sq: Space): (r: bool)
    requires old(IsSpace(k, sq)) && k.Shaped()
    reads k, k.ram
    ensures r ==> ((IsSpace(k, sq) && Pages(k, sq) == old(Pages(k, sq))) <==> old(Spared(k, sq, prev, word)))
    ensures r == NextWritten(k, tables, prev, word, sq)
  {
    var r := NextWritten(k, tables, prev, word, sq);
    assert forall t :: r && prev != sq.dir && 0 <= t < ENTRIES && prev == sq.tables[t] ==>
      Pages(k, sq)[t * ENTRIES + NEXT_WORD] == word
      && old(Pages(k, sq))[t * ENTRIES + NEXT_WORD] == old(k.ram[sq.tables[t], NEXT_WORD]);
    r
  }

  lemma OwnedStill(live: map<nat, nat>, now: map<nat, nat>, b: int, sq: Space)
    requires OwnedIn(live, sq) && b !in sq.Blocks() && now == live - {b}
    ensures OwnedIn(now, sq)
  {
  }

  /** A task is unlinked and its struct released beside another process: the other's address
      space and all its pages stay as they are if and only if it is spared. If the block has
      become a table, exactly one page is remapped, to where `next` points; if it has become
      the directory, a whole table is lost. */
  method UnlinkBeside(k: Kernel, st: Scheduler, task: Task, ghost order: seq<Task>, ghost x: nat, ghost sq: Space)
    requires k.Valid() && IsHead(k.live, task.self) && IsSpace(k, sq) && BlockOf(task.self) !in sq.Blocks()
    requires st.Forward(order) && x < |order| && task == order[x] && st.current != null && PrevInRam(task)
    modifies k.heap.mem, k.ram, k`live, st, (if task.prev != null then {task.prev} else {})`next
    ensures k.Valid() && k.live == old(k.live) - {BlockOf(task.self)}
    ensures (IsSpace(k, sq) && Pages(k, sq) == old(Pages(k, sq)))
            <==> old(Spared(k, sq, PrevBlock(task), NextWord(task.next)))
    ensures forall t :: 0 <= t < ENTRIES && old(PrevBlock(task)) == sq.tables[t] ==>
              IsSpace(k, sq)
              && Pages(k, sq) == old(Pages(k, sq))[t * ENTRIES + NEXT_WORD := old(NextWord(task.next))]
    ensures old(PrevBlock(task)) == sq.dir && !old(Spared(k, sq, PrevBlock(task), NextWord(task.next))) ==>
              !IsSpace(k, sq)
    ensures st.Forward(Without(order, x)) <==> old(UnlinksCleanly(order, x))
  {
    ghost var prev, word, was := PrevBlock(task), NextWord(task.next), k.live;
    SpaceOwned(k, sq);
    UnlinkAndFree(k, st, task, order, x);
    OwnedStill(was, k.live, BlockOf(task.self), sq);
    assert SparedExactly(k, [], prev, word, sq);
  }

  // ---- A run that gets there ----

  /** Releasing a run frees its blocks and takes none. */
  lemma FreedMore(s: seq<bv8>, live: map<nat, nat>, t: seq<bv8>, b: nat)
    requires Encodes(s, live) && b in live && Encodes(t, live - {b}) && |t| == |s|
    ensures b < |s| && IsFree(t[b])
    ensures forall k :: 0 <= k < |s| ==> (IsFree(t[k]) <==> IsFree(s[k]) || b <= k < b + live[b])
  {
    FreeDropsRun(s, live, b);
    TableDetermined(Freed(s, b), t, live - {b});
  }

  lemma LowestFree(t: seq<bv8>, b: nat)
    requires b < |t| && IsFree(t[b]) && forall k :: 0 <= k < b ==> !IsFree(t[k])
    ensures FirstFit(t, 1, 0) == b
  {
    assert FreeRun(t, b, 1);
    forall c: nat | c < b ensures !FreeRun(t, c, 1) {
      assert !IsFree(t[c]);
    }
  }

  /** The first step of that run. */
  method FirstGoes(k: Kernel, st: Scheduler, a: Task, b: Task)
    requires k.Valid() && st.Forward([a, b]) && st.BackLinked([a, b]) && st.current != null
    requires IsHead(k.live, a.self) && IsHead(k.live, b.self) && BlockOf(a.self) != BlockOf(b.self)
    requires forall c :: 0 <= c < BlockOf(a.self) && c < HEAP_BLOCKS ==> !IsFree(k.Table()[c])
    modifies k.heap.mem, k.ram, k`live, st
    ensures k.Valid() && IsHead(k.live, b.self) && FreeCount(k.Table()) >= old(FreeCount(k.Table()))
    ensures FirstFit(k.Table(), 1, 0) == BlockOf(a.self) < HEAP_BLOCKS
    ensures st.Forward([b]) && st.current != null && b.prev == a && b.next == null
  {
    ghost var s, was, order := k.Table(), k.live, [a, b];
    assert order[0] == a && order[1] == b && Without(order, 0) == [b];
    UnlinkAndFree(k, st, a, order, 0);
    FreedMore(s, was, k.Table(), BlockOf(a.self));
    LowestFree(k.Table(), BlockOf(a.self));
    MoreFree(s, k.Table());
  }

  /** `a` leaves the list; its block is the lowest free one, so the next address space has its
      directory there; then `b`, whose `prev` still points to it, leaves as the last task. The
      write clears a directory word, and the new process has lost the pages of 4 MB. */
  method ReusedBlock(k: Kernel, st: Scheduler, a: Task, b: Task, flags: Word) returns (chunk: Word, ghost sq: Space)
    requires k.Valid() && st.Forward([a, b]) && st.BackLinked([a, b]) && st.current != null
    requires IsHead(k.live, a.self) && IsHead(k.live, b.self) && BlockOf(a.self) != BlockOf(b.self)
    requires forall c :: 0 <= c < BlockOf(a.self) && c < HEAP_BLOCKS ==> !IsFree(k.Table()[c])
    requires FreeCount(k.Table()) >= SPACE_BLOCKS && flags < 0x100
    modifies k.heap.mem, k.ram, k`live, st, a`next
    ensures k.Valid() && sq.dir == BlockOf(a.self) && chunk == Addr(sq.chunk)
    ensures !IsSpace(k, sq)
  {
    FirstGoes(k, st, a, b);
    chunk, sq := New4gb(k, flags);
    SpaceOwned(k, sq);
    UnlinkBeside(k, st, b, [b], 0, sq);
  }
}
