/** Any number of processes on one heap: what each of them can write, over every history
    of starting, mapping, allocating, freeing and ending. */
module Isolation {
  import opened Bits
  import opened HeapTable
  import opened K = Kernel
  import opened Paging
  import opened AddressSpace
  import opened ElfLoader
  import opened Process
  import opened Teardown
  import opened ProgramMap
  import opened Confinement

  /** What belongs to one process alone: allocations, pages, the address space, the runs of
      its image and stack, and those of its structs. Runs are named by their heads. */
  datatype Proc = Proc(slots: seq<Allocation>, pages: seq<Word>, released: set<nat>, space: Space,
                       image: set<int>, structs: set<int>)

  datatype System = System(table: seq<bv8>, live: map<nat, nat>, procs: seq<Proc>)

  /** The memory process_malloc and process_free work on. */
  ghost function View(table: seq<bv8>, live: map<nat, nat>, p: Proc): Memory {
    Memory(table, live, p.slots, p.pages, p.released)
  }

  /** The process with what they left of it. */
  ghost function WithMemory(p: Proc, m: Memory): Proc {
    p.(slots := m.slots, pages := m.pages, released := m.released)
  }

  ghost function Slots(p: Proc): set<int> {
    SlotHeads(p.slots, |p.slots|)
  }

  /** The heads of all runs of the process. */
  ghost function Held(p: Proc): set<int> {
    Slots(p) + p.image + p.structs + p.space.Blocks()
  }

  ghost predicate OwnersApart(p: Proc) {
    && Slots(p) !! p.image + p.structs && p.image !! p.structs
    && p.space.Blocks() !! Slots(p) + p.image + p.structs
  }

  /** The joint invariant of one process, and all its runs are live. */
  ghost predicate ProcHeld(table: seq<bv8>, live: map<nat, nat>, p: Proc) {
    ValidMemory(View(table, live, p), p.space) && OwnersApart(p) && forall h :: h in Held(p) ==> h in live
  }

  /** Every process is valid, and no two hold a run in common. */
  ghost predicate Separate(s: System) {
    && |s.table| == HEAP_BLOCKS && Encodes(s.table, s.live)
    && (forall i :: 0 <= i < |s.procs| ==> ProcHeld(s.table, s.live, s.procs[i]))
    && forall i, j :: 0 <= i < j < |s.procs| ==> Held(s.procs[i]) !! Held(s.procs[j])
  }

  ghost predicate ProcConfined(live: map<nat, nat>, p: Proc) {
    |p.pages| == PAGES && Confined(live, p.image, p.slots, p.pages)
  }

  /** And every process can write its own memory only. */
  ghost predicate SystemOk(s: System) {
    Separate(s) && forall i :: 0 <= i < |s.procs| ==> ProcConfined(s.live, s.procs[i])
  }

  // ---- Histories of the whole system ----

  /** A process calls process_malloc or process_free; a loaded process joins; its program is
      mapped; a process ends; the kernel takes or gives back runs of its own. */
  datatype Turn =
    | Act(i: nat, event: Event) | Join(newcomer: Proc) | Map(i: nat, layout: Layout) | Leave(i: nat) | Kernel

  ghost predicate OthersSame(a: seq<Proc>, b: seq<Proc>, i: nat) {
    |a| == |b| && forall j :: 0 <= j < |a| && j != i ==> b[j] == a[j]
  }

  ghost predicate HoldsNothing(p: Proc) {
    p.released == {} && forall n :: 0 <= n < |p.slots| ==> p.slots[n] == EMPTY
  }

  /** Runs with heads in `held` are as they were. */
  ghost predicate Kept(live: map<nat, nat>, now: map<nat, nat>, held: set<int>) {
    forall h: nat :: h in held && h in live ==> h in now && now[h] == live[h]
  }

  ghost predicate IsTable(s: System) {
    |s.table| == HEAP_BLOCKS && Encodes(s.table, s.live)
  }

  /** The system after a request of process `i`, of any kind and in any state. */
  ghost function ActOn(s: System, i: nat, e: Event): System
    requires i < |s.procs| && |s.table| == HEAP_BLOCKS && |s.procs[i].pages| == PAGES
  {
    var m := After(View(s.table, s.live, s.procs[i]), e);
    System(m.table, m.live, s.procs[i := WithMemory(s.procs[i], m)])
  }

  ghost predicate SystemStep(s: System, t: Turn, s': System) {
    match t
    case Act(i, e) =>
      && i < |s.procs| && |s.table| == HEAP_BLOCKS && |s.procs[i].pages| == PAGES && s' == ActOn(s, i, e)
    case Join(p) =>
      && IsTable(s') && s'.procs == s.procs + [p] && ProcHeld(s'.table, s'.live, p) && HoldsNothing(p)
      && |p.pages| == PAGES && ReadOnly(p.pages)
      && Kept(s.live, s'.live, s.live.Keys) && forall j :: 0 <= j < |s.procs| ==> Held(s.procs[j]) !! Held(p)
    case Map(i, l) =>
      && i < |s.procs| && HoldsNothing(s.procs[i]) && LayoutLaid(s.live, s.procs[i].image, l)
      && |s.procs[i].pages| == PAGES && ReadOnly(s.procs[i].pages)
      && s' == s.(procs := s.procs[i := s.procs[i].(pages := MapLayout(s.procs[i].pages, l))])
    case Leave(i) =>
      && IsTable(s') && i < |s.procs| && s'.procs == s.procs[..i] + s.procs[i + 1..]
      && s'.live == s.live - Held(s.procs[i])
    case Kernel =>
      && IsTable(s') && s'.procs == s.procs
      && forall i :: 0 <= i < |s.procs| ==> Kept(s.live, s'.live, Held(s.procs[i]))
  }

  /** The turns that keep the processes apart: of the requests of a process, those that are
      served or refused or find no slot, and a null pointer unless its release reaches the
      table and block 0 is held by a process. */
  ghost predicate KeepsApart(s: System, t: Turn) {
    match t
    case Act(i, Malloced(size)) =>
      i < |s.procs| && Harmless(View(s.table, s.live, s.procs[i]), Malloced(size), s.procs[i].space)
    case Act(i, Strayed) =>
      i < |s.procs| && (SlotOf(s.procs[i].slots, 0) < 0 || forall j :: 0 <= j < |s.procs| ==> 0 !in Held(s.procs[j]))
    case _ => true
  }

  /** And of the mappings those whose program headers are confined. */
  ghost predicate HarmlessTurn(s: System, t: Turn) {
    KeepsApart(s, t) && (t.Map? && t.i < |s.procs| ==> LayoutConfined(s.live, s.procs[t.i].image, t.layout))
  }

  // ---- One process ----

  lemma HeldIsGood(s: System, i: nat)
    requires Separate(s) && i < |s.procs|
    ensures Good(View(s.table, s.live, s.procs[i]), s.procs[i].space)
  {
    assert ProcHeld(s.table, s.live, s.procs[i]);
  }

  /** A process whose runs are kept is as good as before. */
  lemma BystanderHeld(table: seq<bv8>, live: map<nat, nat>, table': seq<bv8>, live': map<nat, nat>, p: Proc)
    requires ProcHeld(table, live, p) && Kept(live, live', Held(p))
    requires Encodes(table', live') && |table'| == HEAP_BLOCKS
    ensures ProcHeld(table', live', p)
  {
    SlotHeadsLive(live, p.slots);
    forall i | 0 <= i < |p.slots| ensures SlotOk(live', p.slots[i]) {
      assert SlotOk(live, p.slots[i]);
      assert p.slots[i].ptr != 0 ==> BlockOf(p.slots[i].ptr) in Slots(p);
    }
  }

  lemma SlotHeadsLive(live: map<nat, nat>, slots: seq<Allocation>)
    requires SlotsOk(live, slots)
    ensures forall h :: h in SlotHeads(slots, |slots|) ==> h in live
  {
    forall h | h in SlotHeads(slots, |slots|) ensures h in live {
      var i :| 0 <= i < |slots| && slots[i].ptr != 0 && BlockOf(slots[i].ptr) == h;
      assert SlotOk(live, slots[i]);
    }
  }

  /** A served request adds one run to the slots; a release drops one. */
  lemma MallocHeld(table: seq<bv8>, live: map<nat, nat>, p: Proc, size: Word)
    requires |table| == HEAP_BLOCKS && Encodes(table, live) && ProcHeld(table, live, p)
    requires Harmless(View(table, live, p), Malloced(size), p.space)
    ensures var m := AfterMalloc(View(table, live, p), size);
      && ProcHeld(m.table, m.live, WithMemory(p, m)) && Encodes(m.table, m.live)
      && (forall h :: h in Held(WithMemory(p, m)) && h !in Held(p) ==> h !in live)
      && Kept(live, m.live, live.Keys)
  {
    var v, n := View(table, live, p), BlocksFor(size);
    MallocGoodIff(v, size, p.space);
    if Answer(v.table, v.slots, size) != 0 {
      var b := StartBlock(table, n);
      StartNotLive(table, live, n);
      var x, a, q := SlotOf(p.slots, 0), Allocation(Addr(b), size), WithMemory(p, AfterMalloc(v, size));
      HeldMore(p, q, x, a, b);
    }
  }

  lemma HeldMore(p: Proc, q: Proc, x: nat, a: Allocation, b: nat)
    requires OwnersApart(p) && x < |p.slots| && p.slots[x].ptr == 0 && b < HEAP_BLOCKS && a.ptr == Addr(b)
    requires q.slots == p.slots[x := a] && q.image == p.image && q.structs == p.structs && q.space == p.space
    requires b !in Held(p)
    ensures OwnersApart(q) && Held(q) == Held(p) + {b}
  {
    HeadsAdded(p.slots, x, a);
    assert Slots(q) == Slots(p) + {b};
  }

  lemma ReleaseHeld(table: seq<bv8>, live: map<nat, nat>, p: Proc, ptr: Word)
    requires |table| == HEAP_BLOCKS && Encodes(table, live) && ProcHeld(table, live, p) && ptr != 0
    ensures var m := AfterFree(View(table, live, p), ptr);
      && ProcHeld(m.table, m.live, WithMemory(p, m)) && Encodes(m.table, m.live)
      && (forall h :: h in Held(WithMemory(p, m)) ==> h in Held(p))
      && forall h :: h in live && h !in Held(p) ==> h in m.live && m.live[h] == live[h]
  {
    var v, i := View(table, live, p), SlotOf(p.slots, ptr);
    ReleaseGood(v, ptr, p.space);
    if i >= 0 {
      UnjoinedOne(live, p.slots, i);
      HeadsDropped(live, p.slots, i);
    }
  }

  /** Remapping a run to itself, seen at every page. */
  lemma RemappedPage(ps: seq<Word>, b: nat, n: nat, flags: Word, q: int)
    requires |ps| == PAGES && b + n <= HEAP_BLOCKS && 0 <= q < PAGES && (flags == 0 || flags == MAP_ALL)
    ensures var w := Mapped(ps, Addr(b), Addr(b), n, flags)[q];
      if PageOf(b) <= q < PageOf(b) + n then
        BlockOf(w) == q - PageOf(0) && (Writable(w) <==> flags == MAP_ALL)
      else w == ps[q]
  {
    PageInRun(b, n, q);
    if PageOf(b) <= q < PageOf(b) + n {
      var g: nat := q - PageOf(0);
      IdentityRange(ps, b, n, flags, g);
      FlagBits(g, flags);
    }
  }

  lemma PageInRun(b: nat, n: nat, q: int)
    requires b + n <= HEAP_BLOCKS && 0 <= q < PAGES
    ensures PagesAfter(Addr(b), q) < n <==> PageOf(b) <= q < PageOf(b) + n
  {
    assert Addr(b) / PAGE_SIZE == PageOf(b);
  }

  lemma FlagBits(g: nat, flags: Word)
    requires g < HEAP_BLOCKS && (flags == 0 || flags == MAP_ALL)
    ensures BlockOf(Addr(g) + flags) == g && (Writable(Addr(g) + flags) <==> flags == MAP_ALL)
  {
    var q := 1024 * (4096 + g);
    assert Addr(g) == 4 * q;
    BitOne(q);
  }

  lemma BitOne(q: nat)
    ensures (4 * q + 7) / 2 % 2 == 1 && 4 * q / 2 % 2 == 0
  {
  }

  /** More runs, or fewer that are not among `heads`, do not matter to `heads`. */
  lemma RunsStay(live: map<nat, nat>, now: map<nat, nat>, heads: set<int>, g: int)
    requires forall h: nat :: h in heads && h in live ==> h in now && now[h] == live[h]
    ensures InRuns(live, heads, g) ==> InRuns(now, heads, g)
  {
  }

  lemma MallocConfined(live: map<nat, nat>, p: Proc, b: nat, size: Word, index: nat)
    requires ProcConfined(live, p) && index < |p.slots| && p.slots[index].ptr == 0 && b !in live
    requires BlocksFor(size) > 0 && b + BlocksFor(size) <= HEAP_BLOCKS
    ensures var a := Allocation(Addr(b), size);
      Confined(live[b := BlocksFor(size)], p.image, p.slots[index := a],
               Mapped(p.pages, Addr(b), Addr(b), BlocksFor(size), MAP_ALL))
  {
    var n, a := BlocksFor(size), Allocation(Addr(b), size);
    var now, qs := p.slots[index := a], Mapped(p.pages, Addr(b), Addr(b), n, MAP_ALL);
    forall q | 0 <= q < PAGES && Writable(qs[q])
      ensures InRuns(live[b := n], p.image, BlockOf(qs[q])) || SlotPage(now, q, qs[q])
    {
      RemappedPage(p.pages, b, n, MAP_ALL, q);
      if PageOf(b) <= q < PageOf(b) + n {
        assert InRun(now[index], BlockOf(qs[q]));
      } else {
        RunsStay(live, live[b := n], p.image, BlockOf(qs[q]));
        SlotPageStays(p.slots, index, a, q, qs[q]);
      }
    }
  }

  lemma SlotPageStays(slots: seq<Allocation>, index: nat, a: Allocation, q: int, w: Word)
    requires index < |slots| && !InRun(slots[index], BlockOf(w))
    ensures SlotPage(slots, q, w) ==> SlotPage(slots[index := a], q, w)
  {
    if SlotPage(slots, q, w) {
      var i :| 0 <= i < |slots| && InRun(slots[i], BlockOf(w)) && q == PageOf(0) + BlockOf(w);
      assert InRun(slots[index := a][i], BlockOf(w));
    }
  }

  lemma FreeConfined(live: map<nat, nat>, p: Proc, index: nat)
    requires ProcConfined(live, p) && SlotsOk(live, p.slots) && Slots(p) !! p.image
    requires index < |p.slots| && p.slots[index].ptr != 0
    ensures var a := p.slots[index];
      Confined(live - {BlockOf(a.ptr)}, p.image, p.slots[index := EMPTY],
               Mapped(p.pages, a.ptr, a.ptr, BlocksFor(a.size), 0))
  {
    var a, now := p.slots[index], p.slots[index := EMPTY];
    assert SlotOk(live, a);
    var b, n := BlockOf(a.ptr), BlocksFor(a.size);
    var qs := Mapped(p.pages, a.ptr, a.ptr, n, 0);
    HeadsDropped(live, p.slots, index);
    forall q | 0 <= q < PAGES && Writable(qs[q])
      ensures InRuns(live - {b}, p.image, BlockOf(qs[q])) || SlotPage(now, q, qs[q])
    {
      RemappedPage(p.pages, b, n, 0, q);
      RunsStay(live, live - {b}, p.image, BlockOf(qs[q]));
      if SlotPage(p.slots, q, qs[q]) { SlotPageStays(p.slots, index, EMPTY, q, qs[q]); }
    }
  }

  lemma BystanderConfined(live: map<nat, nat>, live': map<nat, nat>, p: Proc)
    requires ProcConfined(live, p) && Kept(live, live', Held(p))
    ensures ProcConfined(live', p)
  {
    forall q | 0 <= q < PAGES && Writable(p.pages[q])
      ensures InRuns(live', p.image, BlockOf(p.pages[q])) || SlotPage(p.slots, q, p.pages[q])
    {
      RunsStay(live, live', p.image, BlockOf(p.pages[q]));
    }
  }

  // ---- Every turn keeps the processes apart, exactly if it is harmless ----

  /** One process changes, the others are still there. */
  lemma OthersAround(s: System, i: nat, p: Proc, table: seq<bv8>, live: map<nat, nat>)
    requires Separate(s) && i < |s.procs| && |table| == HEAP_BLOCKS && Encodes(table, live) && ProcHeld(table, live, p)
    requires forall h :: h in Held(p) && h !in Held(s.procs[i]) ==> h !in s.live
    requires forall h :: h in s.live && h !in Held(s.procs[i]) ==> h in live && live[h] == s.live[h]
    ensures Separate(System(table, live, s.procs[i := p]))
    ensures forall j :: 0 <= j < |s.procs| && j != i ==> Kept(s.live, live, Held(s.procs[j]))
  {
    forall j | 0 <= j < |s.procs| && j != i
      ensures ProcHeld(table, live, s.procs[j]) && Held(p) !! Held(s.procs[j]) && Kept(s.live, live, Held(s.procs[j]))
    {
      assert ProcHeld(s.table, s.live, s.procs[j]) && Held(s.procs[i]) !! Held(s.procs[j]);
      StillApart(s.live, Held(s.procs[i]), Held(p), Held(s.procs[j]));
      BystanderHeld(s.table, s.live, table, live, s.procs[j]);
    }
  }

  lemma StillApart(live: map<nat, nat>, was: set<int>, now: set<int>, other: set<int>)
    requires was !! other && (forall h :: h in other ==> h in live) && forall h :: h in now && h !in was ==> h !in live
    ensures now !! other
  {
    forall h | h in now ensures h !in other {
      assert h in other ==> h in live && h !in was;
    }
  }

  lemma MallocKeeps(s: System, i: nat, size: Word)
    requires Separate(s) && i < |s.procs| && KeepsApart(s, Act(i, Malloced(size)))
    ensures var s' := ActOn(s, i, Malloced(size));
      && Separate(s') && forall j :: 0 <= j < |s.procs| && j != i ==> Kept(s.live, s'.live, Held(s.procs[j]))
  {
    var m := AfterMalloc(View(s.table, s.live, s.procs[i]), size);
    MallocHeld(s.table, s.live, s.procs[i], size);
    OthersAround(s, i, WithMemory(s.procs[i], m), m.table, m.live);
  }

  lemma ReleaseKeeps(s: System, i: nat, ptr: Word)
    requires Separate(s) && i < |s.procs|
    ensures var s' := ActOn(s, i, Released(ptr));
      && Separate(s') && forall j :: 0 <= j < |s.procs| && j != i ==> Kept(s.live, s'.live, Held(s.procs[j]))
  {
    var p := s.procs[i];
    assert ProcHeld(s.table, s.live, p);
    if ptr == 0 {
      assert ActOn(s, i, Released(ptr)) == s;
    } else {
      var m := AfterFree(View(s.table, s.live, p), ptr);
      ReleaseHeld(s.table, s.live, p, ptr);
      OthersAround(s, i, WithMemory(p, m), m.table, m.live);
    }
  }

  lemma StrayKept(s: System, i: nat)
    requires Separate(s) && i < |s.procs| && KeepsApart(s, Act(i, Strayed))
    ensures var s' := ActOn(s, i, Strayed);
      && Separate(s') && forall j :: 0 <= j < |s.procs| && j != i ==> Kept(s.live, s'.live, Held(s.procs[j]))
  {
    var p := s.procs[i];
    assert ProcHeld(s.table, s.live, p);
    if SlotOf(p.slots, 0) < 0 {
      assert ActOn(s, i, Strayed) == s;
    } else {
      var live := s.live - {0};
      FirstRunDropped(s.table, s.live);
      BystanderHeld(s.table, s.live, Freed(s.table, 0), live, p);
      OthersAgain(s, Freed(s.table, 0), live);
      assert ActOn(s, i, Strayed) == System(Freed(s.table, 0), live, s.procs);
    }
  }

  /** Nobody changes, and the runs of all are kept. */
  lemma OthersAgain(s: System, table: seq<bv8>, live: map<nat, nat>)
    requires Separate(s) && |table| == HEAP_BLOCKS && Encodes(table, live)
    requires forall j :: 0 <= j < |s.procs| ==> Kept(s.live, live, Held(s.procs[j]))
    ensures Separate(System(table, live, s.procs))
  {
    forall j | 0 <= j < |s.procs| ensures ProcHeld(table, live, s.procs[j]) {
      BystanderHeld(s.table, s.live, table, live, s.procs[j]);
    }
  }

  lemma MallocHarmLasts(s: System, i: nat, size: Word, live: map<nat, nat>)
    requires Separate(s) && i < |s.procs| && !KeepsApart(s, Act(i, Malloced(size)))
    ensures !Separate(ActOn(s, i, Malloced(size)).(live := live))
  {
    var p, s' := s.procs[i], ActOn(s, i, Malloced(size)).(live := live);
    HeldIsGood(s, i);
    MallocGoodIff(View(s.table, s.live, p), size, p.space);
    assert View(s'.table, live, s'.procs[i]) == AfterMalloc(View(s.table, s.live, p), size).(live := live);
    if Separate(s') {
      HeldIsGood(s', i);
      assert false;
    }
  }

  lemma StrayHarmLasts(s: System, i: nat, live: map<nat, nat>)
    requires Separate(s) && i < |s.procs| && !KeepsApart(s, Act(i, Strayed))
    ensures !Separate(ActOn(s, i, Strayed).(live := live))
  {
    var s' := ActOn(s, i, Strayed).(live := live);
    FirstRunDropped(s.table, s.live);
    var j :| 0 <= j < |s.procs| && 0 in Held(s.procs[j]);
    if Encodes(s'.table, live) {
      RunsDetermined(s'.table, live, s.live - {0});
      assert s'.procs[j] == s.procs[j] && 0 !in live;
      assert !ProcHeld(s'.table, live, s'.procs[j]);
    }
  }

  /** A harmful request leaves a state that is wrong for any live runs. */
  lemma HarmLasts(s: System, i: nat, e: Event, live: map<nat, nat>)
    requires Separate(s) && i < |s.procs| && !KeepsApart(s, Act(i, e))
    ensures !Separate(ActOn(s, i, e).(live := live))
  {
    match e
    case Malloced(size) => MallocHarmLasts(s, i, size, live);
    case Strayed => StrayHarmLasts(s, i, live);
    case Released(_) =>
  }

  lemma JoinKeeps(s: System, p: Proc, s': System)
    requires Separate(s) && SystemStep(s, Join(p), s')
    ensures Separate(s')
  {
    forall j | 0 <= j < |s.procs| ensures ProcHeld(s'.table, s'.live, s'.procs[j]) && Held(s'.procs[j]) !! Held(p) {
      BystanderHeld(s.table, s.live, s'.table, s'.live, s.procs[j]);
    }
  }

  lemma MapKeeps(s: System, i: nat, l: Layout, s': System)
    requires Separate(s) && SystemStep(s, Map(i, l), s')
    ensures Separate(s')
  {
    assert ProcHeld(s.table, s.live, s.procs[i]);
    assert Held(s'.procs[i]) == Held(s.procs[i]);
    assert ProcHeld(s'.table, s'.live, s'.procs[i]);
    OthersAround(s, i, s'.procs[i], s.table, s.live);
  }

  lemma LeaveKeeps(s: System, i: nat, s': System)
    requires Separate(s) && SystemStep(s, Leave(i), s')
    ensures Separate(s')
    ensures forall j :: 0 <= j < |s'.procs| ==>
              s'.procs[j] == s.procs[if j < i then j else j + 1] && Kept(s.live, s'.live, Held(s'.procs[j]))
  {
    forall j | 0 <= j < |s'.procs|
      ensures s'.procs[j] == s.procs[if j < i then j else j + 1] && ProcHeld(s'.table, s'.live, s'.procs[j])
      ensures Kept(s.live, s'.live, Held(s'.procs[j]))
    {
      var was := if j < i then j else j + 1;
      assert Held(s.procs[i]) !! Held(s.procs[was]);
      BystanderHeld(s.table, s.live, s'.table, s'.live, s.procs[was]);
    }
  }

  /** After one turn of any kind the processes are apart if and only if it is one of those
      that keep them so; otherwise no choice of live runs makes up for it. */
  lemma StepKeepsApartIff(s: System, t: Turn, s': System)
    requires Separate(s) && SystemStep(s, t, s')
    ensures Separate(s') <==> KeepsApart(s, t)
    ensures !KeepsApart(s, t) ==> forall live :: !Separate(s'.(live := live))
  {
    match t
    case Act(i, e) =>
      if KeepsApart(s, t) {
        match e
        case Malloced(size) => MallocKeeps(s, i, size);
        case Released(ptr) => ReleaseKeeps(s, i, ptr);
        case Strayed => StrayKept(s, i);
      } else {
        forall live ensures !Separate(s'.(live := live)) {
          HarmLasts(s, i, e, live);
        }
        assert s'.(live := s'.live) == s';
      }
    case Join(p) => JoinKeeps(s, p, s');
    case Map(i, l) => MapKeeps(s, i, l, s');
    case Leave(i) => LeaveKeeps(s, i, s');
    case Kernel => OthersAgain(s, s'.table, s'.live);
  }

  // ---- And confined ----

  lemma ActConfined(s: System, i: nat, e: Event)
    requires SystemOk(s) && i < |s.procs| && KeepsApart(s, Act(i, e))
    ensures ProcConfined(ActOn(s, i, e).live, ActOn(s, i, e).procs[i])
  {
    var p := s.procs[i];
    assert ProcHeld(s.table, s.live, p);
    match e
    case Malloced(size) =>
      var v := View(s.table, s.live, p);
      if Answer(v.table, v.slots, size) != 0 {
        var b := StartBlock(s.table, BlocksFor(size));
        StartNotLive(s.table, s.live, BlocksFor(size));
        MallocConfined(s.live, p, b, size, SlotOf(p.slots, 0));
      }
    case Released(ptr) =>
      if ptr != 0 && SlotOf(p.slots, ptr) >= 0 {
        UnjoinedOne(s.live, p.slots, SlotOf(p.slots, ptr));
        FreeConfined(s.live, p, SlotOf(p.slots, ptr));
      }
    case Strayed =>
      if SlotOf(p.slots, 0) >= 0 { BystanderConfined(s.live, s.live - {0}, p); }
  }

  lemma ActKeepsOk(s: System, i: nat, e: Event, s': System)
    requires SystemOk(s) && SystemStep(s, Act(i, e), s') && KeepsApart(s, Act(i, e))
    ensures SystemOk(s')
  {
    ActConfined(s, i, e);
    match e {
      case Malloced(size) => MallocKeeps(s, i, size);
      case Released(ptr) => ReleaseKeeps(s, i, ptr);
      case Strayed => StrayKept(s, i);
    }
    forall j | 0 <= j < |s.procs| && j != i ensures ProcConfined(s'.live, s'.procs[j]) {
      BystanderConfined(s.live, s'.live, s.procs[j]);
    }
  }

  /** In a system where every process can write its own memory only, one turn of any kind
      keeps it so if and only if it is harmless. */
  lemma StepKeepsOkIff(s: System, t: Turn, s': System)
    requires SystemOk(s) && SystemStep(s, t, s')
    ensures SystemOk(s') <==> HarmlessTurn(s, t)
  {
    StepKeepsApartIff(s, t, s');
    match t
    case Act(i, e) => if KeepsApart(s, t) { ActKeepsOk(s, i, e, s'); }
    case Join(p) =>
      assert ProcConfined(s'.live, p);
      forall j | 0 <= j < |s.procs| ensures ProcConfined(s'.live, s.procs[j]) {
        BystanderConfined(s.live, s'.live, s.procs[j]);
      }
    case Map(i, l) =>
      var p := s.procs[i];
      ConfinedIff(s.live, p.image, p.slots, p.pages, l);
      assert ProcConfined(s'.live, s'.procs[i]) <==> LayoutConfined(s.live, p.image, l);
      assert forall j :: 0 <= j < |s.procs| && j != i ==> s'.procs[j] == s.procs[j];
    case Leave(i) =>
      LeaveKeeps(s, i, s');
      forall j | 0 <= j < |s'.procs| ensures ProcConfined(s'.live, s'.procs[j]) {
        BystanderConfined(s.live, s'.live, s'.procs[j]);
      }
    case Kernel =>
      forall j | 0 <= j < |s.procs| ensures ProcConfined(s'.live, s.procs[j]) {
        BystanderConfined(s.live, s'.live, s.procs[j]);
      }
  }

  ghost predicate History(ss: seq<System>, ts: seq<Turn>) {
    && |ss| == |ts| + 1 && ss[0].procs == [] && IsTable(ss[0])
    && forall n :: 0 <= n < |ts| ==> SystemStep(ss[n], ts[n], ss[n + 1])
  }

  /** From no process at all, over any history of any requests and any programs: all
      processes are apart at every point of it if and only if every turn keeps them so. */
  lemma EveryHistoryApartIff(ss: seq<System>, ts: seq<Turn>)
    requires History(ss, ts)
    ensures (forall n :: 0 <= n < |ss| ==> Separate(ss[n]))
            <==> forall n :: 0 <= n < |ts| ==> KeepsApart(ss[n], ts[n])
  {
    var good := (n: nat) => n < |ss| && Separate(ss[n]);
    var fine := (n: nat) => n < |ts| && KeepsApart(ss[n], ts[n]);
    forall n | 0 <= n < |ts| && good(n) ensures good(n + 1) <==> fine(n) {
      StepKeepsApartIff(ss[n], ts[n], ss[n + 1]);
    }
    GoodThroughout(good, fine, |ts|);
    assert forall n :: 0 <= n < |ss| ==> good(n) == Separate(ss[n]);
    assert forall n :: 0 <= n < |ts| ==> fine(n) == KeepsApart(ss[n], ts[n]);
  }

  /** And all can write their own memory only, at every point, if and only if every turn is
      harmless: no request the heap serves badly, no program that is mapped unconfined. */
  lemma EveryHistoryOkIff(ss: seq<System>, ts: seq<Turn>)
    requires History(ss, ts)
    ensures (forall n :: 0 <= n < |ss| ==> SystemOk(ss[n]))
            <==> forall n :: 0 <= n < |ts| ==> HarmlessTurn(ss[n], ts[n])
  {
    var good := (n: nat) => n < |ss| && SystemOk(ss[n]);
    var fine := (n: nat) => n < |ts| && HarmlessTurn(ss[n], ts[n]);
    forall n | 0 <= n < |ts| && good(n) ensures good(n + 1) <==> fine(n) {
      StepKeepsOkIff(ss[n], ts[n], ss[n + 1]);
    }
    GoodThroughout(good, fine, |ts|);
    assert forall n :: 0 <= n < |ss| ==> good(n) == SystemOk(ss[n]);
    assert forall n :: 0 <= n < |ts| ==> fine(n) == HarmlessTurn(ss[n], ts[n]);
  }

  // ---- What that means ----

  /** What a confined process can write lies in runs of its own: image, stack and allocations. */
  lemma WritesOwn(s: System, i: nat, g: int)
    requires Separate(s) && i < |s.procs| && ProcConfined(s.live, s.procs[i]) && CanWrite(s.procs[i].pages, g)
    ensures InRuns(s.live, s.procs[i].image + Slots(s.procs[i]), g)
  {
    var p := s.procs[i];
    assert ProcHeld(s.table, s.live, p);
    var q :| 0 <= q < PAGES && Writable(p.pages[q]) && BlockOf(p.pages[q]) == g;
    if InRuns(s.live, p.image, g) {
      var h: nat :| h in p.image && h in s.live && h <= g < h + s.live[h];
      assert h in p.image + Slots(p);
    } else {
      var j :| 0 <= j < |p.slots| && InRun(p.slots[j], g);
      assert SlotOk(s.live, p.slots[j]);
      var h: nat := BlockOf(p.slots[j].ptr);
      assert h in Slots(p);
    }
  }

  /** So it cannot write a block of any other live run: another process's memory, page
      tables and directories (its own too), the structs of the kernel. */
  lemma OtherRunsSafe(s: System, i: nat, h: nat, g: int)
    requires Separate(s) && i < |s.procs| && ProcConfined(s.live, s.procs[i])
    requires h in s.live && h <= g < h + s.live[h] && h !in s.procs[i].image + Slots(s.procs[i])
    ensures !CanWrite(s.procs[i].pages, g)
  {
    if CanWrite(s.procs[i].pages, g) {
      WritesOwn(s, i, g);
      var own: nat :| own in s.procs[i].image + Slots(s.procs[i]) && own in s.live && own <= g < own + s.live[own];
      RunsDisjoint(s.table, s.live, h, own);
      assert false;
    }
  }

  /** Two confined processes never can write the same page, in the heap or elsewhere. */
  lemma OneWriter(s: System, i: nat, j: nat, g: int)
    requires Separate(s) && i < |s.procs| && j < |s.procs| && i != j
    requires ProcConfined(s.live, s.procs[i]) && ProcConfined(s.live, s.procs[j])
    ensures !(CanWrite(s.procs[i].pages, g) && CanWrite(s.procs[j].pages, g))
  {
    if CanWrite(s.procs[i].pages, g) {
      WritesOwn(s, i, g);
      var h: nat :| h in s.procs[i].image + Slots(s.procs[i]) && h in s.live && h <= g < h + s.live[h];
      assert Held(s.procs[i]) !! Held(s.procs[j]);
      OtherRunsSafe(s, j, h, g);
    }
  }

  // ---- Histories that go wrong ----

  /** A page of a slot's run is writable. */
  lemma SlotWrites(s: System, j: nat, x: nat, g: nat)
    requires Separate(s) && j < |s.procs| && x < |s.procs[j].slots| && g < HEAP_BLOCKS && InRun(s.procs[j].slots[x], g)
    ensures |s.procs[j].pages| == PAGES && CanWrite(s.procs[j].pages, g)
  {
    assert ProcHeld(s.table, s.live, s.procs[j]);
    FlagBits(g, MAP_ALL);
    var w := s.procs[j].pages[PageOf(g)];
    assert w == Addr(g) + MAP_ALL;
  }

  /** The .bss of BssEscapes, of a process whose image is block `b`, beside a process that
      owns the block behind it: once it is mapped, both can write that block. */
  lemma BssTwoWriters(s: System, i: nat, j: nat, b: nat, stack: Word, x: nat, s': System)
    requires Separate(s) && i < |s.procs| && j < |s.procs| && i != j && b + 1 < HEAP_BLOCKS
    requires b in s.procs[i].image && b in s.live && s.live[b] == 1
    requires x < |s.procs[j].slots| && InRun(s.procs[j].slots[x], b + 1)
    requires SystemStep(s, Map(i, Layout(Addr(b), [Phdr(0, 0x400000, 0x100, 0x2000, PF_W)], stack, true)), s')
    ensures Separate(s') && |s'.procs| == |s.procs| && |s'.procs[i].pages| == |s'.procs[j].pages| == PAGES
    ensures CanWrite(s'.procs[i].pages, b + 1) && CanWrite(s'.procs[j].pages, b + 1)
    ensures !ProcConfined(s'.live, s'.procs[i])
  {
    var ph := Phdr(0, 0x400000, 0x100, 0x2000, PF_W);
    StepKeepsApartIff(s, Map(i, Layout(Addr(b), [ph], stack, true)), s');
    BssPage(s.procs[i].pages, b, stack);
    SlotWrites(s', j, x, b + 1);
    assert ProcHeld(s'.table, s'.live, s'.procs[j]);
    assert SlotOk(s'.live, s'.procs[j].slots[x]);
    var h: nat := BlockOf(s'.procs[j].slots[x].ptr);
    assert h in Slots(s'.procs[j]) && Held(s'.procs[i]) !! Held(s'.procs[j]);
    if ProcConfined(s'.live, s'.procs[i]) {
      OtherRunsSafe(s', i, h, b + 1);
      assert false;
    }
  }

  lemma BssPage(base: seq<Word>, b: nat, stack: Word)
    requires |base| == PAGES && b + 1 < HEAP_BLOCKS && IsAligned(stack) && stack + STACK_SIZE < WORD
    ensures CanWrite(MapLayout(base, Layout(Addr(b), [Phdr(0, 0x400000, 0x100, 0x2000, PF_W)], stack, true)), b + 1)
  {
    var ph := Phdr(0, 0x400000, 0x100, 0x2000, PF_W);
    BssEscapes(base, b);
    assert [ph][..0] == [];
    assert MapSegments(base, Addr(b), [ph]) == MapSegment(base, Addr(b), ph);
    StackWord(MapSegment(base, Addr(b), ph), stack, 0x401);
    assert 0 <= 0x401 < PAGES && !StackPage(0x401);
  }

  /** Where a request for no bytes is answered while the last block is free. */
  ghost predicate EmptyRunAt(s: System, i: nat, r: nat) {
    && IsTable(s) && i < |s.procs| && ProcHeld(s.table, s.live, s.procs[i]) && SlotOf(s.procs[i].slots, 0) >= 0
    && StartBlock(s.table, 0) == r
  }

  lemma NoBlocks(ptr: Word)
    ensures RunBlocks(Allocation(ptr, 0)) == {}
  {
  }

  /** process_malloc(0) only enters the address of the free row into a slot. */
  lemma ZeroSizeAct(s: System, i: nat, r: nat)
    requires EmptyRunAt(s, i, r)
    ensures var p := s.procs[i];
      ActOn(s, i, Malloced(0))
      == s.(procs := s.procs[i := p.(slots := p.slots[SlotOf(p.slots, 0) := Allocation(Addr(r), 0)])])
  {
    var p := s.procs[i];
    assert Marked(s.table, r, 0) == s.table;
    NoPages(p.pages, Addr(r), MAP_ALL);
    NoBlocks(Addr(r));
    assert p.released - RunBlocks(Allocation(Addr(r), 0)) == p.released;
  }

  lemma SlotsBack(live: map<nat, nat>, slots: seq<Allocation>, x: nat, r: nat)
    requires SlotsOk(live, slots) && x < |slots| && slots[x].ptr == 0 && r !in live && r < HEAP_BLOCKS
    ensures var now := slots[x := Allocation(Addr(r), 0)];
      SlotOf(now, Addr(r)) == x && Unjoined(now, Addr(r)) == slots
  {
    var now := slots[x := Allocation(Addr(r), 0)];
    forall k | 0 <= k < |now| && k != x ensures now[k].ptr != Addr(r) {
      assert SlotOk(live, slots[k]);
    }
    assert now[x].ptr == Addr(r) && SlotOk(live, slots[x]);
  }

  lemma NoPages(ps: seq<Word>, ptr: Word, flags: Word)
    requires |ps| == PAGES
    ensures Mapped(ps, ptr, ptr, 0, flags) == ps
  {
  }

  lemma ReleaseEmptyMemory(table: seq<bv8>, live: map<nat, nat>, p: Proc, x: nat, r: nat, was: map<nat, nat>)
    requires |table| == HEAP_BLOCKS && |p.pages| == PAGES && SlotsOk(was, p.slots) && r !in was && r < HEAP_BLOCKS
    requires x < |p.slots| && p.slots[x].ptr == 0
    ensures AfterFree(View(table, live, p.(slots := p.slots[x := Allocation(Addr(r), 0)])), Addr(r))
            == Memory(Freed(table, r), live - {r}, p.slots, p.pages, p.released)
  {
    SlotsBack(was, p.slots, x, r);
    NoPages(p.pages, Addr(r), 0);
    NoBlocks(Addr(r));
    assert p.released + {} == p.released;
  }

  /** Its release frees whatever run has been served there since. */
  lemma ReleaseEmptyRun(s: System, i: nat, r: nat, was: System)
    requires EmptyRunAt(was, i, r) && |s.procs| == |was.procs| && |s.table| == HEAP_BLOCKS
    requires var p := was.procs[i]; s.procs[i] == p.(slots := p.slots[SlotOf(p.slots, 0) := Allocation(Addr(r), 0)])
    ensures ActOn(s, i, Released(Addr(r))) == System(Freed(s.table, r), s.live - {r}, s.procs[i := was.procs[i]])
  {
    StartNotLive(was.table, was.live, 0);
    ReleaseEmptyMemory(s.table, s.live, was.procs[i], SlotOf(was.procs[i].slots, 0), r, was.live);
  }

  /** A served request makes its first block writable. */
  lemma ServedWrites(s: System, i: nat, size: Word)
    requires i < |s.procs| && |s.table| == HEAP_BLOCKS && |s.procs[i].pages| == PAGES
    requires SlotOf(s.procs[i].slots, 0) >= 0 && Fits(s.table, BlocksFor(size))
    ensures var s', r, n := ActOn(s, i, Malloced(size)), StartBlock(s.table, BlocksFor(size)), BlocksFor(size);
      && 0 <= r && s'.table == Marked(s.table, r, n) && s'.live == s.live[r := n]
      && |s'.procs| == |s.procs| && OthersSame(s.procs, s'.procs, i)
      && |s'.procs[i].pages| == PAGES && CanWrite(s'.procs[i].pages, r)
  {
    var r: nat, n := StartBlock(s.table, BlocksFor(size)), BlocksFor(size);
    var s' := ActOn(s, i, Malloced(size));
    assert s'.procs[i].pages == Mapped(s.procs[i].pages, Addr(r), Addr(r), n, MAP_ALL);
    RemappedPage(s.procs[i].pages, r, n, MAP_ALL, PageOf(r));
    assert 0 <= PageOf(r) < PAGES && Writable(s'.procs[i].pages[PageOf(r)]);
  }

  /** Where the run of ZeroSizeTwoWriters can start. */
  ghost predicate TwoRequests(s: System, i: nat, j: nat, size: Word, r: nat) {
    && EmptyRunAt(s, i, r) && EmptyRunAt(s, j, r) && i != j
    && Fits(s.table, BlocksFor(size)) && StartBlock(s.table, BlocksFor(size)) == r
  }

  /** Its state after two calls: `i` has a slot for no bytes at `r`, `j` the run there. */
  ghost predicate BothAt(s: System, i: nat, j: nat, size: Word, r: nat, s2: System) {
    && TwoRequests(s, i, j, size, r) && IsTable(s2) && |s2.procs| == |s.procs|
    && s2.table == Marked(s.table, r, BlocksFor(size)) && s2.live == s.live[r := BlocksFor(size)]
    && s2.procs[i] == s.procs[i].(slots := s.procs[i].slots[SlotOf(s.procs[i].slots, 0) := Allocation(Addr(r), 0)])
    && |s2.procs[j].pages| == PAGES && CanWrite(s2.procs[j].pages, r)
    && forall n :: 0 <= n < |s.procs| ==> s2.procs[n].space == s.procs[n].space
  }

  lemma ZeroSizeFirst(s: System, i: nat, j: nat, size: Word, r: nat)
    requires TwoRequests(s, i, j, size, r)
    ensures var s1 := ActOn(s, i, Malloced(0));
      && Answer(s.table, s.procs[i].slots, 0) == Addr(r)
      && IsTable(s1) && |s1.procs| == |s.procs| && s1.procs[j] == s.procs[j]
      && BothAt(s, i, j, size, r, ActOn(s1, j, Malloced(size)))
  {
    ZeroSizeAct(s, i, r);
    var s1 := ActOn(s, i, Malloced(0));
    assert s1.procs[j] == s.procs[j] && s1.table == s.table && s1.live == s.live;
    ServedWrites(s1, j, size);
    MarkAddsRun(s.table, s.live, r, BlocksFor(size));
  }

  lemma ZeroSizeSecond(s: System, i: nat, j: nat, size: Word, r: nat, s2: System)
    requires BothAt(s, i, j, size, r, s2)
    ensures var s3 := ActOn(s2, i, Released(Addr(r)));
      && IsTable(s3) && |s3.procs| == |s.procs| && s3.procs[i] == s.procs[i]
      && Answer(s3.table, s3.procs[i].slots, size) == Addr(r)
      && IsTable(ActOn(s3, i, Malloced(size)))
    ensures var s4 := ActOn(ActOn(s2, i, Released(Addr(r))), i, Malloced(size));
      && |s4.procs| == |s.procs| && s4.procs[j] == s2.procs[j]
      && |s4.procs[i].pages| == PAGES && CanWrite(s4.procs[i].pages, r)
  {
    ReleaseEmptyRun(s2, i, r, s);
    var s3 := ActOn(s2, i, Released(Addr(r)));
    FreeUndoesMalloc(s.table, s.live, BlocksFor(size));
    assert s3.table == s.table;
    StartNotLive(s.table, s.live, 0);
    assert s3.live == s.live;
    MarkAddsRun(s.table, s.live, r, BlocksFor(size));
    ServedWrites(s3, i, size);
  }

  /** process_malloc(0) of process `i` while the last block is free, then a request of process
      `j` that the search answers with the same block. When `i` gives its pointer back, the
      run of `j` is released, and the next request of `i` gets it: both can write it. */
  lemma ZeroSizeTwoWriters(s: System, i: nat, j: nat, size: Word)
    returns (r: nat, s1: System, s2: System, s3: System, s4: System)
    requires Separate(s) && i < |s.procs| && j < |s.procs| && i != j && LastIsFree(s.table)
    requires SlotOf(s.procs[i].slots, 0) >= 0 && SlotOf(s.procs[j].slots, 0) >= 0
    requires Fits(s.table, BlocksFor(size)) && StartBlock(s.table, BlocksFor(size)) == StartBlock(s.table, 0)
    ensures r == StartBlock(s.table, 0)
    ensures SystemStep(s, Act(i, Malloced(0)), s1) && SystemStep(s1, Act(j, Malloced(size)), s2)
    ensures SystemStep(s2, Act(i, Released(Addr(r))), s3) && SystemStep(s3, Act(i, Malloced(size)), s4)
    ensures |s4.procs| == |s.procs| && |s4.procs[i].pages| == |s4.procs[j].pages| == PAGES
    ensures CanWrite(s4.procs[i].pages, r) && CanWrite(s4.procs[j].pages, r)
  {
    r := StartBlock(s.table, 0);
    assert ProcHeld(s.table, s.live, s.procs[i]) && ProcHeld(s.table, s.live, s.procs[j]);
    ZeroSizeFirst(s, i, j, size, r);
    s1 := ActOn(s, i, Malloced(0));
    s2 := ActOn(s1, j, Malloced(size));
    ZeroSizeSecond(s, i, j, size, r, s2);
    s3 := ActOn(s2, i, Released(Addr(r)));
    s4 := ActOn(s3, i, Malloced(size));
  }
}
