/** What a process can write through its pages, and exactly when the mappings of a loaded
    program keep it inside its own memory. Nothing in the loader checks that. */
module Confinement {
  import opened Bits
  import opened HeapTable
  import opened K = Kernel
  import opened Paging
  import opened AddressSpace
  import opened ElfLoader
  import opened Process
  import opened ProgramMap

  /** Some writable page leads to physical page `g`, counted from the heap's first block. */
  ghost predicate CanWrite(ps: seq<Word>, g: int)
    requires |ps| == PAGES
  {
    exists q :: 0 <= q < PAGES && Writable(ps[q]) && BlockOf(ps[q]) == g
  }

  ghost predicate InRuns(live: map<nat, nat>, heads: set<int>, g: int) {
    exists h: nat :: h in heads && h in live && h <= g < h + live[h]
  }

  /** Page `q` is the own page of a block of a slot. */
  ghost predicate SlotPage(slots: seq<Allocation>, q: int, w: Word) {
    exists i :: 0 <= i < |slots| && InRun(slots[i], BlockOf(w)) && q == PageOf(0) + BlockOf(w)
  }

  /** Every writable page leads into the runs of `image`, or is the own page of a slot's run. */
  ghost predicate Confined(live: map<nat, nat>, image: set<int>, slots: seq<Allocation>, ps: seq<Word>)
    requires |ps| == PAGES
  {
    forall q :: 0 <= q < PAGES && Writable(ps[q]) ==>
      InRuns(live, image, BlockOf(ps[q])) || SlotPage(slots, q, ps[q])
  }

  // ---- After process_map_memory ----

  /** Page `q` is one of the stack's four. */
  predicate StackPage(q: int) {
    STACK_VIRTUAL_END / PAGE_SIZE <= q < STACK_VIRTUAL_END / PAGE_SIZE + STACK_SIZE / PAGE_SIZE
  }

  lemma StackWord(ps: seq<Word>, stack: Word, q: int)
    requires |ps| == PAGES && IsAligned(stack) && stack + STACK_SIZE < WORD && 0 <= q < PAGES
    ensures var w := WithStack(ps, stack)[q];
      if StackPage(q) then
        Writable(w) && BlockOf(w) == BlockOf(stack) + q - STACK_VIRTUAL_END / PAGE_SIZE
      else w == ps[q]
  {
    var n := PagesAfter(STACK_VIRTUAL_END, q);
    assert n < STACK_SIZE / PAGE_SIZE <==> StackPage(q);
    if StackPage(q) {
      FrameFlags(stack, n, MAP_ALL);
      WordAt(WithStack(ps, stack)[q], stack, n, MAP_ALL);
    }
  }

  /** The stack is a run of `image` with its four blocks. */
  ghost predicate StackLaid(live: map<nat, nat>, image: set<int>, stack: Word) {
    && IsHead(live, stack) && stack + STACK_SIZE < WORD
    && BlockOf(stack) in image && live[BlockOf(stack)] >= STACK_SIZE / PAGE_SIZE
  }

  /** No segment was refused, and the stack is where it belongs. */
  ghost predicate LayoutLaid(live: map<nat, nat>, image: set<int>, l: Layout) {
    AllAccepted(l.memory, l.phdrs) && (l.stacked ==> StackLaid(live, image, l.stack))
  }

  /** Where page `q` leads if segment `i` is the last that covers it. */
  function Reached(l: Layout, i: nat, q: int): int
    requires i < |l.phdrs|
  {
    BlockOf(SegmentLow(l.memory, l.phdrs[i])) + PagesAfter(AlignToLowerPage(l.phdrs[i].vaddr), q)
  }

  /** A condition on the program headers: off the stack, a page whose last segment is
      writable leads into a run of the image. */
  ghost predicate LayoutConfined(live: map<nat, nat>, image: set<int>, l: Layout) {
    forall q :: 0 <= q < PAGES && !(l.stacked && StackPage(q)) ==> PageConfined(live, image, l, q)
  }

  ghost predicate PageConfined(live: map<nat, nat>, image: set<int>, l: Layout, q: int) {
    var i := LastCovering(l.memory, l.phdrs, q);
    i >= 0 && IsWritable(l.phdrs[i]) ==> InRuns(live, image, Reached(l, i, q))
  }

  lemma StackConfined(live: map<nat, nat>, image: set<int>, base: seq<Word>, l: Layout, q: int)
    requires |base| == PAGES && LayoutLaid(live, image, l) && l.stacked && 0 <= q < PAGES && StackPage(q)
    ensures InRuns(live, image, BlockOf(MapLayout(base, l)[q]))
  {
    StackWord(MapSegments(base, l.memory, l.phdrs), l.stack, q);
    var h: nat := BlockOf(l.stack);
    assert h in image && h in live && h <= BlockOf(MapLayout(base, l)[q]) < h + live[h];
  }

  lemma SegmentPage(live: map<nat, nat>, image: set<int>, base: seq<Word>, l: Layout, q: int)
    requires |base| == PAGES && ReadOnly(base) && LayoutLaid(live, image, l)
    requires 0 <= q < PAGES && !(l.stacked && StackPage(q))
    ensures var w := MapLayout(base, l)[q];
      (Writable(w) ==> InRuns(live, image, BlockOf(w))) <==> PageConfined(live, image, l, q)
  {
    var qs, i := MapSegments(base, l.memory, l.phdrs), LastCovering(l.memory, l.phdrs, q);
    if l.stacked { StackWord(qs, l.stack, q); }
    SegmentsWord(base, l.memory, l.phdrs, q);
    if i >= 0 { SegmentWordIs(l.memory, l.phdrs[i], q); }
  }

  /** A process that holds nothing is confined after process_map_memory if and only if its
      program headers are, whatever pages its segments share. */
  lemma ConfinedIff(live: map<nat, nat>, image: set<int>, slots: seq<Allocation>, base: seq<Word>, l: Layout)
    requires |base| == PAGES && ReadOnly(base) && LayoutLaid(live, image, l)
    requires forall n :: 0 <= n < |slots| ==> slots[n] == EMPTY
    ensures Confined(live, image, slots, MapLayout(base, l)) <==> LayoutConfined(live, image, l)
  {
    var ps := MapLayout(base, l);
    forall q | 0 <= q < PAGES
      ensures (Writable(ps[q]) ==> InRuns(live, image, BlockOf(ps[q])))
              <==> (l.stacked && StackPage(q)) || PageConfined(live, image, l, q)
    {
      if l.stacked && StackPage(q) {
        StackConfined(live, image, base, l, q);
      } else {
        SegmentPage(live, image, base, l, q);
      }
    }
    assert forall q :: 0 <= q < PAGES ==> !SlotPage(slots, q, ps[q]);
  }

  /** A condition a loader could check: every writable segment's rounded range lies in the
      run its image was loaded into. */
  lemma InsideIsConfined(live: map<nat, nat>, image: set<int>, l: Layout)
    requires AllAccepted(l.memory, l.phdrs) && IsHead(live, l.memory) && BlockOf(l.memory) in image
    requires forall i :: 0 <= i < |l.phdrs| ==> SegmentInside(l.memory, live[BlockOf(l.memory)], l.phdrs[i])
    ensures LayoutConfined(live, image, l)
  {
    var h: nat := BlockOf(l.memory);
    forall q | 0 <= q < PAGES && !(l.stacked && StackPage(q)) ensures PageConfined(live, image, l, q) {
      var i := LastCovering(l.memory, l.phdrs, q);
      if i >= 0 && IsWritable(l.phdrs[i]) {
        SegmentInsideIff(l.memory, live[h], l.phdrs[i]);
        SegmentWordIs(l.memory, l.phdrs[i], q);
        assert h in image && h in live && h <= Reached(l, i, q) < h + live[h];
      }
    }
  }

  /** A flat binary, whose image is exactly its file, is always confined. */
  lemma BinaryConfined(live: map<nat, nat>, image: set<int>, ptr: Word, size: Word, stack: Word, stacked: bool)
    requires IsHead(live, ptr) && BlockOf(ptr) in image && live[BlockOf(ptr)] == BlocksFor(size) > 0
    requires BlockOf(ptr) + BlocksFor(size) <= HEAP_BLOCKS
    ensures LayoutConfined(live, image, Layout(ptr, [BinarySegment(size)], stack, stacked))
  {
    var l, ph := Layout(ptr, [BinarySegment(size)], stack, stacked), BinarySegment(size);
    SizeOfBlocks(size);
    RunLimit(BlockOf(ptr), size);
    AlignedStays(ptr);
    assert SegmentLow(ptr, ph) == ptr && SegmentEnd(ptr, ph) == ptr + BlocksFor(size) * BLOCK_SIZE;
    InsideIsConfined(live, image, l);
  }
}
