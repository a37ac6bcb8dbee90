/** Mapping a loaded program and its stack into the address space of its task. */
module ProgramMap {
  import opened Bits
  import opened HeapTable
  import opened K = Kernel
  import opened Mmu
  import opened Paging
  import opened AddressSpace
  import opened ElfLoader
  import opened Process

  const PROGRAM_VIRTUAL_ADDRESS: Word := 0x400000
  const STACK_SIZE: Word := 0x4000
  const STACK_VIRTUAL_END: Word := 0x3FF000 - 0x4000

  /** elf_phdr_phys_address */
  function SegmentPhys(memory: Word, ph: Phdr): Word {
    (memory + ph.offset) % WORD
  }

  function SegmentLow(memory: Word, ph: Phdr): Word {
    AlignToLowerPage(SegmentPhys(memory, ph))
  }

  function SegmentEnd(memory: Word, ph: Phdr): Word {
    AlignAddress((SegmentPhys(memory, ph) + ph.memsz) % WORD)
  }

  function SegmentFlags(ph: Phdr): Word {
    if And(ph.flags, PF_W) != 0 then IS_PRESENT + ACCESS_FROM_ALL + IS_WRITABLE else IS_PRESENT + ACCESS_FROM_ALL
  }

  function SegmentCount(memory: Word, ph: Phdr): int {
    (SegmentEnd(memory, ph) - SegmentLow(memory, ph)) / PAGE_SIZE
  }

  /** paging_map_to refuses a segment whose end wraps below its start. */
  predicate Accepted(memory: Word, ph: Phdr) {
    SegmentLow(memory, ph) <= SegmentEnd(memory, ph)
  }

  lemma RoundingAligns(address: Word)
    ensures IsAligned(AlignToLowerPage(address)) && IsAligned(AlignAddress(address))
    ensures address - PAGE_SIZE < AlignToLowerPage(address) <= address
    ensures address <= WORD - PAGE_SIZE ==> address <= AlignAddress(address) < address + PAGE_SIZE
  {
  }

  lemma SegmentAligned(memory: Word, ph: Phdr)
    ensures MapToAccepts(AlignToLowerPage(ph.vaddr), SegmentLow(memory, ph), SegmentEnd(memory, ph))
            <==> Accepted(memory, ph)
    ensures Accepted(memory, ph) ==> 0 <= SegmentCount(memory, ph) < PAGES
  {
    RoundingAligns(ph.vaddr);
    RoundingAligns(SegmentPhys(memory, ph));
    RoundingAligns((SegmentPhys(memory, ph) + ph.memsz) % WORD);
  }

  ghost function MapSegment(ps: seq<Word>, memory: Word, ph: Phdr): (qs: seq<Word>)
    requires |ps| == PAGES
    ensures |qs| == PAGES
  {
    Mapped(ps, AlignToLowerPage(ph.vaddr), SegmentLow(memory, ph), SegmentCount(memory, ph), SegmentFlags(ph))
  }

  ghost function MapSegments(ps: seq<Word>, memory: Word, phdrs: seq<Phdr>): (qs: seq<Word>)
    requires |ps| == PAGES
    ensures |qs| == PAGES
  {
    if phdrs == [] then ps
    else MapSegment(MapSegments(ps, memory, phdrs[..|phdrs| - 1]), memory, phdrs[|phdrs| - 1])
  }

  lemma MapSegmentsStep(ps: seq<Word>, memory: Word, phdrs: seq<Phdr>, i: nat)
    requires |ps| == PAGES && i < |phdrs|
    ensures MapSegments(ps, memory, phdrs[..i + 1]) ==
            MapSegment(MapSegments(ps, memory, phdrs[..i]), memory, phdrs[i])
  {
    assert phdrs[..i + 1][..i] == phdrs[..i];
  }

  /** One turn of process_map_elf. */
  method MapOne(k: Kernel, chunk: Word, memory: Word, ph: Phdr, ghost sp: Space) returns (res: int)
    requires IsSpace(k, sp) && chunk == Addr(sp.chunk)
    modifies k.ram
    ensures IsSpace(k, sp)
    ensures res == if Accepted(memory, ph) then 0 else -EINVARG
    ensures Pages(k, sp) == if res == 0 then MapSegment(old(Pages(k, sp)), memory, ph) else old(Pages(k, sp))
    ensures forall c, i | 0 <= c < HEAP_BLOCKS && 0 <= i < WORDS ::
              c !in sp.tables ==> k.ram[c, i] == old(k.ram[c, i])
  {
    SegmentAligned(memory, ph);
    var virt, low, end := AlignToLowerPage(ph.vaddr), SegmentLow(memory, ph), SegmentEnd(memory, ph);
    var flags := SegmentFlags(ph);
    res := MapTo(k, chunk, virt, low, end, flags, sp);
  }

  /** process_map_elf: in order, up to the first refused segment. */
  method MapElf(k: Kernel, chunk: Word, file: ElfFile, ghost sp: Space) returns (res: int, ghost done: nat)
    requires IsSpace(k, sp) && chunk == Addr(sp.chunk)
    modifies k.ram
    ensures IsSpace(k, sp)
    ensures ElfMapped(file, res, done, old(Pages(k, sp)), Pages(k, sp))
    ensures forall c, i | 0 <= c < HEAP_BLOCKS && 0 <= i < WORDS ::
              c !in sp.tables ==> k.ram[c, i] == old(k.ram[c, i])
  {
    res := 0;
    done := 0;
    ghost var ps := Pages(k, sp);
    var i := 0;
    while i < |file.phdrs|
      invariant IsSpace(k, sp) && done == i <= |file.phdrs| && res == 0
      invariant MappedSoFar(file, i, ps, Pages(k, sp))
      invariant forall c, i | 0 <= c < HEAP_BLOCKS && 0 <= i < WORDS ::
                  c !in sp.tables ==> k.ram[c, i] == old(k.ram[c, i])
    {
      res := MapNext(k, chunk, file, i, sp, ps);
      if res < 0 {
        break;
      }
      i := i + 1;
      done := done + 1;
    }
  }

  /** Its loop body. */
  method MapNext(k: Kernel, chunk: Word, file: ElfFile, i: nat, ghost sp: Space, ghost ps: seq<Word>) returns (res: int)
    requires IsSpace(k, sp) && chunk == Addr(sp.chunk) && |ps| == PAGES && i < |file.phdrs|
    requires MappedSoFar(file, i, ps, Pages(k, sp))
    modifies k.ram
    ensures IsSpace(k, sp) && MappedSoFar(file, if res == 0 then i + 1 else i, ps, Pages(k, sp))
    ensures res == if Accepted(file.elfMemory, file.phdrs[i]) then 0 else -EINVARG
    ensures forall c, i | 0 <= c < HEAP_BLOCKS && 0 <= i < WORDS ::
              c !in sp.tables ==> k.ram[c, i] == old(k.ram[c, i])
  {
    ghost var before := Pages(k, sp);
    res := MapOne(k, chunk, file.elfMemory, file.phdrs[i], sp);
    if res == 0 {
      SoFarStep(file, i, ps, before, Pages(k, sp));
    }
  }

  lemma SoFarStep(file: ElfFile, i: nat, ps: seq<Word>, before: seq<Word>, after: seq<Word>)
    requires |ps| == PAGES && |before| == PAGES && i < |file.phdrs| && MappedSoFar(file, i, ps, before)
    requires Accepted(file.elfMemory, file.phdrs[i])
    requires after == MapSegment(before, file.elfMemory, file.phdrs[i])
    ensures MappedSoFar(file, i + 1, ps, after)
  {
    MapSegmentsStep(ps, file.elfMemory, file.phdrs, i);
  }

  /** The first `i` segments are mapped. */
  ghost predicate MappedSoFar(file: ElfFile, i: nat, ps: seq<Word>, qs: seq<Word>)
    requires |ps| == PAGES
    reads file
  {
    && i <= |file.phdrs|
    && (forall j :: 0 <= j < i ==> Accepted(file.elfMemory, file.phdrs[j]))
    && qs == MapSegments(ps, file.elfMemory, file.phdrs[..i])
  }

  /** The first `done` segments are mapped; if that is not all, the next was refused. */
  ghost predicate ElfMapped(file: ElfFile, res: int, done: nat, ps: seq<Word>, qs: seq<Word>)
    requires |ps| == PAGES
    reads file
  {
    && MappedSoFar(file, done, ps, qs)
    && (if done == |file.phdrs| then res == 0
        else res == -EINVARG && !Accepted(file.elfMemory, file.phdrs[done]))
  }

  // ---- What the mappings promise ----

  /** Neither the memory of the segment nor its pages run over the end of the 4 GB. */
  predicate NoWrap(memory: Word, ph: Phdr) {
    memory + ph.offset + ph.memsz <= WORD - PAGE_SIZE && ph.vaddr + ph.memsz <= WORD - PAGE_SIZE
  }

  /** Page `p` is one of those the segment reaches into. */
  predicate OnPage(ph: Phdr, p: int) {
    ph.vaddr - ph.vaddr % 0x1000 <= 0x1000 * p < ph.vaddr + ph.memsz
  }

  /** System V gABI chapter 5: p_vaddr and p_offset agree modulo the page size. */
  predicate Congruent(memory: Word, ph: Phdr) {
    ph.vaddr % PAGE_SIZE == (memory + ph.offset) % PAGE_SIZE
  }

  /** Where a table word sends byte `v` of its page. */
  function Through(w: Word, v: Word): Word {
    w - w % PAGE_SIZE + v % PAGE_SIZE
  }

  lemma SegmentShape(memory: Word, ph: Phdr, b: nat)
    requires NoWrap(memory, ph) && Congruent(memory, ph)
    ensures Accepted(memory, ph)
    ensures forall p :: OnPage(ph, p) <==> ph.vaddr / PAGE_SIZE <= p < ph.vaddr / PAGE_SIZE + SegmentCount(memory, ph)
    ensures b < ph.memsz ==> OnPage(ph, (ph.vaddr + b) / PAGE_SIZE)
    ensures AlignToLowerPage(ph.vaddr) + SegmentCount(memory, ph) * PAGE_SIZE <= WORD
    ensures SegmentLow(memory, ph) + SegmentCount(memory, ph) * PAGE_SIZE <= WORD
  {
    var phys := memory + ph.offset;
    assert SegmentPhys(memory, ph) == phys && (phys + ph.memsz) % WORD == phys + ph.memsz;
    RoundingAligns(ph.vaddr);
    RoundingAligns(phys);
    RoundingAligns(phys + ph.memsz);
    SegmentPages(ph.vaddr, phys, ph.memsz, SegmentLow(memory, ph), SegmentEnd(memory, ph), b);
    forall p ensures OnPage(ph, p) <==> ph.vaddr / PAGE_SIZE <= p < ph.vaddr / PAGE_SIZE + SegmentCount(memory, ph) {
      ReachedPages(ph.vaddr, ph.memsz, SegmentLow(memory, ph), SegmentEnd(memory, ph), phys, p);
    }
  }

  /** The pages a range reaches into are as many as its rounded range at `phys` has. */
  lemma ReachedPages(vaddr: Word, memsz: Word, low: Word, end: Word, phys: Word, p: int)
    requires vaddr % PAGE_SIZE == phys % PAGE_SIZE && IsAligned(low) && IsAligned(end)
    requires low <= phys < low + PAGE_SIZE && phys + memsz <= end < phys + memsz + PAGE_SIZE
    ensures vaddr - vaddr % PAGE_SIZE <= PAGE_SIZE * p < vaddr + memsz <==>
      vaddr / PAGE_SIZE <= p < vaddr / PAGE_SIZE + (end - low) / PAGE_SIZE
  {
    var v, n := vaddr / PAGE_SIZE, (end - low) / PAGE_SIZE;
    assert low == phys - phys % PAGE_SIZE;
    assert end == low + n * PAGE_SIZE && vaddr == v * PAGE_SIZE + phys % PAGE_SIZE;
  }

  /** The page arithmetic of one segment. */
  lemma SegmentPages(vaddr: Word, phys: Word, memsz: Word, low: Word, end: Word, b: nat)
    requires vaddr + memsz <= WORD - PAGE_SIZE && vaddr % PAGE_SIZE == phys % PAGE_SIZE
    requires IsAligned(low) && IsAligned(end) && low <= phys < low + PAGE_SIZE
    requires phys + memsz <= end < phys + memsz + PAGE_SIZE
    ensures low <= end && low + (end - low) / PAGE_SIZE * PAGE_SIZE == end
    ensures AlignToLowerPage(vaddr) + (end - low) / PAGE_SIZE * PAGE_SIZE <= WORD
    ensures b < memsz ==>
      vaddr / PAGE_SIZE <= (vaddr + b) / PAGE_SIZE < vaddr / PAGE_SIZE + (end - low) / PAGE_SIZE
  {
    assert low == phys - phys % PAGE_SIZE;
    assert end - low == (end - low) / PAGE_SIZE * PAGE_SIZE;
  }

  /** For such a segment the pages it is mapped on, counted round from its first, are those it
      reaches into. */
  lemma CoversIsOnPage(memory: Word, ph: Phdr, q: int)
    requires NoWrap(memory, ph) && Congruent(memory, ph) && 0 <= q < PAGES
    ensures Covers(memory, ph, q) <==> OnPage(ph, q)
  {
    SegmentShape(memory, ph, 0);
    assert AlignToLowerPage(ph.vaddr) / PAGE_SIZE == ph.vaddr / PAGE_SIZE;
  }

  /** One segment sends its bytes to its image and leaves every other page alone. */
  lemma OneSegment(ps: seq<Word>, memory: Word, ph: Phdr, v: Word)
    requires |ps| == PAGES && NoWrap(memory, ph) && Congruent(memory, ph)
    ensures var w := MapSegment(ps, memory, ph)[v / PAGE_SIZE];
      if OnPage(ph, v / PAGE_SIZE) then
        && Through(w, v) == memory + ph.offset + v - ph.vaddr
        && Combine(7, w, v) == Leads(memory + ph.offset + v - ph.vaddr, ph.flags / 2 % 2 == 1, true)
      else w == ps[v / PAGE_SIZE]
  {
    FlagBits(ph);
    SegmentShape(memory, ph, 0);
    var low, n := AlignToLowerPage(ph.vaddr), SegmentCount(memory, ph);
    PageInRange(ph.vaddr, n, v);
    SegmentOffset(memory, ph);
    MappedTranslates(ps, low, SegmentLow(memory, ph), n, SegmentFlags(ph), v);
  }

  /** A segment's pages are present and open to the user, and writable if PF_W is set. */
  lemma FlagBits(ph: Phdr)
    ensures var f := SegmentFlags(ph); f % 2 == 1 && f / 4 % 2 == 1 && (f / 2 % 2 == 1 <==> ph.flags / 2 % 2 == 1)
  {
    WritableBit(ph.flags);
  }

  lemma SegmentOffset(memory: Word, ph: Phdr)
    requires NoWrap(memory, ph) && Congruent(memory, ph)
    ensures SegmentLow(memory, ph) - AlignToLowerPage(ph.vaddr) == memory + ph.offset - ph.vaddr
  {
  }

  lemma PageInRange(start: Word, n: int, v: Word)
    ensures start / PAGE_SIZE <= v / PAGE_SIZE < start / PAGE_SIZE + n <==>
      AlignToLowerPage(start) <= v < AlignToLowerPage(start) + n * PAGE_SIZE
  {
    assert AlignToLowerPage(start) == start / PAGE_SIZE * PAGE_SIZE;
  }

  /** For a segment that fits, its bytes are found where they should be exactly when
      p_vaddr and p_offset are congruent. */
  lemma CongruenceNeeded(ps: seq<Word>, memory: Word, ph: Phdr)
    requires |ps| == PAGES && NoWrap(memory, ph) && ph.memsz > 0
    ensures (forall b: nat :: b < ph.memsz ==> ByteInPlace(ps, memory, ph, b)) <==> Congruent(memory, ph)
  {
    if Congruent(memory, ph) {
      forall b: nat | b < ph.memsz ensures ByteInPlace(ps, memory, ph, b) {
        SegmentShape(memory, ph, b);
        OneSegment(ps, memory, ph, ph.vaddr + b);
      }
    } else {
      // byte 0 already comes out at the wrong place in its page
      WrongPlace(MapSegment(ps, memory, ph)[ph.vaddr / PAGE_SIZE], ph.vaddr, memory + ph.offset);
      assert !ByteInPlace(ps, memory, ph, 0);
    }
  }

  /** A segment at offset 0x10 of its file, asked for at the start of a page: its first byte
      leads to the first byte of the file. */
  lemma ShiftedSegment(ps: seq<Word>)
    requires |ps| == PAGES
    ensures var ph := Phdr(0x10, 0x400000, 1, 1, 0);
      NoWrap(0x1000000, ph) && Through(MapSegment(ps, 0x1000000, ph)[0x400], 0x400000) == 0x1000000
  {
    var ph := Phdr(0x10, 0x400000, 1, 1, 0);
    assert SegmentLow(0x1000000, ph) == 0x1000000 && SegmentCount(0x1000000, ph) == 1;
    MappedTranslates(ps, 0x400000, 0x1000000, 1, SegmentFlags(ph), 0x400000);
  }

  lemma WrongPlace(w: Word, v: Word, target: Word)
    requires v % PAGE_SIZE != target % PAGE_SIZE
    ensures Through(w, v) != target
  {
  }

  ghost predicate ByteInPlace(ps: seq<Word>, memory: Word, ph: Phdr, b: nat)
    requires |ps| == PAGES && NoWrap(memory, ph) && b < ph.memsz
  {
    Through(MapSegment(ps, memory, ph)[(ph.vaddr + b) / PAGE_SIZE], ph.vaddr + b) == memory + ph.offset + b
  }

  ghost predicate WellPlaced(memory: Word, phdrs: seq<Phdr>) {
    && (forall i :: 0 <= i < |phdrs| ==> NoWrap(memory, phdrs[i]) && Congruent(memory, phdrs[i]))
    && forall i, j, p :: 0 <= i < j < |phdrs| && OnPage(phdrs[i], p) ==> !OnPage(phdrs[j], p)
  }

  /** Every byte of every segment leads to its place in the image, with the segment's
      own access rights; pages of no segment are untouched. */
  lemma {:induction false} SegmentsTranslate(ps: seq<Word>, memory: Word, phdrs: seq<Phdr>, v: Word)
    requires |ps| == PAGES && WellPlaced(memory, phdrs)
    ensures var w := MapSegments(ps, memory, phdrs)[v / PAGE_SIZE];
      && (forall i :: 0 <= i < |phdrs| && OnPage(phdrs[i], v / PAGE_SIZE) ==>
            var place := memory + phdrs[i].offset + v - phdrs[i].vaddr;
            place >= 0 && Combine(7, w, v) == Leads(place, phdrs[i].flags / 2 % 2 == 1, true))
      && ((forall i :: 0 <= i < |phdrs| ==> !OnPage(phdrs[i], v / PAGE_SIZE)) ==> w == ps[v / PAGE_SIZE])
    decreases |phdrs|
  {
    if phdrs != [] {
      var n := |phdrs| - 1;
      var front, last := phdrs[..n], phdrs[n];
      FrontWellPlaced(memory, phdrs);
      SegmentsTranslate(ps, memory, front, v);
      OneSegment(MapSegments(ps, memory, front), memory, last, v);
    }
  }

  lemma FrontWellPlaced(memory: Word, phdrs: seq<Phdr>)
    requires phdrs != [] && WellPlaced(memory, phdrs)
    ensures WellPlaced(memory, phdrs[..|phdrs| - 1])
    ensures forall i :: 0 <= i < |phdrs| - 1 ==> phdrs[..|phdrs| - 1][i] == phdrs[i]
  {
    var front := phdrs[..|phdrs| - 1];
    assert forall i :: 0 <= i < |front| ==> front[i] == phdrs[i];
  }

  /** What mapping the program itself does to the pages. */
  ghost predicate ProgramMapped(program: Program, res: int, done: nat, ps: seq<Word>, qs: seq<Word>)
    requires |ps| == PAGES && (program.Elf? ==> program.file != null)
    reads if program.Elf? then {program.file} else {}
  {
    match program
    case Elf(file) => ElfMapped(file, res, done, ps, qs)
    case Binary(ptr, size) =>
      var end := AlignAddress((ptr + size) % WORD);
      if MapToAccepts(PROGRAM_VIRTUAL_ADDRESS, ptr, end) then
        res == 0 && qs == Mapped(ps, PROGRAM_VIRTUAL_ADDRESS, ptr, (end - ptr) / PAGE_SIZE, MAP_ALL)
      else res == -EINVARG && qs == ps
  }

  method MapProgram(k: Kernel, chunk: Word, program: Program, ghost sp: Space) returns (res: int, ghost done: nat)
    requires IsSpace(k, sp) && chunk == Addr(sp.chunk) && (program.Elf? ==> program.file != null)
    modifies k.ram
    ensures IsSpace(k, sp) && ProgramMapped(program, res, done, old(Pages(k, sp)), Pages(k, sp))
    ensures forall c, i | 0 <= c < HEAP_BLOCKS && 0 <= i < WORDS ::
              c !in sp.tables ==> k.ram[c, i] == old(k.ram[c, i])
  {
    done := 0;
    match program {
      case Elf(file) =>
        res, done := MapElf(k, chunk, file, sp);
      case Binary(ptr, size) =>
        res := MapTo(k, chunk, PROGRAM_VIRTUAL_ADDRESS, ptr, AlignAddress((ptr + size) % WORD), MAP_ALL, sp);
    }
  }

  /** process_map_memory: the program, then the stack unless the program failed. */
  method MapMemory(k: Kernel, p: Process, ghost sp: Space)
    returns (res: int, ghost done: nat, ghost program: seq<Word>)
    requires IsSpace(k, sp) && p.task != null && p.task.pageDirectory == Addr(sp.chunk)
    requires IsAligned(p.stack) && p.stack + STACK_SIZE < WORD
    requires p.program.Elf? ==> p.program.file != null
    modifies k.ram
    ensures IsSpace(k, sp) && |program| == PAGES
    ensures ProgramMapped(p.program, res, done, old(Pages(k, sp)), program)
    ensures Pages(k, sp) == if res == 0 then WithStack(program, p.stack) else program
    ensures forall c, i | 0 <= c < HEAP_BLOCKS && 0 <= i < WORDS ::
              c !in sp.tables ==> k.ram[c, i] == old(k.ram[c, i])
  {
    res, done := MapProgram(k, p.task.pageDirectory, p.program, sp);
    program := Pages(k, sp);
    if res == 0 {
      MapStack(k, p.task.pageDirectory, p.stack, sp);
    }
  }

  /** The last call of process_map_memory, which does not look at its result. */
  method MapStack(k: Kernel, chunk: Word, stack: Word, ghost sp: Space)
    requires IsSpace(k, sp) && chunk == Addr(sp.chunk)
    requires IsAligned(stack) && stack + STACK_SIZE < WORD
    modifies k.ram
    ensures IsSpace(k, sp) && Pages(k, sp) == WithStack(old(Pages(k, sp)), stack)
    ensures forall c, i | 0 <= c < HEAP_BLOCKS && 0 <= i < WORDS ::
              c !in sp.tables ==> k.ram[c, i] == old(k.ram[c, i])
  {
    StackRange(stack);
    var end := AlignAddress(stack + STACK_SIZE);
    var ignored := MapTo(k, chunk, STACK_VIRTUAL_END, stack, end, MAP_ALL, sp);
  }

  lemma StackRange(stack: Word)
    requires IsAligned(stack) && stack + STACK_SIZE < WORD
    ensures AlignAddress(stack + STACK_SIZE) == stack + STACK_SIZE
    ensures MapToAccepts(STACK_VIRTUAL_END, stack, stack + STACK_SIZE)
    ensures (stack + STACK_SIZE - stack) / PAGE_SIZE == STACK_SIZE / PAGE_SIZE
  {
  }

  ghost function WithStack(ps: seq<Word>, stack: Word): (qs: seq<Word>)
    requires |ps| == PAGES
    ensures |qs| == PAGES
  {
    Mapped(ps, STACK_VIRTUAL_END, stack, STACK_SIZE / PAGE_SIZE, MAP_ALL)
  }

  /** The stack's 16 KB lie just below 0x3FF000, writable; every other page keeps
      the program's mapping. */
  lemma StackTranslates(ps: seq<Word>, stack: Word, v: Word)
    requires |ps| == PAGES && IsAligned(stack) && stack + STACK_SIZE < WORD
    ensures var w := WithStack(ps, stack)[v / PAGE_SIZE];
      if 0x3FB000 <= v < 0x3FF000 then Combine(7, w, v) == Leads(stack + (v - 0x3FB000), true, true)
      else w == ps[v / PAGE_SIZE]
  {
    MappedTranslates(ps, STACK_VIRTUAL_END, stack, STACK_SIZE / PAGE_SIZE, MAP_ALL, v);
  }

  /** Which segments are refused: whose memory ends in the last page of the 4 GB or wraps, unless
      it wraps almost all the way round. */
  lemma Refused(memory: Word, ph: Phdr)
    requires memory + ph.offset < 0x1_0000_0000
    ensures memory + ph.offset + ph.memsz <= 0xFFFFF000 ==> Accepted(memory, ph)
    ensures memory + ph.offset >= 0x1000 && memory + ph.offset + ph.memsz > 0xFFFFF000 && ph.memsz < 0xFFFFE000 ==>
              !Accepted(memory, ph)
  {
  }

  // ---- Where a process can write ----

  /** The segment is mapped on page `q`. */
  predicate Covers(memory: Word, ph: Phdr, q: int) {
    PagesAfter(AlignToLowerPage(ph.vaddr), q) < SegmentCount(memory, ph)
  }

  predicate IsWritable(ph: Phdr) {
    And(ph.flags, PF_W) != 0
  }

  function SegmentWord(memory: Word, ph: Phdr, q: int): Word {
    EntryWord(Advance(SegmentLow(memory, ph), PagesAfter(AlignToLowerPage(ph.vaddr), q)), SegmentFlags(ph))
  }

  /** The word leads to one of the `n` blocks from `memory` on. */
  predicate Inside(memory: Word, n: nat, w: Word) {
    BlockOf(memory) <= BlockOf(w) < BlockOf(memory) + n
  }

  /** A writable segment's rounded range lies in the `n` blocks of its image. */
  predicate SegmentInside(memory: Word, n: nat, ph: Phdr) {
    IsWritable(ph) && SegmentCount(memory, ph) > 0 ==>
      memory <= SegmentLow(memory, ph) && SegmentEnd(memory, ph) <= memory + n * PAGE_SIZE
  }

  lemma SegmentWordIs(memory: Word, ph: Phdr, q: int)
    requires Accepted(memory, ph) && Covers(memory, ph, q)
    ensures Writable(SegmentWord(memory, ph, q)) <==> IsWritable(ph)
    ensures BlockOf(SegmentWord(memory, ph, q)) ==
            BlockOf(SegmentLow(memory, ph)) + PagesAfter(AlignToLowerPage(ph.vaddr), q)
  {
    var low, i := SegmentLow(memory, ph), PagesAfter(AlignToLowerPage(ph.vaddr), q);
    RoundingAligns(SegmentPhys(memory, ph));
    RoundingAligns((SegmentPhys(memory, ph) + ph.memsz) % WORD);
    CountIsExact(low, SegmentEnd(memory, ph));
    FrameFlags(low, i, SegmentFlags(ph));
    WordAt(SegmentWord(memory, ph, q), low, i, SegmentFlags(ph));
  }

  lemma CountIsExact(low: Word, end: Word)
    requires IsAligned(low) && IsAligned(end) && low <= end
    ensures low + (end - low) / PAGE_SIZE * PAGE_SIZE == end
  {
  }

  /** A table word with frame `low + i` pages. */
  lemma WordAt(w: Word, low: Word, i: nat, flags: Word)
    requires IsAligned(low) && w - w % PAGE_SIZE == low + i * PAGE_SIZE && w % PAGE_SIZE == flags
    ensures BlockOf(w) == BlockOf(low) + i
    ensures Writable(w) <==> Writable(flags)
  {
    var q := w / PAGE_SIZE;
    assert w == q * PAGE_SIZE + flags;
    assert w / 2 == q * 2048 + flags / 2;
  }

  /** A writable segment's pages lead into the image exactly when its range does. */
  lemma SegmentInsideIff(memory: Word, n: nat, ph: Phdr)
    requires Accepted(memory, ph) && IsAligned(memory)
    ensures SegmentInside(memory, n, ph) <==>
      forall q :: 0 <= q < PAGES && Covers(memory, ph, q) && IsWritable(ph) ==>
        Inside(memory, n, SegmentWord(memory, ph, q))
  {
    var virt, low, end := AlignToLowerPage(ph.vaddr), SegmentLow(memory, ph), SegmentEnd(memory, ph);
    var count := SegmentCount(memory, ph);
    RoundingAligns(SegmentPhys(memory, ph));
    RoundingAligns((SegmentPhys(memory, ph) + ph.memsz) % WORD);
    CountIsExact(low, end);
    BlocksOfRange(memory, n, low, end, count);
    forall q | 0 <= q < PAGES && Covers(memory, ph, q) && IsWritable(ph)
      ensures BlockOf(SegmentWord(memory, ph, q)) == BlockOf(low) + PagesAfter(virt, q)
    {
      SegmentWordIs(memory, ph, q);
    }
    if count > 0 {
      PageThatIs(virt, 0);
      PageThatIs(virt, count - 1);
    }
  }

  lemma BlocksOfRange(memory: Word, n: nat, low: Word, end: Word, count: nat)
    requires IsAligned(memory) && IsAligned(low) && low + count * PAGE_SIZE == end
    ensures memory <= low <==> BlockOf(memory) <= BlockOf(low)
    ensures end <= memory + n * PAGE_SIZE <==> BlockOf(low) + count <= BlockOf(memory) + n
  {
  }

  /** Some page comes `i` pages after that of `virt`. */
  lemma PageThatIs(virt: Word, i: nat)
    requires i < PAGES
    ensures exists q :: 0 <= q < PAGES && PagesAfter(virt, q) == i
  {
    var q := (virt / PAGE_SIZE + i) % PAGES;
    assert PagesAfter(virt, q) == i;
  }

  ghost predicate AllAccepted(memory: Word, phdrs: seq<Phdr>) {
    forall i :: 0 <= i < |phdrs| ==> Accepted(memory, phdrs[i])
  }

  ghost predicate ReadOnly(ps: seq<Word>)
    requires |ps| == PAGES
  {
    forall q :: 0 <= q < PAGES ==> !Writable(ps[q])
  }

  /** The last segment that covers page `q`, or -1. */
  function LastCovering(memory: Word, phdrs: seq<Phdr>, q: int): (i: int)
    ensures -1 <= i < |phdrs| && (i >= 0 ==> Covers(memory, phdrs[i], q))
    ensures forall j :: i < j < |phdrs| ==> !Covers(memory, phdrs[j], q)
  {
    if phdrs == [] then -1
    else
      var n := |phdrs| - 1;
      if Covers(memory, phdrs[n], q) then n else LastCovering(memory, phdrs[..n], q)
  }

  /** A page has the word of the last segment that covers it. */
  lemma {:induction false} SegmentsWord(ps: seq<Word>, memory: Word, phdrs: seq<Phdr>, q: int)
    requires |ps| == PAGES && 0 <= q < PAGES
    ensures var i := LastCovering(memory, phdrs, q);
      MapSegments(ps, memory, phdrs)[q] == if i < 0 then ps[q] else SegmentWord(memory, phdrs[i], q)
    decreases |phdrs|
  {
    if phdrs != [] {
      var n := |phdrs| - 1;
      SegmentsWord(ps, memory, phdrs[..n], q);
    }
  }

  /** A .bss that reaches beyond the file: one page of image in block `b`, two pages in
      memory. The second page is writable and leads to the next block of the heap. */
  lemma BssEscapes(ps: seq<Word>, b: nat)
    requires |ps| == PAGES && b + 1 < HEAP_BLOCKS
    ensures var ph := Phdr(0, 0x400000, 0x100, 0x2000, PF_W);
      && Accepted(Addr(b), ph) && !SegmentInside(Addr(b), 1, ph)
      && Writable(MapSegment(ps, Addr(b), ph)[0x401]) && BlockOf(MapSegment(ps, Addr(b), ph)[0x401]) == b + 1
  {
    var ph := Phdr(0, 0x400000, 0x100, 0x2000, PF_W);
    BssShape(b);
    AndSelf();
    SegmentWordIs(Addr(b), ph, 0x401);
  }

  lemma BssShape(b: nat)
    requires b + 1 < HEAP_BLOCKS
    ensures var ph := Phdr(0, 0x400000, 0x100, 0x2000, PF_W);
      && SegmentLow(Addr(b), ph) == Addr(b) && SegmentEnd(Addr(b), ph) == Addr(b) + 0x2000
      && PagesAfter(AlignToLowerPage(ph.vaddr), 0x401) == 1
  {
    assert (Addr(b) + 0x2000) % WORD == Addr(b) + 0x2000 == Addr(b + 2);
    AlignedStays(Addr(b));
    AlignedStays(Addr(b + 2));
    AlignedStays(0x400000);
  }

  lemma AlignedStays(address: Word)
    requires IsAligned(address)
    ensures AlignToLowerPage(address) == address == AlignAddress(address)
  {
  }

  lemma AndSelf()
    ensures And(PF_W, PF_W) != 0
  {
    assert And(1, 1) == 1;
  }
  // ---- Both file types in one form ----

  /** What process_map_memory maps: the segments up to the first refused one, and the stack
      if none was. */
  datatype Layout = Layout(memory: Word, phdrs: seq<Phdr>, stack: Word, stacked: bool)

  ghost function MapLayout(ps: seq<Word>, l: Layout): (qs: seq<Word>)
    requires |ps| == PAGES
    ensures |qs| == PAGES
  {
    var qs := MapSegments(ps, l.memory, l.phdrs);
    if l.stacked then WithStack(qs, l.stack) else qs
  }

  /** A flat binary is mapped like one writable segment that is all of its file. */
  function BinarySegment(size: Word): Phdr {
    Phdr(0, PROGRAM_VIRTUAL_ADDRESS, size, size, PF_W)
  }

  ghost function LayoutOf(program: Program, res: int, done: nat, stack: Word): Layout
    requires program.Elf? ==> program.file != null && done <= |program.file.phdrs|
    reads if program.Elf? then {program.file} else {}
  {
    match program
    case Binary(ptr, size) => Layout(ptr, if res == 0 then [BinarySegment(size)] else [], stack, res == 0)
    case Elf(file) => Layout(file.elfMemory, file.phdrs[..done], stack, res == 0)
  }

  lemma BinaryIsSegment(ps: seq<Word>, ptr: Word, size: Word)
    requires |ps| == PAGES
    requires MapToAccepts(PROGRAM_VIRTUAL_ADDRESS, ptr, AlignAddress((ptr + size) % WORD))
    ensures var end := AlignAddress((ptr + size) % WORD);
      && Accepted(ptr, BinarySegment(size))
      && MapSegments(ps, ptr, [BinarySegment(size)])
         == Mapped(ps, PROGRAM_VIRTUAL_ADDRESS, ptr, (end - ptr) / PAGE_SIZE, MAP_ALL)
  {
    var ph := BinarySegment(size);
    BinaryShape(ptr, size);
    assert [ph][..0] == [];
    assert MapSegments(ps, ptr, [ph]) == MapSegment(ps, ptr, ph);
  }

  lemma BinaryShape(ptr: Word, size: Word)
    requires IsAligned(ptr)
    ensures var ph := BinarySegment(size);
      && SegmentLow(ptr, ph) == ptr && SegmentEnd(ptr, ph) == AlignAddress((ptr + size) % WORD)
      && SegmentFlags(ph) == MAP_ALL && AlignToLowerPage(ph.vaddr) == PROGRAM_VIRTUAL_ADDRESS
  {
    AlignedStays(ptr);
    AlignedStays(PROGRAM_VIRTUAL_ADDRESS);
    AndSelf();
    assert SegmentPhys(ptr, BinarySegment(size)) == ptr;
  }

  /** A flat binary lies at 0x400000, writable, up to the end of its last page; every other page
      is as before. */
  lemma BinaryTranslates(ptr: Word, size: Word, res: int, done: nat, ps: seq<Word>, qs: seq<Word>, v: Word)
    requires |ps| == PAGES && ptr % 0x1000 == 0 && ptr + size <= 0xFFFFF000 && size <= 0xFFBFF000
    requires ProgramMapped(Binary(ptr, size), res, done, ps, qs)
    ensures res == 0 && |qs| == PAGES
    ensures if 0x400000 <= v && 0x1000 * (v / 0x1000) < 0x400000 + size then
              Combine(7, qs[v / 0x1000], v) == Leads(ptr + (v - 0x400000), true, true)
            else qs[v / 0x1000] == ps[v / 0x1000]
  {
    BinaryMapped(ptr, size, res, done, ps, qs);
    OneSegment(ps, ptr, BinarySegment(size), v);
    assert 0x400000 <= v <==> 0x400000 <= 0x1000 * (v / 0x1000);
  }

  lemma BinaryMapped(ptr: Word, size: Word, res: int, done: nat, ps: seq<Word>, qs: seq<Word>)
    requires |ps| == PAGES && IsAligned(ptr) && ptr + size <= WORD - PAGE_SIZE
    requires ProgramMapped(Binary(ptr, size), res, done, ps, qs)
    ensures res == 0 && qs == MapSegment(ps, ptr, BinarySegment(size))
  {
    var ph := BinarySegment(size);
    RoundingAligns(ptr + size);
    BinaryIsSegment(ps, ptr, size);
    assert [ph][..0] == [];
    assert MapSegments(ps, ptr, [ph]) == MapSegment(ps, ptr, ph);
  }

  lemma MappedIsLayout(program: Program, res: int, done: nat, ps: seq<Word>, qs: seq<Word>, stack: Word)
    requires |ps| == PAGES && |qs| == PAGES && (program.Elf? ==> program.file != null)
    requires ProgramMapped(program, res, done, ps, qs)
    ensures program.Elf? ==> done <= |program.file.phdrs|
    ensures var l := LayoutOf(program, res, done, stack);
      && AllAccepted(l.memory, l.phdrs)
      && MapLayout(ps, l) == if res == 0 then WithStack(qs, stack) else qs
  {
    match program {
      case Binary(ptr, size) => if res == 0 { BinaryIsSegment(ps, ptr, size); }
      case Elf(file) => assert MappedSoFar(file, done, ps, qs);
    }
  }
}
