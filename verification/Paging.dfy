/** Two-level x86 page tables built out of heap blocks. */
module Paging {
  import opened Bits
  import opened HeapTable
  import opened K = Kernel

  const ACCESS_FROM_ALL: Word := 0x04
  const IS_WRITABLE: Word := 0x02
  const IS_PRESENT: Word := 0x01
  const ENTRIES := 1024
  const PAGES := 0x100000

  /** The heap blocks an address space is made of: the struct holding the
      directory pointer, the directory, and its 1024 page tables. `rights` is what every
      directory word has in its low 12 bits. */
  datatype Space = Space(chunk: nat, dir: nat, tables: seq<nat>, rights: nat) {
    ghost function Blocks(): set<nat> {
      {chunk, dir} + set t | t in tables
    }

    ghost predicate Distinct() {
      && |tables| == ENTRIES && rights < PAGE_SIZE
      && chunk != dir && chunk !in tables && dir !in tables
      && forall i, j :: 0 <= i < j < ENTRIES ==> tables[i] != tables[j]
    }
  }

  /** The words in RAM at `sp` do form an address space, and it owns its blocks. */
  ghost predicate IsSpace(k: Kernel, sp: Space)
    reads k, k.ram
  {
    && k.Shaped() && sp.Distinct()
    && k.OneBlock(sp.chunk) && k.OneBlock(sp.dir)
    && (forall i :: 0 <= i < ENTRIES ==> k.OneBlock(sp.tables[i]))
    && k.ram[sp.chunk, 0] == Addr(sp.dir)
    && forall i :: 0 <= i < ENTRIES ==> k.ram[sp.dir, i] == Addr(sp.tables[i]) + sp.rights
  }

  /** Masking a directory word leads to its table. */
  method TableOf(entry: Word, ghost table: nat, ghost rights: nat) returns (ptr: Word)
    requires table < HEAP_BLOCKS && rights < PAGE_SIZE && entry == Addr(table) + rights
    ensures ptr == Addr(table) && BlockOf(ptr) == table
  {
    LowOfEntry(table, rights);
    BlockOfAddr(table);
    MaskPage(entry);
    ptr := And(entry, PAGE_MASK);
  }

  lemma LowOfEntry(table: nat, rights: nat)
    requires rights < PAGE_SIZE
    ensures (Addr(table) + rights) % PAGE_SIZE == rights
  {
    assert Addr(table) + rights == (0x1000 + table) * PAGE_SIZE + rights;
  }

  /** The flat view: the table word of page `p` of the 2^20 pages. */
  ghost function Entry(k: Kernel, sp: Space, p: int): Word
    requires IsSpace(k, sp) && 0 <= p < PAGES
    reads k, k.ram
  {
    k.ram[sp.tables[p / ENTRIES], p % ENTRIES]
  }

  /** All 2^20 table words as one flat sequence. */
  ghost function Pages(k: Kernel, sp: Space): (ps: seq<Word>)
    requires IsSpace(k, sp)
    reads k, k.ram
    ensures |ps| == PAGES && forall p | 0 <= p < PAGES :: ps[p] == Entry(k, sp, p)
  {
    seq(PAGES, p requires IsSpace(k, sp) && 0 <= p < PAGES reads k, k.ram => Entry(k, sp, p))
  }

  /** Bit 1 of a table word. */
  predicate Writable(w: Word) {
    w / 2 % 2 == 1
  }

  lemma WritableBit(w: Word)
    ensures Writable(w) <==> And(w, IS_WRITABLE) != 0
  {
    AndOne(w / 2);
    assert And(w, 2) == 2 * And(w / 2, 1);
  }

  predicate IsAligned(address: Word) {
    address % PAGE_SIZE == 0
  }

  /** paging_align_address: rounds up, wrapping at 2^32. */
  function AlignAddress(ptr: Word): Word {
    if ptr % PAGE_SIZE != 0 then (ptr + PAGE_SIZE - ptr % PAGE_SIZE) % WORD else ptr
  }

  function AlignToLowerPage(address: Word): Word {
    address - address % PAGE_SIZE
  }

  function DirectoryIndex(virt: Word): nat {
    virt / (ENTRIES * PAGE_SIZE)
  }

  function TableIndex(virt: Word): nat {
    virt % (ENTRIES * PAGE_SIZE) / PAGE_SIZE
  }

  /** The two indexes name the slot of the address's page in the flat view. */
  lemma IndexesOfPage(virt: Word)
    ensures DirectoryIndex(virt) == virt / PAGE_SIZE / ENTRIES < ENTRIES
    ensures TableIndex(virt) == virt / PAGE_SIZE % ENTRIES
  {
  }

  /** paging_set */
  method Set(k: Kernel, directory: Word, virt: Word, val: Word, ghost sp: Space) returns (res: int)
    requires IsSpace(k, sp) && directory == Addr(sp.dir)
    modifies k.ram
    ensures IsSpace(k, sp)
    ensures res == if IsAligned(virt) then 0 else -EINVARG
    ensures Pages(k, sp) == if res == 0 then old(Pages(k, sp))[virt / PAGE_SIZE := val] else old(Pages(k, sp))
    ensures forall c, i | 0 <= c < HEAP_BLOCKS && 0 <= i < WORDS ::
              c !in sp.tables ==> k.ram[c, i] == old(k.ram[c, i])
  {
    if !IsAligned(virt) {
      return -EINVARG;
    }
    IndexesOfPage(virt);
    var entry := k.ram[BlockOf(directory), DirectoryIndex(virt)];
    var table := TableOf(entry, sp.tables[DirectoryIndex(virt)], sp.rights);
    k.ram[BlockOf(table), TableIndex(virt)] := val;
    assert BlockOf(table) == sp.tables[DirectoryIndex(virt)];
    assert Pages(k, sp) == old(Pages(k, sp))[virt / PAGE_SIZE := val];
    res := 0;
  }

  /** paging_get. It does not look whether paging_get_indexes worked: an address that is not
      aligned reads the word of page 0. */
  method Get(k: Kernel, directory: Word, virt: Word, ghost sp: Space) returns (entry: Word)
    requires IsSpace(k, sp) && directory == Addr(sp.dir)
    ensures entry == Pages(k, sp)[if IsAligned(virt) then virt / PAGE_SIZE else 0]
  {
    var dirIndex, tableIndex := 0, 0;
    ghost var page := if IsAligned(virt) then virt / PAGE_SIZE else 0;
    if IsAligned(virt) {
      IndexesOfPage(virt);
      dirIndex, tableIndex := DirectoryIndex(virt), TableIndex(virt);
    }
    assert dirIndex == page / ENTRIES && tableIndex == page % ENTRIES;
    entry := ReadWord(k, directory, dirIndex, tableIndex, sp);
    assert entry == Entry(k, sp, page);
  }

  /** The word at the two indexes. */
  method ReadWord(k: Kernel, directory: Word, dirIndex: nat, tableIndex: nat, ghost sp: Space) returns (entry: Word)
    requires IsSpace(k, sp) && directory == Addr(sp.dir) && dirIndex < ENTRIES && tableIndex < ENTRIES
    ensures entry == k.ram[sp.tables[dirIndex], tableIndex]
  {
    BlockOfAddr(sp.dir);
    var dirEntry := k.ram[BlockOf(directory), dirIndex];
    assert dirEntry == Addr(sp.tables[dirIndex]) + sp.rights;
    var table := TableOf(dirEntry, sp.tables[dirIndex], sp.rights);
    entry := k.ram[BlockOf(table), tableIndex];
  }

  /** Where an address leads: frame of its page plus offset in the page. */
  ghost function Translate(k: Kernel, sp: Space, virt: Word): Word
    requires IsSpace(k, sp)
    reads k, k.ram
  {
    var frame := Pages(k, sp)[virt / PAGE_SIZE];
    frame - frame % PAGE_SIZE + virt % PAGE_SIZE
  }

  /** paging_get_physical_address */
  method GetPhysicalAddress(k: Kernel, directory: Word, virt: Word, ghost sp: Space) returns (phys: Word)
    requires IsSpace(k, sp) && directory == Addr(sp.dir)
    ensures phys == Translate(k, sp, virt)
  {
    var page := AlignToLowerPage(virt);
    var difference := virt - page;
    var entry := Get(k, directory, page, sp);
    MaskPage(entry);
    assert page % PAGE_SIZE == 0 && page / PAGE_SIZE == virt / PAGE_SIZE;
    phys := And(entry, PAGE_MASK) + difference;
  }

  /** paging_map */
  method Map(k: Kernel, chunk: Word, virt: Word, phys: Word, flags: Word, ghost sp: Space) returns (res: int)
    requires IsSpace(k, sp) && chunk == Addr(sp.chunk)
    modifies k.ram
    ensures IsSpace(k, sp)
    ensures res == if IsAligned(virt) && IsAligned(phys) then 0 else -EINVARG
    ensures Pages(k, sp) ==
            if res == 0 then old(Pages(k, sp))[virt / PAGE_SIZE := EntryWord(phys, flags)] else old(Pages(k, sp))
    ensures forall c, i | 0 <= c < HEAP_BLOCKS && 0 <= i < WORDS ::
              c !in sp.tables ==> k.ram[c, i] == old(k.ram[c, i])
  {
    if virt % PAGE_SIZE != 0 || phys % PAGE_SIZE != 0 {
      return -EINVARG;
    }
    res := Set(k, k.ram[BlockOf(chunk), 0], virt, EntryWord(phys, flags), sp);
  }

  /** How many pages after that of `virt` page `p` comes, around the 2^20 pages. */
  function PagesAfter(virt: Word, p: int): (n: nat)
    ensures n < PAGES
  {
    (p - virt / PAGE_SIZE) % PAGES
  }

  /** The address `i` pages on, wrapping at 2^32. */
  function Advance(address: Word, i: nat): Word {
    (address + i * PAGE_SIZE) % WORD
  }

  /** A table word: frame address OR flags. */
  function EntryWord(frame: Word, flags: Word): Word {
    OrWord(frame, flags);
    Or(frame, flags)
  }

  /** The flat view after mapping `count` pages from `virt` to `phys`. */
  ghost function Mapped(ps: seq<Word>, virt: Word, phys: Word, count: int, flags: Word): (qs: seq<Word>)
    requires |ps| == PAGES
    ensures |qs| == PAGES
  {
    seq(PAGES, p requires 0 <= p < PAGES =>
      if PagesAfter(virt, p) < count then EntryWord(Advance(phys, PagesAfter(virt, p)), flags) else ps[p])
  }

  /** One more page of the range. Once around, a page only gets the word it has. */
  lemma MappedStep(ps: seq<Word>, virt: Word, phys: Word, i: nat, flags: Word)
    requires |ps| == PAGES
    ensures Mapped(ps, virt, phys, i + 1, flags) ==
            Mapped(ps, virt, phys, i, flags)[Advance(virt, i) / PAGE_SIZE := EntryWord(Advance(phys, i), flags)]
  {
    forall p | 0 <= p < PAGES ensures p == Advance(virt, i) / PAGE_SIZE <==> PagesAfter(virt, p) == i % PAGES {
      PageReached(virt, i, p);
    }
    AdvanceAround(phys, i);
  }

  lemma PageReached(virt: Word, i: nat, p: nat)
    requires p < PAGES
    ensures p == Advance(virt, i) / PAGE_SIZE <==> PagesAfter(virt, p) == i % PAGES
  {
    var v := virt / PAGE_SIZE;
    AdvancePage(virt, i);
    RoundTo(v, i, p);
  }

  lemma AdvancePage(virt: Word, i: nat)
    ensures Advance(virt, i) / PAGE_SIZE == (virt / PAGE_SIZE + i) % PAGES
  {
    var v, a := virt / PAGE_SIZE, virt + i * PAGE_SIZE;
    WholePages(v + i, virt % PAGE_SIZE);
    var q, r := a / WORD, a % WORD;
    WholePages(q * PAGES + r / PAGE_SIZE, r % PAGE_SIZE);
    assert a == (q * PAGES + r / PAGE_SIZE) * PAGE_SIZE + r % PAGE_SIZE;
  }

  lemma WholePages(n: nat, o: nat)
    requires o < PAGE_SIZE
    ensures (n * PAGE_SIZE + o) / PAGE_SIZE == n
  {
  }

  /** `i` pages after `v`, around the 2^20 pages. */
  lemma RoundTo(v: nat, i: nat, p: nat)
    requires v < PAGES && p < PAGES
    ensures p == (v + i) % PAGES <==> (p - v) % PAGES == i % PAGES
  {
  }

  /** 2^20 pages are all of the 4 GB. */
  lemma AdvanceAround(address: Word, i: nat)
    ensures Advance(address, i) == Advance(address, i % PAGES)
  {
    assert i == i / PAGES * PAGES + i % PAGES;
    assert address + i * PAGE_SIZE == address + i % PAGES * PAGE_SIZE + i / PAGES * WORD;
  }

  lemma AdvanceOne(address: Word, i: nat)
    ensures (Advance(address, i) + PAGE_SIZE) % WORD == Advance(address, i + 1)
    ensures IsAligned(Advance(address, i)) <==> IsAligned(address)
  {
    var q := (address + i * PAGE_SIZE) / WORD;
    assert Advance(address, i) == address + (i - q * PAGES) * PAGE_SIZE;
  }

  /** paging_map_range */
  method MapRange(k: Kernel, chunk: Word, virt: Word, phys: Word, count: int, flags: Word, ghost sp: Space)
    returns (res: int)
    requires IsSpace(k, sp) && chunk == Addr(sp.chunk)
    modifies k.ram
    ensures IsSpace(k, sp)
    ensures res == if count <= 0 || (IsAligned(virt) && IsAligned(phys)) then 0 else -EINVARG
    ensures Pages(k, sp) ==
            if res == 0 then Mapped(old(Pages(k, sp)), virt, phys, count, flags) else old(Pages(k, sp))
    ensures forall c, i | 0 <= c < HEAP_BLOCKS && 0 <= i < WORDS ::
              c !in sp.tables ==> k.ram[c, i] == old(k.ram[c, i])
  {
    res := 0;
    ghost var was := Pages(k, sp);
    assert Pages(k, sp) == Mapped(was, virt, phys, 0, flags);
    var v, f := virt, phys;
    var i := 0;
    while i < count
      invariant 0 <= i && (i <= count || i == 0) && res == 0 && IsSpace(k, sp)
      invariant i > 0 ==> IsAligned(virt) && IsAligned(phys)
      invariant v == Advance(virt, i) && f == Advance(phys, i)
      invariant Pages(k, sp) == Mapped(was, virt, phys, i, flags)
      invariant forall c, i | 0 <= c < HEAP_BLOCKS && 0 <= i < WORDS ::
                  c !in sp.tables ==> k.ram[c, i] == old(k.ram[c, i])
    {
      AdvanceOne(virt, i);
      AdvanceOne(phys, i);
      res := Map(k, chunk, v, f, flags, sp);
      if res < 0 {
        break;
      }
      MappedStep(was, virt, phys, i, flags);
      v := (v + PAGE_SIZE) % WORD;
      f := (f + PAGE_SIZE) % WORD;
      i := i + 1;
    }
    assert count < 0 ==> Mapped(was, virt, phys, count, flags) == Mapped(was, virt, phys, 0, flags);
  }

  /** What paging_map_to asks of its arguments. */
  predicate MapToAccepts(virt: Word, phys: Word, physEnd: Word) {
    IsAligned(virt) && IsAligned(phys) && IsAligned(physEnd) && phys <= physEnd
  }

  /** paging_map_to changes exactly the pages of its range. */
  method MapTo(k: Kernel, chunk: Word, virt: Word, phys: Word, physEnd: Word, flags: Word, ghost sp: Space)
    returns (res: int)
    requires IsSpace(k, sp) && chunk == Addr(sp.chunk)
    modifies k.ram
    ensures IsSpace(k, sp)
    ensures res == if MapToAccepts(virt, phys, physEnd) then 0 else -EINVARG
    ensures res ==
            if virt % 0x1000 == 0 && phys % 0x1000 == 0 && physEnd % 0x1000 == 0 && phys <= physEnd then 0 else -2
    ensures Pages(k, sp) ==
            if res == 0 then Mapped(old(Pages(k, sp)), virt, phys, (physEnd - phys) / PAGE_SIZE, flags)
            else old(Pages(k, sp))
    ensures forall c, i | 0 <= c < HEAP_BLOCKS && 0 <= i < WORDS ::
              c !in sp.tables ==> k.ram[c, i] == old(k.ram[c, i])
  {
    if virt % PAGE_SIZE != 0 || phys % PAGE_SIZE != 0 || physEnd % PAGE_SIZE != 0 || physEnd < phys {
      return -EINVARG;
    }
    var totalBytes := physEnd - phys;
    var totalPages := totalBytes / PAGE_SIZE;
    res := MapRange(k, chunk, virt, phys, totalPages, flags, sp);
  }
}
