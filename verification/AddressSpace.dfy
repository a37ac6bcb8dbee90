/** Building, using and tearing down a whole 4 GB address space. */
module AddressSpace {
  import opened Bits
  import opened HeapTable
  import opened K = Kernel
  import opened Mmu
  import opened Paging

  const SPACE_BLOCKS := 1026

  /** A kzalloc of at most one block, when some block is free. */
  method TakeBlock(k: Kernel, size: Word) returns (ptr: Word)
    requires k.Valid() && 0 < size <= BLOCK_SIZE && FreeCount(k.Table()) > 0
    modifies k.heap.mem, k.ram, k`live
    ensures k.Valid() && FreeCount(k.Table()) == old(FreeCount(k.Table())) - 1
    ensures ptr >= HEAP_ADDRESS && ptr == Addr(BlockOf(ptr)) && 0 <= BlockOf(ptr) < HEAP_BLOCKS
    ensures BlockOf(ptr) == FirstFit(old(k.Table()), 1, 0)
    ensures BlockOf(ptr) !in old(k.live) && k.live == old(k.live)[BlockOf(ptr) := 1]
    ensures forall c, i | 0 <= c < HEAP_BLOCKS && 0 <= i < WORDS ::
              c != BlockOf(ptr) ==> k.ram[c, i] == old(k.ram[c, i])
  {
    assert BlocksFor(size) == 1;
    ghost var s, was := k.Table(), k.live;
    FreeCountFits(s);
    ptr := k.Kzalloc(size);
    ghost var b := BlockOf(ptr);
    assert b == FirstFit(s, 1, 0) && FreeRun(s, b, 1);
    MarkAddsRun(s, was, b, 1);
    assert Marked(s, b, 1) == s[b := RunByte(b, 1, b)];
    FreeCountUpdate(s, b, RunByte(b, 1, b));
  }

  /** The inner loop of paging_new_4gb: one table of identity mappings. */
  method FillTable(k: Kernel, table: Word, offset: Word, flags: Word, ghost t: nat)
    requires k.Shaped() && t < HEAP_BLOCKS && table == Addr(t)
    modifies k.ram
    ensures forall b | 0 <= b < ENTRIES ::
              Or((offset + b * PAGE_SIZE) % WORD, flags) == k.ram[t, b]
    ensures forall c, i | 0 <= c < HEAP_BLOCKS && 0 <= i < WORDS :: c != t ==> k.ram[c, i] == old(k.ram[c, i])
  {
    for b := 0 to ENTRIES
      invariant forall j | 0 <= j < b :: Or((offset + j * PAGE_SIZE) % WORD, flags) == k.ram[t, j]
      invariant forall c, i | 0 <= c < HEAP_BLOCKS && 0 <= i < WORDS :: c != t ==> k.ram[c, i] == old(k.ram[c, i])
    {
      OrWord((offset + b * PAGE_SIZE) % WORD, flags);
      k.ram[BlockOf(table), b] := Or((offset + b * PAGE_SIZE) % WORD, flags);
    }
  }

  /** Table `t` holds the identity mappings of the `i`-th 4 MB. */
  ghost predicate IdentityTable(k: Kernel, t: int, i: nat, flags: Word)
    requires k.Shaped()
    reads k.ram
  {
    0 <= t < HEAP_BLOCKS && i < ENTRIES &&
    forall b | 0 <= b < ENTRIES :: k.ram[t, b] == Or((i * ENTRIES + b) * PAGE_SIZE, flags)
  }

  /** The flags OR-ed into a table pointer vanish when it is masked, and are all there in its
      low bits: present and user as asked for, writable in any case. */
  lemma TableSurvives(table: nat, flags: Word)
    requires table < HEAP_BLOCKS && flags < 0x100
    ensures var w := Or(Or(Addr(table), flags), IS_WRITABLE);
      && w < WORD && And(w, PAGE_MASK) == Addr(table) && w == Addr(table) + Or(flags, IS_WRITABLE)
      && w % 2 == flags % 2 && w / 2 % 2 == 1 && w / 4 % 2 == flags / 4 % 2
    ensures Or(flags, IS_WRITABLE) < PAGE_SIZE
  {
    FlagsMaskOff(Addr(table), flags, IS_WRITABLE);
    OrFlagBits(flags, IS_WRITABLE);
    OrPageTwice(Addr(table) / 4096, flags, IS_WRITABLE);
    assert Addr(table) == Addr(table) / 4096 * 4096;
    LowBits(flags);
    BitsAbove(Addr(table) / 4096, Or(flags, IS_WRITABLE));
  }

  /** The three access bits after OR-ing with 2. */
  lemma LowBits(flags: nat)
    ensures var r := Or(flags, 2); r % 2 == flags % 2 && r / 2 % 2 == 1 && r / 4 % 2 == flags / 4 % 2
  {
    OrTwo(flags);
    var h, l := flags / 4, flags % 2;
    assert Or(flags, 2) == 4 * h + 2 + l;
    assert (4 * h + 2 + l) / 2 == 2 * h + 1 && (4 * h + 2 + l) / 4 == h;
  }

  lemma OrTwo(flags: nat)
    ensures Or(flags, 2) == 4 * (flags / 4) + 2 + flags % 2
  {
    var a, b := flags / 2, flags / 2 / 2;
    assert flags == 4 * b + 2 * (a % 2) + flags % 2;
    assert flags / 4 == b;
    OrHalves(flags, 2);
    OrHalves(a, 1);
    OrZero(b);
  }

  lemma OrHalves(a: nat, b: nat)
    requires b > 0
    ensures Or(a, b) == 2 * Or(a / 2, b / 2) + (if a % 2 == 1 || b % 2 == 1 then 1 else 0)
  {
  }

  /** An address in the higher bits does not change them. */
  lemma BitsAbove(h: nat, r: nat)
    ensures var w := h * 4096 + r; w % 2 == r % 2 && w / 2 % 2 == r / 2 % 2 && w / 4 % 2 == r / 4 % 2
  {
    Halves(2048 * h, r);
    Halves(1024 * h, r / 2);
    Quarters(1024 * h, r);
    Halves(512 * h, r / 4);
  }

  lemma Halves(x: nat, r: nat)
    ensures (2 * x + r) / 2 == x + r / 2 && (2 * x + r) % 2 == r % 2
  {
  }

  lemma Quarters(x: nat, r: nat)
    ensures (4 * x + r) / 4 == x + r / 4
  {
  }

  ghost predicate Fresh(was: map<nat, nat>, now: map<nat, nat>, taken: set<nat>) {
    && now.Keys == was.Keys + taken && was.Keys !! taken
    && (forall b :: b in was ==> now[b] == was[b])
    && (forall b :: b in taken ==> now[b] == 1)
  }

  /** A new table, filled. */
  method NewTable(k: Kernel, i: nat, flags: Word) returns (table: Word)
    requires k.Valid() && FreeCount(k.Table()) > 0 && i < ENTRIES
    modifies k.heap.mem, k.ram, k`live
    ensures k.Valid() && FreeCount(k.Table()) == old(FreeCount(k.Table())) - 1
    ensures table >= HEAP_ADDRESS && table == Addr(BlockOf(table)) && 0 <= BlockOf(table) < HEAP_BLOCKS
    ensures BlockOf(table) !in old(k.live) && k.live == old(k.live)[BlockOf(table) := 1]
    ensures IdentityTable(k, BlockOf(table), i, flags)
    ensures forall c, j | 0 <= c < HEAP_BLOCKS && 0 <= j < WORDS ::
              c != BlockOf(table) ==> k.ram[c, j] == old(k.ram[c, j])
  {
    table := TakeBlock(k, PAGE_SIZE);
    var offset := i * (ENTRIES * PAGE_SIZE);
    FillTable(k, table, offset, flags, BlockOf(table));
  }

  /** One turn of the outer loop: allocate a table, fill it, enter it. */
  method AddTable(k: Kernel, directory: Word, i: nat, flags: Word, ghost dir: nat) returns (table: Word)
    requires k.Valid() && FreeCount(k.Table()) > 0 && flags < 0x100 && i < ENTRIES
    requires k.OneBlock(dir) && directory == Addr(dir)
    modifies k.heap.mem, k.ram, k`live
    ensures k.Valid() && FreeCount(k.Table()) == old(FreeCount(k.Table())) - 1
    ensures table >= HEAP_ADDRESS && table == Addr(BlockOf(table)) && 0 <= BlockOf(table) < HEAP_BLOCKS
    ensures BlockOf(table) !in old(k.live) && k.live == old(k.live)[BlockOf(table) := 1]
    ensures k.ram[dir, i] == table + Or(flags, IS_WRITABLE)
    ensures IdentityTable(k, BlockOf(table), i, flags)
    ensures forall c, j | 0 <= c < HEAP_BLOCKS && 0 <= j < WORDS ::
              c != BlockOf(table) && !(c == dir && j == i) ==> k.ram[c, j] == old(k.ram[c, j])
  {
    table := NewTable(k, i, flags);
    EnterTable(k, directory, i, table, flags, dir);
  }

  /** The last statement of that loop. */
  method EnterTable(k: Kernel, directory: Word, i: nat, table: Word, flags: Word, ghost dir: nat)
    requires k.Shaped() && flags < 0x100 && i < ENTRIES && dir < HEAP_BLOCKS && directory == Addr(dir)
    requires 0 <= BlockOf(table) < HEAP_BLOCKS && table == Addr(BlockOf(table))
    modifies k.ram
    ensures k.ram[dir, i] == table + Or(flags, IS_WRITABLE)
    ensures forall c, j | 0 <= c < HEAP_BLOCKS && 0 <= j < WORDS ::
              !(c == dir && j == i) ==> k.ram[c, j] == old(k.ram[c, j])
  {
    TableSurvives(BlockOf(table), flags);
    k.ram[BlockOf(directory), i] := Or(Or(table, flags), IS_WRITABLE);
  }

  ghost function SetOf(tables: seq<nat>): (r: set<nat>) {
    set t | t in tables
  }

  /** The first `|tables|` turns of the outer loop are done. */
  ghost predicate Partial(k: Kernel, dir: nat, tables: seq<nat>, flags: Word)
    reads k, k.ram
  {
    && k.Shaped() && k.OneBlock(dir) && dir !in tables && |tables| <= ENTRIES
    && (forall a, b :: 0 <= a < b < |tables| ==> tables[a] != tables[b])
    && forall j | 0 <= j < |tables| ::
         k.OneBlock(tables[j]) && IdentityTable(k, tables[j], j, flags)
         && k.ram[dir, j] == Addr(tables[j]) + Or(flags, IS_WRITABLE)
  }

  method ExtendTables(k: Kernel, directory: Word, i: nat, flags: Word, ghost dir: nat, ghost tables: seq<nat>)
    returns (ghost t: nat)
    requires k.Valid() && FreeCount(k.Table()) > 0 && flags < 0x100 && i == |tables| < ENTRIES
    requires Partial(k, dir, tables, flags) && directory == Addr(dir)
    modifies k.heap.mem, k.ram, k`live
    ensures k.Valid() && FreeCount(k.Table()) == old(FreeCount(k.Table())) - 1
    ensures Partial(k, dir, tables + [t], flags)
    ensures t !in old(k.live) && k.live == old(k.live)[t := 1]
    ensures forall c, j | 0 <= c < HEAP_BLOCKS && 0 <= j < WORDS ::
              c != t && c != dir ==> k.ram[c, j] == old(k.ram[c, j])
  {
    var table := AddTable(k, directory, i, flags, dir);
    t := BlockOf(table);
    assert forall j | 0 <= j < |tables| :: tables[j] in old(k.live) && tables[j] != t;
    forall j | 0 <= j < |tables|
      ensures IdentityTable(k, tables[j], j, flags) && k.ram[dir, j] == Addr(tables[j]) + Or(flags, IS_WRITABLE)
    {
      assert old(IdentityTable(k, tables[j], j, flags));
    }
  }

  lemma FreshMore(was: map<nat, nat>, now: map<nat, nat>, tables: seq<nat>, t: nat)
    requires Fresh(was, now, SetOf(tables)) && t !in now
    ensures Fresh(was, now[t := 1], SetOf(tables) + {t})
    ensures SetOf(tables + [t]) == SetOf(tables) + {t}
  {
  }

  /** The outer loop of paging_new_4gb. */
  method BuildTables(k: Kernel, directory: Word, flags: Word, ghost dir: nat) returns (ghost tables: seq<nat>)
    requires k.Valid() && FreeCount(k.Table()) >= ENTRIES && flags < 0x100
    requires k.OneBlock(dir) && directory == Addr(dir)
    modifies k.heap.mem, k.ram, k`live
    ensures k.Valid() && FreeCount(k.Table()) == old(FreeCount(k.Table())) - ENTRIES
    ensures |tables| == ENTRIES && Partial(k, dir, tables, flags)
    ensures Fresh(old(k.live), k.live, SetOf(tables))
    ensures forall c, j | 0 <= c < HEAP_BLOCKS && 0 <= j < WORDS ::
              c != dir && c !in SetOf(tables) ==> k.ram[c, j] == old(k.ram[c, j])
  {
    tables := [];
    ghost var taken: set<nat> := {};
    for i := 0 to ENTRIES
      invariant k.Valid() && FreeCount(k.Table()) == old(FreeCount(k.Table())) - i
      invariant |tables| == i && Partial(k, dir, tables, flags)
      invariant taken == SetOf(tables) && Fresh(old(k.live), k.live, taken)
      invariant forall c, j | 0 <= c < HEAP_BLOCKS && 0 <= j < WORDS ::
                  c != dir && c !in taken ==> k.ram[c, j] == old(k.ram[c, j])
    {
      ghost var now := k.live;
      ghost var t := ExtendTables(k, directory, i, flags, dir, tables);
      FreshMore(old(k.live), now, tables, t);
      tables, taken := tables + [t], taken + {t};
    }
  }

  /** The struct that records the directory pointer. */
  method NewChunk(k: Kernel, directory: Word, flags: Word, ghost dir: nat, ghost tables: seq<nat>)
    returns (chunk: Word)
    requires k.Valid() && FreeCount(k.Table()) > 0
    requires Partial(k, dir, tables, flags) && directory == Addr(dir)
    modifies k.heap.mem, k.ram, k`live
    ensures k.Valid() && FreeCount(k.Table()) == old(FreeCount(k.Table())) - 1
    ensures chunk >= HEAP_ADDRESS && chunk == Addr(BlockOf(chunk)) && 0 <= BlockOf(chunk) < HEAP_BLOCKS
    ensures BlockOf(chunk) !in old(k.live) && k.live == old(k.live)[BlockOf(chunk) := 1]
    ensures Partial(k, dir, tables, flags) && k.ram[BlockOf(chunk), 0] == directory
    ensures forall c, j | 0 <= c < HEAP_BLOCKS && 0 <= j < WORDS ::
              c != BlockOf(chunk) ==> k.ram[c, j] == old(k.ram[c, j])
  {
    chunk := TakeBlock(k, 4);
    k.ram[BlockOf(chunk), 0] := directory;
    assert forall j | 0 <= j < |tables| :: tables[j] in old(k.live) && tables[j] != BlockOf(chunk);
    forall j | 0 <= j < |tables|
      ensures IdentityTable(k, tables[j], j, flags) && k.ram[dir, j] == Addr(tables[j]) + Or(flags, IS_WRITABLE)
    {
      assert old(IdentityTable(k, tables[j], j, flags));
    }
  }

  /** paging_new_4gb takes 1026 one-block allocations and maps every page to itself. */
  method New4gb(k: Kernel, flags: Word) returns (chunk: Word, ghost sp: Space)
    requires k.Valid() && FreeCount(k.Table()) >= SPACE_BLOCKS && flags < 0x100
    modifies k.heap.mem, k.ram, k`live
    ensures k.Valid() && IsSpace(k, sp) && chunk == Addr(sp.chunk)
    ensures FreeCount(k.Table()) == old(FreeCount(k.Table())) - SPACE_BLOCKS
    ensures sp.dir == FirstFit(old(k.Table()), 1, 0)
    ensures Fresh(old(k.live), k.live, sp.Blocks())
    ensures forall p | 0 <= p < PAGES :: Pages(k, sp)[p] == Or(p * PAGE_SIZE, flags)
    ensures sp.rights % 2 == flags % 2 && sp.rights / 2 % 2 == 1 && sp.rights / 4 % 2 == flags / 4 % 2
    ensures forall v: Word :: Walk(k, Addr(sp.dir), v) ==
              if flags % 2 == 0 then Fault else Leads(v, flags / 2 % 2 == 1, flags / 4 % 2 == 1)
    ensures forall c, i | 0 <= c < HEAP_BLOCKS && 0 <= i < WORDS ::
              c !in sp.Blocks() ==> k.ram[c, i] == old(k.ram[c, i])
  {
    ghost var live0 := k.live;
    var directory := TakeBlock(k, ENTRIES * 4);
    ghost var dir: nat, live1 := BlockOf(directory), k.live;
    ghost var tables := BuildTables(k, directory, flags, dir);
    ghost var live2 := k.live;
    chunk := NewChunk(k, directory, flags, dir, tables);
    sp := Space(BlockOf(chunk), dir, tables, Or(flags, IS_WRITABLE));
    FreshSpace(live0, live1, live2, k.live, sp);
    FinishSpace(k, sp, flags);
    LowBits(flags);
    forall v: Word
      ensures Walk(k, Addr(sp.dir), v) ==
              if flags % 2 == 0 then Fault else Leads(v, flags / 2 % 2 == 1, flags / 4 % 2 == 1)
    {
      IdentityTranslates(k, sp, flags, v);
    }
  }

  lemma FreshSpace(live0: map<nat, nat>, live1: map<nat, nat>, live2: map<nat, nat>, live3: map<nat, nat>, sp: Space)
    requires sp.dir !in live0 && live1 == live0[sp.dir := 1]
    requires Fresh(live1, live2, SetOf(sp.tables))
    requires sp.chunk !in live2 && live3 == live2[sp.chunk := 1]
    ensures Fresh(live0, live3, sp.Blocks())
    ensures sp.chunk != sp.dir && sp.chunk !in sp.tables
    ensures sp.Blocks() == SetOf(sp.tables) + {sp.dir, sp.chunk}
  {
    assert sp.Blocks() == SetOf(sp.tables) + {sp.dir, sp.chunk};
    assert forall t :: t in sp.tables <==> t in SetOf(sp.tables);
  }

  /** A complete set of identity tables under a directory is the identity map. */
  lemma FinishSpace(k: Kernel, sp: Space, flags: Word)
    requires Partial(k, sp.dir, sp.tables, flags) && |sp.tables| == ENTRIES && flags < 0x100
    requires k.OneBlock(sp.chunk) && sp.chunk != sp.dir && sp.chunk !in sp.tables
    requires k.ram[sp.chunk, 0] == Addr(sp.dir) && sp.rights == Or(flags, IS_WRITABLE)
    ensures IsSpace(k, sp)
    ensures forall p | 0 <= p < PAGES :: Pages(k, sp)[p] == Or(p * PAGE_SIZE, flags)
  {
    OrFlagBits(flags, IS_WRITABLE);
    forall p | 0 <= p < PAGES ensures Pages(k, sp)[p] == Or(p * PAGE_SIZE, flags) {
      assert IdentityTable(k, sp.tables[p / ENTRIES], p / ENTRIES, flags);
      assert p / ENTRIES * ENTRIES + p % ENTRIES == p;
    }
  }

  /** The words of an address space, whether its blocks are still allocated or not. */
  ghost predicate Words(k: Kernel, sp: Space)
    reads k.ram
  {
    && k.Shaped() && sp.Distinct() && sp.chunk < HEAP_BLOCKS && sp.dir < HEAP_BLOCKS
    && k.ram[sp.chunk, 0] == Addr(sp.dir)
    && forall i :: 0 <= i < ENTRIES ==> sp.tables[i] < HEAP_BLOCKS && k.ram[sp.dir, i] == Addr(sp.tables[i]) + sp.rights
  }

  /** What the loop of paging_free_4gb finds in directory word `i`. */
  method TableAddress(k: Kernel, chunk: Word, i: nat, ghost sp: Space) returns (table: Word)
    requires Words(k, sp) && chunk == Addr(sp.chunk) && i < ENTRIES
    ensures table == Addr(sp.tables[i])
  {
    BlockOfAddr(sp.chunk);
    var directory := k.ram[BlockOf(chunk), 0];
    assert directory == Addr(sp.dir);
    BlockOfAddr(sp.dir);
    var entry := k.ram[BlockOf(directory), i];
    table := TableOf(entry, sp.tables[i], sp.rights);
  }

  /** One turn of that loop. */
  method FreeTable(k: Kernel, chunk: Word, i: nat, ghost sp: Space)
    requires k.Valid() && Words(k, sp) && chunk == Addr(sp.chunk) && i < ENTRIES && sp.tables[i] in k.live
    modifies k.heap.mem, k`live
    ensures k.Valid() && k.live == old(k.live) - {sp.tables[i]}
  {
    var table := TableAddress(k, chunk, i, sp);
    BlockOfAddr(sp.tables[i]);
    k.KfreeLive(table);
  }

  /** Its last two calls. */
  method FreeDirectory(k: Kernel, chunk: Word, ghost sp: Space)
    requires k.Valid() && Words(k, sp) && chunk == Addr(sp.chunk) && sp.dir in k.live && sp.chunk in k.live
    modifies k.heap.mem, k`live
    ensures k.Valid() && k.live == old(k.live) - {sp.dir, sp.chunk}
  {
    BlockOfAddr(sp.chunk);
    BlockOfAddr(sp.dir);
    ghost var was := k.live;
    k.KfreeLive(k.ram[BlockOf(chunk), 0]);
    k.KfreeLive(chunk);
    assert was - {sp.dir} - {sp.chunk} == was - {sp.dir, sp.chunk};
  }

  /** paging_free_4gb releases exactly the blocks of the space, each once. */
  method Free4gb(k: Kernel, chunk: Word, ghost sp: Space)
    requires k.Valid() && IsSpace(k, sp) && chunk == Addr(sp.chunk)
    modifies k.heap.mem, k`live
    ensures k.Valid() && k.live == old(k.live) - sp.Blocks()
  {
    ghost var gone: set<nat> := {};
    assert Words(k, sp) && OwnedIn(k.live, sp) by { SpaceOwned(k, sp); }
    for i := 0 to ENTRIES
      invariant k.Valid() && Words(k, sp) && gone == (set t | t in sp.tables[..i]) && k.live == old(k.live) - gone
    {
      assert sp.tables[i] !in gone && sp.tables[i] in sp.Blocks();
      FreeTable(k, chunk, i, sp);
      assert sp.tables[..i + 1] == sp.tables[..i] + [sp.tables[i]];
      gone := gone + {sp.tables[i]};
    }
    assert sp.tables[..ENTRIES] == sp.tables;
    FreeDirectory(k, chunk, sp);
    assert sp.Blocks() == gone + {sp.dir, sp.chunk};
  }

  // ---- What an address space promises ----

  /** The processor finds in an address space the page's table word, with no more rights than
      the directory words have. */
  lemma WalkIsEntry(k: Kernel, sp: Space, v: Word)
    requires IsSpace(k, sp)
    ensures Walk(k, Addr(sp.dir), v) == Combine(sp.rights, Pages(k, sp)[v / 0x1000], v)
    ensures Combine(sp.rights, Pages(k, sp)[v / 0x1000], v).Leads? ==>
              Combine(sp.rights, Pages(k, sp)[v / 0x1000], v).phys == Translate(k, sp, v)
  {
    IndexesOfPage(v);
    var t := sp.tables[v / 0x400000];
    var pde := k.ram[sp.dir, v / 0x400000];
    assert pde == (0x1000 + t) * 4096 + sp.rights;
    BitsAbove(0x1000 + t, sp.rights);
    assert (pde - pde % 0x1000 - 0x1000000) / 0x1000 == t;
    assert k.ram[t, v / 0x1000 % 0x400] == Entry(k, sp, v / 0x1000);
  }

  /** A new address space translates every address to itself, with the rights asked for. */
  lemma IdentityTranslates(k: Kernel, sp: Space, flags: Word, v: Word)
    requires IsSpace(k, sp) && flags < 0x100
    requires sp.rights % 2 == flags % 2 && sp.rights / 2 % 2 == 1 && sp.rights / 4 % 2 == flags / 4 % 2
    requires forall p | 0 <= p < PAGES :: Pages(k, sp)[p] == Or(p * PAGE_SIZE, flags)
    ensures Translate(k, sp, v) == v
    ensures Walk(k, Addr(sp.dir), v) ==
            if flags % 2 == 0 then Fault else Leads(v, flags / 2 % 2 == 1, flags / 4 % 2 == 1)
  {
    WalkIsEntry(k, sp, v);
    OwnFrame(v, flags);
  }

  lemma OwnFrame(v: Word, flags: Word)
    requires flags < 0x100
    ensures var w := Or(v / PAGE_SIZE * PAGE_SIZE, flags);
      && w - w % PAGE_SIZE + v % PAGE_SIZE == v
      && w % 2 == flags % 2 && w / 2 % 2 == flags / 2 % 2 && w / 4 % 2 == flags / 4 % 2
  {
    OrFlags(v / PAGE_SIZE * PAGE_SIZE, flags);
    BitsAbove(v / PAGE_SIZE, flags);
  }

  /** After mapping `n` pages, every address of the range leads to its offset from
      `phys`, and addresses of other pages lead where they did. */
  lemma MappedTranslates(ps: seq<Word>, virt: Word, phys: Word, n: nat, flags: Word, v: Word)
    requires |ps| == PAGES && IsAligned(virt) && IsAligned(phys) && flags < PAGE_SIZE
    requires virt + n * PAGE_SIZE <= WORD && phys + n * PAGE_SIZE <= WORD
    ensures var w := Mapped(ps, virt, phys, n, flags)[v / PAGE_SIZE];
      if virt <= v < virt + n * PAGE_SIZE then
        w - w % PAGE_SIZE + v % PAGE_SIZE == phys + (v - virt) && w % PAGE_SIZE == flags
        && w % 2 == flags % 2 && w / 2 % 2 == flags / 2 % 2 && w / 4 % 2 == flags / 4 % 2
      else w == ps[v / PAGE_SIZE]
  {
    InRange(virt, n, v);
    if virt <= v < virt + n * PAGE_SIZE {
      var i := v / PAGE_SIZE - virt / PAGE_SIZE;
      FrameFlags(phys, i, flags);
      assert v % PAGE_SIZE == v - virt - i * PAGE_SIZE;
      BitsAbove(Mapped(ps, virt, phys, n, flags)[v / PAGE_SIZE] / PAGE_SIZE, flags);
    }
  }

  /** What the processor makes of the same pages, under directory words with the bits `rights`. */
  lemma MappedAccess(ps: seq<Word>, virt: Word, phys: Word, n: nat, flags: Word, v: Word, rights: nat)
    requires |ps| == PAGES && IsAligned(virt) && IsAligned(phys) && flags < PAGE_SIZE
    requires virt + n * PAGE_SIZE <= WORD && phys + n * PAGE_SIZE <= WORD
    ensures Combine(rights, Mapped(ps, virt, phys, n, flags)[v / PAGE_SIZE], v) ==
            if virt <= v < virt + n * PAGE_SIZE then
              if rights % 2 == 0 || flags % 2 == 0 then Fault
              else Leads(phys + (v - virt), rights / 2 % 2 == 1 && flags / 2 % 2 == 1,
                         rights / 4 % 2 == 1 && flags / 4 % 2 == 1)
            else Combine(rights, ps[v / PAGE_SIZE], v)
  {
    MappedTranslates(ps, virt, phys, n, flags, v);
  }

  /** Frame and flags can be told apart again. */
  lemma FrameFlags(phys: Word, i: nat, flags: Word)
    requires IsAligned(phys) && phys + i * PAGE_SIZE < WORD && flags < PAGE_SIZE
    ensures var w := EntryWord(Advance(phys, i), flags);
      w - w % PAGE_SIZE == phys + i * PAGE_SIZE && w % PAGE_SIZE == flags
  {
    var frame := phys + i * PAGE_SIZE;
    assert Advance(phys, i) == frame;
    OrFlags(frame, flags);
  }

  /** The pages of a range that does not wrap are the first `n` after its start. */
  lemma InRange(virt: Word, n: nat, v: Word)
    requires IsAligned(virt) && virt + n * PAGE_SIZE <= WORD
    ensures virt <= v < virt + n * PAGE_SIZE <==> PagesAfter(virt, v / PAGE_SIZE) < n
    ensures virt <= v ==> PagesAfter(virt, v / PAGE_SIZE) == v / PAGE_SIZE - virt / PAGE_SIZE
  {
  }

  datatype Request = Request(virt: Word, phys: Word, physEnd: Word, flags: Word)

  /** Any run of mappings leaves all 1024 directory words as they are. */
  method ServeRequests(k: Kernel, chunk: Word, requests: seq<Request>, ghost sp: Space)
    requires IsSpace(k, sp) && chunk == Addr(sp.chunk)
    modifies k.ram
    ensures IsSpace(k, sp)
    ensures forall i | 0 <= i < ENTRIES :: k.ram[sp.dir, i] == old(k.ram[sp.dir, i])
  {
    for r := 0 to |requests|
      invariant IsSpace(k, sp)
      invariant forall i | 0 <= i < ENTRIES :: k.ram[sp.dir, i] == old(k.ram[sp.dir, i])
    {
      var q := requests[r];
      var res := MapTo(k, chunk, q.virt, q.phys, q.physEnd, q.flags, sp);
    }
  }

  /** Build an address space, map anything in it any number of times, tear it down:
      the directory never changes and the heap's table is back byte for byte. */
  method BuildUseFree(k: Kernel, flags: Word, requests: seq<Request>)
    requires k.Valid() && FreeCount(k.Table()) >= SPACE_BLOCKS && flags < 0x100
    modifies k.heap.mem, k.ram, k`live
    ensures k.Valid() && k.live == old(k.live) && k.Table() == old(k.Table())
  {
    ghost var s, was := k.Table(), k.live;
    var chunk, sp := New4gb(k, flags);
    ServeRequests(k, chunk, requests, sp);
    Free4gb(k, chunk, sp);
    TableDetermined(s, k.Table(), was);
  }

  const MAP_ALL := IS_WRITABLE + IS_PRESENT + ACCESS_FROM_ALL

  /** copy_string_from_task: the text gets through a borrowed page, and page tables and
      heap are as before. `text` stands for what strncpy finds at the task's address. */
  method CopyStringFromTask(k: Kernel, chunk: Word, max: Word, text: seq<Word>, ghost sp: Space)
    returns (res: int, copied: seq<Word>)
    requires k.Valid() && IsSpace(k, sp) && chunk == Addr(sp.chunk)
    requires max < WORD / 2 && |text| <= (max + 3) / 4
    modifies k.heap.mem, k.ram, k`live
    ensures res == if max >= PAGE_SIZE then -EINVARG
                   else if StartBlock(old(k.Table()), BlocksFor(max)) < 0 then -ENOMEM else 0
    ensures copied == if res == 0 then text else []
    ensures k.Valid() && IsSpace(k, sp) && Pages(k, sp) == old(Pages(k, sp))
    ensures k.live == old(k.live) && k.Table() == old(k.Table())
  {
    copied := [];
    if max >= PAGE_SIZE {
      return -EINVARG, copied;
    }
    ghost var s, was := k.Table(), k.live;
    var tmp := KzallocBeside(k, max, sp);
    if tmp == 0 {
      return -ENOMEM, copied;
    }
    ghost var during;
    res, copied, during := BorrowPage(k, chunk, tmp, text, sp);
    GiveBackBeside(k, max, tmp, s, was, sp);
  }

  /** The address of a block of the heap. */
  predicate IsPointer(ptr: Word) {
    0 <= BlockOf(ptr) < HEAP_BLOCKS && ptr == Addr(BlockOf(ptr))
  }

  /** The blocks of the address space are runs of one block. */
  ghost predicate OwnedIn(live: map<nat, nat>, sp: Space) {
    forall b :: b in sp.Blocks() ==> 0 <= b < HEAP_BLOCKS && b in live && live[b] == 1
  }

  lemma SpaceOwned(k: Kernel, sp: Space)
    requires IsSpace(k, sp)
    ensures OwnedIn(k.live, sp)
  {
    forall b | b in sp.Blocks() ensures k.OneBlock(b) {
      if b in sp.tables {
        var i :| 0 <= i < |sp.tables| && sp.tables[i] == b;
      }
    }
  }

  /** The blocks of an address space are still allocated and their words as before; so are
      its pages. */
  twostate predicate Undisturbed(k: Kernel, sq: Space): (r: bool)
    requires old(IsSpace(k, sq)) && k.Shaped()
    reads k, k.ram
    ensures r ==> IsSpace(k, sq) && Pages(k, sq) == old(Pages(k, sq))
  {
    SpaceParts(sq);
    && OwnedIn(k.live, sq)
    && forall b, i | b in sq.Blocks() && 0 <= b < HEAP_BLOCKS && 0 <= i < WORDS :: k.ram[b, i] == old(k.ram[b, i])
  }

  lemma SpaceParts(sq: Space)
    ensures sq.chunk in sq.Blocks() && sq.dir in sq.Blocks() && forall b :: b in sq.tables ==> b in sq.Blocks()
    ensures forall i :: 0 <= i < |sq.tables| ==> sq.tables[i] in sq.Blocks()
  {
  }

  method GiveBackBeside(k: Kernel, size: Word, ptr: Word, ghost s: seq<bv8>, ghost was: map<nat, nat>, ghost sp: Space)
    requires IsSpace(k, sp) && Encodes(s, was) && ptr != 0 && k.Took(s, was, size, ptr) && OwnedIn(was, sp)
    modifies k.heap.mem, k`live
    ensures k.Valid() && k.live == was && k.Table() == s
    ensures IsSpace(k, sp) && Pages(k, sp) == old(Pages(k, sp))
  {
    k.GiveBack(size, ptr, s, was);
    assert Undisturbed(k, sp);
  }

  /** kzalloc of any size leaves an existing address space alone. */
  method KzallocBeside(k: Kernel, size: Word, ghost sp: Space) returns (ptr: Word)
    requires k.Valid() && size <= LARGEST && IsSpace(k, sp)
    modifies k.heap.mem, k.ram, k`live
    ensures IsSpace(k, sp) && Pages(k, sp) == old(Pages(k, sp))
    ensures k.Took(old(k.Table()), old(k.live), size, ptr)
    ensures ptr == 0 <==> StartBlock(old(k.Table()), BlocksFor(size)) < 0
    ensures ptr != 0 ==> IsPointer(ptr) && BlockOf(ptr) !in sp.Blocks()
    ensures OwnedIn(old(k.live), sp)
    ensures forall c, i | 0 <= c < HEAP_BLOCKS && 0 <= i < WORDS ::
              !IsFree(old(k.Table())[c]) ==> k.ram[c, i] == old(k.ram[c, i])
  {
    ghost var s, was := k.Table(), k.live;
    SpaceOwned(k, sp);
    SpaceTaken(s, was, sp);
    ptr := k.Kzalloc(size);
    SpaceKept(s, was, k.live, BlocksFor(size), sp);
    StartNotLive(s, was, BlocksFor(size));
    if ptr != 0 { BlockOfAddr(StartBlock(s, BlocksFor(size))); }
    assert Undisturbed(k, sp);
  }

  /** Taking a run takes none of an address space. */
  lemma SpaceKept(s: seq<bv8>, was: map<nat, nat>, now: map<nat, nat>, n: nat, sp: Space)
    requires Encodes(s, was) && OwnedIn(was, sp)
    requires now == was || (StartBlock(s, n) >= 0 && now == was[StartBlock(s, n) as nat := n])
    ensures OwnedIn(now, sp)
  {
    StartNotLive(s, was, n);
  }

  /** Allocated blocks are taken. */
  lemma SpaceTaken(s: seq<bv8>, live: map<nat, nat>, sp: Space)
    requires Encodes(s, live) && OwnedIn(live, sp)
    ensures forall b :: b in sp.Blocks() ==> b < |s| && !IsFree(s[b])
  {
    forall b | b in sp.Blocks() ensures b < |s| && !IsFree(s[b]) {
      assert s[b] == RunByte(b, live[b], b);
    }
  }

  /** Map a page to itself, write through the mapping, put the old word back, read the block.
      `during` is what the task could see while the text was written. */
  method BorrowPage(k: Kernel, chunk: Word, tmp: Word, text: seq<Word>, ghost sp: Space)
    returns (res: int, copied: seq<Word>, ghost during: seq<Word>)
    requires IsSpace(k, sp) && chunk == Addr(sp.chunk) && |text| <= WORDS
    requires 0 <= BlockOf(tmp) < HEAP_BLOCKS && tmp == Addr(BlockOf(tmp)) && BlockOf(tmp) !in sp.Blocks()
    modifies k.ram
    ensures res == 0 && copied == text && |during| == PAGES
    ensures during == old(Pages(k, sp))[tmp / PAGE_SIZE := during[tmp / PAGE_SIZE]]
    ensures Combine(7, during[tmp / 0x1000], tmp) == Leads(tmp, true, true)
    ensures IsSpace(k, sp) && Pages(k, sp) == old(Pages(k, sp))
  {
    var directory := k.ram[BlockOf(chunk), 0];
    var oldEntry := Get(k, directory, tmp, sp);
    ghost var ps := Pages(k, sp);
    during := MapToItself(k, chunk, tmp, sp);
    WriteThrough(k, directory, tmp, text, sp);
    res := Set(k, directory, tmp, oldEntry, sp);
    assert Pages(k, sp) == ps;
    copied := ReadWords(k, BlockOf(tmp), |text|);
  }

  method MapToItself(k: Kernel, chunk: Word, tmp: Word, ghost sp: Space) returns (ghost during: seq<Word>)
    requires IsSpace(k, sp) && chunk == Addr(sp.chunk) && IsAligned(tmp)
    modifies k.ram
    ensures IsSpace(k, sp) && during == Pages(k, sp) && Translate(k, sp, tmp) == tmp
    ensures during == old(Pages(k, sp))[tmp / PAGE_SIZE := tmp + 7]
    ensures Combine(7, during[tmp / 0x1000], tmp) == Leads(tmp, true, true)
  {
    BorrowedPage(tmp);
    var res := Map(k, chunk, tmp, tmp, MAP_ALL, sp);
    during := Pages(k, sp);
  }

  lemma BorrowedPage(tmp: Word)
    requires IsAligned(tmp)
    ensures EntryWord(tmp, MAP_ALL) == tmp + 7 && Combine(7, EntryWord(tmp, MAP_ALL), tmp) == Leads(tmp, true, true)
  {
    OrFlags(tmp, MAP_ALL);
    AllRights(tmp / PAGE_SIZE, tmp);
  }

  /** A word with all three bits, under a directory word with all three. */
  lemma AllRights(h: nat, v: Word)
    requires h < PAGES
    ensures Combine(7, h * 4096 + 7, v) == Leads(h * 4096 + v % 4096, true, true)
  {
    BitsAbove(h, 7);
  }

  /** Writing at an address that the loaded page tables lead to itself. */
  method WriteThrough(k: Kernel, directory: Word, at: Word, text: seq<Word>, ghost sp: Space)
    requires IsSpace(k, sp) && directory == Addr(sp.dir) && |text| <= WORDS && Translate(k, sp, at) == at
    requires 0 <= BlockOf(at) < HEAP_BLOCKS && BlockOf(at) !in sp.Blocks()
    modifies k.ram
    ensures IsSpace(k, sp) && Pages(k, sp) == old(Pages(k, sp))
    ensures forall i | 0 <= i < |text| :: k.ram[BlockOf(at), i] == text[i]
  {
    var target := GetPhysicalAddress(k, directory, at, sp);
    WriteText(k, BlockOf(target), text, sp);
  }

  /** Writing to a block outside the address space does not disturb it. */
  method WriteText(k: Kernel, b: nat, text: seq<Word>, ghost sp: Space)
    requires IsSpace(k, sp) && b < HEAP_BLOCKS && b !in sp.Blocks() && |text| <= WORDS
    modifies k.ram
    ensures IsSpace(k, sp) && Pages(k, sp) == old(Pages(k, sp))
    ensures forall i | 0 <= i < |text| :: k.ram[b, i] == text[i]
  {
    for i := 0 to |text|
      invariant forall j | 0 <= j < i :: k.ram[b, j] == text[j]
      invariant forall c, i | 0 <= c < HEAP_BLOCKS && 0 <= i < WORDS :: c != b ==> k.ram[c, i] == old(k.ram[c, i])
    {
      k.ram[b, i] := text[i];
    }
    assert forall c :: c in sp.tables ==> c in sp.Blocks();
    assert Pages(k, sp) == old(Pages(k, sp));
  }

  /** The first `n` words of block `b`. */
  method ReadWords(k: Kernel, b: nat, n: nat) returns (words: seq<Word>)
    requires k.Shaped() && b < HEAP_BLOCKS && n <= WORDS
    ensures |words| == n && forall i | 0 <= i < n :: words[i] == k.ram[b, i]
  {
    words := [];
    for i := 0 to n
      invariant |words| == i && forall j | 0 <= j < i :: words[j] == k.ram[b, j]
    {
      words := words + [k.ram[b, i]];
    }
  }
}
