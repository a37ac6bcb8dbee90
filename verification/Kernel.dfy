/** Kernel memory: the heap's block table and the RAM its blocks stand for.
    A block is 4096 bytes, so exactly one page table or page directory. */
module Kernel {
  import opened Bits
  import opened HeapTable
  import H = Heap

  const HEAP_ADDRESS: Word := 0x01000000
  const HEAP_SIZE_BYTES := 104857600
  const HEAP_BLOCKS := 25600
  const WORDS := 1024

  function Addr(block: nat): (a: nat)
    ensures a % BLOCK_SIZE == 0 && a > 0
    ensures block < HEAP_BLOCKS ==> a < 0x8000000
  {
    HEAP_ADDRESS + block * BLOCK_SIZE
  }

  /** The heap block an address lies in. */
  function BlockOf(address: Word): int {
    (address - HEAP_ADDRESS) / BLOCK_SIZE
  }

  /** Block `c` is not one of the `n` blocks from `b` on. */
  predicate Outside(c: int, b: int, n: nat) {
    c < b || b + n <= c
  }

  /** The first bytes of a little-endian word are zero. */
  predicate LowBytesClear(w: Word, bytes: int) {
    (bytes == 1 ==> w % 0x100 == 0) && (bytes == 2 ==> w % 0x10000 == 0) && (bytes == 3 ==> w % 0x1000000 == 0)
  }

  /** Requests whose memset ends below 4 GB from wherever in the heap it starts. */
  const LARGEST: Word := WORD - 0x8001000

  class Kernel {
    const heap: H.Heap
    const ram: array2<Word>
    /** The live runs of the heap, start block to length. */
    ghost var live: map<nat, nat>

    ghost predicate Shaped() {
      && heap.Valid() && heap.saddr == HEAP_ADDRESS && heap.total == HEAP_BLOCKS
      && ram.Length0 == HEAP_BLOCKS && ram.Length1 == WORDS
    }

    ghost predicate Valid()
      reads this, heap.mem
    {
      Shaped() && Encodes(heap.Table(), live)
    }

    ghost function Table(): (s: seq<bv8>)
      requires Shaped()
      reads heap.mem
    {
      heap.Table()
    }

    /** kheap_init */
    constructor (mem: array<bv8>, low: array<bv8>, ram: array2<Word>)
      requires mem.Length >= HEAP_BLOCKS + 0x100000 && low.Length == H.BELOW && low != mem
      requires ram.Length0 == HEAP_BLOCKS && ram.Length1 == WORDS
      modifies mem
      ensures Valid() && live == map[] && this.ram == ram && heap.mem == mem && heap.low == low
      ensures mem[HEAP_BLOCKS..] == old(mem[HEAP_BLOCKS..])
    {
      var total := HEAP_SIZE_BYTES / BLOCK_SIZE;
      var res, h := H.Heap.Create(HEAP_ADDRESS, HEAP_ADDRESS + HEAP_SIZE_BYTES, mem, low, total);
      this.heap, this.ram, this.live := h, ram, map[];
    }

    /** What kmalloc does for a request of any size: the answer of the search on the table
        `s`, marked as far as the table goes; a run that fits is now live. */
    ghost predicate Took(s: seq<bv8>, was: map<nat, nat>, size: Word, ptr: Word)
      requires Shaped()
      reads this, heap.mem
    {
      var n, r := BlocksFor(size), StartBlock(s, BlocksFor(size));
      && |s| == HEAP_BLOCKS
      && if r < 0 then ptr == 0 && live == was && Table() == s
         else
           && ptr == Addr(r) && Table() == Marked(s, r, n)
           && live == if Fits(s, n) then was[r := n] else was
    }

    /** kmalloc. The live runs still make up the table exactly for requests that keep it. */
    method Kmalloc(size: Word) returns (ptr: Word)
      requires Valid()
      modifies heap.mem, this`live
      ensures Took(old(Table()), old(live), size, ptr)
      ensures Valid() <==> Keeps(old(Table()), BlocksFor(size))
    {
      ghost var s, n, r := Table(), BlocksFor(size), StartBlock(Table(), BlocksFor(size));
      MallocKeepsTableIff(s, n);
      ptr := heap.Malloc(size);
      if Fits(s, n) {
        MarkAddsRun(s, live, r, n);
        live := live[r := n];
      } else if r >= 0 && n == 0 {
        assert Marked(s, r, n) == s;
      }
    }

    /** The whole words of memset(ptr, 0, size) on block `b`. */
    method ClearWords(b: nat, words: nat, ghost n: nat)
      requires Shaped() && b + n <= HEAP_BLOCKS && words <= n * WORDS
      modifies ram
      ensures forall c, i | b <= c < b + n && 0 <= i < WORDS :: (c - b) * WORDS + i < words ==> ram[c, i] == 0
      ensures forall c, i | 0 <= c < HEAP_BLOCKS && 0 <= i < WORDS ::
                Outside(c, b, n) ==> ram[c, i] == old(ram[c, i])
    {
      var w := 0;
      while w < words
        invariant 0 <= w <= words
        invariant forall c, i | b <= c < b + n && 0 <= i < WORDS :: (c - b) * WORDS + i < w ==> ram[c, i] == 0
        invariant forall c, i | 0 <= c < HEAP_BLOCKS && 0 <= i < WORDS ::
                    Outside(c, b, n) ==> ram[c, i] == old(ram[c, i])
      {
        assert b + w / WORDS < b + n;
        ram[b + w / WORDS, w % WORDS] := 0;
        w := w + 1;
      }
    }

    /** And its last bytes: of a partial word only the bytes the memset reaches. */
    method ClearRest(b: nat, i: nat, rest: nat)
      requires Shaped() && b < HEAP_BLOCKS && i < WORDS && rest < 4
      modifies ram
      ensures LowBytesClear(ram[b, i], rest)
      ensures forall c, j | 0 <= c < HEAP_BLOCKS && 0 <= j < WORDS ::
                !(c == b && j == i) ==> ram[c, j] == old(ram[c, j])
    {
      var low := if rest == 0 then 1 else if rest == 1 then 0x100 else if rest == 2 then 0x10000 else 0x1000000;
      ram[b, i] := ram[b, i] - ram[b, i] % low;
    }

    /** memset(ptr, 0, size) on block `b`. */
    method Clear(b: nat, size: Word, ghost n: nat)
      requires Shaped() && b + n <= HEAP_BLOCKS && size <= n * BLOCK_SIZE
      modifies ram
      ensures forall c, i | b <= c < b + n && 0 <= i < WORDS ::
                (c - b) * WORDS + i < size / 4 ==> ram[c, i] == 0
      ensures forall c, i | b <= c < HEAP_BLOCKS && 0 <= i < WORDS ::
                (c - b) * WORDS + i == size / 4 ==> LowBytesClear(ram[c, i], size % 4)
      ensures forall c, i | 0 <= c < HEAP_BLOCKS && 0 <= i < WORDS ::
                Outside(c, b, n) ==> ram[c, i] == old(ram[c, i])
    {
      var words := size / 4;
      ClearWords(b, words, n);
      if size % 4 > 0 {
        assert words / WORDS < n;
        ClearRest(b + words / WORDS, words % WORDS, size % 4);
      }
    }

    /** kzalloc: as kmalloc, the bytes asked for cleared as far as the heap's RAM goes. No
        block that was taken loses a word. */
    method Kzalloc(size: Word) returns (ptr: Word)
      requires Valid() && size <= LARGEST
      modifies heap.mem, ram, this`live
      ensures Took(old(Table()), old(live), size, ptr)
      ensures Valid() <==> Keeps(old(Table()), BlocksFor(size))
      ensures ptr != 0 ==>
                forall c, i | BlockOf(ptr) <= c < HEAP_BLOCKS && 0 <= i < WORDS ::
                  (c - BlockOf(ptr)) * WORDS + i < size / 4 ==> ram[c, i] == 0
      ensures ptr != 0 ==>
                forall c, i | BlockOf(ptr) <= c < HEAP_BLOCKS && 0 <= i < WORDS ::
                  (c - BlockOf(ptr)) * WORDS + i == size / 4 ==> LowBytesClear(ram[c, i], size % 4)
      ensures forall c, i | 0 <= c < HEAP_BLOCKS && 0 <= i < WORDS ::
                !IsFree(old(Table())[c]) ==> ram[c, i] == old(ram[c, i])
      ensures Fits(old(Table()), BlocksFor(size)) ==>
                forall c, i | 0 <= c < HEAP_BLOCKS && 0 <= i < WORDS ::
                  Outside(c, BlockOf(ptr), BlocksFor(size)) ==> ram[c, i] == old(ram[c, i])
    {
      ghost var s := Table();
      ptr := Kmalloc(size);
      if ptr != 0 {
        BlocksForCovers(size);
        StartIsFree(s, BlocksFor(size));
        var b: nat := BlockOf(ptr);
        var room := (HEAP_BLOCKS - b) * BLOCK_SIZE;
        ghost var n := if Fits(s, BlocksFor(size)) then BlocksFor(size) else HEAP_BLOCKS - b;
        Clear(b, if size < room then size else room, n);
      }
    }

    /** An address that heap_free does not turn into a negative block number. */
    static predicate NotBelow(ptr: Word) {
      HEAP_ADDRESS <= ptr < HEAP_ADDRESS + WORD / 2
    }

    /** The release of an address below the heap walks up into the table. */
    ghost predicate Strays(ptr: Word)
      requires Shaped()
      reads heap.low
    {
      var b := heap.AddressToBlock(ptr);
      b < 0 && ReachesTable(heap.low[..], -b)
    }

    /** kfree of any address. The live runs lose the one that starts there, or the first of
        the heap if the walk comes in from below. KfreeKeeps says when that is all. */
    method Kfree(ptr: Word)
      requires Shaped()
      modifies heap.mem, this`live, (if NotBelow(ptr) then {} else {heap.low})
      ensures NotBelow(ptr) ==>
                live == old(live) - {BlockOf(ptr)} && Table() == Freed(old(Table()), BlockOf(ptr))
      ensures HEAP_ADDRESS - BLOCK_SIZE < ptr < HEAP_ADDRESS ==>
                live == old(live) - {0} && Table() == Freed(old(Table()), 0)
      ensures ptr <= HEAP_ADDRESS - BLOCK_SIZE ==>
                if old(Strays(ptr)) then live == old(live) - {0} && Table() == Freed(old(Table()), 0)
                else live == old(live) && Table() == old(Table())
    {
      ghost var s, low, b := Table(), heap.low[..], heap.AddressToBlock(ptr);
      if b < 0 { WalkFromBelow(low, s, b); }
      else if b <= HEAP_BLOCKS { WalkInTable(low, s, b); }
      heap.Free(ptr);
      live := if b >= 0 then live - {b} else if ReachesTable(low, -b) then live - {0} else live;
    }

    /** kfree of what kmalloc has just answered, for any size: the heap is as before. */
    method GiveBack(size: Word, ptr: Word, ghost s: seq<bv8>, ghost was: map<nat, nat>)
      requires Shaped() && Encodes(s, was) && ptr != 0 && Took(s, was, size, ptr)
      modifies heap.mem, this`live
      ensures Valid() && live == was && Table() == s
    {
      ghost var n, b: nat := BlocksFor(size), BlockOf(ptr);
      assert b == StartBlock(s, n) && Table() == Marked(s, b, n);
      FreeUndoesMalloc(s, was, n);
      Untaken(was, b, n, live);
      Kfree(ptr);
    }

    /** kfree of a pointer that is still live. */
    method KfreeLive(ptr: Word)
      requires Valid() && ptr >= HEAP_ADDRESS && ptr == Addr(BlockOf(ptr)) && BlockOf(ptr) in live
      modifies heap.mem, this`live
      ensures Valid() && live == old(live) - {BlockOf(ptr)}
      ensures Table() == Freed(old(Table()), BlockOf(ptr))
    {
      FreeDropsRun(Table(), live, BlockOf(ptr));
      Kfree(ptr);
    }

    /** Block `b` is a live allocation of exactly one block. */
    ghost predicate OneBlock(b: int)
      reads this
    {
      0 <= b < HEAP_BLOCKS && b in live && live[b] == 1
    }

    /** The runs named in `gone` are free, and no other byte of the block table has changed. */
    ghost predicate OnlyFreed(s: seq<bv8>, was: map<nat, nat>, gone: set<int>)
      requires Shaped()
      reads heap.mem
    {
      |s| == HEAP_BLOCKS &&
      (forall b :: b in gone && b in was ==> forall k :: b <= k < b + was[b] && k < HEAP_BLOCKS ==> Table()[k] == 0) &&
      forall k: nat :: k < HEAP_BLOCKS && (forall b :: b in gone && b in was ==> k < b || b + was[b] <= k) ==>
        Table()[k] == s[k]
    }
  }

  /** Addr and BlockOf in numbers. */
  lemma HeapAddresses(block: nat, address: Word)
    requires block < HEAP_BLOCKS && address >= 0x1000000
    ensures Addr(block) == 0x1000000 + 0x1000 * block < 0x7400000
    ensures BlockOf(address) == block <==> Addr(block) <= address < Addr(block) + 0x1000
  {
    assert address - 0x1000000 == (address - 0x1000000) / 4096 * 4096 + (address - 0x1000000) % 4096;
  }

  lemma BlockOfAddr(block: nat)
    requires block < HEAP_BLOCKS
    ensures BlockOf(Addr(block)) == block && HEAP_ADDRESS <= Addr(block) < WORD
  {
  }

  /** kmalloc and kfree of what `op` asks for. */
  method Perform(k: Kernel, op: HeapOp)
    requires k.Valid() && Allows(k.Table(), k.live, op)
    modifies k.heap.mem, k`live
    ensures k.Valid() && k.Table() == Step(old(k.Table()), old(k.live), op)
    ensures k.live == LiveAfter(old(k.Table()), old(k.live), op)
  {
    ghost var s, was := k.Table(), k.live;
    match op
    case Malloc(size) =>
      var ptr := k.Kmalloc(size);
    case Free(b) =>
      assert s[b] == RunByte(b, was[b], b);
      k.KfreeLive(Addr(b));
  }

  /** The kernel carries out every history of EveryRunWellFormed, and the table and the live
      runs are at its end what it says. */
  method Replay(k: Kernel, ops: seq<HeapOp>)
    requires k.Valid() && Allowed(k.Table(), k.live, ops)
    modifies k.heap.mem, k`live
    ensures k.Valid() && k.Table() == TableAfter(old(k.Table()), old(k.live), ops)
    ensures k.live == RunsAfter(old(k.Table()), old(k.live), ops)
    decreases |ops|
  {
    if ops != [] {
      Perform(k, ops[0]);
      Replay(k, ops[1..]);
    }
  }

  lemma Untaken(was: map<nat, nat>, b: nat, n: nat, now: map<nat, nat>)
    requires b !in was && (now == was || now == was[b := n])
    ensures now - {b} == was
  {
  }

  /** Releasing block `b` leaves the table to the other live runs exactly if it is outside,
      free, or heads a live run. */
  lemma KfreeKeeps(s: seq<bv8>, live: map<nat, nat>, b: nat)
    requires Encodes(s, live)
    ensures Encodes(Freed(s, b), live - {b}) <==> b >= |s| || IsFree(s[b]) || b in live
  {
    FreeKeepsTableIff(s, live, b);
    if b in live {
      FreeDropsRun(s, live, b);
    } else {
      assert live - {b} == live;
      if b < |s| && IsFree(s[b]) {
        CoveredIsTaken(s, live, b);
        assert FREE & HAS_NEXT == 0;
        assert RunEnd(s, b) == b + 1;
        assert Freed(s, b) == s;
      }
    }
  }
}
