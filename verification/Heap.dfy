/** The block allocator itself, updating its byte table in place. */
module Heap {
  import opened Bits
  import opened HeapTable

  /** The most blocks an address can lie below the heap: the difference is a signed word. */
  const BELOW := 0x80000

  /** struct heap together with its struct heap_table. `mem` is memory from the
      table's base on: the table proper is its first `total` bytes, and what lies
      above it is kept so that writes past the table can be described. `low` is the
      memory below the table, downwards. */
  class Heap {
    const mem: array<bv8>
    const low: array<bv8>
    const total: nat
    const saddr: Word

    ghost predicate Valid() {
      && total + 0x100000 <= mem.Length && low.Length == BELOW && low != mem
      && 0 < saddr && saddr + total * BLOCK_SIZE < WORD
    }

    ghost function Table(): (s: seq<bv8>)
      requires Valid()
      reads mem
      ensures |s| == total
    {
      mem[..total]
    }

    constructor (saddr: Word, mem: array<bv8>, low: array<bv8>, total: nat)
      ensures this.mem == mem && this.low == low && this.total == total && this.saddr == saddr
    {
      this.mem, this.low, this.total, this.saddr := mem, low, total, saddr;
    }

    /** heap_create: both ends aligned and the table as long as the pool. */
    static method Create(ptr: Word, end: Word, mem: array<bv8>, low: array<bv8>, total: nat)
      returns (res: int, heap: Heap?)
      requires total <= mem.Length
      modifies mem
      ensures res == 0 <==>
                ptr % 0x1000 == 0 && end % 0x1000 == 0 && total == (end - ptr) % 0x1_0000_0000 / 0x1000
      ensures res == 0 || res == -EINVARG
      ensures res == 0 ==> forall k :: 0 <= k < total ==> mem[k] == FREE
      ensures heap != null <==> ptr % BLOCK_SIZE == 0 && end % BLOCK_SIZE == 0
      ensures heap != null ==>
                && fresh(heap) && heap.mem == mem && heap.low == low && heap.total == total && heap.saddr == ptr
      ensures res != 0 ==> mem[..] == old(mem[..])
      ensures mem[total..] == old(mem[total..])
    {
      heap := null;
      if ptr % BLOCK_SIZE != 0 || end % BLOCK_SIZE != 0 {
        return -EINVARG, heap;
      }
      heap := new Heap(ptr, mem, low, total);
      if total != (end - ptr) % WORD / BLOCK_SIZE {
        return -EINVARG, heap;
      }
      for i := 0 to total
        invariant forall k :: 0 <= k < i ==> mem[k] == FREE
        invariant mem[total..] == old(mem[total..])
      {
        mem[i] := FREE;
      }
      res := 0;
    }

    /** The `n` blocks from `b` on are in the table and free. */
    ghost predicate RowFree(b: nat, n: nat)
      requires Valid()
      reads mem
    {
      b + n <= total && forall k :: b <= k < b + n ==> IsFree(mem[k])
    }

    lemma NoneFree(n: nat)
      requires Valid() && forall b: nat :: !RowFree(b, n)
      ensures forall b: nat :: !FreeRun(Table(), b, n)
    {
      forall b: nat | FreeRun(Table(), b, n) ensures RowFree(b, n) {
        forall k | b <= k < b + n ensures IsFree(mem[k]) {
          assert Table()[k] == mem[k];
        }
      }
    }

    /** One pass that counts free blocks in a row. */
    method Scan(totalBlocks: nat) returns (r: int)
      requires Valid()
      ensures r == StartBlock(Table(), totalBlocks)
    {
      ghost var s := Table();
      var current, start := 0, -1;
      var i := 0;
      while i < total
        invariant 0 <= i <= total
        invariant start == -1 ==> current == 0 && (i == 0 || !IsFree(s[i - 1]))
        invariant start != -1 ==>
                    && 0 <= start < i && current == i - start && TailStart(s, i) == start
                    && (totalBlocks > 0 ==> current < totalBlocks)
        invariant totalBlocks > 0 ==>
                    forall b: nat :: b + totalBlocks <= i ==> !FreeRun(s, b, totalBlocks)
      {
        if !IsFree(mem[i]) {
          current, start := 0, -1;
          i := i + 1;
          continue;
        }
        if start == -1 {
          start := i;
        }
        current := current + 1;
        if current == totalBlocks {
          assert FreeRun(s, start, totalBlocks);
          assert forall b: nat :: b < start ==> b + totalBlocks <= i && !FreeRun(s, b, totalBlocks);
          break;
        }
        i := i + 1;
      }
      if start == -1 {
        return -ENOMEM;
      }
      return start;
    }

    /** heap_get_start_block: the lowest of the rows that are long enough; without one, where the
        free row at the end of the table begins, or -ENOMEM if the last block is taken. */
    method GetStartBlock(totalBlocks: nat) returns (r: int)
      requires Valid()
      ensures r == StartBlock(Table(), totalBlocks)
      ensures forall b: nat :: totalBlocks > 0 && RowFree(b, totalBlocks) ==> 0 <= r <= b && RowFree(r, totalBlocks)
      ensures totalBlocks == 0 || (forall b: nat :: !RowFree(b, totalBlocks)) ==>
                if total > 0 && IsFree(mem[total - 1]) then
                  0 <= r < total && RowFree(r, total - r) && (r > 0 ==> !IsFree(mem[r - 1]))
                else r == -ENOMEM
    {
      r := Scan(totalBlocks);
      ghost var s := Table();
      forall b: nat | totalBlocks > 0 && RowFree(b, totalBlocks) ensures 0 <= r <= b && RowFree(r, totalBlocks) {
        LowestFit(s, totalBlocks, b);
        assert RowFree(r, totalBlocks);
      }
      if totalBlocks == 0 || forall b: nat :: !RowFree(b, totalBlocks) {
        if totalBlocks > 0 { NoneFree(totalBlocks); }
        NoFit(s, totalBlocks);
      }
    }

    function BlockToAddress(block: int): int {
      saddr + block * BLOCK_SIZE
    }

    /** The difference is a signed 32-bit value and C division truncates it. */
    function AddressToBlock(address: Word): (b: int)
      ensures -b <= BELOW
    {
      var d := (address - saddr) % WORD;
      if d < WORD / 2 then d / BLOCK_SIZE else -((WORD - d) / BLOCK_SIZE)
    }

    /** heap_mark_blocks_taken */
    method MarkBlocksTaken(start: nat, n: nat)
      requires start + n <= mem.Length
      modifies mem
      ensures mem[..] == Marked(old(mem[..]), start, n)
    {
      var end := start + n - 1;
      var entry := TAKEN | IS_FIRST;
      if n > 1 {
        entry := entry | HAS_NEXT;
      }
      var i := start;
      while i <= end
        invariant start <= i <= start + n
        invariant i < start + n ==> entry == RunByte(start, n, i)
        invariant forall k :: 0 <= k < mem.Length ==>
                    mem[k] == if start <= k < i then RunByte(start, n, k) else old(mem[k])
      {
        mem[i] := entry;
        entry := TAKEN;
        if i != end - 1 {
          entry := entry | HAS_NEXT;
        }
        i := i + 1;
      }
    }

    /** heap_mark_blocks_free, from any block number an address can give. */
    method MarkBlocksFree(start: int)
      requires Valid() && -BELOW <= start
      modifies mem, (if start < 0 then {low} else {})
      ensures Table() == FreedFrom(old(low[..]), old(Table()), start)
      ensures low[..] == FreedBelow(old(low[..]), old(Table()), start)
      ensures mem[total..] == old(mem[total..])
    {
      ghost var s, down := Table(), low[..];
      var i := start;
      while i < total
        invariant start <= i && (start <= total ==> i <= total)
        invariant WalkTo(down, s, start) == WalkTo(down, s, i)
        invariant forall k :: 0 <= k < mem.Length ==> mem[k] == if start <= k < i then FREE else old(mem[k])
        invariant forall k :: 0 <= k < BELOW ==> low[k] == if start <= -1 - k < i then FREE else down[k]
      {
        var entry := ClearEntry(i);
        if !HasNext(entry) {
          break;
        }
        i := i + 1;
      }
    }

    /** The entry at an index from the table's base, and FREE in its place. */
    method ClearEntry(i: int) returns (entry: bv8)
      requires Valid() && -BELOW <= i < total
      modifies (if i < 0 then low else mem)
      ensures entry == old(if i < 0 then low[-1 - i] else mem[i])
      ensures forall k :: 0 <= k < mem.Length ==> mem[k] == if k == i then FREE else old(mem[k])
      ensures forall k :: 0 <= k < BELOW ==> low[k] == if k == -1 - i then FREE else old(low[k])
    {
      if i < 0 {
        entry := low[-1 - i];
        low[-1 - i] := FREE;
      } else {
        entry := mem[i];
        mem[i] := FREE;
      }
    }

    /** heap_malloc: total for every size, including the ones it serves badly. */
    method Malloc(size: Word) returns (ptr: Word)
      requires Valid()
      modifies mem
      ensures var n, r := BlocksFor(size), StartBlock(old(Table()), BlocksFor(size));
        if r < 0 then ptr == 0 && mem[..] == old(mem[..])
        else
          && ptr == BlockToAddress(r) && mem[..] == Marked(old(mem[..]), r, n)
          && Table() == Marked(old(Table()), r, n)
    {
      BlocksForCovers(size);
      ptr := 0;
      var n := AlignUpper(size) / BLOCK_SIZE;
      var start := GetStartBlock(n);
      if start < 0 {
        return;
      }
      ptr := BlockToAddress(start);
      MarkBlocksTaken(start, n);
    }

    /** heap_free, of any address. */
    method Free(ptr: Word)
      requires Valid()
      modifies mem, (if AddressToBlock(ptr) < 0 then {low} else {})
      ensures Table() == FreedFrom(old(low[..]), old(Table()), AddressToBlock(ptr))
      ensures low[..] == FreedBelow(old(low[..]), old(Table()), AddressToBlock(ptr))
      ensures mem[total..] == old(mem[total..])
    {
      MarkBlocksFree(AddressToBlock(ptr));
    }
  }

  /** Any address: the block whose start is less than a block away, towards the heap's start. */
  lemma AddressBlock(h: Heap, address: Word)
    ensures var b := h.AddressToBlock(address); var ahead := (address - h.saddr) % 0x1_0000_0000;
      if ahead < 0x8000_0000 then 0 <= ahead - 4096 * b < 4096
      else -4096 < ahead - 0x1_0000_0000 - 4096 * b <= 0
  {
    var d := (address - h.saddr) % WORD;
    if d >= WORD / 2 { assert WORD - d == (WORD - d) / 4096 * 4096 + (WORD - d) % 4096; }
  }

  /** Addresses handed out convert back to the block they came from. */
  lemma AddressRoundTrip(h: Heap, block: nat)
    requires h.Valid() && block <= h.total && h.total * BLOCK_SIZE < WORD / 2
    ensures h.BlockToAddress(block) == h.saddr + 4096 * block < WORD
    ensures h.AddressToBlock(h.BlockToAddress(block)) == block
  {
  }
}
