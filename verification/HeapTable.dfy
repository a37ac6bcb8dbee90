/** The block table of the kernel heap as a value: one byte per 4096-byte block.
    A run of `n` blocks is written TAKEN | IS_FIRST on its head and HAS_NEXT on
    every block but its last. */
module HeapTable {
  import opened Bits

  const BLOCK_SIZE := 4096
  const FREE: bv8 := 0x00
  const TAKEN: bv8 := 0x01
  const IS_FIRST: bv8 := 0x40
  const HAS_NEXT: bv8 := 0x80
  const EINVARG := 2
  const ENOMEM := 3

  /** Sizes are rounded up in 32 bits, so the largest ones wrap to zero. */
  function AlignUpper(val: Word): Word {
    if val % BLOCK_SIZE == 0 then val else (val - val % BLOCK_SIZE + BLOCK_SIZE) % WORD
  }

  function BlocksFor(size: Word): nat {
    AlignUpper(size) / BLOCK_SIZE
  }

  lemma BlocksForCovers(size: Word)
    ensures size == 0 || size > WORD - BLOCK_SIZE ==> BlocksFor(size) == 0
    ensures 0 < size <= WORD - BLOCK_SIZE ==>
              BLOCK_SIZE * (BlocksFor(size) - 1) < size <= BLOCK_SIZE * BlocksFor(size)
    ensures BlocksFor(size) < 0x100000
  {
    assert size / BLOCK_SIZE <= 0xfffff;
  }

  predicate IsFree(e: bv8) {
    e & 0x0f == FREE
  }

  predicate HasNext(e: bv8) {
    e & HAS_NEXT != 0
  }

  predicate FreeRun(s: seq<bv8>, b: nat, n: nat) {
    b + n <= |s| && forall k :: b <= k < b + n ==> IsFree(s[k])
  }

  /** The lowest block at or after `i` that starts `n` free blocks, or -1. */
  function FirstFit(s: seq<bv8>, n: nat, i: nat): (r: int)
    requires i <= |s|
    ensures r == -1 <==> forall b: nat :: i <= b ==> !FreeRun(s, b, n)
    ensures r != -1 ==> i <= r && FreeRun(s, r, n) && forall b: nat :: i <= b < r ==> !FreeRun(s, b, n)
    decreases |s| - i
  {
    if FreeRun(s, i, n) then i else if i == |s| then -1 else FirstFit(s, n, i + 1)
  }

  /** Where the unbroken row of free blocks that ends just before `i` begins. */
  function TailStart(s: seq<bv8>, i: nat): (r: nat)
    requires i <= |s|
    ensures r <= i && (forall k :: r <= k < i ==> IsFree(s[k])) && (r == 0 || !IsFree(s[r - 1]))
  {
    if i > 0 && IsFree(s[i - 1]) then TailStart(s, i - 1) else i
  }

  predicate Fits(s: seq<bv8>, n: nat) {
    n > 0 && FirstFit(s, n, 0) >= 0
  }

  predicate LastIsFree(s: seq<bv8>) {
    |s| > 0 && IsFree(s[|s| - 1])
  }

  /** What the search for `n` blocks answers on the table `s`. */
  function StartBlock(s: seq<bv8>, n: nat): (r: int)
    ensures r < |s|
  {
    if Fits(s, n) then FirstFit(s, n, 0)
    else if LastIsFree(s) then TailStart(s, |s|)
    else -ENOMEM
  }

  /** In the bytes alone: the answer is the lowest start of `n` free blocks, if there is one. */
  lemma LowestFit(s: seq<bv8>, n: nat, b: nat)
    requires n > 0 && b + n <= |s| && forall k :: b <= k < b + n ==> IsFree(s[k])
    ensures var r := StartBlock(s, n);
      0 <= r <= b && r + n <= |s| && forall k :: r <= k < r + n ==> IsFree(s[k])
  {
    assert FreeRun(s, b, n);
  }

  /** Otherwise it is the start of the free row that ends the table, if the last block is free. */
  lemma NoFit(s: seq<bv8>, n: nat)
    requires n == 0 || forall b: nat :: !FreeRun(s, b, n)
    ensures var r := StartBlock(s, n);
      if |s| > 0 && IsFree(s[|s| - 1]) then
        0 <= r && (forall k :: r <= k < |s| ==> IsFree(s[k])) && (r > 0 ==> !IsFree(s[r - 1]))
      else r == -3
  {
  }

  /** Byte `k` of a run of `n` blocks starting at `b`. */
  function RunByte(b: nat, n: nat, k: nat): (e: bv8)
    ensures !IsFree(e) && (HasNext(e) <==> k < b + n - 1)
    ensures e & IS_FIRST != 0 <==> k == b
    ensures e != FREE
  {
    TAKEN | (if k == b then IS_FIRST else 0) | (if k < b + n - 1 then HAS_NEXT else 0)
  }

  /** The four bytes there are. */
  lemma RunBytes(b: nat, n: nat, k: nat)
    requires b <= k < b + n
    ensures RunByte(b, n, k) == if n == 1 then 0x41 else if k == b then 0xC1 else if k == b + n - 1 then 0x01 else 0x81
    ensures IsFree(RunByte(b, n, k)) <==> RunByte(b, n, k) as int % 16 == 0
  {
  }

  /** The bytes of a run of `n` blocks, as far as they lie in the table. */
  function Marked(s: seq<bv8>, b: nat, n: nat): (t: seq<bv8>) {
    seq(|s|, k requires 0 <= k < |s| => if b <= k < b + n then RunByte(b, n, k) else s[k])
  }

  /** One past the last block reached from `b` by following HAS_NEXT. */
  function RunEnd(s: seq<bv8>, b: nat): (e: nat)
    requires b <= |s|
    ensures b <= e <= |s|
    decreases |s| - b
  {
    if b == |s| then b
    else if HasNext(s[b]) then RunEnd(s, b + 1)
    else b + 1
  }

  function Freed(s: seq<bv8>, b: nat): (t: seq<bv8>) {
    if b >= |s| then s
    else seq(|s|, k requires 0 <= k < |s| => if b <= k < RunEnd(s, b) then FREE else s[k])
  }

  /** The byte at an index from the table's base; `low` is the memory below it, downwards. */
  function EntryAt(low: seq<bv8>, s: seq<bv8>, i: int): (e: bv8)
    requires -|low| <= i < |s|
  {
    if i < 0 then low[-1 - i] else s[i]
  }

  /** One past the last byte reached from index `i` by following HAS_NEXT. */
  function WalkTo(low: seq<bv8>, s: seq<bv8>, i: int): (e: int)
    requires -|low| <= i
    ensures i <= e && (i <= |s| ==> e <= |s|)
    decreases |s| - i
  {
    if i >= |s| then i
    else if HasNext(EntryAt(low, s, i)) then WalkTo(low, s, i + 1)
    else i + 1
  }

  /** The table and the memory below it after a release that begins at index `b`. */
  function FreedFrom(low: seq<bv8>, s: seq<bv8>, b: int): (t: seq<bv8>)
    requires -|low| <= b
    ensures |t| == |s|
  {
    seq(|s|, k requires 0 <= k < |s| => if b <= k < WalkTo(low, s, b) then FREE else s[k])
  }

  function FreedBelow(low: seq<bv8>, s: seq<bv8>, b: int): (t: seq<bv8>)
    requires -|low| <= b
    ensures |t| == |low|
  {
    seq(|low|, k requires 0 <= k < |low| => if b <= -1 - k < WalkTo(low, s, b) then FREE else low[k])
  }

  /** In the table that is a release of its block. */
  lemma {:induction false} WalkInTable(low: seq<bv8>, s: seq<bv8>, b: nat)
    requires b <= |s|
    ensures WalkTo(low, s, b) == RunEnd(s, b)
    ensures FreedFrom(low, s, b) == Freed(s, b)
    decreases |s| - b
  {
    if b < |s| && HasNext(s[b]) { WalkInTable(low, s, b + 1); }
  }

  /** Below the table it is the release of block 0 if every byte on the way up has HAS_NEXT,
      and otherwise leaves the table alone. */
  predicate ReachesTable(low: seq<bv8>, n: nat)
    requires n <= |low|
  {
    forall k :: 0 <= k < n ==> HasNext(low[k])
  }

  lemma {:induction false} WalkFromBelow(low: seq<bv8>, s: seq<bv8>, b: int)
    requires -|low| <= b < 0
    ensures ReachesTable(low, -b) ==> WalkTo(low, s, b) == RunEnd(s, 0)
    ensures !ReachesTable(low, -b) ==> WalkTo(low, s, b) <= 0
    ensures FreedFrom(low, s, b) == if ReachesTable(low, -b) then Freed(s, 0) else s
    decreases -b
  {
    if HasNext(low[-1 - b]) {
      if b < -1 { WalkFromBelow(low, s, b + 1); } else { WalkInTable(low, s, 0); }
    }
  }

  /** What a release clears, byte by byte and without the walk: from where it begins upwards,
      each byte that has only HAS_NEXT bytes before it. */
  predicate AllNext(low: seq<bv8>, s: seq<bv8>, b: int, i: int)
    requires -|low| <= b <= i <= |s|
  {
    && (forall j :: 0 <= j < |low| && b <= -1 - j < i ==> low[j] & 0x80 != 0)
    && forall j :: 0 <= j < |s| && b <= j < i ==> s[j] & 0x80 != 0
  }

  lemma {:induction false} WalkReaches(low: seq<bv8>, s: seq<bv8>, b: int, i: int)
    requires -|low| <= b <= i && (i < 0 || i < |s|)
    ensures i < WalkTo(low, s, b) <==> AllNext(low, s, b, i)
    decreases |s| - b
  {
    if b < i {
      assert b < 0 ==> low[-1 - b] == EntryAt(low, s, b);
      if HasNext(EntryAt(low, s, b)) { WalkReaches(low, s, b + 1, i); }
    }
  }

  lemma ReleaseClears(low: seq<bv8>, s: seq<bv8>, b: int, k: nat)
    requires -|low| <= b
    ensures k < |s| ==>
              FreedFrom(low, s, b)[k] == if b <= k && AllNext(low, s, b, k) then 0 else s[k]
    ensures k < |low| ==>
              FreedBelow(low, s, b)[k] == if b <= -1 - k && AllNext(low, s, b, -1 - k) then 0 else low[k]
    ensures 0 <= b && k < |s| ==> Freed(s, b)[k] == FreedFrom(low, s, b)[k]
  {
    if b <= k < |s| { WalkReaches(low, s, b, k); }
    if k < |low| && b <= -1 - k { WalkReaches(low, s, b, -1 - k); }
    if 0 <= b <= |s| { WalkInTable(low, s, b); }
  }

  // ---- The abstract content of a table: its live runs ----

  /** Every run of `live` lies in the table and is written there byte for byte. */
  ghost predicate RunsWritten(s: seq<bv8>, live: map<nat, nat>) {
    forall b :: b in live ==>
      live[b] > 0 && b + live[b] <= |s| &&
      forall k :: b <= k < b + live[b] ==> s[k] == RunByte(b, live[b], k)
  }

  ghost predicate Covered(live: map<nat, nat>, k: nat) {
    exists b :: b in live && b <= k < b + live[b]
  }

  /** `s` is exactly the table whose live runs are `live` (start to length). */
  ghost predicate Encodes(s: seq<bv8>, live: map<nat, nat>) {
    RunsWritten(s, live) &&
    forall k: nat :: k < |s| && !Covered(live, k) ==> s[k] == FREE
  }

  lemma CoveredIsTaken(s: seq<bv8>, live: map<nat, nat>, k: nat)
    requires Encodes(s, live) && k < |s|
    ensures Covered(live, k) <==> !IsFree(s[k])
    ensures IsFree(s[k]) <==> s[k] == FREE
  {
    if Covered(live, k) {
      var b :| b in live && b <= k < b + live[b];
      assert s[k] == RunByte(b, live[b], k);
    }
  }

  /** The table determines the runs. */
  lemma RunsDisjoint(s: seq<bv8>, live: map<nat, nat>, b: nat, c: nat)
    requires Encodes(s, live) && b in live && c in live && b != c
    ensures b + live[b] <= c || c + live[c] <= b
  {
    // a head byte is IS_FIRST, so it lies in no other run
    assert s[b] == RunByte(b, live[b], b);
    assert s[c] == RunByte(c, live[c], c);
  }

  /** Two tables of one length with the same live runs are the same bytes. */
  lemma TableDetermined(s: seq<bv8>, t: seq<bv8>, live: map<nat, nat>)
    requires Encodes(s, live) && Encodes(t, live) && |s| == |t|
    ensures s == t
  {
    forall k | 0 <= k < |s| ensures s[k] == t[k] {
      if Covered(live, k) {
        var b :| b in live && b <= k < b + live[b];
        assert s[k] == RunByte(b, live[b], k) == t[k];
      }
    }
  }

  lemma RunEndIs(s: seq<bv8>, b: nat, n: nat, j: nat)
    requires b <= j < b + n <= |s|
    requires forall k :: b <= k < b + n ==> s[k] == RunByte(b, n, k)
    ensures RunEnd(s, j) == b + n
    decreases b + n - j
  {
    if j < b + n - 1 { RunEndIs(s, b, n, j + 1); }
  }

  /** And one table has only one set of runs. */
  lemma RunsDetermined(s: seq<bv8>, live: map<nat, nat>, other: map<nat, nat>)
    requires Encodes(s, live) && Encodes(s, other)
    ensures live == other
  {
    RunsWithin(s, live, other);
    RunsWithin(s, other, live);
  }

  lemma RunsWithin(s: seq<bv8>, live: map<nat, nat>, other: map<nat, nat>)
    requires Encodes(s, live) && Encodes(s, other)
    ensures forall b :: b in live ==> b in other && other[b] == live[b]
  {
    forall b | b in live ensures b in other && other[b] == live[b] {
      assert s[b] == RunByte(b, live[b], b);
      CoveredIsTaken(s, other, b);
      var c :| c in other && c <= b < c + other[c];
      assert s[b] == RunByte(c, other[c], b);
      RunEndIs(s, b, live[b], b);
      RunEndIs(s, c, other[c], b);
    }
  }

  // ---- Taking and releasing runs ----

  /** Taking `n` free blocks adds one run and touches no other. */
  lemma MarkAddsRun(s: seq<bv8>, live: map<nat, nat>, b: nat, n: nat)
    requires Encodes(s, live) && n > 0 && FreeRun(s, b, n)
    ensures b !in live && Encodes(Marked(s, b, n), live[b := n])
    ensures forall c :: c in live ==> c + live[c] <= b || b + n <= c
  {
    var t, after := Marked(s, b, n), live[b := n];
    forall c | c in live ensures c != b && (c + live[c] <= b || b + n <= c) {
      assert s[c] == RunByte(c, live[c], c);
      assert IsFree(s[b]);
    }
    assert b in after && after[b] == n;
    assert forall c :: c in live ==> c in after && after[c] == live[c];
    forall k: nat | k < |t| && !Covered(after, k) ensures t[k] == FREE {
      assert !Covered(live, k);
    }
  }

  /** Releasing the head of a run removes that run and touches no other. */
  lemma FreeDropsRun(s: seq<bv8>, live: map<nat, nat>, b: nat)
    requires Encodes(s, live) && b in live
    ensures Encodes(Freed(s, b), live - {b})
    ensures RunEnd(s, b) == b + live[b]
  {
    RunEndIs(s, b, live[b], b);
    var t, after := Freed(s, b), live - {b};
    forall c | c in after
      ensures after[c] > 0 && c + after[c] <= |t|
      ensures forall k :: c <= k < c + after[c] ==> t[k] == RunByte(c, after[c], k)
    {
      RunsDisjoint(s, live, b, c);
    }
    assert forall c :: c in live && c != b ==> c in after && after[c] == live[c];
    forall k: nat | k < |t| && !Covered(after, k) ensures t[k] == FREE {
      if Covered(live, k) {
        var c :| c in live && c <= k < c + live[c];
      }
    }
  }

  /** Releasing what was just taken restores the table byte for byte. */
  lemma FreeUndoesMark(s: seq<bv8>, live: map<nat, nat>, b: nat, n: nat)
    requires Encodes(s, live) && n > 0 && FreeRun(s, b, n)
    ensures Freed(Marked(s, b, n), b) == s
  {
    MarkAddsRun(s, live, b, n);
    FreeDropsRun(Marked(s, b, n), live[b := n], b);
    assert live[b := n] - {b} == live;
    TableDetermined(Freed(Marked(s, b, n), b), s, live);
  }

  // ---- Exactly when the two operations keep a table well formed ----

  ghost predicate WellFormed(s: seq<bv8>) {
    exists live :: Encodes(s, live)
  }

  /** A block after a HAS_NEXT block is taken too, and inside the table. */
  lemma NextIsTaken(s: seq<bv8>, k: nat)
    requires WellFormed(s) && k < |s| && HasNext(s[k])
    ensures k + 1 < |s| && !IsFree(s[k + 1])
  {
    var live :| Encodes(s, live);
    assert s[k] != FREE by { assert FREE & HAS_NEXT == 0; }
    assert Covered(live, k);
    var b :| b in live && b <= k < b + live[b];
    assert s[k] == RunByte(b, live[b], k);
    assert s[k + 1] == RunByte(b, live[b], k + 1);
  }

  /** An allocation of `n` blocks keeps the table well formed. */
  predicate Keeps(s: seq<bv8>, n: nat) {
    n == 0 || Fits(s, n) || !LastIsFree(s)
  }

  lemma MallocKeepsTableIff(s: seq<bv8>, n: nat)
    requires WellFormed(s)
    ensures var r := StartBlock(s, n);
      (r >= 0 ==> WellFormed(Marked(s, r, n))) <==> Keeps(s, n)
  {
    var r := StartBlock(s, n);
    if r >= 0 {
      var t := Marked(s, r, n);
      if n == 0 {
        assert t == s;
      } else if Fits(s, n) {
        var live :| Encodes(s, live);
        MarkAddsRun(s, live, r, n);
      } else {
        var last := |s| - 1;
        assert !FreeRun(s, r, n);
        assert r <= last < r + n - 1;
        assert t[last] == RunByte(r, n, last);
        if WellFormed(t) { NextIsTaken(t, last); }
      }
    }
  }

  /** Two blocks, the first taken: a request for two is answered with the last one, and its
      byte then says that the run goes on past the table. */
  lemma ShortRunBreaks()
    ensures var s: seq<bv8> := [RunByte(0, 1, 0), FREE];
      WellFormed(s) && StartBlock(s, 2) == 1 && !WellFormed(Marked(s, 1, 2))
  {
    var s: seq<bv8> := [RunByte(0, 1, 0), FREE];
    var live: map<nat, nat> := map[0 := 1];
    assert s[0] == RunByte(0, 1, 0) && s[1] == FREE && 0 in live;
    assert Covered(live, 0);
    assert Encodes(s, live);
    assert !IsFree(s[0]) && IsFree(s[1]);
    assert !FreeRun(s, 0, 2) && !FreeRun(s, 1, 2);
    assert TailStart(s, 1) == 1;
    MallocKeepsTableIff(s, 2);
  }

  /** Whatever was taken, releasing it at once restores the table, also a run that was
      marked past the end of the table. */
  lemma FreeUndoesMalloc(s: seq<bv8>, live: map<nat, nat>, n: nat)
    requires Encodes(s, live) && StartBlock(s, n) >= 0
    ensures var r := StartBlock(s, n); r !in live && Freed(Marked(s, r, n), r) == s
  {
    var r := StartBlock(s, n);
    StartNotLive(s, live, n);
    if Fits(s, n) {
      FreeUndoesMark(s, live, r, n);
    } else {
      RowUndone(s, live, n);
    }
  }

  /** The search answers with a free block; beyond a run that does not fit all are free. */
  lemma StartIsFree(s: seq<bv8>, n: nat)
    requires StartBlock(s, n) >= 0
    ensures var r := StartBlock(s, n); IsFree(s[r]) && (!Fits(s, n) ==> forall k :: r <= k < |s| ==> IsFree(s[k]))
  {
  }

  lemma StartNotLive(s: seq<bv8>, live: map<nat, nat>, n: nat)
    requires Encodes(s, live)
    ensures StartBlock(s, n) >= 0 ==> StartBlock(s, n) !in live
  {
    if StartBlock(s, n) >= 0 {
      StartIsFree(s, n);
      CoveredIsTaken(s, live, StartBlock(s, n));
    }
  }

  lemma RowUndone(s: seq<bv8>, live: map<nat, nat>, n: nat)
    requires Encodes(s, live) && StartBlock(s, n) >= 0 && !Fits(s, n)
    ensures var r := StartBlock(s, n); Freed(Marked(s, r, n), r) == s
  {
    var r := StartBlock(s, n);
    var t := Marked(s, r, n);
    forall k | r <= k < |s| ensures s[k] == FREE {
      CoveredIsTaken(s, live, k);
    }
    if n == 0 {
      assert t == s;
      assert FREE & HAS_NEXT == 0;
      assert RunEnd(s, r) == r + 1;
    } else {
      assert !FreeRun(s, r, n);
      MarkedToEnd(s, r, n, r);
    }
  }

  lemma {:induction false} MarkedToEnd(s: seq<bv8>, r: nat, n: nat, j: nat)
    requires r <= j <= |s| < r + n
    ensures RunEnd(Marked(s, r, n), j) == |s|
    decreases |s| - j
  {
    if j < |s| {
      assert Marked(s, r, n)[j] == RunByte(r, n, j);
      MarkedToEnd(s, r, n, j + 1);
    }
  }

  lemma FreeKeepsTableIff(s: seq<bv8>, live: map<nat, nat>, b: nat)
    requires Encodes(s, live)
    ensures WellFormed(Freed(s, b)) <==> b >= |s| || IsFree(s[b]) || b in live
  {
    if b < |s| {
      CoveredIsTaken(s, live, b);
      var t := Freed(s, b);
      if IsFree(s[b]) {
        assert FREE & HAS_NEXT == 0;
        assert RunEnd(s, b) == b + 1;
        assert t == s;
      } else if b in live {
        FreeDropsRun(s, live, b);
      } else {
        var h :| h in live && h <= b < h + live[h];
        assert s[b - 1] == RunByte(h, live[h], b - 1);
        assert RunEnd(s, b) > b;
        if WellFormed(t) { NextIsTaken(t, b - 1); }
      }
    }
  }

  // ---- Whole runs of the allocator ----

  datatype HeapOp = Malloc(size: Word) | Free(block: nat)

  /** The requests that MallocKeepsTableIff admits, and releases of live runs. */
  predicate Allows(s: seq<bv8>, live: map<nat, nat>, op: HeapOp) {
    match op
    case Malloc(size) => Keeps(s, BlocksFor(size))
    case Free(b) => b in live
  }

  function Step(s: seq<bv8>, live: map<nat, nat>, op: HeapOp): (t: seq<bv8>)
    requires Allows(s, live, op)
  {
    match op
    case Malloc(size) =>
      var n, r := BlocksFor(size), StartBlock(s, BlocksFor(size));
      if r >= 0 then Marked(s, r, n) else s
    case Free(b) => Freed(s, b)
  }

  function LiveAfter(s: seq<bv8>, live: map<nat, nat>, op: HeapOp): map<nat, nat>
    requires Allows(s, live, op)
  {
    match op
    case Malloc(size) =>
      var n, r := BlocksFor(size), StartBlock(s, BlocksFor(size));
      if r >= 0 && n > 0 then live[r := n] else live
    case Free(b) => live - {b}
  }

  predicate Allowed(s: seq<bv8>, live: map<nat, nat>, ops: seq<HeapOp>)
    decreases |ops|
  {
    ops == [] ||
    (Allows(s, live, ops[0]) &&
     Allowed(Step(s, live, ops[0]), LiveAfter(s, live, ops[0]), ops[1..]))
  }

  function TableAfter(s: seq<bv8>, live: map<nat, nat>, ops: seq<HeapOp>): (t: seq<bv8>)
    requires Allowed(s, live, ops)
    decreases |ops|
  {
    if ops == [] then s
    else TableAfter(Step(s, live, ops[0]), LiveAfter(s, live, ops[0]), ops[1..])
  }

  function RunsAfter(s: seq<bv8>, live: map<nat, nat>, ops: seq<HeapOp>): map<nat, nat>
    requires Allowed(s, live, ops)
    decreases |ops|
  {
    if ops == [] then live
    else RunsAfter(Step(s, live, ops[0]), LiveAfter(s, live, ops[0]), ops[1..])
  }

  /** After any such history the table is exactly the encoding of the pointers
      handed out and not yet released, and their runs do not overlap. */
  lemma {:induction false} EveryRunWellFormed(s: seq<bv8>, live: map<nat, nat>, ops: seq<HeapOp>)
    requires Encodes(s, live) && Allowed(s, live, ops)
    ensures var after := RunsAfter(s, live, ops);
      && Encodes(TableAfter(s, live, ops), after)
      && |TableAfter(s, live, ops)| == |s|
      && forall b, c :: b in after && c in after && b != c ==> b + after[b] <= c || c + after[c] <= b
    decreases |ops|
  {
    if ops == [] {
      forall b, c | b in live && c in live && b != c ensures b + live[b] <= c || c + live[c] <= b {
        RunsDisjoint(s, live, b, c);
      }
    } else {
      match ops[0] {
        case Malloc(size) =>
          var n := BlocksFor(size);
          if Fits(s, n) { MarkAddsRun(s, live, StartBlock(s, n), n); }
          else { assert n == 0 && StartBlock(s, n) >= 0 ==> Marked(s, StartBlock(s, n), n) == s; }
        case Free(b) => FreeDropsRun(s, live, b);
      }
      EveryRunWellFormed(Step(s, live, ops[0]), LiveAfter(s, live, ops[0]), ops[1..]);
    }
  }

  // ---- Counting free blocks ----

  function FreeCount(s: seq<bv8>): nat {
    if s == [] then 0 else FreeCount(s[1..]) + (if IsFree(s[0]) then 1 else 0)
  }

  lemma {:induction false} FreeCountUpdate(s: seq<bv8>, b: nat, e: bv8)
    requires b < |s| && IsFree(s[b]) && !IsFree(e)
    ensures FreeCount(s[b := e]) == FreeCount(s) - 1
  {
    if b == 0 {
      assert s[b := e][1..] == s[1..];
    } else {
      assert s[b := e][1..] == s[1..][b - 1 := e];
      FreeCountUpdate(s[1..], b - 1, e);
    }
  }

  lemma {:induction false} FreeCountFits(s: seq<bv8>)
    requires FreeCount(s) > 0
    ensures Fits(s, 1)
  {
    if !IsFree(s[0]) {
      FreeCountFits(s[1..]);
      var b := FirstFit(s[1..], 1, 0);
      assert IsFree(s[1..][b]);
      assert FreeRun(s, b + 1, 1);
    } else {
      assert FreeRun(s, 0, 1);
    }
  }

  lemma {:induction false} FreeCountFront(s: seq<bv8>)
    requires s != []
    ensures FreeCount(s) == FreeCount(s[..|s| - 1]) + if IsFree(s[|s| - 1]) then 1 else 0
  {
    if |s| > 1 {
      FreeCountFront(s[1..]);
      assert s[1..][..|s| - 2] == s[..|s| - 1][1..];
    }
  }

  /** It is the number of free blocks. */
  lemma {:induction false} FreeCountIs(s: seq<bv8>)
    ensures FreeCount(s) == |set k | 0 <= k < |s| && IsFree(s[k])|
  {
    if s != [] {
      var n := |s| - 1;
      var front := s[..n];
      FreeCountFront(s);
      FreeCountIs(front);
      var before := set k | 0 <= k < n && IsFree(front[k]);
      var all := set k | 0 <= k < |s| && IsFree(s[k]);
      assert all == before + if IsFree(s[n]) then {n} else {};
    }
  }

  lemma {:induction false} MoreFree(s: seq<bv8>, t: seq<bv8>)
    requires |s| == |t| && forall k :: 0 <= k < |s| && IsFree(s[k]) ==> IsFree(t[k])
    ensures FreeCount(s) <= FreeCount(t)
  {
    if s != [] {
      assert IsFree(s[0]) ==> IsFree(t[0]);
      forall k | 0 <= k < |s| - 1 && IsFree(s[1..][k]) ensures IsFree(t[1..][k]) {
        assert IsFree(s[k + 1]);
      }
      MoreFree(s[1..], t[1..]);
    }
  }
}
