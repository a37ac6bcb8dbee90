/** Files: reads at an offset and reads of several items, against the chain. */
module FatFile {
  import opened Disk
  import opened DivMod
  import opened Fat16

  // ---- One read at an offset ----

  /** The chain of `n` clusters from `start`, cut at `offset`, is the chain from the
      `q`-th cluster on, cut at `o`. */
  ghost predicate CutAt(vol: Volume, start: nat, n: nat, offset: nat, q: nat, o: nat) {
    && ChainOk(vol, start, n) && offset <= |ChainPositions(vol, start, n)|
    && q < n && Follow(vol, start, q) >= 0 && ChainOk(vol, Follow(vol, start, q), n - q)
    && o <= |ChainPositions(vol, Follow(vol, start, q), n - q)|
    && ChainPositions(vol, start, n)[offset..] == ChainPositions(vol, Follow(vol, start, q), n - q)[o..]
  }

  lemma CutStep(vol: Volume, start: nat, n: nat, offset: nat, q: nat, o: nat)
    requires vol.Valid() && n > 1 && ChainOk(vol, start, n)
    requires CutAt(vol, vol.FatEntry(start), n - 1, offset, q, o)
    requires |ChainPositions(vol, start, n)| > vol.ClusterSize()
    ensures CutAt(vol, start, n, offset + vol.ClusterSize(), q + 1, o)
  {
    ChainTail(vol, start, n);
    assert Follow(vol, start, q + 1) == Follow(vol, vol.FatEntry(start), q);
    DropTwice(ChainPositions(vol, start, n), vol.ClusterSize(), offset + vol.ClusterSize());
  }

  lemma {:induction false} ChainSuffix(vol: Volume, start: nat, n: nat, offset: nat)
    requires vol.Valid() && ChainOk(vol, start, n) && offset < |ChainPositions(vol, start, n)|
    ensures CutAt(vol, start, n, offset, Quot(offset, vol.ClusterSize()), Rem(offset, vol.ClusterSize()))
    decreases n
  {
    var size := vol.ClusterSize();
    if offset >= size {
      ChainTail(vol, start, n);
      ChainSuffix(vol, vol.FatEntry(start), n - 1, offset - size);
      CutStep(vol, start, n, offset - size, Quot(offset - size, size), Rem(offset - size, size));
    }
  }

  lemma DropTwice(s: seq<int>, a: nat, b: nat)
    requires a <= b <= |s|
    ensures s[b..] == s[a..][b - a..]
  {
  }

  lemma {:induction false} ReadOkInChain(vol: Volume, c: nat, n: nat, total: nat)
    requires vol.Valid() && ChainOk(vol, c, n) && total <= |ChainPositions(vol, c, n)|
    ensures ReadOk(vol, c, total)
    decreases n
  {
    if total > vol.ClusterSize() {
      ChainTail(vol, c, n);
      ReadOkInChain(vol, vol.FatEntry(c), n - 1, total - vol.ClusterSize());
    }
  }

  /** The read's bytes for a file of `n` clusters from `start`. */
  ghost function ItemPositions(vol: Volume, start: nat, offset: nat, size: nat): (r: seq<int>)
    requires vol.Valid()
  {
    var c := Follow(vol, start, Quot(offset, vol.ClusterSize()));
    if c < 0 then [] else ReadPositions(vol, c, Rem(offset, vol.ClusterSize()), size)
  }

  ghost predicate ItemContiguous(vol: Volume, start: nat, offset: nat, size: nat)
    requires vol.Valid()
  {
    var c := Follow(vol, start, Quot(offset, vol.ClusterSize()));
    c >= 0 && CrossingsContiguous(vol, c, Rem(offset, vol.ClusterSize()), size)
  }

  ghost predicate ItemOk(vol: Volume, start: nat, offset: nat, size: nat)
    requires vol.Valid()
  {
    var c := Follow(vol, start, Quot(offset, vol.ClusterSize()));
    c >= 0 && ReadOk(vol, c, size)
  }

  /** Inside the file a read succeeds, and its bytes are [offset, offset + total) of the
      concatenated clusters exactly when every crossing is contiguous. */
  lemma FileReadIff(vol: Volume, start: nat, n: nat, offset: nat, total: nat)
    requires vol.Valid() && ChainOk(vol, start, n) && total > 0
    requires offset + total <= |ChainPositions(vol, start, n)|
    ensures ItemOk(vol, start, offset, total) && |ItemPositions(vol, start, offset, total)| == total
    ensures ItemPositions(vol, start, offset, total) == ChainPositions(vol, start, n)[offset..offset + total]
            <==> ItemContiguous(vol, start, offset, total)
  {
    ChainSuffix(vol, start, n, offset);
    FileReadAt(vol, start, n, offset, Quot(offset, vol.ClusterSize()), Rem(offset, vol.ClusterSize()), total);
  }

  lemma FileReadAt(vol: Volume, start: nat, n: nat, offset: nat, q: nat, o: nat, total: nat)
    requires vol.Valid() && CutAt(vol, start, n, offset, q, o) && o < vol.ClusterSize()
    requires offset + total <= |ChainPositions(vol, start, n)|
    ensures var c := Follow(vol, start, q);
      && ReadOk(vol, c, total) && o + total <= |ChainPositions(vol, c, n - q)|
      && (ReadPositions(vol, c, o, total) == ChainPositions(vol, start, n)[offset..offset + total]
          <==> CrossingsContiguous(vol, c, o, total))
  {
    var c: nat := Follow(vol, start, q);
    var chain := ChainPositions(vol, start, n);
    SliceOfSuffix(chain, ChainPositions(vol, c, n - q), offset, o, total);
    ReadAgainst(vol, c, n - q, o, total, chain[offset..offset + total]);
  }

  lemma SliceOfSuffix(chain: seq<int>, rest: seq<int>, offset: nat, o: nat, total: nat)
    requires offset + total <= |chain| && o <= |rest| && chain[offset..] == rest[o..]
    ensures o + total <= |rest| && chain[offset..offset + total] == rest[o..o + total]
  {
    assert |chain[offset..]| == |rest[o..]|;
    assert chain[offset..offset + total] == chain[offset..][..total];
    assert rest[o..o + total] == rest[o..][..total];
  }

  lemma ReadAgainst(vol: Volume, c: nat, m: nat, o: nat, total: nat, want: seq<int>)
    requires vol.Valid() && ChainOk(vol, c, m) && o < vol.ClusterSize()
    requires o + total <= |ChainPositions(vol, c, m)| && want == ChainPositions(vol, c, m)[o..o + total]
    ensures ReadOk(vol, c, total)
    ensures ReadPositions(vol, c, o, total) == want <==> CrossingsContiguous(vol, c, o, total)
  {
    ReadOkInChain(vol, c, m, total);
    ReadIsSliceIff(vol, c, m, o, total);
  }

  lemma {:induction false} AlignedContiguous(vol: Volume, c: nat, total: nat)
    requires vol.Valid()
    ensures CrossingsContiguous(vol, c, 0, total)
    decreases total
  {
    if total > vol.ClusterSize() { AlignedContiguous(vol, vol.FatEntry(c), total - vol.ClusterSize()); }
  }

  /** Every link of the chain leads to the adjacent cluster. */
  predicate ContiguousChain(vol: Volume, c: nat, n: nat)
    decreases n
  {
    n <= 1 || (vol.FatEntry(c) == c + 1 && ContiguousChain(vol, c + 1, n - 1))
  }

  lemma {:induction false} ContiguousCrossings(vol: Volume, c: nat, n: nat, o: nat, total: nat)
    requires vol.Valid() && ChainOk(vol, c, n) && ContiguousChain(vol, c, n)
    requires o + total <= |ChainPositions(vol, c, n)|
    ensures CrossingsContiguous(vol, c, o, total)
    decreases n
  {
    var size := vol.ClusterSize();
    if o + Min(total, size) > size { ChainTail(vol, c, n); }
    if total > size {
      ChainTail(vol, c, n);
      ContiguousCrossings(vol, c + 1, n - 1, o, total - size);
    }
  }

  lemma {:induction false} ContiguousSuffix(vol: Volume, c: nat, n: nat, q: nat)
    requires q < n && ContiguousChain(vol, c, n) && Follow(vol, c, q) >= 0
    ensures ContiguousChain(vol, Follow(vol, c, q), n - q)
    decreases q
  {
    if q > 0 { ContiguousSuffix(vol, c + 1, n - 1, q - 1); }
  }

  /** The three everyday cases in which a read is exactly the file's bytes: a
      cluster-aligned offset, a read inside one cluster, a contiguous file. */
  lemma FileReadExact(vol: Volume, start: nat, n: nat, offset: nat, total: nat)
    requires vol.Valid() && ChainOk(vol, start, n) && total > 0
    requires offset + total <= |ChainPositions(vol, start, n)|
    requires StartsOrEndsInside(vol, offset, total) || ContiguousChain(vol, start, n)
    ensures ItemPositions(vol, start, offset, total) == ChainPositions(vol, start, n)[offset..offset + total]
  {
    FileReadIff(vol, start, n, offset, total);
    EasyContiguous(vol, start, n, offset, total);
  }

  lemma EasyContiguous(vol: Volume, start: nat, n: nat, offset: nat, total: nat)
    requires vol.Valid() && ChainOk(vol, start, n) && total > 0
    requires offset + total <= |ChainPositions(vol, start, n)|
    requires StartsOrEndsInside(vol, offset, total) || ContiguousChain(vol, start, n)
    ensures ItemContiguous(vol, start, offset, total)
  {
    if StartsOrEndsInside(vol, offset, total) {
      InsideContiguous(vol, start, n, offset, total);
    } else {
      ChainSuffix(vol, start, n, offset);
      AdjacentAt(vol, start, n, offset, Quot(offset, vol.ClusterSize()), Rem(offset, vol.ClusterSize()), total);
    }
  }

  /** The offset is cluster-aligned, or the bytes end in the cluster they start in. */
  predicate StartsOrEndsInside(vol: Volume, offset: nat, total: nat)
    requires vol.Valid()
  {
    Rem(offset, vol.ClusterSize()) == 0 || Rem(offset, vol.ClusterSize()) + total <= vol.ClusterSize()
  }

  lemma InsideContiguous(vol: Volume, start: nat, n: nat, offset: nat, total: nat)
    requires vol.Valid() && ChainOk(vol, start, n) && offset < |ChainPositions(vol, start, n)|
    requires StartsOrEndsInside(vol, offset, total)
    ensures ItemContiguous(vol, start, offset, total)
  {
    ChainSuffix(vol, start, n, offset);
    InsideCrossings(vol, Follow(vol, start, Quot(offset, vol.ClusterSize())), Rem(offset, vol.ClusterSize()), total);
  }

  lemma InsideCrossings(vol: Volume, c: nat, o: nat, total: nat)
    requires vol.Valid() && (o == 0 || o + total <= vol.ClusterSize())
    ensures CrossingsContiguous(vol, c, o, total)
  {
    if o == 0 { AlignedContiguous(vol, c, total); }
  }

  lemma AdjacentAt(vol: Volume, start: nat, n: nat, offset: nat, q: nat, o: nat, total: nat)
    requires vol.Valid() && CutAt(vol, start, n, offset, q, o) && o < vol.ClusterSize()
    requires offset + total <= |ChainPositions(vol, start, n)| && ContiguousChain(vol, start, n)
    ensures CrossingsContiguous(vol, Follow(vol, start, q), o, total)
  {
    ContiguousSuffix(vol, start, n, q);
    RestIsLong(vol, start, n, offset, q, o, total);
    ContiguousCrossings(vol, Follow(vol, start, q), n - q, o, total);
  }

  lemma RestIsLong(vol: Volume, start: nat, n: nat, offset: nat, q: nat, o: nat, total: nat)
    requires CutAt(vol, start, n, offset, q, o) && offset + total <= |ChainPositions(vol, start, n)|
    ensures o + total <= |ChainPositions(vol, Follow(vol, start, q), n - q)|
  {
    var c: nat := Follow(vol, start, q);
    SliceOfSuffix(ChainPositions(vol, start, n), ChainPositions(vol, c, n - q), offset, o, total);
  }

  // ---- fat16_read: several items ----

  /** Items 0..n of `size` bytes from `offset`, one after the other. */
  ghost function AllItems(item: nat -> seq<int>, offset: nat, size: nat, n: nat): (r: seq<int>) {
    if n == 0 then [] else AllItems(item, offset, size, n - 1) + item(offset + Times(size, n - 1))
  }

  ghost predicate AllAt(p: nat -> bool, offset: nat, size: nat, n: nat) {
    n == 0 || (AllAt(p, offset, size, n - 1) && p(offset + Times(size, n - 1)))
  }

  /** If each item is its slice of the file exactly when it `fits`, then all of them
      together are one slice exactly when all fit. */
  lemma {:induction false} ItemsIff(item: nat -> seq<int>, fits: nat -> bool, chain: seq<int>,
                                    offset: nat, size: nat, n: nat)
    requires offset + Times(size, n) <= |chain|
    requires forall o: nat :: o + size <= |chain| ==>
               |item(o)| == size && (item(o) == chain[o..o + size] <==> fits(o))
    ensures |AllItems(item, offset, size, n)| == Times(size, n)
    ensures AllItems(item, offset, size, n) == chain[offset..offset + Times(size, n)]
            <==> AllAt(fits, offset, size, n)
  {
    if n > 0 {
      ItemsIff(item, fits, chain, offset, size, n - 1);
      ItemsStep(item, fits, chain, offset, size, n);
    }
  }

  lemma ItemsStep(item: nat -> seq<int>, fits: nat -> bool, chain: seq<int>, offset: nat, size: nat, n: nat)
    requires n > 0 && offset + Times(size, n) <= |chain|
    requires var o := offset + Times(size, n - 1);
      |item(o)| == size && (item(o) == chain[o..o + size] <==> fits(o))
    requires |AllItems(item, offset, size, n - 1)| == Times(size, n - 1)
    requires AllItems(item, offset, size, n - 1) == chain[offset..offset + Times(size, n - 1)]
             <==> AllAt(fits, offset, size, n - 1)
    ensures |AllItems(item, offset, size, n)| == Times(size, n)
    ensures AllItems(item, offset, size, n) == chain[offset..offset + Times(size, n)]
            <==> AllAt(fits, offset, size, n)
  {
    var done := Times(size, n - 1);
    OneMoreItem(chain, AllItems(item, offset, size, n - 1), item(offset + done), offset, done, size,
                AllAt(fits, offset, size, n - 1), fits(offset + done));
  }

  lemma OneMoreItem(chain: seq<int>, front: seq<int>, item: seq<int>, offset: nat, done: nat, size: nat,
                    frontFits: bool, itemFits: bool)
    requires |front| == done && |item| == size && offset + done + size <= |chain|
    requires front == chain[offset..offset + done] <==> frontFits
    requires item == chain[offset + done..offset + done + size] <==> itemFits
    ensures front + item == chain[offset..offset + (done + size)] <==> frontFits && itemFits
  {
    var want, last := chain[offset..offset + done], chain[offset + done..offset + done + size];
    TwoParts(front, item, want, last);
    assert chain[offset..offset + (done + size)] == want + last;
  }

  lemma TwoParts(a: seq<int>, b: seq<int>, c: seq<int>, d: seq<int>)
    requires |a| == |c| && |b| == |d|
    ensures a + b == c + d <==> a == c && b == d
  {
    if a + b == c + d {
      assert a == (a + b)[..|a|] && b == (a + b)[|a|..] && c == (c + d)[..|a|] && d == (c + d)[|a|..];
    }
  }

  /** The items of a file, as functions of their offset. */
  ghost function ItemAt(vol: Volume, start: nat, size: nat): nat -> seq<int>
    requires vol.Valid()
  {
    (o: nat) => ItemPositions(vol, start, o, size)
  }

  ghost function OkAt(vol: Volume, start: nat, size: nat): nat -> bool
    requires vol.Valid()
  {
    (o: nat) => ItemOk(vol, start, o, size)
  }

  ghost function ContiguousAt(vol: Volume, start: nat, size: nat): nat -> bool
    requires vol.Valid()
  {
    (o: nat) => ItemContiguous(vol, start, o, size)
  }

  /** Inside the file all `n` items succeed, and together they are the bytes
      [offset, offset + n * size) exactly when no item crosses to a cluster that is
      not adjacent. */
  lemma FileItemsIff(vol: Volume, start: nat, k: nat, offset: nat, size: nat, n: nat)
    requires vol.Valid() && ChainOk(vol, start, k) && size > 0
    requires offset + Times(size, n) <= |ChainPositions(vol, start, k)|
    ensures AllAt(OkAt(vol, start, size), offset, size, n)
    ensures AllItems(ItemAt(vol, start, size), offset, size, n) ==
            ChainPositions(vol, start, k)[offset..offset + Times(size, n)]
            <==> AllAt(ContiguousAt(vol, start, size), offset, size, n)
  {
    var chain := ChainPositions(vol, start, k);
    var item, ok, fits := ItemAt(vol, start, size), OkAt(vol, start, size), ContiguousAt(vol, start, size);
    forall o: nat | o + size <= |chain|
      ensures ok(o) && |item(o)| == size && (item(o) == chain[o..o + size] <==> fits(o))
    {
      FileReadIff(vol, start, k, o, size);
    }
    ItemsIff(item, fits, chain, offset, size, n);
    AllInside(ok, |chain|, offset, size, n);
  }

  lemma {:induction false} AllInside(p: nat -> bool, limit: nat, offset: nat, size: nat, n: nat)
    requires offset + Times(size, n) <= limit && forall o: nat :: o + size <= limit ==> p(o)
    ensures AllAt(p, offset, size, n)
  {
    if n > 0 { AllInside(p, limit, offset, size, n - 1); }
  }

  // ---- When items fit ----

  lemma {:induction false} TimesNest(size: nat, k: nat, i: nat)
    ensures Times(Times(size, k), i) == Times(size, Times(k, i))
  {
    if i > 0 {
      TimesNest(size, k, i - 1);
      TimesAdd(size, Times(k, i - 1), k);
    }
  }

  lemma {:induction false} RemOfMultiple(b: nat, size: nat)
    requires size > 0
    ensures Rem(Times(size, b), size) == 0
  {
    if b > 0 { RemOfMultiple(b - 1, size); }
  }

  lemma {:induction false} RemOfTimes(a: nat, k: nat, size: nat)
    requires k > 0 && size > 0 && Times(size, k) > 0
    ensures Rem(Times(size, a), Times(size, k)) == Times(size, Rem(a, k))
    decreases a
  {
    if a >= k {
      RemOfTimes(a - k, k, size);
      TimesAdd(size, a - k, k);
    } else {
      TimesGrow(size, a, k);
    }
  }

  /** An item that divides the cluster and starts at a multiple of itself stays inside. */
  lemma ItemInside(a: nat, k: nat, size: nat)
    requires size > 0 && k > 0 && Times(size, k) > 0
    ensures Rem(Times(size, a), Times(size, k)) + size <= Times(size, k)
  {
    RemOfTimes(a, k, size);
    TimesGrow(size, Rem(a, k), k);
  }

  /** The sizes and positions for which fat16_read never crosses a cluster wrongly: the
      item size divides the cluster size and the position, or the cluster size divides
      both. Times(x, y) is x * y (TimesIsProduct). */
  predicate ItemsAlign(cluster: nat, pos: nat, size: nat, a: nat, k: nat) {
    size > 0 && k > 0 &&
    ((cluster == Times(size, k) && pos == Times(size, a)) || (size == Times(cluster, k) && pos == Times(cluster, a)))
  }

  /** Every item of an aligned read starts on a cluster or ends inside one. */
  lemma AlignedOffset(cluster: nat, pos: nat, size: nat, a: nat, k: nat, i: nat)
    requires cluster > 0 && ItemsAlign(cluster, pos, size, a, k)
    ensures var o := Rem(pos + Times(size, i), cluster);
      o == 0 || o + size <= cluster
  {
    if cluster == Times(size, k) && pos == Times(size, a) {
      TimesAdd(size, a, i);
      ItemInside(a + i, k, size);
    } else {
      TimesNest(cluster, k, i);
      TimesAdd(cluster, a, Times(k, i));
      RemOfMultiple(a + Times(k, i), cluster);
    }
  }

  lemma AlignedItem(vol: Volume, start: nat, n: nat, pos: nat, size: nat, a: nat, k: nat, i: nat)
    requires vol.Valid() && ChainOk(vol, start, n) && ItemsAlign(vol.ClusterSize(), pos, size, a, k)
    requires pos + Times(size, i) + size <= |ChainPositions(vol, start, n)|
    ensures ItemContiguous(vol, start, pos + Times(size, i), size)
  {
    AlignedOffset(vol.ClusterSize(), pos, size, a, k, i);
    InsideContiguous(vol, start, n, pos + Times(size, i), size);
  }

  lemma ContiguousHere(vol: Volume, start: nat, size: nat, o: nat)
    requires vol.Valid()
    ensures ContiguousAt(vol, start, size)(o) == ItemContiguous(vol, start, o, size)
  {
  }

  lemma {:induction false} AlignedItemsFit(vol: Volume, start: nat, n: nat, pos: nat, size: nat, a: nat, k: nat,
                                             count: nat)
    requires vol.Valid() && ChainOk(vol, start, n) && ItemsAlign(vol.ClusterSize(), pos, size, a, k)
    requires pos + Times(size, count) <= |ChainPositions(vol, start, n)|
    ensures AllAt(ContiguousAt(vol, start, size), pos, size, count)
  {
    if count > 0 {
      AlignedItemsFit(vol, start, n, pos, size, a, k, count - 1);
      AlignedItem(vol, start, n, pos, size, a, k, count - 1);
      ContiguousHere(vol, start, size, pos + Times(size, count - 1));
    }
  }

  lemma AlignedItemsExact(vol: Volume, start: nat, n: nat, pos: nat, size: nat, a: nat, k: nat, count: nat)
    requires vol.Valid() && ChainOk(vol, start, n) && ItemsAlign(vol.ClusterSize(), pos, size, a, k)
    requires pos + Times(size, count) <= |ChainPositions(vol, start, n)|
    ensures AllItems(ItemAt(vol, start, size), pos, size, count) ==
            ChainPositions(vol, start, n)[pos..pos + Times(size, count)]
  {
    AlignedItemsFit(vol, start, n, pos, size, a, k, count);
    FileItemsIff(vol, start, n, pos, size, count);
  }

  /** Aligned items are the same as one read of their total exactly when that one read
      meets only adjacent clusters where it crosses. */
  lemma ItemsAreOneReadIff(vol: Volume, start: nat, n: nat, pos: nat, size: nat, a: nat, k: nat, count: nat)
    requires vol.Valid() && ChainOk(vol, start, n) && ItemsAlign(vol.ClusterSize(), pos, size, a, k)
    requires count > 0 && pos + Times(size, count) <= |ChainPositions(vol, start, n)|
    ensures AllItems(ItemAt(vol, start, size), pos, size, count) == ItemPositions(vol, start, pos, Times(size, count))
            <==> ItemContiguous(vol, start, pos, Times(size, count))
  {
    AlignedItemsExact(vol, start, n, pos, size, a, k, count);
    FileReadIff(vol, start, n, pos, Times(size, count));
  }

  /** Reading several items is not always one read of their total: two 512-byte items
      around a cluster end are right on every chain, the one 1024-byte read only on
      an adjacent pair of clusters. */
  lemma ItemsAreNotOneRead(vol: Volume, start: nat)
    requires vol.Valid() && vol.sectorsPerCluster >= 2 && ChainOk(vol, start, 2)
    requires vol.FatEntry(start) != start + 1
    ensures var at, chain := vol.ClusterSize() - 512, ChainPositions(vol, start, 2);
      && |chain| == 2 * vol.ClusterSize()
      && AllItems(ItemAt(vol, start, 512), at, 512, 2) == chain[at..at + 1024]
      && ItemPositions(vol, start, at, 1024) != chain[at..at + 1024]
  {
    var spc := vol.sectorsPerCluster;
    var at := vol.ClusterSize() - 512;
    TwoClusters(vol, start);
    assert Times(512, 1) == 512 && Times(512, 2) == 1024;
    TimesIsProduct(512, spc - 1);
    TimesIsProduct(512, spc);
    AlignedItemsExact(vol, start, 2, at, 512, spc - 1, spc, 2);
    FileReadIff(vol, start, 2, at, 1024);
    assert Quot(at, vol.ClusterSize()) == 0 && Rem(at, vol.ClusterSize()) == at;
    assert !CrossingsContiguous(vol, start, at, 1024);
  }

  lemma TwoClusters(vol: Volume, start: nat)
    requires ChainOk(vol, start, 2)
    ensures |ChainPositions(vol, start, 2)| == 2 * vol.ClusterSize()
  {
    assert |ChainPositions(vol, vol.FatEntry(start), 1)| == vol.ClusterSize();
  }

  class FileDescriptor {
    var pos: nat
    const firstCluster: nat

    constructor (firstCluster: nat)
      ensures pos == 0 && this.firstCluster == firstCluster
    {
      pos, this.firstCluster := 0, firstCluster;
    }

    /** fat16_read: nmemb items of `size` bytes; the position moves only if all succeed. */
    method Read(r: FatReader, size: nat, nmemb: nat, out: array<byte>) returns (res: int)
      requires r.Valid() && firstCluster < 0x1000_0000 && Addressable(r.vol, firstCluster)
      requires Times(size, nmemb) <= out.Length
      modifies this, r.fatStream, r.clusterStream, out
      ensures if AllAt(OkAt(r.vol, firstCluster, size), old(pos), size, nmemb) then
                && res == nmemb && pos == old(pos) + Times(size, nmemb)
                && Delivered(r.vol, AllItems(ItemAt(r.vol, firstCluster, size), old(pos), size, nmemb), out[..], 0)
              else res == -EIO && pos == old(pos)
    {
      res := ReadItems(r, size, nmemb, out, ItemAt(r.vol, firstCluster, size), OkAt(r.vol, firstCluster, size));
    }

    /** `item` and `ok` are the items of this file as functions of their offset. */
    ghost predicate Describes(vol: Volume, size: nat, item: nat -> seq<int>, ok: nat -> bool)
      requires vol.Valid()
    {
      && (forall o: nat {:trigger ItemPositions(vol, firstCluster, o, size)} ::
            item(o) == ItemPositions(vol, firstCluster, o, size))
      && (forall o: nat {:trigger ItemOk(vol, firstCluster, o, size)} :: ok(o) == ItemOk(vol, firstCluster, o, size))
    }

    /** The loop of fat16_read. */
    method ReadItems(r: FatReader, size: nat, nmemb: nat, out: array<byte>,
                     ghost item: nat -> seq<int>, ghost ok: nat -> bool) returns (res: int)
      requires r.Valid() && firstCluster < 0x1000_0000 && Addressable(r.vol, firstCluster)
      requires Times(size, nmemb) <= out.Length && Describes(r.vol, size, item, ok)
      modifies this, r.fatStream, r.clusterStream, out
      ensures if AllAt(ok, old(pos), size, nmemb) then
                && res == nmemb && pos == old(pos) + Times(size, nmemb)
                && Delivered(r.vol, AllItems(item, old(pos), size, nmemb), out[..], 0)
              else res == -EIO && pos == old(pos)
    {
      var offset, at := pos, 0;
      res := 0;
      for i := 0 to nmemb
        invariant pos == old(pos) && at == Times(size, i) && offset == pos + at && at <= out.Length
        invariant AllAt(ok, pos, size, i)
        invariant |AllItems(item, pos, size, i)| == at && Delivered(r.vol, AllItems(item, pos, size, i), out[..], 0)
      {
        TimesGrow(size, i + 1, nmemb);
        AllAtPrefix(ok, pos, size, i + 1, nmemb);
        res := ReadItem(r, offset, size, out, at, AllItems(item, pos, size, i), item, ok);
        if res < 0 {
          return;
        }
        at := at + size;
        offset := offset + size;
      }
      pos := offset;
      res := nmemb;
    }

    /** One item, delivered behind those already there. */
    method ReadItem(r: FatReader, offset: nat, size: nat, out: array<byte>, at: nat,
                    ghost front: seq<int>, ghost item: nat -> seq<int>, ghost ok: nat -> bool)
      returns (res: int)
      requires r.Valid() && firstCluster < 0x1000_0000 && Addressable(r.vol, firstCluster)
      requires at + size <= out.Length && |front| == at && Delivered(r.vol, front, out[..], 0)
      requires Describes(r.vol, size, item, ok)
      modifies r.fatStream, r.clusterStream, out
      ensures res == if ok(offset) then 0 else -EIO
      ensures res == 0 ==> |item(offset)| == size && Delivered(r.vol, front + item(offset), out[..], 0)
    {
      ghost var before := out[..];
      res := r.ReadInternal(firstCluster, offset, size, out, at);
      assert ok(offset) == ItemOk(r.vol, firstCluster, offset, size);
      assert item(offset) == ItemPositions(r.vol, firstCluster, offset, size);
      if res == 0 {
        DeliveredJoin(r.vol, front, item(offset), before, out[..], 0);
      }
    }
  }

  lemma {:induction false} AllAtPrefix(p: nat -> bool, offset: nat, size: nat, i: nat, n: nat)
    requires i <= n
    ensures AllAt(p, offset, size, n) ==> AllAt(p, offset, size, i)
  {
    if i < n { AllAtPrefix(p, offset, size, i, n - 1); }
  }
}
