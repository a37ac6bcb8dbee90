/** Reading files through the FAT16 cluster chain. */
module Fat16 {
  import opened Disk
  import opened DivMod

  const EIO := 1
  const FAT_ENTRY_SIZE := 2

  /** The boot-sector numbers the read path uses. */
  datatype Volume = Volume(disk: Disk, reservedSectors: nat, fatCopies: nat, sectorsPerFat: nat,
                           rootDirEntries: nat, sectorsPerCluster: nat) {
    /** Set by fat16_get_root_directory. */
    function RootDirSector(): nat {
      fatCopies * sectorsPerFat + reservedSectors
    }

    function EndingSector(): nat {
      var size := rootDirEntries * 32;
      RootDirSector() + size / SECTOR_SIZE + if size % SECTOR_SIZE != 0 then 1 else 0
    }

    function ClusterSize(): nat {
      sectorsPerCluster * SECTOR_SIZE
    }

    /** fat16_cluster_to_sector */
    function ClusterToSector(cluster: int): int {
      EndingSector() + (cluster - 2) * sectorsPerCluster
    }

    function ClusterPos(cluster: int): int {
      ClusterToSector(cluster) * SECTOR_SIZE
    }

    /** The little-endian FAT word of a cluster. */
    function FatEntry(cluster: nat): (e: nat)
      ensures e < 0x10000
    {
      var p := reservedSectors * SECTOR_SIZE + cluster * FAT_ENTRY_SIZE;
      disk.Byte(p) + 0x100 * disk.Byte(p + 1)
    }

    predicate Valid() {
      0 < sectorsPerCluster < 0x100 && reservedSectors < 0x10000
    }
  }

  /** The only FAT entries the chain walk refuses. */
  predicate Rejected(entry: nat) {
    entry in {0, 0xFF0, 0xFF6, 0xFF7, 0xFFF8, 0xFFFF}
  }

  /** The cluster `n` links after `c`, or -EIO if a link on the way is refused. */
  function Follow(vol: Volume, c: nat, n: nat): (r: int)
    ensures r >= 0 || r == -EIO
    decreases n
  {
    if n == 0 then c
    else if Rejected(vol.FatEntry(c)) then -EIO
    else Follow(vol, vol.FatEntry(c), n - 1)
  }

  /** One link more, seen from the far end. */
  lemma {:induction false} FollowNext(vol: Volume, c: nat, n: nat)
    ensures Follow(vol, c, n + 1) ==
            var d := Follow(vol, c, n);
            if d < 0 || Rejected(vol.FatEntry(d)) then -EIO else vol.FatEntry(d)
    decreases n
  {
    if n > 0 && !Rejected(vol.FatEntry(c)) { FollowNext(vol, vol.FatEntry(c), n - 1); }
  }

  // ---- The file as the chain defines it ----

  /** The disk positions [p, p + n). */
  function Range(p: int, n: nat): (r: seq<int>)
    ensures |r| == n
  {
    seq(n, i => p + i)
  }

  /** `n` clusters from `c` on, all links between them accepted. */
  predicate ChainOk(vol: Volume, c: nat, n: nat)
    decreases n
  {
    n <= 1 || (!Rejected(vol.FatEntry(c)) && ChainOk(vol, vol.FatEntry(c), n - 1))
  }

  /** Where the bytes of the concatenated clusters lie. */
  function ChainPositions(vol: Volume, c: nat, n: nat): (r: seq<int>)
    requires ChainOk(vol, c, n)
    decreases n
  {
    if n == 0 then []
    else Range(vol.ClusterPos(c), vol.ClusterSize()) +
         if n == 1 then [] else ChainPositions(vol, vol.FatEntry(c), n - 1)
  }

  // ---- What the read does ----

  function Min(a: nat, b: nat): nat {
    if a < b then a else b
  }

  /** Positions read for `total` bytes from offset `o` inside cluster `c`: a cluster's
      worth at a time, each run starting `o` into the next cluster of the chain. */
  function ReadPositions(vol: Volume, c: nat, o: nat, total: nat): (r: seq<int>)
    requires vol.Valid()
    ensures |r| == total
    decreases total
  {
    Range(vol.ClusterPos(c) + o, Min(total, vol.ClusterSize())) +
    if total <= vol.ClusterSize() then [] else ReadPositions(vol, vol.FatEntry(c), o, total - vol.ClusterSize())
  }

  /** The links the read follows are accepted. */
  predicate ReadOk(vol: Volume, c: nat, total: nat)
    requires vol.Valid()
    decreases total
  {
    total <= vol.ClusterSize() ||
    (!Rejected(vol.FatEntry(c)) && ReadOk(vol, vol.FatEntry(c), total - vol.ClusterSize()))
  }

  /** Wherever a run crosses its cluster's end, the next cluster is the adjacent one. */
  predicate CrossingsContiguous(vol: Volume, c: nat, o: nat, total: nat)
    requires vol.Valid()
    decreases total
  {
    && (o + Min(total, vol.ClusterSize()) > vol.ClusterSize() ==> vol.FatEntry(c) == c + 1)
    && (total > vol.ClusterSize() ==>
          CrossingsContiguous(vol, vol.FatEntry(c), o, total - vol.ClusterSize()))
  }

  lemma SameCluster(vol: Volume, c: int, d: int)
    requires vol.Valid()
    ensures vol.ClusterPos(d) == vol.ClusterPos(c) + vol.ClusterSize() <==> d == c + 1
    ensures vol.ClusterPos(d) == vol.ClusterPos(c) + (d - c) * vol.ClusterSize()
  {
    var k := d - c - 1;
    assert vol.ClusterToSector(d) == vol.ClusterToSector(c) + vol.sectorsPerCluster + k * vol.sectorsPerCluster;
    if k > 0 { assert k * vol.sectorsPerCluster > 0; }
    if k < 0 { assert -k * vol.sectorsPerCluster > 0; }
  }

  /** The read takes its bytes from where the concatenated clusters have them exactly
      when every crossing is contiguous. */
  lemma {:induction false} ReadIsSliceIff(vol: Volume, c: nat, n: nat, o: nat, total: nat)
    requires vol.Valid() && ChainOk(vol, c, n) && o < vol.ClusterSize()
    requires o + total <= |ChainPositions(vol, c, n)|
    ensures ReadPositions(vol, c, o, total) == ChainPositions(vol, c, n)[o..o + total]
            <==> CrossingsContiguous(vol, c, o, total)
    decreases n
  {
    if n > 0 {
      if total <= vol.ClusterSize() {
        LastRun(vol, c, n, o, total);
      } else {
        ChainTail(vol, c, n);
        ReadIsSliceIff(vol, vol.FatEntry(c), n - 1, o, total - vol.ClusterSize());
        MoreRuns(vol, c, n, o, total);
      }
    }
  }

  lemma LastRun(vol: Volume, c: nat, n: nat, o: nat, total: nat)
    requires vol.Valid() && n > 0 && ChainOk(vol, c, n) && o < vol.ClusterSize() && total <= vol.ClusterSize()
    requires o + total <= |ChainPositions(vol, c, n)|
    ensures ReadPositions(vol, c, o, total) == ChainPositions(vol, c, n)[o..o + total]
            <==> CrossingsContiguous(vol, c, o, total)
  {
    FirstRun(vol, c, n, o, total);
    assert ReadPositions(vol, c, o, total) == Range(vol.ClusterPos(c) + o, total);
  }

  lemma MoreRuns(vol: Volume, c: nat, n: nat, o: nat, total: nat)
    requires vol.Valid() && n > 1 && ChainOk(vol, c, n) && o < vol.ClusterSize() < total
    requires o + total <= |ChainPositions(vol, c, n)|
    requires var rest, left := ChainPositions(vol, vol.FatEntry(c), n - 1), total - vol.ClusterSize();
      && ChainPositions(vol, c, n)[vol.ClusterSize()..] == rest
      && (ReadPositions(vol, vol.FatEntry(c), o, left) == rest[o..o + left]
          <==> CrossingsContiguous(vol, vol.FatEntry(c), o, left))
    ensures ReadPositions(vol, c, o, total) == ChainPositions(vol, c, n)[o..o + total]
            <==> CrossingsContiguous(vol, c, o, total)
  {
    var size, next := vol.ClusterSize(), vol.FatEntry(c);
    var chain, rest := ChainPositions(vol, c, n), ChainPositions(vol, next, n - 1);
    var run, more := Range(vol.ClusterPos(c) + o, size), ReadPositions(vol, next, o, total - size);
    assert Min(total, size) == size;
    assert ReadPositions(vol, c, o, total) == run + more;
    SliceInTwo(run + more, run, more, chain, rest, size, o, total);
    FirstRun(vol, c, n, o, size);
    assert CrossingsContiguous(vol, c, o, total) <==>
           (o + size > size ==> next == c + 1) && CrossingsContiguous(vol, next, o, total - size);
  }

  /** Comparing a two-part read with a slice is comparing part by part. */
  lemma SliceInTwo(read: seq<int>, run: seq<int>, more: seq<int>, chain: seq<int>, rest: seq<int>,
                   size: nat, o: nat, total: nat)
    requires read == run + more && |run| == size <= total == |read|
    requires size <= |chain| && chain[size..] == rest && o + total <= |chain|
    ensures read == chain[o..o + total] <==> run == chain[o..o + size] && more == rest[o..o + total - size]
  {
    var want := chain[o..o + total];
    assert want[..size] == chain[o..o + size];
    forall i | 0 <= i < total - size ensures want[size..][i] == rest[o..o + total - size][i] {
      assert rest[o + i] == chain[size..][o + i];
    }
    assert want[size..] == rest[o..o + total - size];
    assert want == want[..size] + want[size..];
    assert read[..size] == run && read[size..] == more;
  }

  lemma ChainTail(vol: Volume, c: nat, n: nat)
    requires vol.Valid() && n > 0 && ChainOk(vol, c, n) && |ChainPositions(vol, c, n)| > vol.ClusterSize()
    ensures n > 1 && ChainPositions(vol, c, n)[vol.ClusterSize()..] == ChainPositions(vol, vol.FatEntry(c), n - 1)
  {
  }

  /** One run of at most a cluster, against the first two clusters of the chain. */
  lemma FirstRun(vol: Volume, c: nat, n: nat, o: nat, first: nat)
    requires vol.Valid() && n > 0 && ChainOk(vol, c, n) && o < vol.ClusterSize() && first <= vol.ClusterSize()
    requires o + first <= |ChainPositions(vol, c, n)|
    ensures Range(vol.ClusterPos(c) + o, first) == ChainPositions(vol, c, n)[o..o + first]
            <==> (o + first > vol.ClusterSize() ==> vol.FatEntry(c) == c + 1)
  {
    var size, chain, p := vol.ClusterSize(), ChainPositions(vol, c, n), vol.ClusterPos(c);
    if o + first <= size {
      assert Range(p + o, first) == chain[o..o + first];
    } else {
      var next := vol.FatEntry(c);
      SameCluster(vol, c, next);
      ChainTail(vol, c, n);
      AcrossTwo(chain, p, vol.ClusterPos(next), size, o, first);
    }
  }

  /** A run across two clusters is right exactly when the second starts where the first ends. */
  lemma AcrossTwo(chain: seq<int>, p: int, q: int, size: nat, o: nat, first: nat)
    requires o < size < o + first <= |chain| && first <= size
    requires forall i :: 0 <= i < o + first ==> chain[i] == if i < size then p + i else q + (i - size)
    ensures Range(p + o, first) == chain[o..o + first] <==> q == p + size
  {
    var want := chain[o..o + first];
    assert want[size - o] == chain[size] && Range(p + o, first)[size - o] == p + size;
  }

  // ---- The code ----

  /** Every cluster the chain reaches lies on the disk, within the reach of an int. */
  ghost predicate Addressable(vol: Volume, start: nat) {
    forall n: nat {:trigger Follow(vol, start, n)} ::
      var c := Follow(vol, start, n);
      c >= 0 ==> 0 <= vol.ClusterPos(c) && vol.ClusterPos(c) + 2 * vol.ClusterSize() < INT_LIMIT
  }

  class FatReader {
    const vol: Volume
    const fatStream: DiskStream
    const clusterStream: DiskStream

    constructor (vol: Volume)
      requires vol.Valid()
      ensures Valid() && this.vol == vol && fresh(fatStream) && fresh(clusterStream)
    {
      this.vol := vol;
      fatStream := new DiskStream(vol.disk);
      clusterStream := new DiskStream(vol.disk);
    }

    ghost predicate Valid() {
      vol.Valid() && fatStream != clusterStream && fatStream.disk == clusterStream.disk == vol.disk
    }

    /** fat16_get_fat_entry */
    method GetFatEntry(cluster: nat) returns (res: int)
      requires Valid() && cluster < 0x1000_0000
      modifies fatStream
      ensures res == vol.FatEntry(cluster)
    {
      var result := new byte[2];
      res := fatStream.Seek(vol.reservedSectors * SECTOR_SIZE + cluster * FAT_ENTRY_SIZE);
      res := fatStream.Read(result, 0, 2);
      var low: int, high: int := result[0], result[1];
      res := low + 0x100 * high;
    }

    /** fat16_get_cluster_for_offset: the cluster as many links on as whole clusters fit
        in the offset, or -EIO exactly when a link on the way is refused. */
    method GetClusterForOffset(start: nat, offset: nat) returns (res: int)
      requires Valid() && start < 0x1000_0000
      modifies fatStream
      ensures res == Follow(vol, start, Quot(offset, vol.ClusterSize()))
    {
      res := WalkChain(start, Quot(offset, vol.ClusterSize()));
    }

    /** Its loop. */
    method WalkChain(start: nat, ahead: nat) returns (res: int)
      requires Valid() && start < 0x1000_0000
      modifies fatStream
      ensures res == Follow(vol, start, ahead)
    {
      var cluster: nat := start;
      for i := 0 to ahead
        invariant cluster < 0x1000_0000
        invariant Follow(vol, start, ahead) == Follow(vol, cluster, ahead - i)
      {
        var entry := GetFatEntry(cluster);
        if entry == 0xFFF8 || entry == 0xFFFF {
          return -EIO;
        }
        if entry == 0xFF7 {
          return -EIO;
        }
        if entry == 0xFF0 || entry == 0xFF6 {
          return -EIO;
        }
        if entry == 0 {
          return -EIO;
        }
        cluster := entry;
      }
      res := cluster;
    }

    /** fat16_read_internal_from_stream into out[at..at + total]. */
    method ReadInternal(start: nat, offset: nat, total: nat, out: array<byte>, at: nat) returns (res: int)
      requires Valid() && start < 0x1000_0000 && Addressable(vol, start) && at + total <= out.Length
      modifies fatStream, clusterStream, out
      ensures ReadResult(vol, Follow(vol, start, Quot(offset, vol.ClusterSize())), Rem(offset, vol.ClusterSize()),
                         total, res, out[..], at)
      ensures forall k :: 0 <= k < out.Length && !(at <= k < at + total) ==> out[k] == old(out[k])
      decreases total, 1
    {
      var size := vol.ClusterSize();
      var cluster := GetClusterForOffset(start, offset);
      if cluster < 0 {
        return cluster;
      }
      var toRead := if total > size then size else total;
      res := ReadRun(cluster, Rem(offset, size), toRead, out, at);
      if total - toRead > 0 {
        res := ReadMore(start, offset, cluster, total, out, at);
      } else {
        ResultEnd(vol, cluster, Rem(offset, size), total, out[..], at);
      }
    }

    /** The recursive call, once a cluster's worth is delivered. */
    method ReadMore(start: nat, offset: nat, ghost cluster: nat, total: nat, out: array<byte>, at: nat)
      returns (res: int)
      requires Valid() && start < 0x1000_0000 && Addressable(vol, start) && at + total <= out.Length
      requires total > vol.ClusterSize() && Follow(vol, start, Quot(offset, vol.ClusterSize())) == cluster
      requires Delivered(vol, Range(vol.ClusterPos(cluster) + Rem(offset, vol.ClusterSize()), vol.ClusterSize()),
                         out[..], at)
      modifies fatStream, clusterStream, out
      ensures ReadResult(vol, cluster, Rem(offset, vol.ClusterSize()), total, res, out[..], at)
      ensures forall k :: 0 <= k < out.Length && !(at <= k < at + total) ==> out[k] == old(out[k])
      decreases total, 0
    {
      var size := vol.ClusterSize();
      ghost var now := out[..];
      NextCluster(vol, start, offset, cluster);
      res := ReadInternal(start, offset + size, total - size, out, at + size);
      ResultStep(vol, cluster, Rem(offset, size), total, res, now, out[..], at);
    }

    /** One seek and one read of the stream. */
    method ReadRun(cluster: nat, offset: nat, toRead: nat, out: array<byte>, at: nat) returns (res: int)
      requires Valid() && at + toRead <= out.Length && offset < vol.ClusterSize() && toRead <= vol.ClusterSize()
      requires 0 <= vol.ClusterPos(cluster) && vol.ClusterPos(cluster) + 2 * vol.ClusterSize() < INT_LIMIT
      modifies clusterStream, out
      ensures res == 0 && Delivered(vol, Range(vol.ClusterPos(cluster) + offset, toRead), out[..], at)
      ensures forall k :: 0 <= k < out.Length && !(at <= k < at + toRead) ==> out[k] == old(out[k])
    {
      res := clusterStream.Seek(vol.ClusterToSector(cluster) * SECTOR_SIZE + offset);
      res := clusterStream.Read(out, at, toRead);
    }
  }

  /** From index `at` on, `bytes` holds what the disk holds at `positions`. */
  ghost predicate Delivered(vol: Volume, positions: seq<int>, bytes: seq<byte>, at: nat) {
    at + |positions| <= |bytes| &&
    forall j :: 0 <= j < |positions| ==> positions[j] >= 0 && bytes[at + j] == vol.disk.Byte(positions[j])
  }

  /** A read from offset `o` of cluster `c` (negative if there is none) either meets a
      refused link and fails, or delivers. */
  ghost predicate ReadResult(vol: Volume, c: int, o: nat, total: nat, res: int, bytes: seq<byte>, at: nat)
    requires vol.Valid()
  {
    if c < 0 || !ReadOk(vol, c, total) then res == -EIO
    else res == 0 && Delivered(vol, ReadPositions(vol, c, o, total), bytes, at)
  }

  /** A cluster's worth further on, the chain walk ends one link later. */
  lemma NextCluster(vol: Volume, start: nat, offset: nat, c: nat)
    requires vol.Valid() && Follow(vol, start, Quot(offset, vol.ClusterSize())) == c
    ensures var next := offset + vol.ClusterSize();
      && Rem(next, vol.ClusterSize()) == Rem(offset, vol.ClusterSize())
      && Follow(vol, start, Quot(next, vol.ClusterSize()))
         == if Rejected(vol.FatEntry(c)) then -EIO else vol.FatEntry(c)
  {
    NextChunk(offset, vol.ClusterSize());
    FollowNext(vol, start, Quot(offset, vol.ClusterSize()));
  }

  lemma ResultEnd(vol: Volume, c: nat, o: nat, total: nat, bytes: seq<byte>, at: nat)
    requires vol.Valid() && total <= vol.ClusterSize()
    requires Delivered(vol, Range(vol.ClusterPos(c) + o, total), bytes, at)
    ensures ReadResult(vol, c, o, total, 0, bytes, at)
  {
    assert ReadPositions(vol, c, o, total) == Range(vol.ClusterPos(c) + o, total);
  }

  lemma ResultStep(vol: Volume, c: nat, o: nat, total: nat, res: int, before: seq<byte>, after: seq<byte>, at: nat)
    requires vol.Valid() && total > vol.ClusterSize() && |after| == |before|
    requires Delivered(vol, Range(vol.ClusterPos(c) + o, vol.ClusterSize()), before, at)
    requires forall k :: at <= k < at + vol.ClusterSize() ==> after[k] == before[k]
    requires ReadResult(vol, if Rejected(vol.FatEntry(c)) then -EIO else vol.FatEntry(c), o,
                        total - vol.ClusterSize(), res, after, at + vol.ClusterSize())
    ensures ReadResult(vol, c, o, total, res, after, at)
  {
    if ReadOk(vol, c, total) {
      var run := Range(vol.ClusterPos(c) + o, vol.ClusterSize());
      var more := ReadPositions(vol, vol.FatEntry(c), o, total - vol.ClusterSize());
      assert ReadPositions(vol, c, o, total) == run + more;
      DeliveredJoin(vol, run, more, before, after, at);
    }
  }

  lemma DeliveredJoin(vol: Volume, run: seq<int>, more: seq<int>, before: seq<byte>, after: seq<byte>, at: nat)
    requires Delivered(vol, run, before, at) && |after| == |before|
    requires forall k :: at <= k < at + |run| ==> after[k] == before[k]
    requires Delivered(vol, more, after, at + |run|)
    ensures Delivered(vol, run + more, after, at)
  {
    var n, all := |run|, run + more;
    forall j | 0 <= j < |all| ensures all[j] >= 0 && after[at + j] == vol.disk.Byte(all[j]) {
      if j >= n {
        var i := j - n;
        assert more[i] >= 0 && after[at + n + i] == vol.disk.Byte(more[i]);
      }
    }
  }
}
