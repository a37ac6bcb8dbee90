/** Looking a name up in a subdirectory: its slots are counted along the sectors of the disk,
    but read along the cluster chain. */
module SubDirectory {
  import opened Disk
  import opened DivMod
  import opened FatDirectory
  import F = Fat16

  const SUBDIRECTORY: byte := 0x10
  const EINVARG := 2

  predicate IsDirectory(slot: Slot) {
    slot[11] / SUBDIRECTORY % 2 == 1
  }

  /** fat16_get_first_cluster */
  function FirstCluster(slot: Slot): nat {
    var low0: int, low1: int, high0: int, high1: int := slot[26], slot[27], slot[20], slot[21];
    low0 + 0x100 * low1 + 0x10000 * (high0 + 0x100 * high1)
  }

  /** The first `total` bytes of the chain from `c` lie on adjacent clusters. */
  predicate Adjacent(vol: F.Volume, c: nat, total: nat)
    requires vol.Valid()
    decreases total
  {
    total <= vol.ClusterSize()
    || (vol.FatEntry(c) == c + 1 && Adjacent(vol, vol.FatEntry(c), total - vol.ClusterSize()))
  }

  /** What is read along the chain is what lies behind the first cluster on the disk if and
      only if the clusters are adjacent. */
  lemma {:induction false} LinearIff(vol: F.Volume, c: nat, total: nat)
    requires vol.Valid()
    ensures F.ReadPositions(vol, c, 0, total) == F.Range(vol.ClusterPos(c), total) <==> Adjacent(vol, c, total)
    decreases total
  {
    var size, d := vol.ClusterSize(), vol.FatEntry(c);
    if total <= size {
      assert F.ReadPositions(vol, c, 0, total) == F.Range(vol.ClusterPos(c), total) + [];
    } else {
      StartsAt(vol, d, total - size);
      F.SameCluster(vol, c, d);
      RunsOn(vol.ClusterPos(c), size, vol.ClusterPos(d), F.ReadPositions(vol, d, 0, total - size), total);
      LinearIff(vol, d, total - size);
    }
  }

  /** A run goes on in a line exactly if the rest begins behind it and is one itself. */
  lemma RunsOn(p: int, size: nat, q: int, more: seq<int>, total: nat)
    requires size < total && |more| == total - size && more[0] == q
    ensures F.Range(p, size) + more == F.Range(p, total) <==> q == p + size && more == F.Range(q, total - size)
  {
    var run, rest := F.Range(p, size), F.Range(p + size, total - size);
    assert F.Range(p, total) == run + rest;
    assert (run + more)[size..] == more && (run + rest)[size..] == rest;
    assert rest[0] == p + size;
  }

  lemma StartsAt(vol: F.Volume, c: nat, total: nat)
    requires vol.Valid() && total > 0
    ensures F.ReadPositions(vol, c, 0, total)[0] == vol.ClusterPos(c)
  {
  }

  /** What fat16_load_fat_directory needs of a directory on the disk. */
  ghost predicate OnDisk(vol: F.Volume, cluster: nat, n: nat) {
    && cluster < 0x1000_0000 && F.Addressable(vol, cluster) && 0 <= vol.ClusterPos(cluster)
    && EndsAt(vol.disk, vol.ClusterPos(cluster), n) && vol.ClusterPos(cluster) + SLOT_SIZE * (n + 1) < INT_LIMIT
  }

  /** fat16_load_fat_directory: the slots in use are counted from the first cluster's sector
      on, and as many slots read along the chain. If the clusters are adjacent these are
      the slots counted from; LinearIff says that only then. */
  method LoadDirectory(stream: DiskStream, r: F.FatReader, slot: Slot, ghost n: nat)
    returns (res: int, items: array<byte>, total: int)
    requires r.Valid() && stream.disk == r.vol.disk && stream != r.fatStream && stream != r.clusterStream
    requires IsDirectory(slot) ==> OnDisk(r.vol, FirstCluster(slot), n)
    modifies stream, r.fatStream, r.clusterStream
    ensures !IsDirectory(slot) ==> res == -EINVARG
    ensures IsDirectory(slot) ==>
              && total == CountLive(Slots(r.vol.disk, r.vol.ClusterPos(FirstCluster(slot)), n))
              && items.Length == SLOT_SIZE * total
              && (res == 0 <==> F.ReadOk(r.vol, FirstCluster(slot), SLOT_SIZE * total))
              && (res == 0 ==>
                    F.Delivered(r.vol, F.ReadPositions(r.vol, FirstCluster(slot), 0, SLOT_SIZE * total), items[..], 0))
  {
    items := new byte[0];
    total := 0;
    if !IsDirectory(slot) {
      return -EINVARG, items, total;
    }
    var cluster := FirstCluster(slot);
    total := GetTotalItems(stream, r.vol.ClusterToSector(cluster) * SECTOR_SIZE, n);
    items := new byte[SLOT_SIZE * total];
    res := r.ReadInternal(cluster, 0, SLOT_SIZE * total, items, 0);
  }

  lemma ItemsOfChain(vol: F.Volume, c: nat, items: seq<byte>, total: nat)
    requires vol.Valid() && vol.ClusterPos(c) >= 0
    requires |items| == SLOT_SIZE * total && Adjacent(vol, c, SLOT_SIZE * total)
    requires F.Delivered(vol, F.ReadPositions(vol, c, 0, SLOT_SIZE * total), items, 0)
    ensures forall i :: 0 <= i < total ==> ItemOf(items, i) == SlotAt(vol.disk, vol.ClusterPos(c), i)
  {
    LinearIff(vol, c, SLOT_SIZE * total);
    var positions := F.ReadPositions(vol, c, 0, SLOT_SIZE * total);
    forall k | 0 <= k < |items| ensures items[k] == vol.disk.Byte(vol.ClusterPos(c) + k) {
      assert positions[k] == vol.ClusterPos(c) + k && items[0 + k] == vol.disk.Byte(positions[k]);
    }
    forall i | 0 <= i < total ensures ItemOf(items, i) == SlotAt(vol.disk, vol.ClusterPos(c), i) {
      ItemsAreSlots(vol.disk, vol.ClusterPos(c), items, i);
    }
  }

  /** A name looked up in a subdirectory whose counted slots lie on adjacent clusters: the
      same answer as in the root directory. */
  method LookupSub(stream: DiskStream, r: F.FatReader, slot: Slot, name: seq<byte>, ghost n: nat)
    returns (res: int, found: int)
    requires r.Valid() && stream.disk == r.vol.disk && stream != r.fatStream && stream != r.clusterStream
    requires IsDirectory(slot) ==> OnDisk(r.vol, FirstCluster(slot), n)
    requires |CString(name)| < |name|
    modifies stream, r.fatStream, r.clusterStream
    ensures res == 0 ==> IsDirectory(slot)
    ensures IsDirectory(slot) ==>
              var slots := Slots(r.vol.disk, r.vol.ClusterPos(FirstCluster(slot)), n);
              res == 0 && Adjacent(r.vol, FirstCluster(slot), SLOT_SIZE * CountLive(slots)) ==>
                Answers(slots, CString(name), found)
  {
    var items, total;
    res, items, total := LoadDirectory(stream, r, slot, n);
    found := -1;
    if res != 0 {
      return;
    }
    var entries := Entries(items[..], total);
    found := FindItem(entries, total, name);
    ghost var c := FirstCluster(slot);
    ghost var slots := Slots(r.vol.disk, r.vol.ClusterPos(c), n);
    if Adjacent(r.vol, c, SLOT_SIZE * CountLive(slots)) {
      ItemsOfChain(r.vol, c, items[..], total);
      EntriesAnswer(entries, slots, CString(name));
    }
  }
}
