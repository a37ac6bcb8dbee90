/** Where things lie on a FAT16 volume, in the numbers of its boot sector: the reserved sectors, the
    copies of the FAT, the root directory in 32-byte slots, and the clusters from number 2 on. */
module FatLayout {
  import opened Bits
  import opened Disk
  import opened DivMod
  import opened Fat16
  import opened FatFile
  import opened FatDirectory
  import opened SubDirectory

  /** The areas follow each other without overlap: the root directory begins where the last FAT
      ends, cluster 2 on the first sector behind its last slot, and clusters have one size. */
  lemma AreasTile(vol: Volume, c: nat)
    ensures vol.RootDirSector() == vol.reservedSectors + vol.fatCopies * vol.sectorsPerFat
    ensures vol.ClusterPos(2) % 512 == 0
    ensures 0 <= vol.ClusterPos(2) - (512 * vol.RootDirSector() + 32 * vol.rootDirEntries) < 512
    ensures vol.ClusterPos(c) == vol.ClusterPos(2) + (c - 2) * (512 * vol.sectorsPerCluster)
  {
    var root, size := vol.RootDirSector(), vol.rootDirEntries * 32;
    assert size == size / 512 * 512 + size % 512;
    assert vol.ClusterToSector(2) == vol.EndingSector();
    Scaled(vol.EndingSector(), c - 2, vol.sectorsPerCluster);
  }

  lemma Scaled(first: int, ahead: int, sectors: int)
    ensures (first + ahead * sectors) * 512 == first * 512 + ahead * (512 * sectors)
  {
  }

  /** Cluster `c` has the two bytes at 2 * c of the first FAT, the low one first; 256 entries fill a
      sector. */
  lemma EntryBytes(vol: Volume, c: nat)
    ensures var sector := vol.disk.sector(vol.reservedSectors + c / 256);
      var low: int, high: int := sector[2 * (c % 256)], sector[2 * (c % 256) + 1];
      vol.FatEntry(c) == low + 0x100 * high
  {
    var p := vol.reservedSectors * 512 + c * 2;
    assert c == 256 * (c / 256) + c % 256;
    assert p / 512 == vol.reservedSectors + c / 256 && p % 512 == 2 * (c % 256);
    assert (p + 1) / 512 == p / 512 && (p + 1) % 512 == p % 512 + 1;
  }

  /** The chain breaks off exactly at one of six entries. */
  lemma {:induction false} ChainBreaks(vol: Volume, c: nat, n: nat)
    ensures Follow(vol, c, n) < 0 ==> Follow(vol, c, n) == -1
    ensures Follow(vol, c, n) < 0 <==>
      exists i: nat :: i < n && Follow(vol, c, i) >= 0
                       && vol.FatEntry(Follow(vol, c, i)) in {0, 0xFF0, 0xFF6, 0xFF7, 0xFFF8, 0xFFFF}
  {
    if n > 0 {
      ChainBreaks(vol, c, n - 1);
      FollowNext(vol, c, n - 1);
    }
  }

  /** `n` clusters can be read one after the other if the walk reaches the last of them. */
  lemma {:induction false} ChainReaches(vol: Volume, c: nat, n: nat)
    requires n > 0
    ensures ChainOk(vol, c, n) <==> Follow(vol, c, n - 1) >= 0
    decreases n
  {
    if n > 1 && !Rejected(vol.FatEntry(c)) { ChainReaches(vol, vol.FatEntry(c), n - 1); }
  }

  function ClusterIndex(b: nat, size: nat): (q: nat)
    requires size > 0
  {
    QuotIsDivision(b, size);
    b / size
  }

  /** Where byte `b` of the file that starts in cluster `start` lies on the disk. */
  ghost function FilePos(vol: Volume, start: nat, b: nat): int
    requires vol.sectorsPerCluster > 0
  {
    var size := 512 * vol.sectorsPerCluster;
    var root := (32 * vol.rootDirEntries + 511) / 512;
    var area := vol.reservedSectors + vol.fatCopies * vol.sectorsPerFat + root;
    512 * area + (Follow(vol, start, ClusterIndex(b, size)) - 2) * size + b % size
  }

  /** The concatenated clusters of a file, byte by byte. */
  lemma FileByte(vol: Volume, start: nat, n: nat, b: nat)
    requires vol.Valid() && ChainOk(vol, start, n) && b < |ChainPositions(vol, start, n)|
    ensures Follow(vol, start, ClusterIndex(b, 512 * vol.sectorsPerCluster)) >= 0
    ensures ChainPositions(vol, start, n)[b] == FilePos(vol, start, b)
  {
    var size := vol.ClusterSize();
    ChainSuffix(vol, start, n, b);
    QuotIsDivision(b, size);
    var q, o := Quot(b, size), Rem(b, size);
    var c: nat := Follow(vol, start, q);
    FirstOfRest(ChainPositions(vol, start, n), ChainPositions(vol, c, n - q), b, o);
    ClusterPosIs(vol, c);
  }

  lemma FirstOfRest(chain: seq<int>, rest: seq<int>, b: nat, o: nat)
    requires b < |chain| && o <= |rest| && chain[b..] == rest[o..]
    ensures o < |rest| && chain[b] == rest[o]
  {
    assert |chain[b..]| == |rest[o..]| && chain[b..][0] == rest[o..][0];
  }

  lemma ClusterPosIs(vol: Volume, c: nat)
    ensures var root := (32 * vol.rootDirEntries + 511) / 512;
      vol.ClusterPos(c) == 512 * (vol.reservedSectors + vol.fatCopies * vol.sectorsPerFat + root)
                           + (c - 2) * (512 * vol.sectorsPerCluster)
  {
    AreasTile(vol, c);
    RootSectors(vol);
  }

  lemma RootSectors(vol: Volume)
    ensures vol.ClusterPos(2) == 512 * (vol.RootDirSector() + (32 * vol.rootDirEntries + 511) / 512)
  {
    var size := vol.rootDirEntries * 32;
    assert (size + 511) / 512 == size / 512 + if size % 512 != 0 then 1 else 0;
  }

  /** What any read takes, crossings or not: byte `j` from the cluster that has byte `j` of the chain
      from `c`, but `o` further. */
  lemma ReadByte(vol: Volume, c: nat, o: nat, total: nat, j: nat)
    requires vol.Valid() && ReadOk(vol, c, total) && j < total
    ensures ReadPositions(vol, c, o, total)[j] == FilePos(vol, c, j) + o
  {
    var size := vol.ClusterSize();
    QuotIsDivision(j, size);
    RunOfByte(vol, c, o, total, j);
    ClusterPosIs(vol, Follow(vol, c, Quot(j, size)));
  }

  lemma {:induction false} RunOfByte(vol: Volume, c: nat, o: nat, total: nat, j: nat)
    requires vol.Valid() && ReadOk(vol, c, total) && j < total
    ensures var d := Follow(vol, c, Quot(j, vol.ClusterSize()));
      d >= 0 && ReadPositions(vol, c, o, total)[j] == vol.ClusterPos(d) + o + Rem(j, vol.ClusterSize())
    decreases total
  {
    var size := vol.ClusterSize();
    if j >= size { RunOfByte(vol, vol.FatEntry(c), o, total - size, j - size); }
  }

  lemma {:induction false} FileLength(vol: Volume, start: nat, n: nat)
    requires ChainOk(vol, start, n)
    ensures |ChainPositions(vol, start, n)| == n * (512 * vol.sectorsPerCluster)
    decreases n
  {
    if n > 1 {
      FileLength(vol, vol.FatEntry(start), n - 1);
      assert n * (512 * vol.sectorsPerCluster) == 512 * vol.sectorsPerCluster + (n - 1) * (512 * vol.sectorsPerCluster);
    }
  }

  /** What fat16_read leaves in the buffer for items that divide the clusters, or that clusters
      divide: byte `j` is byte `pos + j` of the file. */
  lemma ReadBytes(vol: Volume, start: nat, n: nat, pos: nat, size: nat, a: nat, k: nat, count: nat,
                  out: seq<byte>, j: nat)
    requires vol.Valid() && ChainOk(vol, start, n) && ItemsAlign(vol.ClusterSize(), pos, size, a, k)
    requires pos + Times(size, count) <= |ChainPositions(vol, start, n)| && j < Times(size, count)
    requires Delivered(vol, AllItems(ItemAt(vol, start, size), pos, size, count), out, 0)
    ensures FilePos(vol, start, pos + j) >= 0 && j < |out|
    ensures out[j] == vol.disk.Byte(FilePos(vol, start, pos + j))
  {
    AlignedItemsExact(vol, start, n, pos, size, a, k, count);
    SliceBytes(vol, start, n, AllItems(ItemAt(vol, start, size), pos, size, count), pos, out, j);
  }

  /** The bytes of any read that is a slice of the file. */
  lemma SliceBytes(vol: Volume, start: nat, n: nat, read: seq<int>, pos: nat, out: seq<byte>, j: nat)
    requires vol.Valid() && ChainOk(vol, start, n) && pos + |read| <= |ChainPositions(vol, start, n)| && j < |read|
    requires read == ChainPositions(vol, start, n)[pos..pos + |read|] && Delivered(vol, read, out, 0)
    ensures FilePos(vol, start, pos + j) >= 0 && j < |out|
    ensures out[j] == vol.disk.Byte(FilePos(vol, start, pos + j))
  {
    FileByte(vol, start, n, pos + j);
    DeliveredByte(vol, read, ChainPositions(vol, start, n), pos, out, j);
  }

  lemma DeliveredByte(vol: Volume, read: seq<int>, chain: seq<int>, pos: nat, out: seq<byte>, j: nat)
    requires Delivered(vol, read, out, 0) && j < |read| && pos + |read| <= |chain|
    requires read == chain[pos..pos + |read|]
    ensures chain[pos + j] >= 0 && j < |out| && out[j] == vol.disk.Byte(chain[pos + j])
  {
    assert read[j] == chain[pos + j] && out[0 + j] == vol.disk.Byte(read[j]);
  }

  /** The volume of src/boot/boot.asm. */
  lemma BootVolume(disk: Disk)
    ensures var vol := Volume(disk, 200, 2, 256, 64, 128);
      vol.RootDirSector() == 712 && vol.ClusterPos(2) == 716 * 512 && vol.ClusterPos(3) == 844 * 512
  {
  }

  // ---- Directory slots ----

  /** A cluster number stored in a slot, each half little-endian, is the one read back. */
  lemma ClusterStored(slot: Slot, c: nat)
    requires c < 0x1_0000_0000
    ensures FirstCluster(slot) == c <==>
      && slot[26] == c % 0x100 && slot[27] == c / 0x100 % 0x100
      && slot[20] == c / 0x10000 % 0x100 && slot[21] == c / 0x1000000
  {
    var h := c / 0x10000;
    TwoBytes(slot[26], slot[27], c % 0x10000);
    TwoBytes(slot[20], slot[21], h);
    assert c == c % 0x10000 + 0x10000 * h;
    assert c / 0x100 == 0x100 * h + c % 0x10000 / 0x100;
    assert c % 0x10000 % 0x100 == c % 0x100 && c % 0x10000 / 0x100 == c / 0x100 % 0x100;
    assert h / 0x100 == c / 0x1000000;
  }

  /** A slot is a directory if the attribute byte, number 11, has bit 0x10. */
  lemma DirectoryBit(slot: Slot)
    ensures IsDirectory(slot) <==> And(slot[11], 0x10) != 0
  {
    var bit := Pow2(4);
    AndPow2(slot[11], 4);
    assert bit == 16;
  }

  lemma TwoBytes(low: byte, high: byte, h: nat)
    requires h < 0x10000
    ensures var a: int, b: int := low, high;
      a + 0x100 * b < 0x10000 && (a + 0x100 * b == h <==> a == h % 0x100 && b == h / 0x100)
  {
  }

  /** As many slots count as are not deleted. */
  lemma {:induction false} LiveSlots(slots: seq<Slot>)
    ensures CountLive(slots) == |set i | 0 <= i < |slots| && slots[i][0] != 0xE5|
  {
    if slots != [] {
      var n := |slots| - 1;
      var front := slots[..n];
      LiveSlots(front);
      var before := set i | 0 <= i < n && front[i][0] != 0xE5;
      var all := set i | 0 <= i < |slots| && slots[i][0] != 0xE5;
      assert all == before + if slots[n][0] != 0xE5 then {n} else {};
    }
  }

  /** A directory ends at the first slot whose first byte is zero; slots are 32 bytes. */
  lemma EndOfDirectory(disk: Disk, start: nat, n: nat)
    ensures EndsAt(disk, start, n) <==>
      disk.Byte(start + 32 * n) == 0 && forall i :: 0 <= i < n ==> disk.Byte(start + 32 * i) != 0
  {
    forall i: nat ensures SlotAt(disk, start, i)[0] == disk.Byte(start + 32 * i) {
    }
    if EndsAt(disk, start, n) {
      forall i | 0 <= i < n ensures disk.Byte(start + 32 * i) != 0 {
        assert SlotAt(disk, start, i)[0] != 0;
      }
    }
  }
}
