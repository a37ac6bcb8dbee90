/** The disk as 512-byte sectors and the byte stream read from it. */
module Disk {

  const SECTOR_SIZE := 512
  const INT_LIMIT := 0x8000_0000

  type byte = b: int | 0 <= b < 256

  type Sector = s: seq<byte> | |s| == SECTOR_SIZE witness seq(SECTOR_SIZE, _ => 0)

  /** What disk_read_block finds at each sector number. */
  datatype Disk = Disk(sector: nat -> Sector) {
    function Byte(p: nat): byte {
      sector(p / SECTOR_SIZE)[p % SECTOR_SIZE]
    }
  }

  class DiskStream {
    var pos: int
    const disk: Disk

    constructor (disk: Disk)
      ensures this.disk == disk && pos == 0
    {
      this.disk, pos := disk, 0;
    }

    /** disk_streamer_seek */
    method Seek(pos: int) returns (res: int)
      modifies this
      ensures res == 0 && this.pos == pos
    {
      this.pos := pos;
      res := 0;
    }

    /** disk_streamer_read into out[at..at + total]: one sector per call, the rest by
        recursion. Each call that reaches a sector end reads at least one byte. */
    method Read(out: array<byte>, at: nat, total: nat) returns (res: int)
      requires 0 <= pos && pos + total < INT_LIMIT && at + total <= out.Length
      modifies this, out
      ensures res == 0 && pos == old(pos) + total
      ensures forall k :: 0 <= k < out.Length ==>
                out[k] == if at <= k < at + total then disk.Byte(old(pos) + k - at) else old(out[k])
      decreases total
    {
      ghost var p := pos;
      var sector, offset := pos / SECTOR_SIZE, pos % SECTOR_SIZE;
      var toRead := total;
      var overflow := offset + toRead >= SECTOR_SIZE;
      if overflow {
        toRead := toRead - (offset + toRead - SECTOR_SIZE);
      }
      var buf := disk.sector(sector);
      for i := 0 to toRead
        invariant pos == p
        invariant forall k :: 0 <= k < out.Length ==>
                    out[k] == if at <= k < at + i then disk.Byte(p + k - at) else old(out[k])
      {
        SameSector(p, i);
        out[at + i] := buf[offset + i];
      }
      pos := pos + toRead;
      res := 0;
      if overflow {
        res := Read(out, at + toRead, total - toRead);
      }
    }

    /** Reading `a` bytes and then `b` more is reading `a + b` bytes. */
    method ReadTwice(out: array<byte>, at: nat, a: nat, b: nat) returns (res: int)
      requires 0 <= pos && pos + a + b < INT_LIMIT && at + a + b <= out.Length
      modifies this, out
      ensures res == 0 && pos == old(pos) + a + b
      ensures forall k :: 0 <= k < out.Length ==>
                out[k] == if at <= k < at + a + b then disk.Byte(old(pos) + k - at) else old(out[k])
    {
      res := Read(out, at, a);
      res := Read(out, at + a, b);
    }
  }

  lemma SameSector(p: nat, i: nat)
    requires p % SECTOR_SIZE + i < SECTOR_SIZE
    ensures (p + i) / SECTOR_SIZE == p / SECTOR_SIZE && (p + i) % SECTOR_SIZE == p % SECTOR_SIZE + i
  {
  }
}
