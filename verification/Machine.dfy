/** The isolation of processes as the processor sees it: addresses, and where they lead. */
module Machine {
  import opened Bits
  import opened HeapTable
  import opened K = Kernel
  import opened Mmu
  import opened Paging
  import opened AddressSpace
  import opened Confinement
  import opened Isolation
  import opened Refinement

  /** A process writes at `v` only where one of its writable pages leads. */
  lemma WritesThroughPages(k: Kernel, s: System, i: nat, v: Word)
    requires Realizes(k, s) && i < |s.procs|
    ensures |s.procs[i].pages| == PAGES
    ensures var a := Walk(k, Addr(s.procs[i].space.dir), v);
      a.Leads? && a.writable ==> CanWrite(s.procs[i].pages, (a.phys - 0x1000000) / 0x1000)
  {
    var sp := s.procs[i].space;
    WalkIsEntry(k, sp, v);
    var w := Pages(k, sp)[v / 0x1000];
    assert (w - w % 0x1000 + v % 0x1000 - 0x1000000) / 0x1000 == BlockOf(w) by { SamePage(w, v % 0x1000); }
  }

  lemma SamePage(w: Word, o: nat)
    requires o < 0x1000
    ensures (w - w % 0x1000 + o - 0x1000000) / 0x1000 == BlockOf(w)
  {
    assert w - w % 0x1000 - 0x1000000 == 0x1000 * BlockOf(w);
  }

  /** So where processes are apart, two confined ones never write the same physical page, whatever
      addresses they use. */
  lemma NoSharedWrites(k: Kernel, s: System, i: nat, j: nat, v: Word, w: Word)
    requires Realizes(k, s) && Separate(s) && i < |s.procs| && j < |s.procs| && i != j
    requires ProcConfined(s.live, s.procs[i]) && ProcConfined(s.live, s.procs[j])
    ensures var a, b := Walk(k, Addr(s.procs[i].space.dir), v), Walk(k, Addr(s.procs[j].space.dir), w);
      a.Leads? && a.writable && b.Leads? && b.writable ==> a.phys / 0x1000 != b.phys / 0x1000
  {
    var a, b := Walk(k, Addr(s.procs[i].space.dir), v), Walk(k, Addr(s.procs[j].space.dir), w);
    WritesThroughPages(k, s, i, v);
    WritesThroughPages(k, s, j, w);
    if a.Leads? && a.writable && b.Leads? && b.writable && a.phys / 0x1000 == b.phys / 0x1000 {
      assert (a.phys - 0x1000000) / 0x1000 == a.phys / 0x1000 - 0x1000;
      assert (b.phys - 0x1000000) / 0x1000 == b.phys / 0x1000 - 0x1000;
      OneWriter(s, i, j, a.phys / 0x1000 - 0x1000);
      assert false;
    }
  }

  /** Nor any block of a run that is not its own, page tables and directories among them. */
  lemma NoForeignWrites(k: Kernel, s: System, i: nat, h: nat, v: Word)
    requires Realizes(k, s) && Separate(s) && i < |s.procs| && ProcConfined(s.live, s.procs[i])
    requires h in s.live && h !in s.procs[i].image + Slots(s.procs[i])
    ensures var a := Walk(k, Addr(s.procs[i].space.dir), v);
      a.Leads? && a.writable ==> !(h <= (a.phys - 0x1000000) / 0x1000 < h + s.live[h])
  {
    var a := Walk(k, Addr(s.procs[i].space.dir), v);
    WritesThroughPages(k, s, i, v);
    if a.Leads? && a.writable && h <= (a.phys - 0x1000000) / 0x1000 < h + s.live[h] {
      OtherRunsSafe(s, i, h, (a.phys - 0x1000000) / 0x1000);
      assert false;
    }
  }
}
