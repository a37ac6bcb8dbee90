/** What the processor makes of page tables, in its own numbers: the two-level walk and the
    three access bits of the Intel SDM, volume 3, section 4.3. Bit 0 of a word says present,
    bit 1 writable, bit 2 open to the user, and each counts only if both levels have it. */
module Mmu {
  import opened Bits
  import opened K = Kernel

  datatype Access = Fault | Leads(phys: Word, writable: bool, user: bool)

  /** An access through a directory word `pde` and a table word `pte`. */
  function Combine(pde: nat, pte: Word, virt: Word): Access {
    if pde % 2 == 0 || pte % 2 == 0 then Fault
    else Leads(pte - pte % 0x1000 + virt % 0x1000,
               pde / 2 % 2 == 1 && pte / 2 % 2 == 1, pde / 4 % 2 == 1 && pte / 4 % 2 == 1)
  }

  /** The walk from the directory at `cr3`; RAM outside the heap is not described. */
  ghost function Walk(k: Kernel, cr3: Word, virt: Word): Access
    requires k.Shaped() && 0x1000000 <= cr3 < 0x7400000
    reads k.ram
  {
    var pde := k.ram[(cr3 - 0x1000000) / 0x1000, virt / 0x400000];
    var table := (pde - pde % 0x1000 - 0x1000000) / 0x1000;
    if 0 <= table < 25600 then Combine(pde, k.ram[table, virt / 0x1000 % 0x400], virt) else Fault
  }
}
