/** A loaded ELF image: its memory in the heap and its program headers. */
module ElfLoader {
  import opened Bits
  import opened K = Kernel

  const PF_W: Word := 0x02

  datatype Phdr = Phdr(offset: Word, vaddr: Word, filesz: Word, memsz: Word, flags: Word)

  class ElfFile {
    /** Where the kernel heap put this struct. */
    const self: Word
    var elfMemory: Word
    var phdrs: seq<Phdr>

    constructor (self: Word, elfMemory: Word, phdrs: seq<Phdr>)
      ensures this.self == self && this.elfMemory == elfMemory && this.phdrs == phdrs
    {
      this.self, this.elfMemory, this.phdrs := self, elfMemory, phdrs;
    }
  }

  /** The pointer heads a live run of the heap. */
  predicate IsHead(live: map<nat, nat>, ptr: Word) {
    ptr >= HEAP_ADDRESS && ptr == Addr(BlockOf(ptr)) && BlockOf(ptr) in live
  }

  /** The runs elf_close releases. */
  ghost function FileBlocks(file: ElfFile?): (r: set<int>)
    reads file
  {
    if file == null then {}
    else {BlockOf(file.self)} + if file.elfMemory == 0 then {} else {BlockOf(file.elfMemory)}
  }

  ghost predicate OwnsFile(live: map<nat, nat>, file: ElfFile?)
    reads file
  {
    file != null ==>
      && IsHead(live, file.self)
      && (file.elfMemory != 0 ==> IsHead(live, file.elfMemory) && BlockOf(file.elfMemory) != BlockOf(file.self))
  }

  /** elf_close */
  method Close(k: Kernel, file: ElfFile?)
    requires k.Valid() && OwnsFile(k.live, file)
    modifies k.heap.mem, k`live
    ensures k.Valid() && k.live == old(k.live) - FileBlocks(file)
  {
    if file == null {
      return;
    }
    if file.elfMemory != 0 {
      k.KfreeLive(file.elfMemory);
    }
    k.KfreeLive(file.self);
  }
}
