/** The two ports of the flash driver leave the same memory. */
module FlashPorts {
  import opened Flash
  import opened Bytes
  import opened ArmFlash
  import opened HostFlash

  /** The same range seen by both ports; `base` is where the host port simulates flash. */
  predicate SameFlash(f: Cells, g: Cells, base: nat) {
    f == g && |f| == FLASH_SIZE && 0 < base && base + FLASH_SIZE + FLASH_WORD_SIZE < ADDRESS_SPACE
  }

  /** Whenever the ARM port stores a source, the host port does, and both memories end up equal. */
  method WriteOnBoth(arm: ArmFlash, host: HostFlash, dest: u32, source: u32, src: Cells) returns (armRet: int, hostRet: int)
    requires arm.Valid() && arm.cells != host.cells && |src| < TWO_TO_THE_32
    requires SameFlash(arm.cells[..], host.cells[..], host.start)
    requires WriteArgumentsValid(dest, source, |src|)
    requires FLASH_BANK1_BASE <= dest && dest + |src| <= FLASH_END + 1
    modifies arm.cells, arm`locked, arm`calls, host.cells
    ensures armRet == 0 ==> hostRet == 0 && arm.cells[..] == host.cells[..]
    ensures armRet == 0 ==> StoredAt(old(host.cells[..]), host.cells[..], dest - FLASH_BANK1_BASE, src)
    // With a controller that works, that is whenever the flash has all bits needed.
    ensures AllWork(arm.controller, old(arm.calls), |src| / FLASH_WORD_SIZE + 2)
            ==> (armRet == 0 <==> OnlyCleared(WrittenTo(old(arm.cells[..]), dest - FLASH_BANK1_BASE, |src|), src))
  {
    hide AllWork;
    ghost var word;
    armRet, word := arm.FlashWrite(dest, source, src);
    hostRet := host.FlashWrite(host.start + (dest - FLASH_BANK1_BASE), source, src);
    if src == [] {
      ProgrammedNothing(host.cells[..], dest - FLASH_BANK1_BASE);
    }
  }

  lemma ProgrammedNothing(f: Cells, off: nat)
    requires off <= |f|
    ensures Programmed(f, off, []) == f
  {
  }

  /** A range the ARM port erases is erased alike by the host port. */
  method EraseOnBoth(arm: ArmFlash, host: HostFlash, address: u32, size: u32) returns (armRet: int, hostRet: int)
    requires arm.Valid() && arm.cells != host.cells
    requires SameFlash(arm.cells[..], host.cells[..], host.start)
    requires EraseArgumentsValid(address, size)
    modifies arm.cells, arm`locked, arm`erased, arm`calls, host.cells
    ensures armRet == 0 ==> hostRet == 0 && arm.cells[..] == host.cells[..]
    ensures armRet == 0 <==> forall i: nat | i < size / FLASH_SECTOR_SIZE :: SectorTaken(arm.controller, old(arm.calls) + 3 * i)
  {
    ghost var sector;
    armRet, sector := arm.FlashErase(address, size);
    hostRet := host.FlashErase(host.start + (address - FLASH_BANK1_BASE), size);
    if size == 0 {
      ErasedNext(host.cells[..], address - FLASH_BANK1_BASE, 0, 0);
    }
  }
}
