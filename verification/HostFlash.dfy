/** The host port of the flash driver (host/flash.c), which simulates NOR flash in memory. */
module HostFlash {
  import opened Flash

  const ADDRESS_SPACE := 0x1_0000_0000_0000_0000

  class HostFlash {
    /** Address of the simulated flash. */
    const start: nat
    const cells: array<bv8>

    ghost predicate Holds(address: nat, size: nat) {
      start <= address && address + size <= start + cells.Length
    }

    /** `source` is the address of the bytes `src`. */
    method FlashWrite(dest: nat, source: nat, src: Cells) returns (ret: int)
      requires dest < ADDRESS_SPACE && source < ADDRESS_SPACE && |src| < ADDRESS_SPACE
      requires dest != 0 && src != [] ==> Holds(dest, |src|)
      modifies cells
      ensures ret == if source == 0 || dest == 0 || |src| % FLASH_WORD_SIZE != 0
                        || source + |src| >= ADDRESS_SPACE || dest + |src| >= ADDRESS_SPACE
                        || |src| + FLASH_WORD_SIZE >= ADDRESS_SPACE then -1 else 0
      ensures cells[..] == if ret == 0 && src != [] then Programmed(old(cells[..]), dest - start, src)
                           else old(cells[..])
    {
      if source == 0 || dest == 0 {
        return -1;
      }
      if |src| % FLASH_WORD_SIZE != 0 {
        return -1;
      }
      if (source + |src|) % ADDRESS_SPACE < source || (dest + |src|) % ADDRESS_SPACE < dest
         || (|src| + FLASH_WORD_SIZE) % ADDRESS_SPACE < |src| {
        return -1;
      }
      if src == [] {
        return 0;
      }
      ProgrammedNext(cells[..], dest - start, src, 0);
      hide Programmed;
      var i := 0;
      while i < |src|
        invariant 0 <= i <= |src|
        invariant cells[..] == Programmed(old(cells[..]), dest - start, src[..i])
      {
        var d := dest - start + i;
        ProgrammedNext(old(cells[..]), dest - start, src, i);
        AndByOr(cells[d], src[i]);
        cells[d] := !((!cells[d]) | (!src[i]));
        i := i + 1;
      }
      assert src[..i] == src;
      return 0;
    }

    method FlashErase(address: nat, size: nat) returns (ret: int)
      requires address < ADDRESS_SPACE && size < ADDRESS_SPACE
      requires address != 0 && size != 0 ==> Holds(address, size)
      modifies cells
      ensures ret == if address == 0 || size % FLASH_SECTOR_SIZE != 0 || address + size >= ADDRESS_SPACE
                        || size + FLASH_WORD_SIZE >= ADDRESS_SPACE then -1 else 0
      ensures cells[..] == if ret == 0 && size != 0 then Erased(old(cells[..]), address - start, size)
                           else old(cells[..])
    {
      if address == 0 {
        return -1;
      }
      if size % FLASH_SECTOR_SIZE != 0 {
        return -1;
      }
      if (address + size) % ADDRESS_SPACE < address || (size + FLASH_WORD_SIZE) % ADDRESS_SPACE < size {
        return -1;
      }
      forall i | 0 <= i < size {
        cells[address - start + i] := 0xFF;
      }
      return 0;
    }

    constructor (start: nat, size: nat)
      ensures this.start == start && cells.Length == size && fresh(cells)
    {
      this.start := start;
      cells := new bv8[size];
    }
  }
}
