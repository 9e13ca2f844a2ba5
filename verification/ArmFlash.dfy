/** The flash driver of the STM32H7 (arm/flash.c) over an abstract flash controller. */
module ArmFlash {
  import opened Bytes
  import opened Flash

  const FLASH_BANK1_BASE := 0x0800_0000
  const FLASH_BANK2_BASE := 0x0810_0000
  const FLASH_END := 0x081F_FFFF
  const FLASH_SIZE := FLASH_END + 1 - FLASH_BANK1_BASE
  const BANK_SIZE := FLASH_BANK2_BASE - FLASH_BANK1_BASE
  const SECTORS_PER_BANK := BANK_SIZE / FLASH_SECTOR_SIZE

  datatype Bank = Bank1 | Bank2

  predicate FlashIsAddressValid(address: u32) {
    FLASH_BANK1_BASE <= address <= FLASH_END
  }

  function GetActualBank(swapped: bool, address: u32): Bank {
    if !swapped then
      if address < FLASH_BANK2_BASE then Bank1 else Bank2
    else
      if address < FLASH_BANK2_BASE then Bank2 else Bank1
  }

  function GetSector(address: u32): int
    requires FlashIsAddressValid(address)
  {
    if address < FLASH_BANK2_BASE then (address - FLASH_BANK1_BASE) / FLASH_SECTOR_SIZE
    else (address - FLASH_BANK2_BASE) / FLASH_SECTOR_SIZE
  }

  /** Where the controller maps a sector: a bank's address depends on the swap setting. */
  function SectorAddress(swapped: bool, bank: Bank, sector: int): u32
    requires 0 <= sector < SECTORS_PER_BANK
  {
    (if bank.Bank1? != swapped then FLASH_BANK1_BASE else FLASH_BANK2_BASE) + sector * FLASH_SECTOR_SIZE
  }

  /** Bank and sector number name each sector address exactly once, swapped or not. */
  lemma SectorNaming(swapped: bool, address: u32, bank: Bank, sector: int)
    requires FlashIsAddressValid(address) && address % FLASH_SECTOR_SIZE == 0
    requires 0 <= sector < SECTORS_PER_BANK
    ensures 0 <= GetSector(address) < SECTORS_PER_BANK
    ensures address == SectorAddress(swapped, bank, sector)
            <==> bank == GetActualBank(swapped, address) && sector == GetSector(address)
    ensures FlashIsAddressValid(SectorAddress(swapped, bank, sector))
            && SectorAddress(swapped, bank, sector) % FLASH_SECTOR_SIZE == 0
  {
  }

  // ----- Argument checks -----

  predicate WriteArgumentsValid(dest: u32, source: u32, size: u32) {
    && source != 0 && dest != 0
    && source + size < TWO_TO_THE_32 && dest + size < TWO_TO_THE_32 && size + FLASH_WORD_SIZE < TWO_TO_THE_32
    && size % FLASH_WORD_SIZE == 0 && source % 4 == 0 && dest % FLASH_WORD_SIZE == 0
  }

  /** The last byte of the range has to be in flash; so an empty range at the start of flash is refused. */
  predicate EraseArgumentsValid(address: u32, size: u32) {
    && address + size < TWO_TO_THE_32 && size + FLASH_WORD_SIZE < TWO_TO_THE_32
    && size % FLASH_SECTOR_SIZE == 0 && address % FLASH_SECTOR_SIZE == 0
    && FLASH_BANK1_BASE <= address <= FLASH_END
    && FLASH_BANK1_BASE < address + size <= FLASH_END + 1
  }

  // ----- The controller's answers -----

  /**
   * What the controller does at one call: whether it reports success, and what byte it leaves at
   * index `j` when it is asked for `b` there. The two need not agree.
   */
  datatype Answer = Answer(ok: bool, left: (int, bv8) -> bv8) {
    /** It reports success and does what it was asked for. */
    ghost predicate Works() {
      ok && forall j: int, b: bv8 :: left(j, b) == b
    }
  }

  /** The `n` calls from `first` on all work. */
  ghost predicate AllWork(controller: nat -> Answer, first: nat, n: nat) {
    forall k: nat | first <= k < first + n :: controller(k).Works()
  }

  type FlashWord = w: Cells | |w| == FLASH_WORD_SIZE witness ZeroWord()

  function ZeroWord(): (w: Cells)
    ensures |w| == FLASH_WORD_SIZE
  {
    seq(FLASH_WORD_SIZE, _ => 0)
  }

  /** Word `i` from `off` on. */
  function WordOf(f: Cells, off: nat, i: nat): FlashWord
    requires off + FLASH_WORD_SIZE * (i + 1) <= |f|
  {
    f[off + FLASH_WORD_SIZE * i..off + FLASH_WORD_SIZE * (i + 1)]
  }

  /** What a program call leaves of a word `before`: it can only clear bits. */
  function Left(before: FlashWord, word: FlashWord, a: Answer): FlashWord {
    seq(FLASH_WORD_SIZE, j requires 0 <= j < FLASH_WORD_SIZE => before[j] & a.left(j, word[j]))
  }

  /** The first `n` words of a write were programmed and read back; its first program call is call `first`. */
  predicate WordsTaken(f: Cells, off: nat, src: Cells, n: nat, controller: nat -> Answer, first: nat)
    requires off + |src| <= |f| && FLASH_WORD_SIZE * n <= |src|
  {
    forall i: nat | i < n :: WordTaken(WordOf(f, off, i), WordOf(src, 0, i), controller(first + i))
  }

  predicate WordTaken(before: FlashWord, word: FlashWord, a: Answer) {
    a.ok && Left(before, word, a) == word
  }

  /** A controller that works stores a word exactly if the flash has every bit of it still set. */
  lemma WorkingTakesWordIff(before: FlashWord, word: FlashWord, a: Answer)
    requires a.Works()
    ensures WordTaken(before, word, a) <==> OnlyCleared(before, word)
  {
    forall j | 0 <= j < FLASH_WORD_SIZE
      ensures Left(before, word, a)[j] == before[j] & word[j]
    {
    }
    if OnlyCleared(before, word) {
      assert Left(before, word, a) == word;
    }
  }

  /** And a whole write exactly if the flash has every bit of the source still set. */
  lemma WorkingTakesIff(f: Cells, off: nat, src: Cells, controller: nat -> Answer, first: nat)
    requires off + |src| <= |f| && |src| % FLASH_WORD_SIZE == 0
    requires AllWork(controller, first, |src| / FLASH_WORD_SIZE)
    ensures WordsTaken(f, off, src, |src| / FLASH_WORD_SIZE, controller, first)
            <==> OnlyCleared(f[off..off + |src|], src)
  {
    var n, g := |src| / FLASH_WORD_SIZE, f[off..off + |src|];
    forall i: nat | i < n
      ensures WordTaken(WordOf(f, off, i), WordOf(src, 0, i), controller(first + i))
              <==> OnlyCleared(WordOf(f, off, i), WordOf(src, 0, i))
    {
      WorkingTakesWordIff(WordOf(f, off, i), WordOf(src, 0, i), controller(first + i));
    }
    hide WordTaken;
    OnlyClearedByWords(g, src, n);
    forall i: nat | i < n
      ensures WordOf(g, 0, i) == WordOf(f, off, i)
    {
      var lo, hi := FLASH_WORD_SIZE * i, FLASH_WORD_SIZE * (i + 1);
      assert g[lo..hi] == f[off + lo..off + hi];
    }
  }

  lemma WordOfAt(f: Cells, i: nat, j: nat)
    requires FLASH_WORD_SIZE * (i + 1) <= |f| && j < FLASH_WORD_SIZE
    ensures WordOf(f, 0, i)[j] == f[FLASH_WORD_SIZE * i + j]
  {
    assert 0 + FLASH_WORD_SIZE * i + j < FLASH_WORD_SIZE * (i + 1);
  }

  lemma OnlyClearedByWords(f: Cells, g: Cells, n: nat)
    requires |f| == |g| == FLASH_WORD_SIZE * n
    ensures OnlyCleared(f, g) <==> forall i: nat | i < n :: OnlyCleared(WordOf(f, 0, i), WordOf(g, 0, i))
  {
    hide WordOf;
    forall i: nat, j: nat | i < n && j < FLASH_WORD_SIZE
      ensures WordOf(f, 0, i)[j] == f[FLASH_WORD_SIZE * i + j] && WordOf(g, 0, i)[j] == g[FLASH_WORD_SIZE * i + j]
    {
      WordOfAt(f, i, j);
      WordOfAt(g, i, j);
    }
    if forall i: nat | i < n :: OnlyCleared(WordOf(f, 0, i), WordOf(g, 0, i)) {
      forall k | 0 <= k < |f|
        ensures f[k] & g[k] == g[k]
      {
        var i, j := k / FLASH_WORD_SIZE, k % FLASH_WORD_SIZE;
        assert OnlyCleared(WordOf(f, 0, i), WordOf(g, 0, i));
        assert WordOf(f, 0, i)[j] == f[FLASH_WORD_SIZE * i + j];
        assert WordOf(g, 0, i)[j] == g[FLASH_WORD_SIZE * i + j];
        assert k == FLASH_WORD_SIZE * i + j;
      }
    }
  }

  /** The first `stored` bytes of a write are in place and nothing from `touched` on has changed. */
  predicate Progress(f: Cells, g: Cells, off: nat, src: Cells, stored: nat, touched: nat)
    requires off + |src| <= |f|
  {
    && stored <= touched <= |src|
    && |g| == |f|
    && g[off..off + stored] == src[..stored]
    && SameOutside(f, g, off, off + touched)
    && OnlyCleared(f, g)
  }

  /** The contents when word `i` of a write failed: words before it stored, words after it untouched. */
  predicate FailedAtWord(f: Cells, g: Cells, off: nat, src: Cells, i: nat)
    requires off + |src| <= |f|
  {
    Progress(f, g, off, src, FLASH_WORD_SIZE * i, FLASH_WORD_SIZE * (i + 1))
  }

  lemma ProgressEnds(f: Cells, g: Cells, off: nat, src: Cells)
    requires off + |src| <= |f|
    ensures Progress(f, f, off, src, 0, 0)
    ensures Progress(f, g, off, src, |src|, |src|) ==> StoredAt(f, g, off, src) && g == Programmed(f, off, src)
  {
    assert src[..|src|] == src;
    if Progress(f, g, off, src, |src|, |src|) {
      ReadBackIsProgrammed(f, g, off, src);
    }
  }

  lemma ProgramStep(f: Cells, g: Cells, h: Cells, off: nat, src: Cells, i: nat)
    requires off + |src| <= |f| && i + FLASH_WORD_SIZE <= |src|
    requires Progress(f, g, off, src, i, i)
    requires OnlyCleared(g, h) && SameOutside(g, h, off + i, off + i + FLASH_WORD_SIZE)
    ensures Progress(f, h, off, src, i, i + FLASH_WORD_SIZE)
    ensures h[off + i..off + i + FLASH_WORD_SIZE] == src[i..i + FLASH_WORD_SIZE]
            ==> Progress(f, h, off, src, i + FLASH_WORD_SIZE, i + FLASH_WORD_SIZE)
  {
    OnlyClearedTrans(f, g, h);
    var j := i + FLASH_WORD_SIZE;
    assert h[off..off + i] == g[off..off + i];
    assert h[off..off + j] == h[off..off + i] + h[off + i..off + j];
    assert src[..j] == src[..i] + src[i..j];
  }

  /** The contents when sector `i` of an erase failed. */
  predicate FailedAtSector(f: Cells, g: Cells, off: nat, size: nat, i: nat)
    requires off + size <= |f|
  {
    && FLASH_SECTOR_SIZE * (i + 1) <= size
    && |g| == |f|
    && (forall k | off <= k < off + FLASH_SECTOR_SIZE * i :: g[k] == 0xFF)
    && SameOutside(f, g, off, off + FLASH_SECTOR_SIZE * (i + 1))
  }

  class ArmFlash {
    /** Contents by address, from `FLASH_BANK1_BASE` on. */
    const cells: array<bv8>
    const swapped: bool
    /** The controller's answers to its calls, in order, and the number of calls so far. */
    const controller: nat -> Answer
    var calls: nat
    var locked: bool
    /** Sectors the controller was told to erase, in order. */
    ghost var erased: seq<(Bank, int)>

    ghost predicate Valid()
      reads this
    {
      cells.Length == FLASH_SIZE
    }

    constructor (swapped: bool, controller: nat -> Answer)
      ensures Valid() && fresh(cells) && this.swapped == swapped && this.controller == controller
      ensures locked && calls == 0 && erased == []
    {
      this.swapped := swapped;
      this.controller := controller;
      calls := 0;
      cells := new bv8[FLASH_SIZE];
      locked := true;
      erased := [];
    }

    // ----- The controller -----

    method HalUnlock() returns (ok: bool)
      modifies this`locked, this`calls
      ensures calls == old(calls) + 1 && ok == controller(old(calls)).ok
      ensures locked == !ok
    {
      ok := controller(calls).ok;
      calls := calls + 1;
      locked := !ok;
    }

    method HalLock() returns (ok: bool)
      modifies this`locked, this`calls
      ensures calls == old(calls) + 1 && ok == controller(old(calls)).ok
      ensures locked == ok
    {
      ok := controller(calls).ok;
      calls := calls + 1;
      locked := ok;
    }

    /** Programming a word can only clear bits. Which ones it clears may have nothing to do with `ok`. */
    method HalProgram(off: nat, word: FlashWord) returns (ok: bool)
      requires Valid() && !locked && off + FLASH_WORD_SIZE <= FLASH_SIZE
      modifies cells, this`calls
      ensures calls == old(calls) + 1 && ok == controller(old(calls)).ok
      ensures cells[off..off + FLASH_WORD_SIZE]
              == Left(old(cells[off..off + FLASH_WORD_SIZE]), word, controller(old(calls)))
      ensures SameOutside(old(cells[..]), cells[..], off, off + FLASH_WORD_SIZE)
    {
      var a := controller(calls);
      calls := calls + 1;
      ok := a.ok;
      ghost var before: FlashWord := cells[off..off + FLASH_WORD_SIZE];
      forall j | 0 <= j < FLASH_WORD_SIZE {
        cells[off + j] := cells[off + j] & a.left(j, word[j]);
      }
      ghost var after: FlashWord := cells[off..off + FLASH_WORD_SIZE];
      forall j | 0 <= j < FLASH_WORD_SIZE
        ensures after[j] == Left(before, word, a)[j]
      {
        assert after[j] == cells[off + j] && before[j] == old(cells[off + j]);
      }
      assert after == Left(before, word, a);
    }

    /** Erasing a sector sets all its bits, or fails and leaves anything there. */
    method HalErase(bank: Bank, sector: int) returns (ok: bool)
      requires Valid() && !locked && 0 <= sector < SECTORS_PER_BANK
      modifies cells, this`erased, this`calls
      ensures calls == old(calls) + 1 && ok == controller(old(calls)).ok
      ensures erased == old(erased) + [(bank, sector)]
      ensures var off := SectorAddress(swapped, bank, sector) - FLASH_BANK1_BASE;
              && (ok ==> cells[..] == Erased(old(cells[..]), off, FLASH_SECTOR_SIZE))
              && SameOutside(old(cells[..]), cells[..], off, off + FLASH_SECTOR_SIZE)
    {
      var off := SectorAddress(swapped, bank, sector) - FLASH_BANK1_BASE;
      erased := erased + [(bank, sector)];
      var a := controller(calls);
      calls := calls + 1;
      ok := a.ok;
      forall i | 0 <= i < FLASH_SECTOR_SIZE {
        cells[off + i] := if ok then 0xFF else a.left(i, 0xFF);
      }
    }

    // ----- The driver -----

    /** The checks at the start of `FlashWrite`. */
    method WriteArgumentsOk(dest: u32, source: u32, size: u32) returns (ok: bool)
      ensures ok <==> WriteArgumentsValid(dest, source, size)
    {
      if source == 0 || dest == 0 {
        return false;
      }
      if Wrap(source + size) < source || Wrap(dest + size) < dest || Wrap(size + FLASH_WORD_SIZE) < size {
        return false;
      }
      if size % FLASH_WORD_SIZE != 0 {
        return false;
      }
      if source % 4 != 0 {
        return false;
      }
      if dest % FLASH_WORD_SIZE != 0 {
        return false;
      }
      return true;
    }

    /**
     * `source` is the address of the bytes `src`, which are outside the range written. `word` counts
     * the words programmed and read back before a failed one, if one did fail.
     */
    method FlashWrite(dest: u32, source: u32, src: Cells) returns (ret: int, ghost word: nat)
      requires Valid() && |src| < TWO_TO_THE_32
      requires WriteArgumentsValid(dest, source, |src|) ==> FLASH_BANK1_BASE <= dest && dest + |src| <= FLASH_END + 1
      modifies cells, this`locked, this`calls
      ensures ret in {0, -1, -2, -3, -4, -5}
      ensures ret == -1 <==> !WriteArgumentsValid(dest, source, |src|)
      ensures ret == -1 ==> calls == old(calls)
      // Which code is returned follows from the controller's answers alone ...
      ensures ret != -1 ==>
                WriteOutcome(ret, word, old(cells[..]), dest - FLASH_BANK1_BASE, src, controller, old(calls), calls)
      // ... and what is in flash then:
      ensures ret == -1 ==> cells[..] == old(cells[..])
      ensures ret != -1 ==>
                WriteLeft(ret, word, old(cells[..]), cells[..], dest - FLASH_BANK1_BASE, src, controller, old(calls))
      ensures ret == 0 ==> locked
      // With a controller that works, a write succeeds exactly when flash has all bits needed.
      ensures WriteArgumentsValid(dest, source, |src|)
              && AllWork(controller, old(calls), |src| / FLASH_WORD_SIZE + 2)
              ==>
                && ret in {0, -4}
                && (ret == 0 <==> OnlyCleared(WrittenTo(old(cells[..]), dest - FLASH_BANK1_BASE, |src|), src))
    {
      hide WriteLeft, WriteOutcome, OnlyCleared, WrittenTo, AllWork;
      assert WriteArgumentsValid(dest, source, |src|)
             ==> |src| % FLASH_WORD_SIZE == 0 && |src| + FLASH_WORD_SIZE < TWO_TO_THE_32;
      hide WriteArgumentsValid;
      word := 0;
      var ok := WriteArgumentsOk(dest, source, |src|);
      if !ok {
        return -1, word;
      }
      ret, word := ProgramWords(dest - FLASH_BANK1_BASE, src);
      WorkingOutcome(ret, word, old(cells[..]), dest - FLASH_BANK1_BASE, src, controller, old(calls), calls);
    }

    /** The rest of `FlashWrite`: unlock the controller, program and read back word by word, lock it again. */
    method ProgramWords(off: nat, src: Cells) returns (ret: int, ghost word: nat)
      requires Valid() && off + |src| <= FLASH_SIZE
      requires |src| % FLASH_WORD_SIZE == 0 && |src| + FLASH_WORD_SIZE < TWO_TO_THE_32
      modifies cells, this`locked, this`calls
      ensures ret in {0, -2, -3, -4, -5}
      ensures WriteOutcome(ret, word, old(cells[..]), off, src, controller, old(calls), calls)
      ensures WriteLeft(ret, word, old(cells[..]), cells[..], off, src, controller, old(calls))
      ensures ret == 0 ==> locked
    {
      hide Progress, OnlyCleared, SameOutside, Programmed, StoredAt, WordTaken, WordsTaken, WordOf, Left;
      word := 0;
      ghost var first := calls + 1;
      var ok := HalUnlock();
      if !ok {
        return -2, word;
      }
      ProgressEnds(cells[..], cells[..], off, src);
      NextTaken(old(cells[..]), off, src, 0, controller, first);
      var size: u32, i: u32 := |src|, 0;
      while i < size
        invariant 0 <= i <= size && i == FLASH_WORD_SIZE * word
        invariant !locked && Progress(old(cells[..]), cells[..], off, src, i, i)
        invariant calls == first + word && WordsTaken(old(cells[..]), off, src, word, controller, first)
      {
        var right;
        ok, right := ProgramWord(old(cells[..]), off, src, i, word);
        NextTaken(old(cells[..]), off, src, word, controller, first);
        if !ok {
          var _ := HalLock();
          return -3, word;
        }
        if !right {
          var _ := HalLock();
          return -4, word;
        }
        i := i + FLASH_WORD_SIZE;
        word := word + 1;
      }
      ProgressEnds(old(cells[..]), cells[..], off, src);
      ok := HalLock();
      return if ok then 0 else -5, word;
    }

    /** One round of the loop of `FlashWrite`; `f` is what flash held before the loop. */
    method ProgramWord(ghost f: Cells, off: nat, src: Cells, i: u32, ghost word: nat) returns (ok: bool, right: bool)
      requires Valid() && !locked && off + |src| <= FLASH_SIZE == |f|
      requires i == FLASH_WORD_SIZE * word && i + FLASH_WORD_SIZE <= |src|
      requires Progress(f, cells[..], off, src, i, i)
      modifies cells, this`calls
      ensures calls == old(calls) + 1
      ensures ok == controller(old(calls)).ok
      ensures ok && right <==> WordTaken(WordOf(f, off, word), WordOf(src, 0, word), controller(old(calls)))
      ensures Progress(f, cells[..], off, src, i, i + FLASH_WORD_SIZE)
      ensures WordOf(cells[..], off, word) == Left(WordOf(f, off, word), WordOf(src, 0, word), controller(old(calls)))
      ensures right ==> Progress(f, cells[..], off, src, i + FLASH_WORD_SIZE, i + FLASH_WORD_SIZE)
    {
      ghost var before, a := cells[..], controller(calls);
      assert SameOutside(f, before, off, off + i);
      hide Progress, Left;
      var part: FlashWord := src[i..i + FLASH_WORD_SIZE];
      assert WordOf(f, off, word) == before[off + i..off + i + FLASH_WORD_SIZE] == cells[off + i..off + i + FLASH_WORD_SIZE];
      ok := HalProgram(off + i, part);
      assert cells[..][off + i..off + i + FLASH_WORD_SIZE] == cells[off + i..off + i + FLASH_WORD_SIZE];
      ClearedByProgramming(before, cells[..], off + i, part, a);
      ProgramStep(f, before, cells[..], off, src, i);
      right := cells[off + i..off + i + FLASH_WORD_SIZE] == part;
    }

    /** The code is given exactly by the answers to unlocking, erasing and locking. */
    method FlashEraseSector(address: u32) returns (ret: int)
      requires Valid() && FlashIsAddressValid(address) && address % FLASH_SECTOR_SIZE == 0
      modifies cells, this`locked, this`erased, this`calls
      ensures ret in {0, -2, -3, -4}
      ensures ret == -2 <==> !controller(old(calls)).ok
      ensures ret == -3 <==> controller(old(calls)).ok && !controller(old(calls) + 1).ok
      ensures ret == 0 <==> SectorTaken(controller, old(calls))
      ensures ret == 0 ==> calls == old(calls) + 3
      ensures ret == -2 ==> cells[..] == old(cells[..])
      ensures ret in {0, -4} ==> cells[..] == Erased(old(cells[..]), address - FLASH_BANK1_BASE, FLASH_SECTOR_SIZE)
      ensures SameOutside(old(cells[..]), cells[..], address - FLASH_BANK1_BASE, address - FLASH_BANK1_BASE + FLASH_SECTOR_SIZE)
      ensures ret == 0 ==> locked
      ensures erased == old(erased) + if ret == -2 then [] else [(GetActualBank(swapped, address), GetSector(address))]
    {
      if address == 0 {
        return -1;
      }
      var ok := HalUnlock();
      if !ok {
        return -2;
      }
      var bank, sector := GetActualBank(swapped, address), GetSector(address);
      SectorNaming(swapped, address, Bank1, 0);
      SectorNaming(swapped, address, bank, sector);
      ok := HalErase(bank, sector);
      if !ok {
        var _ := HalLock();
        return -3;
      }
      ok := HalLock();
      return if ok then 0 else -4;
    }

    /** `sector` counts the sectors erased; erasing one takes three calls of the controller. */
    method FlashErase(address: u32, size: u32) returns (ret: int, ghost sector: nat)
      requires Valid()
      modifies cells, this`locked, this`erased, this`calls
      ensures ret in {0, -1}
      ensures !EraseArgumentsValid(address, size) ==> ret == -1 && cells[..] == old(cells[..]) && erased == old(erased)
      // An erase succeeds exactly when every call of the controller does.
      ensures ret == 0 <==>
                && EraseArgumentsValid(address, size)
                && forall i: nat | i < size / FLASH_SECTOR_SIZE :: SectorTaken(controller, old(calls) + 3 * i)
      ensures EraseArgumentsValid(address, size)
              && (forall k: nat | old(calls) <= k < old(calls) + 3 * (size / FLASH_SECTOR_SIZE) :: controller(k).ok)
              ==> ret == 0
      ensures EraseArgumentsValid(address, size) && ret == -1 ==>
                FirstSectorRefused(controller, old(calls), size / FLASH_SECTOR_SIZE, sector)
      ensures EraseArgumentsValid(address, size) && ret == 0 ==>
                && cells[..] == Erased(old(cells[..]), address - FLASH_BANK1_BASE, size)
                && erased == old(erased) + SectorsOf(swapped, address, size / FLASH_SECTOR_SIZE)
      ensures EraseArgumentsValid(address, size) && ret == -1 ==>
                && FailedAtSector(old(cells[..]), cells[..], address - FLASH_BANK1_BASE, size, sector)
                && AskedFor(old(erased), erased, swapped, address, sector, controller(old(calls) + 3 * sector).ok)
    {
      sector := 0;
      if address == 0 {
        return -1, sector;
      }
      if Wrap(address + size) < address || Wrap(size + FLASH_WORD_SIZE) < size {
        return -1, sector;
      }
      if size % FLASH_SECTOR_SIZE != 0 {
        return -1, sector;
      }
      if address % FLASH_SECTOR_SIZE != 0 {
        return -1, sector;
      }
      if !FlashIsAddressValid(address) {
        return -1, sector;
      }
      if !FlashIsAddressValid(Wrap(address + size - 1)) {
        return -1, sector;
      }
      var off := address - FLASH_BANK1_BASE;
      ret, sector := EraseSectors(address, size);
    }

    /** The loop of `FlashErase`. */
    method EraseSectors(address: u32, size: u32) returns (ret: int, ghost sector: nat)
      requires Valid() && EraseArgumentsValid(address, size)
      modifies cells, this`locked, this`erased, this`calls
      ensures ret in {0, -1}
      ensures ret == 0 <==> forall i: nat | i < size / FLASH_SECTOR_SIZE :: SectorTaken(controller, old(calls) + 3 * i)
      ensures ret == -1 ==> FirstSectorRefused(controller, old(calls), size / FLASH_SECTOR_SIZE, sector)
      ensures ret == 0 ==>
                && cells[..] == Erased(old(cells[..]), address - FLASH_BANK1_BASE, size)
                && erased == old(erased) + SectorsOf(swapped, address, size / FLASH_SECTOR_SIZE)
      ensures ret == -1 ==>
                && FailedAtSector(old(cells[..]), cells[..], address - FLASH_BANK1_BASE, size, sector)
                && AskedFor(old(erased), erased, swapped, address, sector, controller(old(calls) + 3 * sector).ok)
    {
      hide SectorAddress, GetActualBank, GetSector, Erased, SectorsOf, SameOutside, FailedAtSector, SectorTaken, AskedFor;
      sector := 0;
      ghost var off := address - FLASH_BANK1_BASE;
      ErasedNext(cells[..], off, 0, 0);
      assert SectorsOf(swapped, address, 0) == [];
      var erasedBytes: u32 := 0;
      while erasedBytes < size
        invariant 0 <= erasedBytes <= size && erasedBytes == FLASH_SECTOR_SIZE * sector
        invariant cells[..] == Erased(old(cells[..]), off, erasedBytes)
        invariant erased == old(erased) + SectorsOf(swapped, address, sector)
        invariant calls == old(calls) + 3 * sector
        invariant forall i: nat | i < sector :: SectorTaken(controller, old(calls) + 3 * i)
      {
        ErasedNext(old(cells[..]), off, erasedBytes, FLASH_SECTOR_SIZE);
        ghost var before := cells[..];
        ret := FlashEraseSector(address + erasedBytes);
        FailedAfter(old(cells[..]), before, cells[..], off, size, sector);
        AskedAfter(old(erased), erased, swapped, address, sector, ret != -2);
        if ret != 0 {
          return -1, sector;
        }
        erasedBytes := erasedBytes + FLASH_SECTOR_SIZE;
        sector := sector + 1;
      }
      return 0, sector;
    }
  }

  /**
   * The code and the number of calls of a write at `f` that starts at call `first`, from the answers
   * alone: unlock, one call for each word up to the first that fails, lock.
   */
  ghost predicate WriteOutcome(ret: int, word: nat, f: Cells, off: nat, src: Cells, controller: nat -> Answer,
                               first: nat, end: nat)
    requires off + |src| <= |f|
  {
    var n := |src| / FLASH_WORD_SIZE;
    && word <= n
    && (ret == -2 <==> !controller(first).ok)
    && (ret == -2 ==> end == first + 1)
    && (ret != -2 ==>
          && WordsTaken(f, off, src, word, controller, first + 1)
          && (ret == -3 <==> word < n && !controller(first + 1 + word).ok)
          && (ret == -4 <==> word < n && controller(first + 1 + word).ok
                             && !WordTaken(WordOf(f, off, word), WordOf(src, 0, word), controller(first + 1 + word)))
          && (ret == -5 <==> word == n && !controller(first + 1 + n).ok)
          && (ret == 0 <==> word == n && controller(first + 1 + n).ok)
          && end == first + 1 + word + (if word < n then 2 else 1))
  }

  /** What is in flash after a write, by its code. */
  ghost predicate WriteLeft(ret: int, word: nat, f: Cells, g: Cells, off: nat, src: Cells, controller: nat -> Answer,
                            first: nat)
    requires off + |src| <= |f|
  {
    && |g| == |f|
    && (ret == -2 ==> g == f)
    && (ret in {0, -5} ==> StoredAt(f, g, off, src) && g == Programmed(f, off, src))
    && (ret in {-3, -4} ==>
          && FailedAtWord(f, g, off, src, word)
          && WordOf(g, off, word) == Left(WordOf(f, off, word), WordOf(src, 0, word), controller(first + 1 + word)))
  }

  function WrittenTo(f: Cells, off: nat, n: nat): Cells
    requires off + n <= |f|
  {
    f[off..off + n]
  }

  /** The code of a write does not depend on anything else. */
  lemma OutcomeIsUnique(r1: int, w1: nat, e1: nat, r2: int, w2: nat, e2: nat, f: Cells, off: nat, src: Cells,
                        controller: nat -> Answer, first: nat)
    requires off + |src| <= |f| && |src| % FLASH_WORD_SIZE == 0
    requires r1 in {0, -2, -3, -4, -5} && r2 in {0, -2, -3, -4, -5}
    requires WriteOutcome(r1, w1, f, off, src, controller, first, e1)
    requires WriteOutcome(r2, w2, f, off, src, controller, first, e2)
    ensures r1 == r2 && e1 == e2 && (r1 != -2 ==> w1 == w2)
  {
    hide WordTaken;
    if r1 != -2 {
      StopsAtFirst(r1, w1, e1, w2, f, off, src, controller, first);
      StopsAtFirst(r2, w2, e2, w1, f, off, src, controller, first);
    }
  }

  lemma StopsAtFirst(ret: int, word: nat, end: nat, taken: nat, f: Cells, off: nat, src: Cells,
                     controller: nat -> Answer, first: nat)
    requires off + |src| <= |f| && |src| % FLASH_WORD_SIZE == 0
    requires ret in {0, -3, -4, -5} && WriteOutcome(ret, word, f, off, src, controller, first, end)
    requires taken <= |src| / FLASH_WORD_SIZE && WordsTaken(f, off, src, taken, controller, first + 1)
    ensures taken <= word
  {
    hide Left, WordOf;
    if word < |src| / FLASH_WORD_SIZE {
      var before, asked, a := WordOf(f, off, word), WordOf(src, 0, word), controller(first + 1 + word);
      assert !WordTaken(before, asked, a);
    }
  }

  lemma WorkingOutcome(ret: int, word: nat, f: Cells, off: nat, src: Cells, controller: nat -> Answer,
                       first: nat, end: nat)
    requires off + |src| <= |f| && |src| % FLASH_WORD_SIZE == 0
    requires ret in {0, -2, -3, -4, -5} && WriteOutcome(ret, word, f, off, src, controller, first, end)
    ensures AllWork(controller, first, |src| / FLASH_WORD_SIZE + 2) ==>
              ret in {0, -4} && (ret == 0 <==> OnlyCleared(WrittenTo(f, off, |src|), src))
  {
    var n := |src| / FLASH_WORD_SIZE;
    if AllWork(controller, first, n + 2) {
      assert controller(first).Works() && controller(first + 1 + word).Works();
      WorkingTakesIff(f, off, src, controller, first + 1);
    }
  }

  lemma NextTaken(f: Cells, off: nat, src: Cells, n: nat, controller: nat -> Answer, first: nat)
    requires off + |src| <= |f| && FLASH_WORD_SIZE * n <= |src|
    ensures WordsTaken(f, off, src, 0, controller, first)
    ensures WordsTaken(f, off, src, n, controller, first) && FLASH_WORD_SIZE * (n + 1) <= |src|
            && WordTaken(WordOf(f, off, n), WordOf(src, 0, n), controller(first + n))
            ==> WordsTaken(f, off, src, n + 1, controller, first)
  {
    hide WordOf, WordTaken;
  }

  lemma ClearedByProgramming(f: Cells, g: Cells, off: nat, word: FlashWord, a: Answer)
    requires |g| == |f| && off + FLASH_WORD_SIZE <= |f|
    requires g[off..off + FLASH_WORD_SIZE] == Left(f[off..off + FLASH_WORD_SIZE], word, a)
    requires SameOutside(f, g, off, off + FLASH_WORD_SIZE)
    ensures OnlyCleared(f, g)
  {
    var before := f[off..off + FLASH_WORD_SIZE];
    forall i | 0 <= i < |f|
      ensures f[i] & g[i] == g[i]
    {
      if off <= i < off + FLASH_WORD_SIZE {
        assert g[i] == Left(before, word, a)[i - off] && before[i - off] == f[i];
        AndTwice(f[i], a.left(i - off, word[i - off]));
      } else {
        AndTwice(f[i], f[i]);
      }
    }
  }

  lemma AndTwice(x: bv8, y: bv8)
    ensures x & (x & y) == x & y && x & x == x
  {
  }

  /** Unlocking, erasing and locking all succeed. */
  predicate SectorTaken(controller: nat -> Answer, first: nat) {
    controller(first).ok && controller(first + 1).ok && controller(first + 2).ok
  }

  /** Sector `i` is the first for which a call fails. */
  predicate FirstSectorRefused(controller: nat -> Answer, first: nat, n: nat, i: nat) {
    && i < n
    && (forall k: nat | k < i :: SectorTaken(controller, first + 3 * k))
    && !SectorTaken(controller, first + 3 * i)
  }

  lemma OnlyClearedTrans(f: Cells, g: Cells, h: Cells)
    requires OnlyCleared(f, g) && OnlyCleared(g, h)
    ensures OnlyCleared(f, h)
  {
    forall i | 0 <= i < |f|
      ensures f[i] & h[i] == h[i]
    {
      assert f[i] & (g[i] & h[i]) == (f[i] & g[i]) & h[i];
    }
  }

  /** The `n` sectors from `address` on. */
  ghost function SectorsOf(swapped: bool, address: u32, n: nat): (s: seq<(Bank, int)>)
    requires FLASH_BANK1_BASE <= address && address + n * FLASH_SECTOR_SIZE <= FLASH_END + 1
    ensures |s| == n
  {
    seq(n, i requires 0 <= i < n =>
      (GetActualBank(swapped, address + i * FLASH_SECTOR_SIZE), GetSector(address + i * FLASH_SECTOR_SIZE)))
  }

  lemma SectorsOfNext(swapped: bool, address: u32, n: nat)
    requires FLASH_BANK1_BASE <= address && address + (n + 1) * FLASH_SECTOR_SIZE <= FLASH_END + 1
    ensures SectorsOf(swapped, address, 0) == []
    ensures var a := address + n * FLASH_SECTOR_SIZE;
            SectorsOf(swapped, address, n + 1) == SectorsOf(swapped, address, n) + [(GetActualBank(swapped, a), GetSector(a))]
  {
  }

  lemma FailedAfter(f: Cells, g: Cells, h: Cells, off: nat, size: nat, i: nat)
    requires off + size <= |f| && FLASH_SECTOR_SIZE * (i + 1) <= size
    requires g == Erased(f, off, FLASH_SECTOR_SIZE * i)
    requires SameOutside(g, h, off + FLASH_SECTOR_SIZE * i, off + FLASH_SECTOR_SIZE * i + FLASH_SECTOR_SIZE)
    ensures FailedAtSector(f, h, off, size, i)
  {
  }

  /** Exactly the `n` sectors before the failed one were asked for, and that one if it was unlocked. */
  ghost predicate AskedFor(before: seq<(Bank, int)>, after: seq<(Bank, int)>, swapped: bool, address: u32, n: nat,
                           unlocked: bool) {
    && FLASH_BANK1_BASE <= address && address + (n + 1) * FLASH_SECTOR_SIZE <= FLASH_END + 1
    && after == before + SectorsOf(swapped, address, if unlocked then n + 1 else n)
  }

  lemma AskedAfter(before: seq<(Bank, int)>, after: seq<(Bank, int)>, swapped: bool, address: u32, n: nat, unlocked: bool)
    requires FLASH_BANK1_BASE <= address && address + (n + 1) * FLASH_SECTOR_SIZE <= FLASH_END + 1
    requires var a := address + n * FLASH_SECTOR_SIZE;
             after == before + SectorsOf(swapped, address, n)
                      + if unlocked then [(GetActualBank(swapped, a), GetSector(a))] else []
    ensures AskedFor(before, after, swapped, address, n, unlocked)
    ensures unlocked ==> after == before + SectorsOf(swapped, address, n + 1)
  {
    hide SectorsOf;
    SectorsOfNext(swapped, address, n);
  }

  /** Each sector of a range is named once, and no sector outside it is. */
  lemma SectorsOfRange(swapped: bool, address: u32, n: nat, bank: Bank, sector: int)
    requires FLASH_BANK1_BASE <= address && address + n * FLASH_SECTOR_SIZE <= FLASH_END + 1
    requires address % FLASH_SECTOR_SIZE == 0 && 0 <= sector < SECTORS_PER_BANK
    ensures var s := SectorsOf(swapped, address, n);
            && (forall i, j :: 0 <= i < j < n ==> s[i] != s[j])
            && ((bank, sector) in s <==>
                  address <= SectorAddress(swapped, bank, sector) < address + n * FLASH_SECTOR_SIZE)
  {
    hide GetActualBank, GetSector, SectorAddress, SectorsOf;
    forall i, j | 0 <= i < j < n
      ensures SectorsOf(swapped, address, n)[i] != SectorsOf(swapped, address, n)[j]
    {
      SectorNamesDiffer(swapped, address, i, j);
      SectorsOfAt(swapped, address, n, i);
      SectorsOfAt(swapped, address, n, j);
    }
    SectorInRange(swapped, address, n, bank, sector);
  }

  lemma SectorsOfAt(swapped: bool, address: u32, n: nat, i: nat)
    requires FLASH_BANK1_BASE <= address && address + n * FLASH_SECTOR_SIZE <= FLASH_END + 1 && i < n
    ensures var a := address + i * FLASH_SECTOR_SIZE;
            && FLASH_BANK1_BASE <= a <= FLASH_END
            && SectorsOf(swapped, address, n)[i] == (GetActualBank(swapped, a), GetSector(a))
  {
  }

  lemma SectorInRange(swapped: bool, address: u32, n: nat, bank: Bank, sector: int)
    requires FLASH_BANK1_BASE <= address && address + n * FLASH_SECTOR_SIZE <= FLASH_END + 1
    requires address % FLASH_SECTOR_SIZE == 0 && 0 <= sector < SECTORS_PER_BANK
    ensures (bank, sector) in SectorsOf(swapped, address, n)
            <==> address <= SectorAddress(swapped, bank, sector) < address + n * FLASH_SECTOR_SIZE
  {
    hide GetActualBank, GetSector, SectorAddress, SectorsOf;
    var s, at := SectorsOf(swapped, address, n), SectorAddress(swapped, bank, sector);
    SectorNaming(swapped, FLASH_BANK1_BASE, bank, sector);
    if address <= at < address + n * FLASH_SECTOR_SIZE {
      var i := SectorIndex(address, at, n);
      SectorNaming(swapped, at, bank, sector);
      SectorsOfAt(swapped, address, n, i);
      assert s[i] == (bank, sector);
    }
    if (bank, sector) in s {
      var i :| 0 <= i < n && s[i] == (bank, sector);
      SectorsOfAt(swapped, address, n, i);
      SectorNaming(swapped, address + i * FLASH_SECTOR_SIZE, bank, sector);
    }
  }

  lemma SectorIndex(address: u32, at: u32, n: nat) returns (i: nat)
    requires address % FLASH_SECTOR_SIZE == 0 && at % FLASH_SECTOR_SIZE == 0
    requires address <= at < address + n * FLASH_SECTOR_SIZE
    ensures i < n && at == address + i * FLASH_SECTOR_SIZE
  {
    i := at / FLASH_SECTOR_SIZE - address / FLASH_SECTOR_SIZE;
  }

  lemma SectorNamesDiffer(swapped: bool, address: u32, i: nat, j: nat)
    requires FLASH_BANK1_BASE <= address && address + (j + 1) * FLASH_SECTOR_SIZE <= FLASH_END + 1
    requires address % FLASH_SECTOR_SIZE == 0 && i < j
    ensures var a, b := address + i * FLASH_SECTOR_SIZE, address + j * FLASH_SECTOR_SIZE;
            (GetActualBank(swapped, a), GetSector(a)) != (GetActualBank(swapped, b), GetSector(b))
  {
    var a, b := address + i * FLASH_SECTOR_SIZE, address + j * FLASH_SECTOR_SIZE;
    SectorNaming(swapped, a, Bank1, 0);
    var bank, sector := GetActualBank(swapped, a), GetSector(a);
    SectorNaming(swapped, a, bank, sector);
    SectorNaming(swapped, b, bank, sector);
  }
}
