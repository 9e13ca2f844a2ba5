/**
 * The code that provisions the Unique Device Secret (secret.c, arm/secret_storage.c), run on the
 * flash driver. A ghost trace shows that every execution is a run of the provisioning machine.
 */
module SecretStorage {
  import opened Bytes
  import opened Flash
  import opened ArmFlash
  import opened Provisioning
  import opened Wrappers

  method IsSecretValid(secret: Uds) returns (valid: bool)
    ensures valid <==> secret != UNSET
  {
    for i := 0 to UDS_LENGTH
      invariant forall j :: 0 <= j < i ==> secret[j] == 0xFF
    {
      if secret[i] != 0xFF {
        assert secret[i] != UNSET[i];
        return true;
      }
    }
    assert secret == UNSET;
    return false;
  }

  /** The address check of DeviceSecretGet. `diceEnd` is the address of the last byte of DICE. */
  predicate Placed(address: u32, diceStart: u32, diceEnd: u32) {
    !(address < diceStart || address >= Wrap(diceEnd - UDS_LENGTH))
  }

  /** Of the aligned words inside the DICE image, the check refuses exactly the last one. */
  lemma PlacedIff(address: u32, diceStart: u32, diceEnd: u32)
    requires address % FLASH_WORD_SIZE == 0 && (diceEnd + 1) % FLASH_WORD_SIZE == 0 && UDS_LENGTH <= diceEnd
    ensures Placed(address, diceStart, diceEnd)
            <==> diceStart <= address && address + UDS_LENGTH < diceEnd + 1
  {
  }

  /** Where the linker put the two copies, the DICE image and the local buffer. */
  datatype Layout = Layout(copy1: u32, copy2: u32, diceStart: u32, diceEnd: u32, buffer: u32) {
    predicate Valid() {
      && FLASH_BANK1_BASE <= copy1 && copy1 + UDS_LENGTH <= FLASH_END + 1
      && FLASH_BANK1_BASE <= copy2 && copy2 + UDS_LENGTH <= FLASH_END + 1
      && (copy1 + UDS_LENGTH <= copy2 || copy2 + UDS_LENGTH <= copy1)
    }

    /** As the linker aligns both copies and the compiler the buffer. */
    predicate Aligned() {
      && copy1 % FLASH_WORD_SIZE == 0 && copy2 % FLASH_WORD_SIZE == 0
      && 0 < buffer && buffer % 4 == 0 && buffer + UDS_LENGTH < TWO_TO_THE_32
      && 0 < copy1 && copy1 + UDS_LENGTH < TWO_TO_THE_32
      && 0 < copy2 && copy2 + UDS_LENGTH < TWO_TO_THE_32
    }

    predicate CopiesPlaced() {
      Placed(copy1, diceStart, diceEnd) && Placed(copy2, diceStart, diceEnd)
    }
  }

  /** The word at a flash address. */
  function WordAt(f: Cells, address: u32): Uds
    requires |f| == FLASH_SIZE && FLASH_BANK1_BASE <= address && address + UDS_LENGTH <= FLASH_END + 1
  {
    f[address - FLASH_BANK1_BASE..address - FLASH_BANK1_BASE + UDS_LENGTH]
  }

  // ----- When provisioning succeeds -----

  /** Flash_Write of `src` over `before`: the arguments are right and the three calls of the controller do their work. */
  predicate Stores(controller: nat -> Answer, first: nat, address: u32, buffer: u32, before: Uds, src: Uds) {
    && WriteArgumentsValid(address, buffer, UDS_LENGTH)
    && controller(first).ok && WordTaken(before, src, controller(first + 1)) && controller(first + 2).ok
  }

  /** The generator gives a secret and both copies of it can be written and read. */
  ghost predicate Provisionable(s: State, layout: Layout, controller: nat -> Answer, first: nat,
                                rng: nat -> Option<Uds>, good: nat)
    requires rng(good) != Some(UNSET)
  {
    var answer := rng(FirstUsable(rng, 0, good));
    && s.placed && answer.Some?
    && Stores(controller, first, layout.copy1, layout.buffer, s.copy1, answer.value)
    && Stores(controller, first + 3, layout.copy2, layout.buffer, s.copy2, answer.value)
  }

  /** With a working controller and generator nothing can go wrong on a device as it leaves the factory. */
  lemma FactoryIsProvisionable(s: State, layout: Layout, controller: nat -> Answer, first: nat,
                               rng: nat -> Option<Uds>, good: nat)
    requires rng(good) != Some(UNSET)
    requires s.placed && s.copy1 == s.copy2 == UNSET
    requires layout.Aligned() && rng(FirstUsable(rng, 0, good)).Some?
    requires AllWork(controller, first, 6)
    ensures Provisionable(s, layout, controller, first, rng, good)
  {
    var u := rng(FirstUsable(rng, 0, good)).value;
    forall j | 0 <= j < UDS_LENGTH
      ensures UNSET[j] & u[j] == u[j]
    {
      AllOnesAnd(u[j]);
    }
    WorkingTakesWordIff(UNSET, u, controller(first + 1));
    WorkingTakesWordIff(UNSET, u, controller(first + 4));
  }

  lemma StoresIff(ret: int, word: nat, f: Cells, address: u32, buffer: u32, src: Uds,
                  controller: nat -> Answer, first: nat, end: nat)
    requires |f| == FLASH_SIZE && FLASH_BANK1_BASE <= address && address + UDS_LENGTH <= FLASH_END + 1
    requires ret in {0, -1, -2, -3, -4, -5} && (ret == -1 <==> !WriteArgumentsValid(address, buffer, UDS_LENGTH))
    requires ret != -1 ==> WriteOutcome(ret, word, f, address - FLASH_BANK1_BASE, src, controller, first, end)
    ensures ret == 0 <==> Stores(controller, first, address, buffer, WordAt(f, address), src)
    ensures ret == 0 ==> end == first + 3
  {
    var off := address - FLASH_BANK1_BASE;
    assert WordOf(src, 0, 0) == src && WordOf(f, off, 0) == WordAt(f, address);
    hide WriteArgumentsValid, Left, WordOf;
    if ret == 0 {
      assert WordTaken(WordOf(f, off, 0), WordOf(src, 0, 0), controller(first + 1 + 0));
    }
  }

  /** What a write of one word can leave in it and in another one. */
  lemma WriteLeaves(f: Cells, g: Cells, address: u32, other: u32, src: Uds, ret: int, word: nat,
                    controller: nat -> Answer, first: nat)
    requires |f| == FLASH_SIZE
    requires FLASH_BANK1_BASE <= address && address + UDS_LENGTH <= FLASH_END + 1
    requires FLASH_BANK1_BASE <= other && other + UDS_LENGTH <= FLASH_END + 1
    requires address + UDS_LENGTH <= other || other + UDS_LENGTH <= address
    requires ret == -1 ==> g == f
    requires ret != -1 ==> WriteLeft(ret, word, f, g, address - FLASH_BANK1_BASE, src, controller, first)
    requires ret in {0, -1, -2, -3, -4, -5}
    ensures |g| == FLASH_SIZE && WordAt(g, other) == WordAt(f, other)
    ensures ret == 0 ==> WordAt(g, address) == src
  {
  }

  /** The first usable answer of the generator from its `k`th call on; `good` bounds the search. */
  ghost function FirstUsable(rng: nat -> Option<Uds>, k: nat, good: nat): (n: nat)
    requires k <= good && rng(good) != Some(UNSET)
    ensures k <= n <= good && rng(n) != Some(UNSET)
    ensures forall i :: k <= i < n ==> rng(i) == Some(UNSET)
    decreases good - k
  {
    if rng(k) != Some(UNSET) then k else FirstUsable(rng, k + 1, good)
  }

  class Storage {
    const flash: ArmFlash
    const layout: Layout
    /** The run of the machine so far. */
    ghost var trace: seq<State>

    ghost predicate Valid()
      reads this, flash, flash.cells
    {
      && flash.Valid() && layout.Valid()
      && trace != [] && Run(trace)
      && Now().copy1 == WordAt(flash.cells[..], layout.copy1)
      && Now().copy2 == WordAt(flash.cells[..], layout.copy2)
      && Now().placed == layout.CopiesPlaced()
    }

    ghost function Now(): State
      reads this
      requires trace != []
    {
      trace[|trace| - 1]
    }

    /** A device as it leaves the factory. */
    constructor (flash: ArmFlash, layout: Layout)
      requires flash.Valid() && layout.Valid()
      requires WordAt(flash.cells[..], layout.copy1) == WordAt(flash.cells[..], layout.copy2) == UNSET
      ensures Valid() && this.flash == flash && this.layout == layout
      ensures |trace| == 1 && Init(trace[0])
    {
      this.flash := flash;
      this.layout := layout;
      trace := [State(layout.CopiesPlaced(), UNSET, UNSET, Off, false, Unknown, [])];
    }

    /** Extends the trace by one step that the flash contents already reflect. */
    ghost method Record(t: State)
      requires trace != [] && Run(trace) && Step(Now(), t)
      modifies this`trace
      ensures trace == old(trace) + [t] && Run(trace)
    {
      trace := trace + [t];
    }

    /** On failure `dest` keeps what it held before. */
    method DeviceSecretGet(before: Uds) returns (ret: int, dest: Uds)
      requires Valid()
      ensures ret == if Readable(Now()) then 0 else -1
      ensures dest == if Readable(Now()) then Now().copy1 else before
    {
      if layout.copy1 < layout.diceStart || layout.copy1 >= Wrap(layout.diceEnd - UDS_LENGTH)
         || layout.copy2 < layout.diceStart || layout.copy2 >= Wrap(layout.diceEnd - UDS_LENGTH) {
        return -1, before;
      }
      if WordAt(flash.cells[..], layout.copy1) != WordAt(flash.cells[..], layout.copy2) {
        return -1, before;
      }
      return 0, WordAt(flash.cells[..], layout.copy1);
    }

    method DeviceSecretSet(src: Uds) returns (ret: int)
      requires Valid() && Now().phase == Writing1(src)
      modifies this`trace, flash`locked, flash`calls, flash.cells
      ensures Valid() && old(trace) <= trace
      ensures ret in {0, -1}
      ensures ret == 0 ==> Now().phase == Checking(src) && Now().copy1 == Now().copy2 == src
      ensures ret == -1 ==> Now().phase == Failed
      ensures Now().draws == old(Now().draws)
      ensures ret == 0 <==>
                && Stores(flash.controller, old(flash.calls), layout.copy1, layout.buffer, old(Now().copy1), src)
                && Stores(flash.controller, old(flash.calls) + 3, layout.copy2, layout.buffer, old(Now().copy2), src)
    {
      hide Run, Step;
      ret := WriteCopy1(src);
      if ret != 0 {
        return -1;
      }
      ret := WriteCopy2(src);
      return if ret != 0 then -1 else 0;
    }

    /** The first Flash_Write of DeviceSecretSet. */
    method WriteCopy1(src: Uds) returns (ret: int)
      requires Valid() && Now().phase == Writing1(src)
      modifies this`trace, flash`locked, flash`calls, flash.cells
      ensures Valid() && old(trace) <= trace && |trace| == |old(trace)| + 1
      ensures Now().draws == old(Now().draws) && Now().copy2 == old(Now().copy2)
      ensures ret == 0 ==> Now().copy1 == src
      ensures ret == 0 <==> Stores(flash.controller, old(flash.calls), layout.copy1, layout.buffer, old(Now().copy1), src)
      ensures ret == 0 ==> flash.calls == old(flash.calls) + 3
      ensures Now().phase == if ret == 0 then Writing2(src) else Failed
    {
      hide Run, OnlyCleared, WriteOutcome, WriteLeft, Stores, WriteArgumentsValid;
      ghost var s, f, first := Now(), flash.cells[..], flash.calls;
      ghost var word;
      ret, word := flash.FlashWrite(layout.copy1, layout.buffer, src);
      WriteLeaves(f, flash.cells[..], layout.copy1, layout.copy2, src, ret, word, flash.controller, first);
      StoresIff(ret, word, f, layout.copy1, layout.buffer, src, flash.controller, first, flash.calls);
      Record(With(s, WordAt(flash.cells[..], layout.copy1), s.copy2, if ret == 0 then Writing2(src) else Failed));
    }

    /** The second Flash_Write of DeviceSecretSet. */
    method WriteCopy2(src: Uds) returns (ret: int)
      requires Valid() && Now().phase == Writing2(src)
      modifies this`trace, flash`locked, flash`calls, flash.cells
      ensures Valid() && old(trace) <= trace && |trace| == |old(trace)| + 1
      ensures Now().draws == old(Now().draws) && Now().copy1 == old(Now().copy1)
      ensures ret == 0 ==> Now().copy2 == src
      ensures ret == 0 <==> Stores(flash.controller, old(flash.calls), layout.copy2, layout.buffer, old(Now().copy2), src)
      ensures ret == 0 ==> flash.calls == old(flash.calls) + 3
      ensures Now().phase == if ret == 0 then Checking(src) else Failed
    {
      hide Run, OnlyCleared, WriteOutcome, WriteLeft, Stores, WriteArgumentsValid;
      ghost var s, f, first := Now(), flash.cells[..], flash.calls;
      ghost var word;
      ret, word := flash.FlashWrite(layout.copy2, layout.buffer, src);
      WriteLeaves(f, flash.cells[..], layout.copy2, layout.copy1, src, ret, word, flash.controller, first);
      StoresIff(ret, word, f, layout.copy2, layout.buffer, src, flash.controller, first, flash.calls);
      Record(With(s, s.copy1, WordAt(flash.cells[..], layout.copy2), if ret == 0 then Checking(src) else Failed));
    }

    /**
     * `rng` gives the generator's answer to each call, `None` for a failure; `good` is a call that
     * does not return 0xFF throughout, without which the code would not return.
     */
    method DeviceSecretInitialize(rng: nat -> Option<Uds>, ghost good: nat) returns (ret: int)
      requires Valid() && Now().phase == Reading
      requires rng(good) != Some(UNSET)
      modifies this`trace, flash`locked, flash`calls, flash.cells
      ensures Valid() && old(trace) <= trace
      ensures ret in {0, -1}
      ensures ret == 0 <==> Now().phase.Done?
      ensures ret == -1 <==> Now().phase.Failed?
      ensures old(Readable(Now()) && Now().copy1 != UNSET) ==> ret == 0 && flash.cells[..] == old(flash.cells[..])
      ensures old(!Readable(Now())) ==> ret == -1 && flash.cells[..] == old(flash.cells[..])
      ensures ret == 0 && old(Now().copy1) == UNSET ==> rng(FirstUsable(rng, 0, good)) == Some(Now().phase.s)
      ensures ret == 0 ==> Readable(Now()) && Now().copy1 == Now().phase.s
      // It succeeds exactly when a secret is there, or the generator, the flash and the layout allow a new one.
      ensures ret == 0 <==>
                && old(Readable(Now()))
                && (|| old(Now().copy1) != UNSET
                    || Provisionable(old(Now()), layout, flash.controller, old(flash.calls), rng, good))
      // So with hardware that works, the first boot of every device provisions it.
      ensures old(Now().placed && Now().copy1 == Now().copy2 == UNSET) && layout.Aligned()
              && rng(FirstUsable(rng, 0, good)).Some?
              && AllWork(flash.controller, old(flash.calls), 6)
              ==> ret == 0 && Now().copy1 == Now().copy2 == rng(FirstUsable(rng, 0, good)).value
      ensures old(!Readable(Now()) || Now().copy1 != UNSET) ==> Now().draws == old(Now().draws)
      // Whatever the outcome, the draws recorded are the generator's answers in order.
      ensures old(Now().draws) <= Now().draws
      ensures forall i | |old(Now().draws)| <= i < |Now().draws| ::
                rng(i - |old(Now().draws)|) == Some(Now().draws[i])
    {
      hide Run, Step, With, Stores, AllWork, WordAt;
      if old(Now().placed && Now().copy1 == Now().copy2 == UNSET) && layout.Aligned()
         && rng(FirstUsable(rng, 0, good)).Some?
         && AllWork(flash.controller, flash.calls, 6) {
        FactoryIsProvisionable(Now(), layout, flash.controller, flash.calls, rng, good);
      }
      var secret;
      ret, secret := FindSecret();
      if ret != 0 {
        return -1;
      }
      var valid := IsSecretValid(secret);
      if valid {
        return 0;
      }
      ret := NewSecret(rng, good);
    }

    /** The first DeviceSecretGet of DeviceSecretInitialize. */
    method FindSecret() returns (ret: int, secret: Uds)
      requires Valid() && Now().phase == Reading
      modifies this`trace
      ensures Valid() && old(trace) <= trace
      ensures ret == if old(Readable(Now())) then 0 else -1
      ensures ret == 0 ==> secret == old(Now().copy1)
      ensures Now().phase == if ret != 0 then Failed else if secret == UNSET then Drawing else Done(secret)
      ensures Now().draws == old(Now().draws) && SameCells(old(Now()), Now()) && Now().placed == old(Now().placed)
    {
      hide Run, Step;
      ghost var s := Now();
      ghost var t := With(s, s.copy1, s.copy2,
                          if !Readable(s) then Failed else if s.copy1 == UNSET then Drawing else Done(s.copy1));
      FirstReadIsStep(s, t);
      var zero: Uds := seq(UDS_LENGTH, _ => 0);
      ret, secret := DeviceSecretGet(zero);
      Record(t);
    }

    /** The second half of DeviceSecretInitialize, once no secret was found. */
    method NewSecret(rng: nat -> Option<Uds>, ghost good: nat) returns (ret: int)
      requires Valid() && Now().phase == Drawing
      requires rng(good) != Some(UNSET)
      modifies this`trace, flash`locked, flash`calls, flash.cells
      ensures Valid() && old(trace) <= trace
      ensures ret in {0, -1}
      ensures ret == 0 <==> Now().phase.Done?
      ensures ret == -1 <==> Now().phase.Failed?
      ensures ret == 0 ==> rng(FirstUsable(rng, 0, good)) == Some(Now().phase.s)
      ensures ret == 0 ==> Readable(Now()) && Now().copy1 == Now().phase.s
      ensures ret == 0 <==> Provisionable(old(Now()), layout, flash.controller, old(flash.calls), rng, good)
      ensures |Now().draws| == |old(Now().draws)| + FirstUsable(rng, 0, good)
                               + if rng(FirstUsable(rng, 0, good)).Some? then 1 else 0
      ensures old(Now().draws) <= Now().draws
      ensures forall i | |old(Now().draws)| <= i < |Now().draws| ::
                rng(i - |old(Now().draws)|) == Some(Now().draws[i])
    {
      hide Run, Step, Stores, WordAt;
      var secret;
      ret, secret := DrawSecret(rng, good);
      if ret != 0 {
        return -1;
      }
      ret := StoreSecret(secret);
    }

    /** What follows the loop: write both copies, then read them back. */
    method StoreSecret(secret: Uds) returns (ret: int)
      requires Valid() && Now().phase == Writing1(secret)
      modifies this`trace, flash`locked, flash`calls, flash.cells
      ensures Valid() && old(trace) <= trace
      ensures ret in {0, -1} && Now().phase == if ret == 0 then Done(secret) else Failed
      ensures ret == 0 ==> Readable(Now()) && Now().copy1 == secret
      ensures ret == 0 <==>
                && old(Now().placed)
                && Stores(flash.controller, old(flash.calls), layout.copy1, layout.buffer, old(Now().copy1), secret)
                && Stores(flash.controller, old(flash.calls) + 3, layout.copy2, layout.buffer, old(Now().copy2), secret)
      ensures Now().draws == old(Now().draws)
    {
      hide Run, Step, Stores;
      ret := DeviceSecretSet(secret);
      if ret != 0 {
        return -1;
      }
      ret := ReadBack(secret);
    }

    /** The last part of DeviceSecretInitialize: compare what was written with `secret`. */
    method ReadBack(secret: Uds) returns (ret: int)
      requires Valid() && Now().phase == Checking(secret)
      modifies this`trace
      ensures Valid() && old(trace) <= trace
      ensures ret in {0, -1} && Now().phase == if ret == 0 then Done(secret) else Failed
      ensures ret == 0 <==> Readable(Now()) && Now().copy1 == secret
      ensures Now().draws == old(Now().draws) && SameCells(old(Now()), Now()) && Now().placed == old(Now().placed)
    {
      hide Run;
      ghost var s := Now();
      var zero: Uds := seq(UDS_LENGTH, _ => 0);
      var reference: Uds;
      ret, reference := DeviceSecretGet(zero);
      if ret != 0 {
        Record(With(s, s.copy1, s.copy2, Failed));
        return -1;
      }
      if secret != reference {
        Record(With(s, s.copy1, s.copy2, Failed));
        return -1;
      }
      Record(With(s, s.copy1, s.copy2, Done(secret)));
      return 0;
    }

    /** One round of the loop: a failure, a value drawn again, or a secret. */
    method DrawOnce(answer: Option<Uds>) returns (valid: bool)
      requires Valid() && Now().phase == Drawing
      modifies this`trace
      ensures Valid() && old(trace) <= trace
      ensures Now().draws == old(Now().draws) + if answer.Some? then [answer.value] else []
      ensures Now().phase == if answer.None? then Failed else if valid then Writing1(answer.value) else Drawing
      ensures valid <==> answer.Some? && answer.value != UNSET
    {
      hide Run;
      ghost var s := Now();
      if answer.None? {
        Record(With(s, s.copy1, s.copy2, Failed));
        return false;
      }
      var secret := answer.value;
      valid := IsSecretValid(secret);
      ghost var t := State(s.placed, s.copy1, s.copy2, if secret == UNSET then Drawing else Writing1(secret),
                           s.protected, s.reason, s.draws + [secret]);
      assert DrawnTo(s, t, secret);
      Record(t);
    }

    /** The do-while loop: draw until the value is not 0xFF throughout. */
    method DrawSecret(rng: nat -> Option<Uds>, ghost good: nat) returns (ret: int, secret: Uds)
      requires Valid() && Now().phase == Drawing
      requires rng(good) != Some(UNSET)
      modifies this`trace
      ensures Valid() && old(trace) <= trace
      ensures ret in {0, -1}
      ensures ret == 0 ==> Now().phase == Writing1(secret) && rng(FirstUsable(rng, 0, good)) == Some(secret)
      ensures ret == -1 ==> Now().phase == Failed && rng(FirstUsable(rng, 0, good)) == None
      ensures |Now().draws| == |old(Now().draws)| + FirstUsable(rng, 0, good) + if ret == 0 then 1 else 0
      ensures old(Now().draws) <= Now().draws
      ensures forall i | |old(Now().draws)| <= i < |Now().draws| ::
                rng(i - |old(Now().draws)|) == Some(Now().draws[i])
    {
      hide Run, Step;
      var k := 0;
      secret := UNSET;
      ghost var n := FirstUsable(rng, 0, good);
      while true
        invariant Valid() && old(trace) <= trace && Now().phase == Drawing
        invariant k <= n
        invariant old(Now().draws) <= Now().draws && |Now().draws| == |old(Now().draws)| + k
        invariant forall i | |old(Now().draws)| <= i < |Now().draws| ::
                    rng(i - |old(Now().draws)|) == Some(Now().draws[i])
        decreases n - k
      {
        var answer := rng(k);
        var valid := DrawOnce(answer);
        if answer.None? {
          return -1, secret;
        }
        secret := answer.value;
        if valid {
          return 0, secret;
        }
        k := k + 1;
      }
    }

    /** What the DICE core reads. After a successful boot check it is the secret itself. */
    method ReadUds(before: Uds) returns (uds: Uds)
      requires Valid()
      ensures uds == if Readable(Now()) then Now().copy1 else before
      ensures Init(trace[0]) && Now().phase.Done? ==> uds == Now().phase.s != UNSET
    {
      if Init(trace[0]) {
        InvRun(trace, |trace| - 1);
      }
      var ret;
      ret, uds := DeviceSecretGet(before);
    }
  }
}
