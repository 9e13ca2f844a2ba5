/**
 * From power-on to the start of L1: the order of checks in DICE (DICE_main.c), the shared RAM
 * through which DICE, L0 and L1 pass data (shared_mem_volatile.h, dice_engine.c, l0_engine.c,
 * l0_main.c), and when the next image is started (the two main.c files).
 */
module Handover {
  import opened Buffers
  import opened Bytes
  import opened Wrappers
  import opened ImageAuth
  import opened Provisioning
  import opened SecretStorage
  import opened ArmFlash

  const SHARED_RAM_SIZE := 64 * 1024
  const HALF_SIZE := SHARED_RAM_SIZE / 2

  // ----- Layout of the parameters -----

  const HW_MEASUREMENT_LEN := 32
  const L0_PARAMS_LENGTH := 4 + HW_MEASUREMENT_LEN + 32

  /** Everything in `l1_params_t` that L0's core writes: two key pairs, certificate and request with lengths. */
  const L0_CORE_OUTPUT_LENGTH := 32 + 32 + 2048 + 4 + 32 + 2048 + 4
  const L1_PARAMS_LENGTH := 4 + 4 + HW_MEASUREMENT_LEN + L0_CORE_OUTPUT_LENGTH

  function L0Params(versionDice: u32, measurement: Bytes32, cdi: Bytes32): (s: seq<byte>)
    ensures |s| == L0_PARAMS_LENGTH
  {
    ToLe32(versionDice) + measurement + cdi
  }

  /** The fields of `l0_params_t` at the start of shared RAM. */
  datatype L0Fields = L0Fields(versionDice: u32, measurement: Bytes32, cdi: Bytes32)

  function ReadL0Params(ram: seq<byte>): L0Fields
    requires L0_PARAMS_LENGTH <= |ram|
  {
    L0Fields(Le32(ram[..4]), ram[4..36], ram[36..68])
  }

  type CoreOutput = s: seq<byte> | |s| == L0_CORE_OUTPUT_LENGTH witness Zeros(L0_CORE_OUTPUT_LENGTH)

  function L1Params(versionDice: u32, versionL0: u32, measurement: Bytes32, output: CoreOutput): (s: seq<byte>)
    ensures |s| == L1_PARAMS_LENGTH
  {
    ToLe32(versionDice) + ToLe32(versionL0) + measurement + output
  }

  /** Shared RAM as DICE leaves it: the other half is still whatever it was. */
  function AfterDice(ram: seq<byte>, versionDice: u32, measurement: Bytes32, cdi: Bytes32): (s: seq<byte>)
    requires |ram| == SHARED_RAM_SIZE
    ensures |s| == SHARED_RAM_SIZE
  {
    L0Params(versionDice, measurement, cdi) + Zeros(HALF_SIZE - L0_PARAMS_LENGTH) + ram[HALF_SIZE..]
  }

  /** Shared RAM when L1 starts. */
  function AtL1(versionDice: u32, versionL0: u32, measurement: Bytes32, output: CoreOutput): (s: seq<byte>)
    ensures |s| == SHARED_RAM_SIZE
  {
    Zeros(HALF_SIZE) + L1Params(versionDice, versionL0, measurement, output) + Zeros(HALF_SIZE - L1_PARAMS_LENGTH)
  }

  /** What reads the CDI and the code of L1 and writes L0's part of the parameters for L1. */
  type L0Core = (Bytes32, seq<byte>) -> CoreOutput

  class SharedRam {
    const ram: array<byte>

    ghost predicate Valid() {
      ram.Length == SHARED_RAM_SIZE
    }

    /** Memory after power-on: unknown. */
    constructor ()
      ensures Valid() && fresh(ram)
    {
      ram := new byte[SHARED_RAM_SIZE];
    }

    method CleanSharedDiceL0()
      requires Valid()
      modifies ram
      ensures ram[..] == Zeros(HALF_SIZE) + old(ram[HALF_SIZE..])
    {
      forall i | 0 <= i < HALF_SIZE {
        ram[i] := 0;
      }
    }

    method CleanSharedL0L1()
      requires Valid()
      modifies ram
      ensures ram[..] == old(ram[..HALF_SIZE]) + Zeros(HALF_SIZE)
    {
      forall i | 0 <= i < HALF_SIZE {
        ram[HALF_SIZE + i] := 0;
      }
    }

    /** RunDICE with DICEHandleArgsAndDice. The core writes `cdi` and returns `coreRet`. */
    method RunDice(hwMeasurement: seq<byte>, versionDice: u32, cdi: Bytes32, coreRet: int) returns (ret: int)
      requires Valid() && HW_MEASUREMENT_LEN <= |hwMeasurement|
      modifies ram
      ensures ret == coreRet
      ensures ram[..] == AfterDice(old(ram[..]), versionDice, hwMeasurement[..HW_MEASUREMENT_LEN], cdi)
    {
      hide ToLe32, Overwrite, AfterDice;
      var measurement: Bytes32 := hwMeasurement[..HW_MEASUREMENT_LEN];
      StoredDiceParams(ram[..], versionDice, measurement, cdi);
      CleanSharedDiceL0();
      Copy(ram, 4, measurement);
      Copy(ram, 0, ToLe32(versionDice));
      Copy(ram, 4 + HW_MEASUREMENT_LEN, cdi);
      return coreRet;
    }

    /** RunL0. */
    method RunL0(l1Code: seq<byte>, versionL0: u32, core: L0Core)
      requires Valid()
      modifies ram
      ensures var x := ReadL0Params(old(ram[..]));
              ram[..] == AtL1(x.versionDice, versionL0, x.measurement, core(x.cdi, l1Code))
    {
      hide ToLe32, Le32, ReadL0Params;
      ghost var x, dice := ReadL0Params(ram[..]), ram[..HALF_SIZE];
      CleanSharedL0L1();
      SameL0Params(old(ram[..]), ram[..]);
      ParamsInClearedHalf(dice, L1Params(x.versionDice, versionL0, x.measurement, core(x.cdi, l1Code)));
      L0HandleArgs(l1Code, versionL0, core);
      CleanSharedDiceL0();
    }

    /** Forwards version and measurement, then lets the core write the rest of the parameters for L1. */
    method L0HandleArgs(l1Code: seq<byte>, versionL0: u32, core: L0Core)
      requires Valid()
      modifies ram
      ensures var x := ReadL0Params(old(ram[..]));
              ram[..] == Overwrite(old(ram[..]), HALF_SIZE,
                                   L1Params(x.versionDice, versionL0, x.measurement, core(x.cdi, l1Code)))
    {
      hide ToLe32, Le32, Overwrite;
      assert ram[..4] == ram[..][..4] && ram[4..36] == ram[..][4..36] && ram[36..68] == ram[..][36..68];
      var versionDice := Le32(ram[..4]);
      var measurement: Bytes32, cdi: Bytes32 := ram[4..36], ram[36..68];
      var output: CoreOutput := core(cdi, l1Code);
      StoredParams(ram[..], versionDice, versionL0, measurement, output);
      Copy(ram, HALF_SIZE, ToLe32(versionDice));
      Copy(ram, HALF_SIZE + 4, ToLe32(versionL0));
      Copy(ram, HALF_SIZE + 8, measurement);
      Copy(ram, HALF_SIZE + 40, output);
    }
  }

  lemma SameL0Params(f: seq<byte>, g: seq<byte>)
    requires |f| == |g| == SHARED_RAM_SIZE && f[..HALF_SIZE] == g[..HALF_SIZE]
    ensures ReadL0Params(f) == ReadL0Params(g)
  {
    hide Le32;
    SamePart(f, g, HALF_SIZE, 0, 4);
    SamePart(f, g, HALF_SIZE, 4, 36);
    SamePart(f, g, HALF_SIZE, 36, 68);
  }

  /** The three stores that build the parameters for L0 in cleared memory. */
  lemma StoredDiceParams(ram: seq<byte>, versionDice: u32, measurement: Bytes32, cdi: Bytes32)
    requires |ram| == SHARED_RAM_SIZE
    ensures var s1 := Overwrite(Zeros(HALF_SIZE) + ram[HALF_SIZE..], 4, measurement);
            var s2 := Overwrite(s1, 0, ToLe32(versionDice));
            Overwrite(s2, 36, cdi) == AfterDice(ram, versionDice, measurement, cdi)
  {
    hide ToLe32;
    var v, rest := ToLe32(versionDice), ram[HALF_SIZE..];
    var s1 := Overwrite(Zeros(HALF_SIZE) + rest, 4, measurement);
    assert s1[4..36] == measurement;
    assert s1[36..] == Zeros(HALF_SIZE - 36) + rest;
    var s2 := Overwrite(s1, 0, v);
    assert s2[..4] == v && s2[4..36] == s1[4..36] && s2[36..] == s1[36..];
    assert s2[68..] == Zeros(HALF_SIZE - 68) + rest;
    assert s2[..36] == v + measurement;
  }

  /** The four stores that build the parameters for L1. */
  lemma StoredParams(ram: seq<byte>, versionDice: u32, versionL0: u32, measurement: Bytes32, output: CoreOutput)
    requires |ram| == SHARED_RAM_SIZE
    ensures var s1 := Overwrite(ram, HALF_SIZE, ToLe32(versionDice));
            var s2 := Overwrite(s1, HALF_SIZE + 4, ToLe32(versionL0));
            var s3 := Overwrite(s2, HALF_SIZE + 8, measurement);
            Overwrite(s3, HALF_SIZE + 40, output)
            == Overwrite(ram, HALF_SIZE, L1Params(versionDice, versionL0, measurement, output))
  {
    hide ToLe32, Overwrite;
    var v := ToLe32(versionDice) + ToLe32(versionL0);
    OverwriteTwice(ram, HALF_SIZE, ToLe32(versionDice), ToLe32(versionL0));
    OverwriteTwice(ram, HALF_SIZE, v, measurement);
    OverwriteTwice(ram, HALF_SIZE, v + measurement, output);
  }

  /** Parameters stored in cleared memory. */
  lemma ParamsInClearedHalf(dice: seq<byte>, params: seq<byte>)
    requires |dice| == HALF_SIZE && |params| == L1_PARAMS_LENGTH
    ensures Overwrite(dice + Zeros(HALF_SIZE), HALF_SIZE, params) == dice + params + Zeros(HALF_SIZE - L1_PARAMS_LENGTH)
  {
    FieldNext(dice, HALF_SIZE, params);
  }

  /** The inputs of one boot that come from outside the modelled code. */
  datatype Inputs = Inputs(
    hwMeasurement: seq<byte>, versionDice: u32, versionL0: u32,
    cdi: Bytes32, coreRet: int, l1Code: seq<byte>, core: L0Core)

  class Board {
    const storage: Storage
    const shared: SharedRam

    ghost predicate Valid()
      reads this, storage, storage.flash, storage.flash.cells
    {
      storage.Valid() && shared.Valid() && shared.ram as object != storage.flash.cells
    }

    constructor (storage: Storage, shared: SharedRam)
      requires storage.Valid() && shared.Valid() && shared.ram as object != storage.flash.cells
      ensures Valid() && this.storage == storage && this.shared == shared
    {
      this.storage := storage;
      this.shared := shared;
    }

    /** `protected` is the result of CheckProtections, `reason` that of ResetReason_Get. */
    method DiceMain(protected: bool, reason: ResetReason, rng: nat -> Option<Uds>, ghost good: nat, x: Inputs)
      returns (ret: int)
      requires Valid() && HW_MEASUREMENT_LEN <= |x.hwMeasurement| && rng(good) != Some(UNSET)
      requires storage.Now().phase == Booted && storage.Now().protected == protected && storage.Now().reason == reason
      modifies storage`trace, storage.flash`locked, storage.flash`calls, storage.flash.cells, shared.ram
      ensures Valid() && old(storage.trace) <= storage.trace
      // Nothing happens unless the checks pass.
      ensures !Gate(protected, reason) ==>
                ret == -1 && storage.Now().phase == Refused
                && storage.flash.cells[..] == old(storage.flash.cells[..]) && shared.ram[..] == old(shared.ram[..])
      ensures storage.Now().phase == Refused <==> !protected || reason == Watchdog
      // Every other boot gets as far as a secret, unless the copies, the generator or the flash stop it.
      ensures storage.Now().phase.Done? <==>
                && protected && reason in {Unknown, LowPower, SoftwareReset, HardwareReset}
                && old(Readable(storage.Now()))
                && (|| old(storage.Now().copy1) != UNSET
                    || Provisionable(old(storage.Now()), storage.layout, storage.flash.controller,
                                     old(storage.flash.calls), rng, good))
      // The core runs only with a secret in place.
      ensures storage.Now().phase in {Refused, Failed} || storage.Now().phase.Done?
      ensures !storage.Now().phase.Done? ==> ret == -1 && shared.ram[..] == old(shared.ram[..])
      ensures storage.Now().phase.Done? ==>
                && ret == x.coreRet
                && shared.ram[..] == AfterDice(old(shared.ram[..]), x.versionDice, x.hwMeasurement[..HW_MEASUREMENT_LEN], x.cdi)
    {
      hide Run, ToLe32, AfterDice;
      ghost var s := storage.Now();
      storage.Record(State(s.placed, s.copy1, s.copy2, if Gate(protected, reason) then Reading else Refused,
                           s.protected, s.reason, s.draws));
      if !protected {
        return -1;
      }
      if reason == Watchdog {
        return -1;
      }
      var r := storage.DeviceSecretInitialize(rng, good);
      if r != 0 {
        return -1;
      }
      ret := shared.RunDice(x.hwMeasurement, x.versionDice, x.cdi, x.coreRet);
    }

    /** The mains of DICE and L0: each image is started only if the one before it returned 0. */
    method BootToL1(protected: bool, reason: ResetReason, rng: nat -> Option<Uds>, ghost good: nat, x: Inputs)
      returns (started: bool)
      requires Valid() && HW_MEASUREMENT_LEN <= |x.hwMeasurement| && rng(good) != Some(UNSET)
      requires storage.Now().phase == Booted && storage.Now().protected == protected && storage.Now().reason == reason
      modifies storage`trace, storage.flash`locked, storage.flash`calls, storage.flash.cells, shared.ram
      ensures Valid() && old(storage.trace) <= storage.trace
      // When L1 starts, shared RAM is determined: all of DICE's half is zero, whatever the CDI and
      // whatever was in memory, and L1 sees the measurement and version that DICE stored.
      ensures started ==>
                shared.ram[..] == AtL1(x.versionDice, x.versionL0, x.hwMeasurement[..HW_MEASUREMENT_LEN], x.core(x.cdi, x.l1Code))
      ensures started <==> storage.Now().phase.Done? && x.coreRet == 0
      ensures started ==> Gate(protected, reason)
      ensures started <==>
                && x.coreRet == 0
                && protected && reason in {Unknown, LowPower, SoftwareReset, HardwareReset}
                && old(Readable(storage.Now()))
                && (|| old(storage.Now().copy1) != UNSET
                    || Provisionable(old(storage.Now()), storage.layout, storage.flash.controller,
                                     old(storage.flash.calls), rng, good))
      ensures !Gate(protected, reason) ==> storage.flash.cells[..] == old(storage.flash.cells[..])
    {
      var ret := DiceMain(protected, reason, rng, good, x);
      if ret == 0 {
        DiceParams(old(shared.ram[..]), x.versionDice, x.hwMeasurement[..HW_MEASUREMENT_LEN], x.cdi);
        shared.RunL0(x.l1Code, x.versionL0, x.core);
        return true;
      }
      return false;
    }
  }

  /** L1 finds its parameters in their places and nothing else: in particular no byte of DICE's half is left. */
  lemma L1Finds(versionDice: u32, versionL0: u32, measurement: Bytes32, output: CoreOutput, i: nat)
    requires i < SHARED_RAM_SIZE
    ensures var s := AtL1(versionDice, versionL0, measurement, output);
            && (i < HALF_SIZE ==> s[i] == 0)
            && Le32(s[HALF_SIZE..HALF_SIZE + 4]) == versionDice
            && Le32(s[HALF_SIZE + 4..HALF_SIZE + 8]) == versionL0
            && s[HALF_SIZE + 8..HALF_SIZE + 40] == measurement
            && s[HALF_SIZE + 40..HALF_SIZE + L1_PARAMS_LENGTH] == output
            && (HALF_SIZE + L1_PARAMS_LENGTH <= i ==> s[i] == 0)
  {
    var s, front, params := AtL1(versionDice, versionL0, measurement, output), Zeros(HALF_SIZE),
      L1Params(versionDice, versionL0, measurement, output);
    var rest := Zeros(HALF_SIZE - L1_PARAMS_LENGTH);
    assert params[..4] == ToLe32(versionDice) && params[4..8] == ToLe32(versionL0);
    assert params[8..40] == measurement && params[40..] == output;
    hide ToLe32, Le32, L1Params;
    MiddleSlice(front, params, rest, 0, 4);
    MiddleSlice(front, params, rest, 4, 8);
    MiddleSlice(front, params, rest, 8, 40);
    MiddleSlice(front, params, rest, 40, L1_PARAMS_LENGTH);
  }

  /** L0 reads back what DICE stored. */
  lemma DiceParams(ram: seq<byte>, versionDice: u32, measurement: Bytes32, cdi: Bytes32)
    requires |ram| == SHARED_RAM_SIZE
    ensures ReadL0Params(AfterDice(ram, versionDice, measurement, cdi)) == L0Fields(versionDice, measurement, cdi)
  {
    hide Le32;
    var s, params := AfterDice(ram, versionDice, measurement, cdi), L0Params(versionDice, measurement, cdi);
    assert s[..4] == params[..4] == ToLe32(versionDice);
    assert s[4..36] == params[4..36] == measurement;
    assert s[36..68] == params[36..68] == cdi;
  }
}
