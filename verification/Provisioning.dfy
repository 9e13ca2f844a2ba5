/**
 * The life of the Unique Device Secret over any number of boots, as a state machine. Power may be
 * lost at any point; the flash word being programmed then holds anything.
 */
module Provisioning {

  const UDS_LENGTH := 32

  type Uds = s: seq<bv8> | |s| == UDS_LENGTH witness AllOnes()

  function AllOnes(): (s: seq<bv8>)
    ensures |s| == UDS_LENGTH
  {
    seq(UDS_LENGTH, _ => 0xFF)
  }

  /** The factory value of a cell, and the mark that no secret has been set. */
  const UNSET: Uds := AllOnes()

  datatype ResetReason = Unknown | Watchdog | LowPower | SoftwareReset | HardwareReset

  datatype Phase =
    | Off
    | Booted           // before the checks at the start of DICE_main
    | Refused          // protections not set, or a watchdog reset
    | Reading          // DeviceSecretInitialize, before the first DeviceSecretGet
    | Drawing          // no secret found: asking the random number generator
    | Writing1(s: Uds) // programming the first copy
    | Writing2(s: Uds) // programming the second copy
    | Checking(s: Uds) // reading back what was written
    | Done(s: Uds)     // DeviceSecretInitialize returned 0, the secret is s
    | Failed           // DeviceSecretInitialize returned -1

  datatype State = State(
    placed: bool,                         // both copies lie where DeviceSecretGet wants them
    copy1: Uds, copy2: Uds,
    phase: Phase,
    protected: bool, reason: ResetReason, // of the current boot
    draws: seq<Uds>)                      // everything the generator has ever returned to provisioning

  predicate Gate(protected: bool, reason: ResetReason) {
    protected && reason != Watchdog
  }

  predicate Init(s: State) {
    s.copy1 == UNSET && s.copy2 == UNSET && s.phase == Off && s.draws == []
  }

  // ----- Steps -----

  predicate SameCells(s: State, t: State) {
    s.copy1 == t.copy1 && s.copy2 == t.copy2
  }

  /** `s` with other copies and another phase. */
  function With(s: State, copy1: Uds, copy2: Uds, phase: Phase): State {
    State(s.placed, copy1, copy2, phase, s.protected, s.reason, s.draws)
  }

  /** Only the phase changes. */
  predicate MovesTo(s: State, t: State, phase: Phase) {
    t == With(s, s.copy1, s.copy2, phase)
  }

  predicate PowerOn(s: State, t: State) {
    s.phase == Off && t == State(s.placed, s.copy1, s.copy2, Booted, t.protected, t.reason, s.draws)
  }

  predicate PowerLoss(s: State, t: State) {
    match s.phase
    case Writing1(_) => t == With(s, t.copy1, s.copy2, Off)
    case Writing2(_) => t == With(s, s.copy1, t.copy2, Off)
    case _ => t == With(s, s.copy1, s.copy2, Off)
  }

  predicate PassGate(s: State, t: State) {
    s.phase == Booted && MovesTo(s, t, if Gate(s.protected, s.reason) then Reading else Refused)
  }

  /** What DeviceSecretGet returns, if it succeeds. */
  predicate Readable(s: State) {
    s.placed && s.copy1 == s.copy2
  }

  predicate FirstRead(s: State, t: State) {
    && s.phase == Reading
    && MovesTo(s, t, if !Readable(s) then Failed else if s.copy1 == UNSET then Drawing else Done(s.copy1))
  }

  /** One call of RNG_Rand: it fails, or returns a value, and an all-0xFF value is drawn again. */
  ghost predicate Draw(s: State, t: State) {
    && s.phase == Drawing
    && (|| MovesTo(s, t, Failed)
        || exists u: Uds {:trigger DrawnTo(s, t, u)} :: DrawnTo(s, t, u))
  }

  predicate DrawnTo(s: State, t: State, u: Uds) {
    t == State(s.placed, s.copy1, s.copy2, if u == UNSET then Drawing else Writing1(u),
               s.protected, s.reason, s.draws + [u])
  }

  /** Flash_Write of one copy: a success has been read back, a failure leaves anything in the word. */
  predicate Write(s: State, t: State) {
    match s.phase
    case Writing1(u) => t == With(s, u, s.copy2, Writing2(u)) || t == With(s, t.copy1, s.copy2, Failed)
    case Writing2(u) => t == With(s, s.copy1, u, Checking(u)) || t == With(s, s.copy1, t.copy2, Failed)
    case _ => false
  }

  predicate Check(s: State, t: State) {
    && s.phase.Checking?
    && MovesTo(s, t, if Readable(s) && s.copy1 == s.phase.s then Done(s.phase.s) else Failed)
  }

  ghost predicate Step(s: State, t: State) {
    PowerOn(s, t) || PowerLoss(s, t) || PassGate(s, t) || FirstRead(s, t) || Draw(s, t) || Write(s, t) || Check(s, t)
  }

  lemma FirstReadIsStep(s: State, t: State)
    requires FirstRead(s, t)
    ensures Step(s, t)
  {
  }

  ghost predicate Run(states: seq<State>) {
    forall k :: 0 <= k < |states| - 1 ==> Step(states[k], states[k + 1])
  }

  // ----- The invariant -----

  predicate Started(phase: Phase) {
    !phase.Off? && !phase.Booted? && !phase.Refused?
  }

  /** The last value drawn. */
  predicate LastDraw(s: State, u: Uds) {
    u != UNSET && s.draws != [] && s.draws[|s.draws| - 1] == u
  }

  predicate Inv(s: State) {
    && (Started(s.phase) ==> Gate(s.protected, s.reason))
    // The second copy is only ever touched once the first holds the last draw.
    && (s.copy2 != UNSET ==> LastDraw(s, s.copy1))
    && match s.phase
       case Drawing => s.copy1 == s.copy2 == UNSET
       case Writing1(u) => s.copy1 == s.copy2 == UNSET && LastDraw(s, u)
       case Writing2(u) => s.copy1 == u && s.copy2 == UNSET && LastDraw(s, u)
       case Checking(u) => s.copy1 == s.copy2 == u && LastDraw(s, u)
       case Done(u) => s.placed && s.copy1 == s.copy2 == u && LastDraw(s, u)
       case _ => true
  }

  lemma InvPower(s: State, t: State)
    requires Inv(s) && (PowerOn(s, t) || PowerLoss(s, t))
    ensures Inv(t)
  {
  }

  lemma InvBoot(s: State, t: State)
    requires Inv(s) && (PassGate(s, t) || FirstRead(s, t) || Check(s, t))
    ensures Inv(t)
  {
  }

  lemma InvDraw(s: State, t: State)
    requires Inv(s) && Draw(s, t)
    ensures Inv(t)
  {
    if t.phase != Failed {
      var u :| DrawnTo(s, t, u);
    }
  }

  lemma InvWrite(s: State, t: State)
    requires Inv(s) && Write(s, t)
    ensures Inv(t)
  {
  }

  lemma InvStep(s: State, t: State)
    requires Inv(s) && Step(s, t)
    ensures Inv(t)
  {
    hide Inv, PowerOn, PowerLoss, PassGate, FirstRead, Draw, Write, Check;
    if PowerOn(s, t) || PowerLoss(s, t) {
      InvPower(s, t);
    } else if Draw(s, t) {
      InvDraw(s, t);
    } else if Write(s, t) {
      InvWrite(s, t);
    } else {
      InvBoot(s, t);
    }
  }

  lemma {:induction false} InvRun(states: seq<State>, k: nat)
    requires Run(states) && k < |states| && Init(states[0])
    ensures Inv(states[k])
  {
    if k > 0 {
      InvRun(states, k - 1);
      InvStep(states[k - 1], states[k]);
    }
  }

  // ----- Results about all runs -----

  /**
   * At any moment of any run, a secret that can be read is the factory value or exactly the last
   * value the generator returned, never a torn or mixed one.
   */
  lemma NeverTorn(states: seq<State>, k: nat)
    requires Run(states) && k < |states| && Init(states[0])
    ensures Readable(states[k]) ==> states[k].copy1 == UNSET || LastDraw(states[k], states[k].copy1)
  {
    InvRun(states, k);
  }

  /** What a boot can do once the secret is `u` in both copies. */
  predicate Settled(s: State, u: Uds) {
    && s.placed && s.copy1 == s.copy2 == u
    && (s.phase in {Off, Booted, Refused, Reading} || s.phase == Done(u))
  }

  lemma SettledStep(s: State, t: State, u: Uds)
    requires u != UNSET && Settled(s, u) && Step(s, t)
    ensures Settled(t, u) && t.draws == s.draws
  {
  }

  lemma {:induction false} SettledForever(states: seq<State>, u: Uds, j: nat, k: nat)
    requires Run(states) && j <= k < |states|
    requires u != UNSET && Settled(states[j], u)
    ensures Settled(states[k], u) && states[k].draws == states[j].draws
    decreases k
  {
    hide Settled, Step;
    if j < k {
      SettledForever(states, u, j, k - 1);
      SettledStep(states[k - 1], states[k], u);
    }
  }

  /**
   * Provisioning is final: once a boot has succeeded with some secret, no later step of any run
   * writes a copy or draws again, and every later boot that passes the gate succeeds with the same secret.
   */
  lemma ProvisioningIsFinal(states: seq<State>, j: nat, k: nat)
    requires Run(states) && j <= k < |states| && Init(states[0]) && states[j].phase.Done?
    ensures SameCells(states[j], states[k]) && states[k].draws == states[j].draws
    ensures states[k].phase in {Off, Booted, Refused, Reading, states[j].phase}
    ensures Readable(states[k]) && states[k].copy1 == states[j].phase.s != UNSET
  {
    InvRun(states, j);
    SettledForever(states, states[j].phase.s, j, k);
  }

  predicate Bricked(s: State) {
    s.copy1 != s.copy2 && s.phase in {Off, Booted, Refused, Reading, Failed}
  }

  lemma BrickedStep(s: State, t: State)
    requires Bricked(s) && Step(s, t)
    ensures Bricked(t) && SameCells(s, t) && t.draws == s.draws
  {
  }

  /** Once a boot finds the copies different, no later boot succeeds or writes. */
  lemma {:induction false} BrickedForever(states: seq<State>, j: nat, k: nat)
    requires Run(states) && j <= k < |states| && Bricked(states[j])
    ensures Bricked(states[k]) && SameCells(states[j], states[k]) && states[k].draws == states[j].draws
    decreases k
  {
    hide Bricked, Step;
    if j < k {
      BrickedForever(states, j, k - 1);
      BrickedStep(states[k - 1], states[k]);
    }
  }

  lemma {:induction false} UntouchedForever(states: seq<State>, j: nat, k: nat)
    requires Run(states) && j <= k < |states| && states[j].phase == Off
    requires states[j].copy1 == states[j].copy2 != UNSET
    ensures SameCells(states[j], states[k]) && states[k].placed == states[j].placed
    ensures states[k].phase in {Off, Booted, Refused, Reading, Failed, Done(states[j].copy1)}
    decreases k
  {
    if j < k {
      UntouchedForever(states, j, k - 1);
    }
  }

  /** Between boots a device is in exactly one of three conditions, and only the first can change. */
  lemma BetweenBoots(states: seq<State>, j: nat)
    requires Run(states) && j < |states| && Init(states[0]) && states[j].phase == Off
    ensures var s := states[j];
            || (s.copy1 == s.copy2 == UNSET)
            || (s.copy1 == s.copy2 && LastDraw(s, s.copy1))
            || Bricked(s)
    ensures !(states[j].copy1 == states[j].copy2 == UNSET) ==>
              forall k :: j <= k < |states| ==> SameCells(states[j], states[k])
  {
    InvRun(states, j);
    var s := states[j];
    if !(s.copy1 == s.copy2 == UNSET) {
      forall k | j <= k < |states|
        ensures SameCells(states[j], states[k])
      {
        if s.copy1 == s.copy2 {
          UntouchedForever(states, j, k);
        } else {
          BrickedForever(states, j, k);
        }
      }
    }
  }

  /** The write of a copy that step `j` of the run cut short or saw fail. */
  predicate WriteBroken(states: seq<State>, j: nat)
    requires j + 1 < |states|
  {
    (states[j].phase.Writing1? || states[j].phase.Writing2?) && states[j + 1].phase in {Off, Failed}
  }

  /** Only a broken write can leave the copies different: without one they differ only between the two writes. */
  lemma {:induction false} DifferOnlyAfterBrokenWrite(states: seq<State>, k: nat)
    requires Run(states) && k < |states| && Init(states[0])
    requires forall j: nat :: j < k ==> !WriteBroken(states, j)
    ensures states[k].copy1 == states[k].copy2 || states[k].phase.Writing2?
  {
    if k > 0 {
      InvRun(states, k - 1);
      DifferOnlyAfterBrokenWrite(states, k - 1);
      assert Step(states[k - 1], states[k]) && !WriteBroken(states, k - 1);
    }
  }

  /** A cell changes only in a boot whose protections were set and that was not a watchdog reset. */
  lemma OnlyGatedBootsWrite(states: seq<State>, k: nat)
    requires Run(states) && k + 1 < |states| && Init(states[0])
    ensures !SameCells(states[k], states[k + 1]) ==>
              states[k].protected && states[k].reason != Watchdog
  {
    InvRun(states, k);
    assert Step(states[k], states[k + 1]);
  }
}
