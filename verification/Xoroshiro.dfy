/** The software generator xoroshiro128+ (xoroshiro128plus.cpp) and the buffers filled from it (host/rng.c). */
module Xoroshiro {
  import opened Words

  datatype State = State(s0: bv64, s1: bv64)

  const ZERO := State(0, 0)
  const DEFAULT_SEED := State(0x123, 0x456)

  function Next(s: State): State {
    var t := Xor(s.s1, s.s0);
    State(Xor(Xor(Rotl(s.s0, 24), t), Shl16(t)), Rotl(t, 37))
  }

  function Output(s: State): bv64 {
    Add(s.s0, s.s1)
  }

  // ----- One step -----

  /** The state before `s`. */
  function Previous(s: State): State {
    var t := Rotl(s.s1, 27);
    var s0 := Rotl(Xor(Xor(s.s0, Shl16(t)), t), 40);
    State(s0, Xor(t, s0))
  }

  function XorStates(a: State, b: State): State {
    State(Xor(a.s0, b.s0), Xor(a.s1, b.s1))
  }

  /** A step can be undone, and every state is the result of a step: it is a bijection. */
  lemma StepIsBijective(s: State)
    ensures Previous(Next(s)) == s
    ensures Next(Previous(s)) == s
  {
    hide Rotl, Xor, Shl16;
    var t, r := Xor(s.s1, s.s0), Rotl(s.s0, 24);
    Rotl37Undone(t);
    XorUndone(Xor(r, t), Shl16(t));
    XorUndone(r, t);
    Rotl24Undone(s.s0);
    XorUndone(s.s1, s.s0);
    var u := Rotl(s.s1, 27);
    var v := Xor(s.s0, Shl16(u));
    XorUndone(u, Rotl(Xor(v, u), 40));
    Rotl40Undone(Xor(v, u));
    XorUndone(v, u);
    XorUndone(s.s0, Shl16(u));
    Rotl27Undone(s.s1);
  }

  /** A step is linear over GF(2): a linear map on 128 bits. */
  lemma StepIsLinear(a: State, b: State)
    ensures Next(XorStates(a, b)) == XorStates(Next(a), Next(b))
  {
    hide Rotl, Xor, Shl16;
    var t, u := Xor(a.s1, a.s0), Xor(b.s1, b.s0);
    XorPairs(a.s1, b.s1, a.s0, b.s0);
    Rotl24Xor(a.s0, b.s0);
    Rotl37Xor(t, u);
    Shl16Xor(t, u);
    XorPairs(Rotl(a.s0, 24), Rotl(b.s0, 24), t, u);
    XorPairs(Xor(Rotl(a.s0, 24), t), Xor(Rotl(b.s0, 24), u), Shl16(t), Shl16(u));
  }

  lemma ZeroIsFixed(s: State)
    ensures Next(s) == ZERO <==> s == ZERO
  {
    assert Next(ZERO) == ZERO;
    hide Next;
    StepIsBijective(s);
    StepIsBijective(ZERO);
  }

  /** The default seed, two steps and the outputs before them, in numbers. */
  lemma FirstSteps()
    ensures Output(DEFAULT_SEED) == 0x579
    ensures Next(DEFAULT_SEED) == State(0x1_2675_0575, 0xAEA0_0000_0000)
    ensures Output(Next(DEFAULT_SEED)) == 0xAEA1_2675_0575
    ensures Next(Next(DEFAULT_SEED)) == State(0xAF87_FDD1_5600_0575, 0xCEA0_AEA0_0015_D424)
  {
    var second := State(0x1_2675_0575, 0xAEA0_0000_0000);
    assert Next(DEFAULT_SEED) == second;
    assert Next(second) == State(0xAF87_FDD1_5600_0575, 0xCEA0_AEA0_0015_D424);
  }

  // ----- The sequence of states -----

  function Iterate(s: State, n: nat): State {
    if n == 0 then s else Next(Iterate(s, n - 1))
  }

  lemma {:induction false} IterateAdd(s: State, n: nat, m: nat)
    ensures Iterate(s, n + m) == Iterate(Iterate(s, n), m)
  {
    hide Next;
    if m > 0 {
      IterateAdd(s, n, m - 1);
    }
  }

  lemma {:induction false} NeverZero(s: State, n: nat)
    requires s != ZERO
    ensures Iterate(s, n) != ZERO
  {
    hide Next;
    if n > 0 {
      NeverZero(s, n - 1);
      ZeroIsFixed(Iterate(s, n - 1));
    }
  }

  /** Two equal states stay equal going back to the seed. */
  lemma {:induction false} Rewind(s: State, n: nat, m: nat)
    requires Iterate(s, n) == Iterate(s, n + m)
    ensures Iterate(s, m) == s
  {
    hide Next;
    if n > 0 {
      StepIsBijective(Iterate(s, n - 1));
      StepIsBijective(Iterate(s, n + m - 1));
      Rewind(s, n - 1, m);
    }
  }

  const STATES: nat := WORD * WORD

  function Number(s: State): (x: nat)
    ensures x < STATES
  {
    Value(s.s0) * WORD + Value(s.s1)
  }

  lemma NumberIsInjective(s: State, t: State)
    requires Number(s) == Number(t)
    ensures s == t
  {
    hide Value;
    TwoDigits(Value(s.s0), Value(s.s1), Value(t.s0), Value(t.s1));
    ValueIsInjective(s.s0, t.s0);
    ValueIsInjective(s.s1, t.s1);
  }

  /** More than `n` numbers below `n` repeat. */
  lemma {:induction false} Pigeonhole(f: nat -> nat, n: nat) returns (i: nat, j: nat)
    requires n > 0 && forall k: nat :: k <= n ==> f(k) < n
    ensures i < j <= n && f(i) == f(j)
    decreases n
  {
    // Take the value n - 1 out: either it occurs twice, or moving f(n) into its place leaves a smaller case.
    if k: nat, l: nat :| k < l <= n && f(k) == f(l) {
      i, j := k, l;
    } else {
      var g := (k: nat) => if f(k) == n - 1 then f(n) else f(k);
      assert n > 1 by {
        assert f(0) < n && f(1) < n;
      }
      forall k: nat | k <= n - 1
        ensures g(k) < n - 1
      {
        assert f(k) != f(n);
      }
      i, j := Pigeonhole(g, n - 1);
      assert false;
    }
  }

  /** Purely periodic: from every seed, the seed itself comes back within 2^128 steps. */
  lemma SeedRecurs(s: State) returns (period: nat)
    ensures 0 < period <= STATES && Iterate(s, period) == s
    ensures forall n: nat :: Iterate(s, n + period) == Iterate(s, n)
  {
    hide Next, Number;
    var f := (k: nat) => Number(Iterate(s, k));
    var i, j := Pigeonhole(f, STATES);
    NumberIsInjective(Iterate(s, i), Iterate(s, j));
    period := j - i;
    Rewind(s, i, period);
    forall n: nat
      ensures Iterate(s, n + period) == Iterate(s, n)
    {
      IterateAdd(s, period, n);
    }
  }

  // ----- The code -----

  /** The byte RNG_Rand takes from one output. */
  function ToByte(output: bv64): bv8 {
    ((output >> 48) & 0xFF) as bv8
  }

  /** Bits 48 to 55 of the output, that is `(output / 2^48) % 256`. */
  lemma ToByteBits(output: bv64)
    ensures (ToByte(output) as bv64) << 48 == output & 0xFF_0000_0000_0000
  {
  }

  /** One byte of RNG_Rand in numbers: here the sum of the words matters. */
  lemma FirstByte()
    ensures RandByte(State(0x1_0000_0000_0000, 0x1_0000_0000_0000)) == 2
  {
  }

  function RandByte(s: State): bv8 {
    ToByte(Output(s))
  }

  function Bytes(s: State, n: nat): (b: seq<bv8>)
    ensures |b| == n
  {
    seq(n, i requires 0 <= i < n => RandByte(Iterate(s, i)))
  }

  /** Filling n + m bytes is filling n bytes and then m bytes from the advanced state. */
  lemma {:induction false} FillInTwo(s: State, n: nat, m: nat)
    ensures Bytes(s, n + m) == Bytes(s, n) + Bytes(Iterate(s, n), m)
    ensures Iterate(s, n + m) == Iterate(Iterate(s, n), m)
  {
    hide Next, RandByte, Iterate;
    IterateAdd(s, n, m);
    forall i | 0 <= i < m
      ensures Bytes(s, n + m)[n + i] == Bytes(Iterate(s, n), m)[i]
    {
      IterateAdd(s, n, i);
    }
  }

  lemma NextIs(s0: bv64, s1: bv64)
    ensures Next(State(s0, s1)) == State(Xor(Xor(Rotl(s0, 24), Xor(s1, s0)), Shl16(Xor(s1, s0))), Rotl(Xor(s1, s0), 37))
    ensures Output(State(s0, s1)) == Add(s0, s1)
  {
  }

  class Generator {
    var s: array<bv64>
    /** The seed and the number of steps since. */
    ghost var seed: State
    ghost var steps: nat

    ghost predicate Valid()
      reads this, s
    {
      s.Length == 2 && seed != ZERO && Now() == Iterate(seed, steps)
    }

    ghost function Now(): State
      requires s.Length == 2
      reads this, s
    {
      State(s[0], s[1])
    }

    constructor ()
      ensures Valid() && fresh(s) && Now() == DEFAULT_SEED
    {
      s := new bv64[2];
      seed := DEFAULT_SEED;
      steps := 0;
      new;
      s[0], s[1] := 0x123, 0x456;
    }

    method Rand() returns (result: bv64)
      requires Valid()
      modifies this`steps, s
      ensures Valid() && seed == old(seed) && steps == old(steps) + 1
      ensures result == Add(old(s[0]), old(s[1])) == Output(old(Now()))
      ensures Now() == Next(old(Now())) != ZERO
    {
      NeverZero(seed, steps + 1);
      BytesNext(seed, steps);
      NextIs(s[0], s[1]);
      hide Next, Rotl, Xor, Shl16, Add, Output, Iterate, ZERO;
      var s0 := s[0];
      var s1 := s[1];
      result := Add(s0, s1);
      s1 := Xor(s1, s0);
      s[0] := Xor(Xor(Rotl(s0, 24), s1), Shl16(s1));
      s[1] := Rotl(s1, 37);
      steps := steps + 1;
    }

    method Seed(a: bv64, b: bv64)
      requires Valid()
      requires a != 0 || b != 0
      modifies this`seed, this`steps, s
      ensures Valid() && Now() == State(a, b) == seed && steps == 0
    {
      s[0] := a;
      s[1] := b;
      seed := State(a, b);
      steps := 0;
    }

    /** RNG_Rand: `size` bytes into `buffer` from `at` on. */
    method Fill(buffer: array<bv8>, at: nat, size: nat) returns (ret: int)
      requires Valid() && at + size <= buffer.Length
      modifies this`steps, s, buffer
      ensures ret == 0
      ensures Valid() && seed == old(seed) && Now() == Iterate(old(Now()), size)
      ensures buffer[..] == old(buffer[..at]) + Bytes(old(Now()), size) + old(buffer[at + size..])
    {
      hide Next, Rotl, Add, Output, ToByte;
      ghost var start := Now();
      var i := 0;
      while i < size
        invariant 0 <= i <= size
        invariant Valid() && seed == old(seed) && Now() == Iterate(start, i)
        invariant buffer[..] == old(buffer[..at]) + Bytes(start, i) + old(buffer[at + i..])
      {
        BytesNext(start, i);
        var r := Rand();
        buffer[at + i] := ToByte(r);
        i := i + 1;
      }
      return 0;
    }
  }

  lemma BytesNext(s: State, n: nat)
    ensures Bytes(s, n + 1) == Bytes(s, n) + [RandByte(Iterate(s, n))]
    ensures Iterate(s, n + 1) == Next(Iterate(s, n))
  {
    hide Next, RandByte;
  }
}
