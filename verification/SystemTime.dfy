/**
 * Reading the 64-bit millisecond counter in 32-bit halves while the tick interrupt advances it
 * (system_setup.c).
 */
module SystemTime {

  const HALF: nat := 0x1_0000_0000
  const FULL: nat := 0x1_0000_0000_0000_0000

  /** The halves of the counter after `c` ticks. */
  function Low(c: nat): nat { c % HALF }
  function High(c: nat): nat { c / HALF % HALF }

  /** One 64-bit read: a half is read after `c` ticks and the other one after `d`. */
  function ReadHalves(c: nat, d: nat, lowFirst: bool): nat {
    if lowFirst then High(d) * HALF + Low(c) else High(c) * HALF + Low(d)
  }

  lemma Halves(c: nat)
    ensures c % FULL == High(c) * HALF + Low(c)
  {
    var h, q := c / HALF, c / FULL;
    assert c == h * HALF + Low(c);
    assert h == (h / HALF) * HALF + High(c);
    assert c == (h / HALF) * FULL + (High(c) * HALF + Low(c));
  }

  /** Within less than one turn of the upper half, equal upper halves mean equal quotients. */
  lemma SameHigh(c: nat, d: nat)
    requires c <= d && High(c) == High(d)
    requires d < FULL || d - c < HALF
    ensures c / HALF == d / HALF
  {
    var h, k := c / HALF, d / HALF;
    assert c == h * HALF + Low(c) && d == k * HALF + Low(d);
    if d < FULL {
      assert h < HALF && k < HALF;
    } else {
      assert k == h || k == h + 1;
    }
  }

  /** The value composed of the upper half at `c` and the lower half at `d` is the counter after `v` ticks. */
  lemma Composed(c: nat, d: nat, v: nat)
    requires v == c / HALF * HALF + Low(d)
    ensures v % FULL == High(c) * HALF + Low(d)
  {
    assert v / HALF == c / HALF && v % HALF == Low(d);
    Halves(v);
  }

  /**
   * Two equal reads in a row, each in either order of its halves, with any number of ticks before
   * each half read: the value read is one the counter held between the first half read and the last.
   */
  lemma EqualReadsWereHeld(c1: nat, c2: nat, c3: nat, c4: nat, lowFirst1: bool, lowFirst2: bool) returns (v: nat)
    requires c1 <= c2 <= c3 <= c4
    requires c4 < FULL || c4 - c1 < HALF
    requires ReadHalves(c1, c2, lowFirst1) == ReadHalves(c3, c4, lowFirst2)
    ensures c1 <= v <= c4 && v % FULL == ReadHalves(c1, c2, lowFirst1)
  {
    var high1, low1 := if lowFirst1 then c2 else c1, if lowFirst1 then c1 else c2;
    var high2, low2 := if lowFirst2 then c4 else c3, if lowFirst2 then c3 else c4;
    SplitEqual(High(high1), Low(low1), High(high2), Low(low2));
    SameHigh(high1, high2);
    v := high1 / HALF * HALF + Low(low1);
    Composed(high1, low1, v);
    Between(c1, c2, c3, c4, lowFirst1, lowFirst2, v);
  }

  /** A read that no tick interrupts, in either order. */
  lemma QuietRead(c: nat, lowFirst: bool)
    ensures ReadHalves(c, c, lowFirst) == c % FULL
  {
    Halves(c);
  }

  lemma SplitEqual(h: nat, l: nat, h': nat, l': nat)
    requires l < HALF && l' < HALF && h * HALF + l == h' * HALF + l'
    ensures h == h' && l == l'
  {
  }

  lemma Between(c1: nat, c2: nat, c3: nat, c4: nat, lowFirst1: bool, lowFirst2: bool, v: nat)
    requires c1 <= c2 <= c3 <= c4
    requires var high1, low1 := if lowFirst1 then c2 else c1, if lowFirst1 then c1 else c2;
             var high2, low2 := if lowFirst2 then c4 else c3, if lowFirst2 then c3 else c4;
             high1 / HALF == high2 / HALF && Low(low1) == Low(low2) && v == high1 / HALF * HALF + Low(low1)
    ensures c1 <= v <= c4
  {
    assert c1 == c1 / HALF * HALF + Low(c1) && c2 == c2 / HALF * HALF + Low(c2);
    assert c3 == c3 / HALF * HALF + Low(c3) && c4 == c4 / HALF * HALF + Low(c4);
    assert c1 / HALF <= c2 / HALF <= c3 / HALF <= c4 / HALF;
  }

  /** One read is not enough: a tick between its halves yields a value the counter never had. */
  lemma SingleReadMayTear(lowFirst: bool)
    ensures var c := HALF - 1;
            !(c <= ReadHalves(c, c + 1, lowFirst) <= c + 1)
  {
  }

  class Clock {
    /** `time_since_boot` */
    var timeSinceBoot: nat
    /** Ticks since boot, not wrapping. */
    ghost var ticks: nat

    ghost predicate Valid()
      reads this
    {
      timeSinceBoot == ticks % FULL
    }

    constructor ()
      ensures Valid() && ticks == 0
    {
      timeSinceBoot := 0;
      ticks := 0;
    }

    method SysTickHandler()
      requires Valid()
      modifies this
      ensures Valid() && ticks == old(ticks) + 1
    {
      timeSinceBoot := (timeSinceBoot + 1) % FULL;
      ticks := ticks + 1;
    }

    /** `n` interrupts, then the read of one half. */
    method ReadHalf(n: nat, low: bool) returns (half: nat)
      requires Valid()
      modifies this
      ensures Valid() && ticks == old(ticks) + n
      ensures half == if low then Low(ticks) else High(ticks)
    {
      for i := 0 to n
        invariant Valid() && ticks == old(ticks) + i
      {
        SysTickHandler();
      }
      Halves(ticks);
      SplitEqual(timeSinceBoot / HALF, timeSinceBoot % HALF, High(ticks), Low(ticks));
      half := if low then timeSinceBoot % HALF else timeSinceBoot / HALF;
    }

    /** One 64-bit read with `n1` interrupts before its first half and `n2` before its second. */
    method Read(n1: nat, n2: nat, lowFirst: bool) returns (t: nat)
      requires Valid()
      modifies this
      ensures Valid() && ticks == old(ticks) + n1 + n2
      ensures t == ReadHalves(old(ticks) + n1, ticks, lowFirst)
    {
      var first := ReadHalf(n1, lowFirst);
      var second := ReadHalf(n2, !lowFirst);
      t := if lowFirst then second * HALF + first else first * HALF + second;
    }

    /** One iteration: two reads, with `n1` to `n4` interrupts before their four halves. */
    method ReadTwice(n1: nat, n2: nat, n3: nat, n4: nat, lowFirst1: bool, lowFirst2: bool)
      returns (t1: nat, t2: nat, ghost held: nat)
      requires Valid()
      modifies this
      ensures Valid() && ticks == old(ticks) + n1 + n2 + n3 + n4
      ensures n2 == n3 == n4 == 0 ==> t1 == t2
      ensures t1 == t2 && (ticks < FULL || n2 + n3 + n4 < HALF) ==>
                old(ticks) + n1 <= held <= ticks && t1 == held % FULL
    {
      hide ReadHalves;
      held := 0;
      ghost var start := ticks + n1;
      t1 := Read(n1, n2, lowFirst1);
      t2 := Read(n3, n4, lowFirst2);
      QuietRead(start, lowFirst1);
      QuietRead(start, lowFirst2);
      if t1 == t2 && (ticks < FULL || n2 + n3 + n4 < HALF) {
        held := EqualReadsWereHeld(start, start + n2, start + n2 + n3, ticks, lowFirst1, lowFirst2);
      }
    }

    /**
     * `interrupts(k)` ticks arrive before the `k`th half read and `lowFirst(k)` gives the order of
     * the `k`th read. Iteration `quiet` sees no tick between its half reads, so the loop ends at the
     * latest there. `start` is the tick count at the first half read of the last iteration.
     */
    method SystemTime(interrupts: nat -> nat, lowFirst: nat -> bool, ghost quiet: nat)
      returns (t: nat, ghost start: nat, ghost held: nat)
      requires Valid()
      requires interrupts(4 * quiet + 1) == interrupts(4 * quiet + 2) == interrupts(4 * quiet + 3) == 0
      modifies this
      ensures Valid() && old(ticks) <= start <= ticks
      ensures ticks < FULL || ticks - start < HALF ==> start <= held <= ticks && t == held % FULL
    {
      var k := 0;
      while true
        invariant Valid() && old(ticks) <= ticks && k <= quiet
        decreases quiet - k
      {
        start := ticks + interrupts(4 * k);
        var t2;
        t, t2, held := ReadTwice(interrupts(4 * k), interrupts(4 * k + 1), interrupts(4 * k + 2), interrupts(4 * k + 3),
                                 lowFirst(2 * k), lowFirst(2 * k + 1));
        if t == t2 {
          return;
        }
        k := k + 1;
      }
    }
  }
}
