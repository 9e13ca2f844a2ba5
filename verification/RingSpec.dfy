/**
 * Circular logs as values: what one character does to a ring, and what a ring that started from
 * unknown memory holds after any run of operations.
 */
module RingSpec {
  import opened Bytes

  function LastN(n: nat, s: seq<char>): (r: seq<char>)
    ensures |r| == if |s| < n then |s| else n
  {
    if |s| < n then s else s[|s| - n..]
  }

  lemma LastOfLast(m: nat, n: nat, s: seq<char>)
    requires m <= n
    ensures LastN(m, LastN(n, s)) == LastN(m, s)
  {
  }

  /** A C string: the characters before the first '\0'. */
  function CString(str: seq<char>): (s: seq<char>)
    requires '\0' in str
    ensures |s| < |str| && s == str[..|s|] && str[|s|] == '\0' && '\0' !in s
  {
    if str[0] == '\0' then [] else [str[0]] + CString(str[1..])
  }

  /** `log_write_ptr`, `log_size` and `log[]`. */
  datatype Ring = Ring(ptr: u32, size: u32, log: seq<char>)

  type RingState = r: Ring | 0 < |r.log| < TWO_TO_THE_32 witness Ring(0, 0, ['?'])

  predicate Sane(r: RingState) {
    r.ptr < |r.log| && r.size <= |r.log|
  }

  function Repaired(r: RingState): (q: RingState)
    ensures Sane(q)
  {
    if Sane(r) then r else Ring(0, 0, r.log)
  }

  function Put(r: RingState, c: char): (q: RingState)
    requires Sane(r)
    ensures Sane(q) && |q.log| == |r.log|
  {
    var n := |r.log|;
    Ring(if r.ptr + 1 >= n then 0 else r.ptr + 1, if r.size < n then r.size + 1 else r.size, r.log[r.ptr := c])
  }

  function PutAll(r: RingState, s: seq<char>): (q: RingState)
    requires Sane(r)
    ensures Sane(q) && |q.log| == |r.log|
  {
    if s == [] then r else Put(PutAll(r, s[..|s| - 1]), s[|s| - 1])
  }

  lemma PutAllNone(r: RingState, s: seq<char>)
    requires Sane(r)
    ensures PutAll(r, s[..0]) == r
  {
  }

  lemma {:induction false} PutAllNext(r: RingState, s: seq<char>, i: nat)
    requires Sane(r) && i < |s|
    ensures PutAll(r, s[..i + 1]) == Put(PutAll(r, s[..i]), s[i])
  {
    assert s[..i + 1][..i] == s[..i];
  }

  function Appended(r: RingState, s: seq<char>): (q: RingState)
    ensures Sane(q) && |q.log| == |r.log|
  {
    PutAll(Repaired(r), s)
  }

  // ----- Reading a ring -----

  /** The two parts as offset and size, with the code's unsigned subtraction. */
  datatype Parts = Parts(start1: u32, size1: u32, start2: u32, size2: u32)

  function LogParts(r: RingState): Parts {
    if r.size < |r.log| then Parts(0, r.size, 0, 0)
    else Parts(r.ptr, Wrap(|r.log| - r.ptr), 0, r.ptr)
  }

  predicate Readable(r: RingState) {
    r.size < |r.log| || r.ptr <= |r.log|
  }

  /** Reading makes no sanity check: the parts lie in the log and fit the copy exactly when `Readable`. */
  lemma PartsInLogIff(r: RingState)
    ensures Readable(r) <==>
            var p := LogParts(r);
            p.start1 + p.size1 <= |r.log| && p.start2 + p.size2 <= |r.log| && p.size1 + p.size2 <= |r.log|
  {
  }

  function Contents(r: RingState): (s: seq<char>)
    requires Readable(r)
    ensures |s| <= |r.log|
  {
    if r.size < |r.log| then r.log[..r.size] else r.log[r.ptr..] + r.log[..r.ptr]
  }

  // ----- What a ring holds -----

  /** Index of the `j`th last character written. */
  function Back(n: nat, ptr: nat, j: nat): (i: nat)
    requires ptr < n && j < n
    ensures i < n
  {
    if j < ptr then ptr - 1 - j else n + ptr - 1 - j
  }

  function Min(a: nat, b: nat): nat {
    if a < b then a else b
  }

  /** The last characters of `h` lie behind the write pointer. */
  predicate Holds(r: RingState, h: seq<char>) {
    && Sane(r)
    && Min(|h|, |r.log|) <= r.size
    && forall j | 0 <= j < Min(|h|, |r.log|) :: r.log[Back(|r.log|, r.ptr, j)] == h[|h| - 1 - j]
  }

  /** And there is nothing else in the ring. */
  predicate HoldsOnly(r: RingState, h: seq<char>) {
    && Holds(r, h)
    && r.size == Min(|h|, |r.log|)
    && (r.size < |r.log| ==> r.ptr == r.size)
  }

  lemma PutHolds(r: RingState, h: seq<char>, c: char)
    requires Holds(r, h)
    ensures Holds(Put(r, c), h + [c])
    ensures HoldsOnly(r, h) ==> HoldsOnly(Put(r, c), h + [c])
  {
    var n, q := |r.log|, Put(r, c);
    forall j | 0 <= j < Min(|h| + 1, n)
      ensures q.log[Back(n, q.ptr, j)] == (h + [c])[|h| - j]
    {
      if j > 0 {
        assert Back(n, q.ptr, j) == Back(n, r.ptr, j - 1) != r.ptr;
      }
    }
  }

  lemma {:induction false} PutAllHolds(r: RingState, h: seq<char>, s: seq<char>)
    requires Holds(r, h)
    ensures Holds(PutAll(r, s), h + s)
    ensures HoldsOnly(r, h) ==> HoldsOnly(PutAll(r, s), h + s)
  {
    if s == [] {
      assert h + s == h;
    } else {
      var t := s[..|s| - 1];
      PutAllHolds(r, h, t);
      PutHolds(PutAll(r, t), h + t, s[|s| - 1]);
      assert h + s == h + t + [s[|s| - 1]];
    }
  }

  /** A ring that has been filled, or that holds nothing else, reads as the end of its history. */
  lemma ContentsOfHeld(r: RingState, h: seq<char>)
    requires Holds(r, h) && (|h| >= |r.log| || HoldsOnly(r, h))
    ensures Contents(r) == LastN(|r.log|, h)
  {
    var n, s, l := |r.log|, Contents(r), LastN(|r.log|, h);
    assert |s| == |l|;
    forall i | 0 <= i < |s|
      ensures s[i] == l[i]
    {
      var j := |s| - 1 - i;
      assert r.log[Back(n, r.ptr, j)] == h[|h| - 1 - j];
    }
  }

  // ----- Runs -----

  datatype Op = Append(s: seq<char>) | Read | Reset | Clean

  function Apply(r: RingState, op: Op): (q: RingState)
    ensures |q.log| == |r.log|
  {
    match op
    case Append(s) => Appended(r, s)
    case Read => r
    case Reset => Ring(0, 0, r.log)
    case Clean => Ring(0, 0, seq(|r.log|, _ => '\0'))
  }

  function Run(r: RingState, ops: seq<Op>): (q: RingState)
    ensures |q.log| == |r.log|
    decreases ops
  {
    if ops == [] then r else Run(Apply(r, ops[0]), ops[1..])
  }

  /** The characters appended since the last reset, given those appended so far. */
  function History(h: seq<char>, ops: seq<Op>): seq<char>
    decreases ops
  {
    if ops == [] then h
    else match ops[0]
         case Append(s) => History(h + s, ops[1..])
         case Read => History(h, ops[1..])
         case Reset => History([], ops[1..])
         case Clean => History([], ops[1..])
  }

  predicate HasReset(ops: seq<Op>) {
    Reset in ops || Clean in ops
  }

  /** `h` since the last reset if there was one; otherwise on top of unknown memory. */
  predicate Tracks(r: RingState, h: seq<char>, known: bool) {
    if known then HoldsOnly(r, h) else h == [] || Holds(r, h)
  }

  lemma {:induction false} RunTracks(r: RingState, h: seq<char>, known: bool, ops: seq<Op>)
    requires Tracks(r, h, known)
    ensures Tracks(Run(r, ops), History(h, ops), known || HasReset(ops))
    decreases ops
  {
    if ops != [] {
      var q := Apply(r, ops[0]);
      assert ops == [ops[0]] + ops[1..];
      match ops[0]
      case Append(s) =>
        PutAllHolds(Repaired(r), h, s);
        RunTracks(q, h + s, known, ops[1..]);
      case Read =>
        RunTracks(q, h, known, ops[1..]);
      case Reset =>
        RunTracks(q, [], true, ops[1..]);
      case Clean =>
        RunTracks(q, [], true, ops[1..]);
    }
  }

  /**
   * From memory holding anything at all, a log reads as the last N characters appended since its
   * last reset, once there was a reset or N characters were appended.
   */
  lemma {:induction false} ReadsLastCharacters(r: RingState, ops: seq<Op>)
    requires HasReset(ops) || |History([], ops)| >= |r.log|
    ensures Readable(Run(r, ops))
    ensures Contents(Run(r, ops)) == LastN(|r.log|, History([], ops))
  {
    RunTracks(r, [], false, ops);
    ContentsOfHeld(Run(r, ops), History([], ops));
  }

  /** Without either, unknown memory may show: here the log returns a character never appended. */
  lemma UnknownMemoryMayShow()
    ensures var r: RingState := Ring(0, 1, ['x', 'y']);
            Contents(Run(r, [Append(['a'])])) != LastN(2, ['a'])
  {
    var r: RingState := Ring(0, 1, ['x', 'y']);
    var q := Run(r, [Append(['a'])]);
    assert q == Run(Apply(r, Append(['a'])), []);
    assert PutAll(r, ['a']) == Put(PutAll(r, []), 'a');
    assert Contents(q)[0] == 'y';
  }

  // ----- Exactly when a log reads right -----

  predicate HasAppend(ops: seq<Op>) {
    exists k :: 0 <= k < |ops| && ops[k].Append?
  }

  /** Without a reset, a run with an append is one append of its history; one without leaves the ring alone. */
  lemma {:induction false} RunIsOneAppend(r: RingState, ops: seq<Op>)
    requires !HasReset(ops)
    ensures Run(r, ops) == if HasAppend(ops) then Appended(r, History([], ops)) else r
    ensures !HasAppend(ops) ==> History([], ops) == []
    decreases ops
  {
    if ops != [] {
      assert ops == [ops[0]] + ops[1..] && ops[0] in ops;
      if ops[0].Read? {
        RunIsOneAppend(r, ops[1..]);
        assert HasAppend(ops) <==> HasAppend(ops[1..]) by {
          assert forall k :: 0 <= k < |ops[1..]| ==> ops[1..][k] == ops[k + 1];
        }
      } else if ops[0].Append? {
        var s := ops[0].s;
        assert [] + s == s;
        RunAppends(Appended(r, s), s, ops[1..]);
        AppendTwice(r, s, History([], ops[1..]));
      }
    }
  }

  /** Appends and reads on a ring that is already sane. */
  lemma {:induction false} RunAppends(r: RingState, h: seq<char>, ops: seq<Op>)
    requires Sane(r) && !HasReset(ops)
    ensures Run(r, ops) == PutAll(r, History([], ops))
    ensures History(h, ops) == h + History([], ops)
    decreases ops
  {
    if ops != [] {
      assert ops == [ops[0]] + ops[1..] && ops[0] in ops;
      if ops[0].Read? {
        RunAppends(r, h, ops[1..]);
      } else if ops[0].Append? {
        var s := ops[0].s;
        assert [] + s == s;
        RunAppends(Appended(r, s), h + s, ops[1..]);
        RunAppends(Appended(r, s), s, ops[1..]);
        AppendTwice(r, s, History([], ops[1..]));
        assert h + s + History([], ops[1..]) == h + (s + History([], ops[1..]));
      }
    }
  }

  lemma {:induction false} AppendTwice(r: RingState, a: seq<char>, b: seq<char>)
    ensures PutAll(Appended(r, a), b) == Appended(r, a + b)
  {
    if b == [] {
      assert a + b == a;
    } else {
      AppendTwice(r, a, b[..|b| - 1]);
      assert (a + b)[..|a + b| - 1] == a + b[..|b| - 1];
    }
  }

  /** The indices that `len` characters written from `ptr` on do not reach. */
  predicate Unwritten(n: nat, ptr: nat, len: nat, k: nat) {
    if ptr + len <= n then k < ptr || ptr + len <= k else ptr + len - n <= k < ptr
  }

  /** Fewer than N characters, from anywhere in the ring. */
  lemma {:induction false} PutAllWindow(r: RingState, s: seq<char>, k: nat)
    requires Sane(r) && |s| < |r.log| && k < |r.log|
    ensures var q, n := PutAll(r, s), |r.log|;
            && q.ptr == (if r.ptr + |s| < n then r.ptr + |s| else r.ptr + |s| - n)
            && q.size == Min(r.size + |s|, n)
            && (Unwritten(n, r.ptr, |s|, k) ==> q.log[k] == r.log[k])
  {
    if s != [] {
      PutAllWindow(r, s[..|s| - 1], k);
    }
  }

  /** Counters from which an append of fewer than N characters reads right, whatever the log holds. */
  predicate GoodCounters(n: nat, ptr: u32, size: u32, empty: bool) {
    ptr >= n || size > n || (size == 0 && (ptr == 0 || empty))
  }

  lemma GoodCountersReadRight(r: RingState, s: seq<char>)
    requires |s| < |r.log| && GoodCounters(|r.log|, r.ptr, r.size, s == [])
    ensures Contents(Appended(r, s)) == s
  {
    if Sane(r) && s == [] {
      assert Appended(r, s) == r;
    } else {
      assert HoldsOnly(Repaired(r), []);
      PutAllHolds(Repaired(r), [], s);
      assert [] + s == s;
      ContentsOfHeld(Appended(r, s), s);
    }
  }

  /** From other counters, some contents of the log show through. */
  lemma BadCountersReadWrong(n: nat, ptr: u32, size: u32, s: seq<char>) returns (log: seq<char>)
    requires |s| < n < TWO_TO_THE_32 && !GoodCounters(n, ptr, size, s == [])
    ensures |log| == n && Contents(Appended(Ring(ptr, size, log), s)) != s
  {
    var k := if ptr + |s| <= n then 0 else ptr + |s| - n;
    var other := if s != [] && s[Min(k, |s| - 1)] == 'x' then 'y' else 'x';
    log := seq(n, _ => other);
    var r: RingState := Ring(ptr, size, log);
    PutAllWindow(r, s, k);
    var q := Appended(r, s);
    if size == 0 {
      assert q.size == |s| && Contents(q)[k] == q.log[k] == other;
    } else {
      assert |Contents(q)| == q.size > |s|;
    }
  }

  /** Append alone: right for all contents of the log exactly from good counters. */
  lemma AppendReadsRightIff(n: nat, ptr: u32, size: u32, s: seq<char>)
    requires |s| < n < TWO_TO_THE_32
    ensures (forall log: seq<char> | |log| == n :: Contents(Appended(Ring(ptr, size, log), s)) == s)
            <==> GoodCounters(n, ptr, size, s == [])
  {
    if GoodCounters(n, ptr, size, s == []) {
      forall log: seq<char> | |log| == n
        ensures Contents(Appended(Ring(ptr, size, log), s)) == s
      {
        GoodCountersReadRight(Ring(ptr, size, log), s);
      }
    } else {
      var log := BadCountersReadWrong(n, ptr, size, s);
    }
  }

  /** The log reads as the last N characters since its last reset. */
  predicate ReadsRight(r: RingState, ops: seq<Op>) {
    var q := Run(r, ops);
    Readable(q) && Contents(q) == LastN(|r.log|, History([], ops))
  }

  lemma {:induction false} ReadsRightWithoutReset(r: RingState, ops: seq<Op>)
    requires !HasReset(ops) && |History([], ops)| < |r.log|
    ensures var h := History([], ops);
            ReadsRight(r, ops) <==> if HasAppend(ops) then Contents(Appended(r, h)) == h else r.size == 0
  {
    RunIsOneAppend(r, ops);
  }

  /**
   * For every run from unknown memory: the log reads right, whatever its bytes were, if and only if
   * there was a reset, or N characters were appended, or the counters were good to begin with.
   */
  lemma {:induction false} ReadsRightIff(n: nat, ptr: u32, size: u32, ops: seq<Op>)
    requires 0 < n < TWO_TO_THE_32
    ensures (forall log: seq<char> | |log| == n :: ReadsRight(Ring(ptr, size, log), ops))
            <==>
            || HasReset(ops)
            || |History([], ops)| >= n
            || (if HasAppend(ops) then GoodCounters(n, ptr, size, History([], ops) == []) else size == 0)
  {
    hide ReadsRight, GoodCounters, Contents, Appended, Run, History, HasReset, HasAppend;
    var h := History([], ops);
    forall log: seq<char> | |log| == n
      ensures if HasReset(ops) || |h| >= n then ReadsRight(Ring(ptr, size, log), ops)
              else ReadsRight(Ring(ptr, size, log), ops)
                   <==> if HasAppend(ops) then Contents(Appended(Ring(ptr, size, log), h)) == h else size == 0
    {
      var r: RingState := Ring(ptr, size, log);
      if HasReset(ops) || |h| >= n {
        ReadsRightAfter(r, ops);
      } else {
        ReadsRightWithoutReset(r, ops);
      }
    }
    if !HasReset(ops) && |h| < n {
      AppendReadsRightIff(n, ptr, size, h);
      var some: seq<char> := seq(n, _ => 'x');
      assert |some| == n && (ReadsRight(Ring(ptr, size, some), ops) || !ReadsRight(Ring(ptr, size, some), ops));
    }
  }

  lemma {:induction false} ReadsRightAfter(r: RingState, ops: seq<Op>)
    requires HasReset(ops) || |History([], ops)| >= |r.log|
    ensures ReadsRight(r, ops)
  {
    ReadsLastCharacters(r, ops);
  }

  // ----- When a log can be read at all -----

  predicate OnlyReads(ops: seq<Op>) {
    forall k :: 0 <= k < |ops| ==> ops[k].Read?
  }

  /** One append or reset makes this read and every later one safe. Nothing else does. */
  lemma {:induction false} ReadableIff(r: RingState, ops: seq<Op>)
    ensures Readable(Run(r, ops)) <==> Readable(r) || !OnlyReads(ops)
    ensures Sane(r) ==> Sane(Run(r, ops))
    decreases ops
  {
    if ops != [] {
      ReadableIff(Apply(r, ops[0]), ops[1..]);
      assert OnlyReads(ops) <==> ops[0].Read? && OnlyReads(ops[1..]) by {
        assert ops == [ops[0]] + ops[1..];
      }
    }
  }

  /** Unknown counters may not be readable: here the first part would wrap. */
  lemma UnknownCountersMayNotBeReadable()
    ensures var r: RingState := Ring(3, 2, ['x', 'y']);
            !Readable(r) && LogParts(r).size1 == TWO_TO_THE_32 - 1
  {
  }

  /** Two logs fed the same characters: the smaller one always reads as the end of the larger one. */
  lemma SmallerLogIsSuffix(big: RingState, small: RingState, h: seq<char>)
    requires |small.log| <= |big.log|
    requires HoldsOnly(big, h) && HoldsOnly(small, h)
    ensures Contents(small) == LastN(|small.log|, Contents(big))
  {
    ContentsOfHeld(big, h);
    ContentsOfHeld(small, h);
    LastOfLast(|small.log|, |big.log|, h);
  }

  /** The same once both are full, whatever they held at the start and whatever their resets. */
  lemma {:induction false} SmallerLogIsSuffixOnceFull(big: RingState, small: RingState, ops: seq<Op>)
    requires |small.log| <= |big.log| <= |History([], ops)|
    ensures Readable(Run(small, ops)) && Readable(Run(big, ops))
    ensures Contents(Run(small, ops)) == LastN(|small.log|, Contents(Run(big, ops)))
  {
    ReadsLastCharacters(big, ops);
    ReadsLastCharacters(small, ops);
    LastOfLast(|small.log|, |big.log|, History([], ops));
  }
}
