/** A value that may be missing. */
module Wrappers {
  datatype Option<+T> = None | Some(value: T)
}

/** Copying into a part of a buffer, as memcpy and field assignments do. */
module Buffers {

  /** `s` with `part` stored at `at`. */
  function Overwrite<T>(s: seq<T>, at: nat, part: seq<T>): (r: seq<T>)
    requires at + |part| <= |s|
    ensures |r| == |s|
  {
    s[..at] + part + s[at + |part|..]
  }

  lemma OverwriteNothing<T>(s: seq<T>, at: nat)
    requires at <= |s|
    ensures Overwrite(s, at, []) == s
  {
  }

  /** Two parts stored one behind the other. */
  lemma OverwriteTwice<T>(s: seq<T>, at: nat, a: seq<T>, b: seq<T>)
    requires at + |a| + |b| <= |s|
    ensures Overwrite(Overwrite(s, at, a), at + |a|, b) == Overwrite(s, at, a + b)
  {
  }

  lemma OverwriteKeepsFront<T>(s: seq<T>, at: nat, part: seq<T>, n: nat)
    requires n <= at && at + |part| <= |s|
    ensures Overwrite(s, at, part)[..n] == s[..n]
  {
  }

  /** Equal fronts have equal parts. */
  lemma SamePart<T>(s: seq<T>, t: seq<T>, n: nat, lo: nat, hi: nat)
    requires lo <= hi <= n <= |s| && n <= |t| && s[..n] == t[..n]
    ensures s[lo..hi] == t[lo..hi]
  {
    forall k | lo <= k < hi
      ensures s[k] == t[k]
    {
      assert s[..n][k] == t[..n][k];
    }
  }

  /** A slice of the middle of three parts. */
  lemma MiddleSlice<T>(a: seq<T>, b: seq<T>, c: seq<T>, lo: nat, hi: nat)
    requires lo <= hi <= |b|
    ensures (a + b + c)[|a| + lo..|a| + hi] == b[lo..hi]
  {
    assert forall k | lo <= k < hi :: (a + b + c)[|a| + k] == b[k];
  }

  lemma OverwriteOne<T>(s: seq<T>, at: nat, x: T)
    requires at < |s|
    ensures s[at := x] == Overwrite(s, at, [x])
  {
  }

  method Copy<T>(a: array<T>, at: nat, part: seq<T>)
    requires at + |part| <= a.Length
    modifies a
    ensures a[..] == Overwrite(old(a[..]), at, part)
  {
    forall i | 0 <= i < |part| {
      a[at + i] := part[i];
    }
  }
}

/** Bytes, 32-bit unsigned words and the flat memory they address. */
module Bytes {
  import opened Buffers

  type byte = x: int | 0 <= x < 0x100

  const TWO_TO_THE_32: int := 0x1_0000_0000

  type u32 = x: int | 0 <= x < TWO_TO_THE_32

  /** Arithmetic on `uint32_t`, `size_t` and `uintptr_t` keeps the low 32 bits. */
  function Wrap(x: int): u32 {
    x % TWO_TO_THE_32
  }

  lemma WrapSmall(x: int)
    requires 0 <= x < TWO_TO_THE_32
    ensures Wrap(x) == x
  {
  }

  lemma WrapWrap(x: int, y: int)
    ensures Wrap(Wrap(x) + y) == Wrap(x + y)
  {
    var q := x / TWO_TO_THE_32;
    assert Wrap(x) == x - q * TWO_TO_THE_32;
  }

  lemma WrapDifference(x: int, y: int)
    ensures Wrap(Wrap(x) - Wrap(y)) == Wrap(x - y)
  {
    var q, r := x / TWO_TO_THE_32, y / TWO_TO_THE_32;
    assert Wrap(x) == x - q * TWO_TO_THE_32;
    assert Wrap(y) == y - r * TWO_TO_THE_32;
  }

  /** The number of at most four bytes, least significant byte first. */
  function LittleEndian(b: seq<byte>): (x: nat)
    requires |b| <= 4
    ensures x < match |b| case 0 => 1 case 1 => 0x100 case 2 => 0x1_0000 case 3 => 0x100_0000 case _ => TWO_TO_THE_32
  {
    if b == [] then 0 else b[0] as int + 0x100 * LittleEndian(b[1..])
  }

  /** Little-endian decoding of a `uint32_t` field. */
  function Le32(b: seq<byte>): u32
    requires |b| == 4
  {
    LittleEndian(b)
  }

  function LittleEndianBytes(x: nat, n: nat): (b: seq<byte>)
    ensures |b| == n
  {
    if n == 0 then [] else [x % 0x100] + LittleEndianBytes(x / 0x100, n - 1)
  }

  /** Little-endian encoding, the inverse of `Le32`. */
  function ToLe32(x: u32): (b: seq<byte>)
    ensures |b| == 4 && Le32(b) == x
  {
    LittleEndianRoundTrip(x, 4);
    LittleEndianBytes(x, 4)
  }

  lemma {:induction false} LittleEndianRoundTrip(x: nat, n: nat)
    requires n <= 4
    requires x < match n case 0 => 1 case 1 => 0x100 case 2 => 0x1_0000 case 3 => 0x100_0000 case _ => TWO_TO_THE_32
    ensures LittleEndian(LittleEndianBytes(x, n)) == x
  {
    if n > 0 {
      LittleEndianRoundTrip(x / 0x100, n - 1);
      assert LittleEndianBytes(x, n)[1..] == LittleEndianBytes(x / 0x100, n - 1);
    }
  }

  /** The bytes are the ones that shifting by 0, 8, 16 and 24 bits and masking give. */
  lemma ToLe32Shifts(x: u32)
    ensures ToLe32(x) == [x % 0x100, x / 0x100 % 0x100, x / 0x1_0000 % 0x100, x / 0x100_0000 % 0x100]
  {
    var q1, q2, q3 := x / 0x100, x / 0x100 / 0x100, x / 0x100 / 0x100 / 0x100;
    assert LittleEndianBytes(q3, 1) == [q3 % 0x100] + LittleEndianBytes(q3 / 0x100, 0);
    assert LittleEndianBytes(q2, 2) == [q2 % 0x100] + LittleEndianBytes(q3, 1);
    assert LittleEndianBytes(q1, 3) == [q1 % 0x100] + LittleEndianBytes(q2, 2);
    assert q2 == x / 0x1_0000 && q3 == x / 0x100_0000;
  }

  function Zeros(n: nat): (s: seq<byte>)
    ensures |s| == n && forall i :: 0 <= i < n ==> s[i] == 0
  {
    seq(n, _ => 0)
  }

  /** A field stored right after those already `done`. */
  lemma FieldNext(done: seq<byte>, rest: nat, bytes: seq<byte>)
    requires |bytes| <= rest
    ensures Overwrite(done + Zeros(rest), |done|, bytes) == done + bytes + Zeros(rest - |bytes|)
  {
  }

  /** A cleared (0) or erased (0xFF) byte. */
  predicate BlankByte(b: byte) {
    b == 0 || b == 0xFF
  }

  predicate Blank(s: seq<byte>) {
    forall i :: 0 <= i < |s| ==> BlankByte(s[i])
  }

  /** Memory: one byte at each of the 2^32 addresses. */
  type Memory = u32 -> byte

  /** The `n` bytes from address `a` on, wrapping at the end of the address space. */
  function View(mem: Memory, a: int, n: nat): (s: seq<byte>)
    ensures |s| == n
  {
    seq<byte>(n, i requires 0 <= i < n => mem(Wrap(a + i)))
  }

  lemma ViewWrap(mem: Memory, a: int, n: nat)
    ensures View(mem, Wrap(a), n) == View(mem, a, n)
  {
    forall i | 0 <= i < n
      ensures View(mem, Wrap(a), n)[i] == View(mem, a, n)[i]
    {
      WrapWrap(a, i);
    }
  }

  /** A part of a view is a view. */
  lemma ViewSlice(mem: Memory, a: int, n: nat, lo: nat, hi: nat)
    requires lo <= hi <= n
    ensures View(mem, a, n)[lo..hi] == View(mem, a + lo, hi - lo)
  {
    forall i | 0 <= i < hi - lo
      ensures View(mem, a, n)[lo..hi][i] == View(mem, a + lo, hi - lo)[i]
    {
      assert a + (lo + i) == (a + lo) + i;
    }
  }
}
