/** Filling a buffer from the hardware random number generator (arm/hw_rng.c). */
module HwRng {
  import opened Buffers
  import opened Bytes
  import opened Wrappers

  /** The words the generator returns, by number of the call, and `None` where it fails. */
  type Source = nat -> Option<u32>

  function WordsNeeded(size: nat): nat {
    (size + 3) / 4
  }

  ghost predicate Available(source: Source, k: nat, n: nat) {
    forall i :: k <= i < k + n ==> source(i).Some?
  }

  function Word(source: Source, k: nat): u32 {
    if source(k).Some? then source(k).value else 0
  }

  /**
   * The bytes the tail stores for the last 1 to 4 bytes. Once the remaining size has reached 0 one
   * test fails, the decrement wraps, and the tests after it succeed again.
   */
  function TailBytes(num: u32, size: nat): (b: seq<byte>)
    requires 0 < size <= 4
  {
    var w := ToLe32(num);
    match size
    case 1 => [w[0], w[2], w[3]]
    case 2 => [w[0], w[1], w[3]]
    case 3 => w[..3]
    case _ => w
  }

  /** Everything stored for a request of `size` bytes that starts with word `k`. */
  function Stored(source: Source, k: nat, size: nat): (b: seq<byte>)
    decreases size
  {
    if size == 0 then []
    else if size <= 4 then TailBytes(Word(source, k), size)
    else ToLe32(Word(source, k)) + Stored(source, k + 1, size - 4)
  }

  /** How many bytes a request stores: too many unless its size is 0 or 3 modulo 4. */
  lemma {:induction false} StoredLength(source: Source, k: nat, size: nat)
    ensures |Stored(source, k, size)| == match size % 4
                                         case 1 => size + 2
                                         case 2 => size + 1
                                         case _ => size
    decreases size
  {
    hide ToLe32;
    if size > 4 {
      StoredLength(source, k + 1, size - 4);
    }
  }

  /** Every byte that was asked for is right: byte `i` is byte `i % 4` of word `i / 4`. */
  lemma {:induction false} StoredByte(source: Source, k: nat, size: nat, i: nat)
    requires i < size
    ensures size <= |Stored(source, k, size)|
    ensures Stored(source, k, size)[i] == ToLe32(Word(source, k + i / 4))[i % 4]
    decreases size
  {
    hide ToLe32;
    StoredLength(source, k, size);
    if size > 4 {
      var first, rest := ToLe32(Word(source, k)), Stored(source, k + 1, size - 4);
      assert Stored(source, k, size) == first + rest;
      hide Stored, TailBytes;
      if i < 4 {
        assert (first + rest)[i] == first[i];
      } else {
        StoredByte(source, k + 1, size - 4, i - 4);
        assert (first + rest)[i] == rest[i - 4];
        assert k + 1 + (i - 4) / 4 == k + i / 4 && (i - 4) % 4 == i % 4;
      }
    }
  }

  /** What lands behind a request that ends in 1 or 2 bytes of a word: that word less the byte skipped. */
  lemma {:induction false} StoredExtra(source: Source, k: nat, size: nat)
    ensures size <= |Stored(source, k, size)|
    ensures Stored(source, k, size)[size..]
            == if size % 4 in {1, 2} then ToLe32(Word(source, k + size / 4))[size % 4 + 1..] else []
    decreases size
  {
    hide ToLe32;
    StoredLength(source, k, size);
    if size > 4 {
      var first, rest := ToLe32(Word(source, k)), Stored(source, k + 1, size - 4);
      assert Stored(source, k, size) == first + rest;
      hide Stored, TailBytes;
      StoredExtra(source, k + 1, size - 4);
      assert (first + rest)[size..] == rest[size - 4..];
      assert k + 1 + (size - 4) / 4 == k + size / 4 && (size - 4) % 4 == size % 4;
    } else if size > 0 {
      TailExtra(Word(source, k), size);
    }
  }

  lemma TailExtra(num: u32, size: nat)
    requires 0 < size <= 4
    ensures TailBytes(num, size)[size..] == if size % 4 in {1, 2} then ToLe32(num)[size % 4 + 1..] else []
  {
    hide ToLe32;
  }

  /** A request stores what it was asked for, and no more, exactly for sizes 0 or 3 modulo 4. */
  lemma ExactIff(source: Source, k: nat, size: nat)
    ensures |Stored(source, k, size)| == size <==> size % 4 in {0, 3}
  {
    StoredLength(source, k, size);
  }

  /** A draw of the device secret is such a request: 32 bytes, the 8 words of the call. */
  lemma {:induction false} SecretDraw(source: Source, k: nat, i: nat)
    requires i < 32
    ensures |Stored(source, k, 32)| == 32
    ensures Stored(source, k, 32)[i] == ToLe32(Word(source, k + i / 4))[i % 4]
  {
    StoredByte(source, k, 32, i);
  }

  lemma {:induction false} StoredSplit(source: Source, k: nat, words: nat, size: nat)
    requires 4 * words < size || size == words == 0
    ensures Stored(source, k, size) == Whole(source, k, words) + Stored(source, k + words, size - 4 * words)
    decreases words
  {
    hide ToLe32;
    if words > 0 {
      StoredSplit(source, k, words - 1, size);
      var rest := Stored(source, k + words, size - 4 * words);
      assert Stored(source, k + words - 1, size - 4 * (words - 1)) == ToLe32(Word(source, k + words - 1)) + rest;
    }
  }

  /** `words` whole words. */
  function Whole(source: Source, k: nat, words: nat): (b: seq<byte>)
    ensures |b| == 4 * words
  {
    if words == 0 then [] else Whole(source, k, words - 1) + ToLe32(Word(source, k + words - 1))
  }

  class HwRng {
    const source: Source
    /** Words asked for so far. */
    var calls: nat

    constructor (source: Source)
      ensures this.source == source && calls == 0
    {
      this.source := source;
      calls := 0;
    }

    method Generate() returns (ok: bool, num: u32)
      modifies this
      ensures calls == old(calls) + 1
      ensures ok == source(old(calls)).Some? && num == Word(source, old(calls))
    {
      num := Word(source, calls);
      ok := source(calls).Some?;
      calls := calls + 1;
    }

    /** `size` bytes at `at` of a memory that extends past the buffer. */
    method Rand(mem: array<byte>, at: nat, size: u32) returns (ret: int)
      requires at + |Stored(source, calls, size)| <= mem.Length
      modifies this, mem
      ensures ret == if Available(source, old(calls), WordsNeeded(size)) then 0 else -1
      ensures ret == 0 ==>
                && calls == old(calls) + WordsNeeded(size)
                && mem[..] == Overwrite(old(mem[..]), at, Stored(source, old(calls), size))
      ensures ret == -1 ==> FailedAt(old(mem[..]), mem[..], at, size, source, old(calls), calls)
    {
      hide ToLe32, Overwrite, Stored, Whole, TailBytes;
      ghost var k, f := calls, mem[..];
      var left, p;
      ret, left, p := RandWords(mem, at, size);
      if ret != 0 {
        return -1;
      }
      if left > 0 {
        var ok, num := Generate();
        if !ok {
          return -1;
        }
        TailOf(source, calls - 1, left);
        OverwriteTwice(f, at, Whole(source, k, (p - at) / 4), TailBytes(num, left));
        StoreTail(mem, p, left, num);
      } else {
        TailOf(source, calls, 0);
        assert Whole(source, k, 0) + [] == Whole(source, k, 0);
      }
      return 0;
    }

    /** The loop of `Rand`: whole words while more than 4 bytes are left. */
    method RandWords(mem: array<byte>, at: nat, size: u32) returns (ret: int, left: u32, p: nat)
      requires at + |Stored(source, calls, size)| <= mem.Length
      modifies this, mem
      ensures ret in {0, -1}
      ensures ret == 0 ==>
                var words := calls - old(calls);
                && 0 <= words && left == size - 4 * words && p == at + 4 * words
                && (if size == 0 then left == 0 else 0 < left <= 4)
                && Available(source, old(calls), words)
                && Stored(source, old(calls), size) == Whole(source, old(calls), words) + Stored(source, calls, left)
                && mem[..] == Overwrite(old(mem[..]), at, Whole(source, old(calls), words))
      ensures ret == -1 ==> FailedAt(old(mem[..]), mem[..], at, size, source, old(calls), calls)
    {
      hide ToLe32, Overwrite, TailBytes, Stored, Whole, ShiftedBytes;
      ghost var k, words := calls, 0;
      left, p := size, at;
      StoredSplit(source, k, 0, size);
      WholeNext(source, k, 0);
      OverwriteNothing(mem[..], at);
      while left > 4
        invariant p == at + 4 * words && left == size - 4 * words && calls == k + words
        invariant left > 0 || size == 0
        invariant Available(source, k, words)
        invariant Stored(source, k, size) == Whole(source, k, words) + Stored(source, k + words, left)
        invariant mem[..] == Overwrite(old(mem[..]), at, Whole(source, k, words))
      {
        StoredSplit(source, k, words + 1, size);
        WholeNext(source, k, words);
        OverwriteTwice(old(mem[..]), at, Whole(source, k, words), ToLe32(Word(source, k + words)));
        var ok, num := Generate();
        if !ok {
          return -1, left, p;
        }
        Copy(mem, p, ShiftedBytes(num));
        p := p + 4;
        left := left - 4;
        words := words + 1;
      }
      return 0, left, p;
    }
  }

  /** The call that failed, and the whole words stored before it. */
  ghost predicate FailedAt(f: seq<byte>, g: seq<byte>, at: nat, size: nat, source: Source, k: nat, k': nat) {
    var words := k' - 1 - k;
    && 0 <= words < WordsNeeded(size)
    && source(k' - 1).None?
    && at + 4 * words <= |f|
    && g == Overwrite(f, at, Whole(source, k, words))
  }

  lemma TailOf(source: Source, k: nat, size: nat)
    requires size <= 4
    ensures Stored(source, k, size) == if size == 0 then [] else TailBytes(Word(source, k), size)
  {
  }

  lemma WholeNext(source: Source, k: nat, words: nat)
    ensures Whole(source, k, 0) == []
    ensures Whole(source, k, words + 1) == Whole(source, k, words) + ToLe32(Word(source, k + words))
  {
  }

  /** `num & 0xFF`, `(num >> 8) & 0xFF` and so on: the bytes the code stores are those of the word. */
  function ShiftedBytes(num: u32): (w: seq<byte>)
    ensures w == ToLe32(num)
  {
    ToLe32Shifts(num);
    [num % 0x100, num / 0x100 % 0x100, num / 0x1_0000 % 0x100, num / 0x100_0000 % 0x100]
  }

  /** One guarded store: `if (size-- > 0) *buffer++ = b`. */
  method StoreIf(mem: array<byte>, at: nat, size: u32, b: byte) returns (at': nat, size': u32)
    requires size > 0 ==> at < mem.Length
    modifies mem
    ensures size' == Wrap(size as int - 1)
    ensures at' == if size > 0 then at + 1 else at
    ensures mem[..] == if size > 0 then Overwrite(old(mem[..]), at, [b]) else old(mem[..])
  {
    at', size' := at, size;
    if size' > 0 {
      mem[at'] := b;
      at' := at' + 1;
    }
    size' := Wrap(size' as int - 1);
  }

  /** The tail: four guarded stores, each with its unsigned decrement. */
  method StoreTail(mem: array<byte>, at: nat, size: u32, num: u32)
    requires 0 < size <= 4
    requires at + |TailBytes(num, size)| <= mem.Length
    modifies mem
    ensures mem[..] == Overwrite(old(mem[..]), at, TailBytes(num, size))
  {
    var w := ShiftedBytes(num);
    hide ToLe32, Overwrite, ShiftedBytes;
    ghost var f, done := mem[..], [w[0]];
    var p, left := StoreIf(mem, at, size, w[0]);
    if left > 0 {
      OverwriteTwice(f, at, done, [w[1]]);
      done := done + [w[1]];
    }
    p, left := StoreIf(mem, p, left, w[1]);
    if left > 0 {
      OverwriteTwice(f, at, done, [w[2]]);
      done := done + [w[2]];
    }
    p, left := StoreIf(mem, p, left, w[2]);
    if left > 0 {
      OverwriteTwice(f, at, done, [w[3]]);
      done := done + [w[3]];
    }
    p, left := StoreIf(mem, p, left, w[3]);
    assert done == TailBytes(num, size);
  }
}
