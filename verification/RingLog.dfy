/**
 * The circular logs in place (log_ram.c; shared_mem_persistent.c has the same operations on its own
 * structure), and the routine that feeds both (target_logger.cpp).
 */
module RingLog {
  import opened Buffers
  import opened Bytes
  import opened RingSpec

  // Sizes in bytes. The two counters in front of each log are fields of the class.
  const COUNTERS_SIZE := 8
  const LOG_RAM_SIZE := 160 * 1024
  const LOG_SIZE := (LOG_RAM_SIZE - COUNTERS_SIZE) / 2 - 1
  const PERSISTENT_SHARED_SRAM_SIZE := 4 * 1024
  const PERSISTENT_LOG_SIZE := PERSISTENT_SHARED_SRAM_SIZE - COUNTERS_SIZE

  class RingLog {
    var logWritePtr: u32
    var logSize: u32
    /** The memory after the counters; the log is its first `n` characters. */
    const area: array<char>
    const n: nat
    /** Where a read reconstructs the log: `copyAt` in `copy`, which may be `area` itself. */
    const copy: array<char>
    const copyAt: nat

    ghost predicate Valid()
      reads this
    {
      && 0 < n <= area.Length && n + 1 < TWO_TO_THE_32
      && copyAt + n + 1 <= copy.Length
      && (copy == area ==> n <= copyAt)
    }

    ghost function State(): RingState
      requires Valid()
      reads this, area
    {
      Ring(logWritePtr, logSize, area[..n])
    }

    /**
     * The log in RAM: reconstructed in the same region, right behind it. When the log is full the
     * terminator is the byte after `reconstructed_log`, which is still in the region.
     */
    constructor LogRam()
      ensures Valid() && n == LOG_SIZE && fresh(area) && copy == area
      ensures COUNTERS_SIZE + area.Length == LOG_RAM_SIZE
    {
      var region := new char[LOG_RAM_SIZE - COUNTERS_SIZE];
      area := region;
      n := LOG_SIZE;
      copy := region;
      copyAt := LOG_SIZE;
      logWritePtr := *;
      logSize := *;
    }

    /** The log in backup SRAM, copied into a static buffer. */
    constructor Persistent()
      ensures Valid() && n == PERSISTENT_LOG_SIZE && fresh(area) && fresh(copy) && copy != area
      ensures COUNTERS_SIZE + area.Length == PERSISTENT_SHARED_SRAM_SIZE && copy.Length == n + 1
    {
      area := new char[PERSISTENT_SHARED_SRAM_SIZE - COUNTERS_SIZE];
      n := PERSISTENT_LOG_SIZE;
      copyAt := 0;
      copy := new char[PERSISTENT_LOG_SIZE + 1];
      logWritePtr := *;
      logSize := *;
    }

    method Clean()
      requires Valid()
      modifies this, area
      ensures Valid() && State() == Apply(old(State()), RingSpec.Op.Clean)
      ensures forall i :: 0 <= i < area.Length ==> area[i] == '\0'
    {
      logWritePtr := 0;
      logSize := 0;
      forall i | 0 <= i < area.Length {
        area[i] := '\0';
      }
    }

    method LogToMemory(str: seq<char>)
      requires Valid() && '\0' in str
      modifies this, area
      ensures Valid() && State() == Apply(old(State()), Append(CString(str)))
      ensures area[n..] == old(area[n..])
    {
      hide PutAll;
      ghost var r := Repaired(State());
      if logWritePtr >= n || logSize > n {
        logWritePtr := 0;
        logSize := 0;
      }
      var i := 0;
      ghost var s := CString(str);
      PutAllNone(r, s);
      while true
        invariant 0 <= i <= |s|
        invariant State() == PutAll(r, s[..i])
        invariant area[n..] == old(area[n..])
        decreases |s| - i
      {
        var c := str[i];
        assert i < |s| ==> c == s[i];
        if c == '\0' {
          break;
        }
        PutAllNext(r, s, i);
        ghost var before := State();
        area[logWritePtr] := c;
        logWritePtr := logWritePtr + 1;
        if logWritePtr >= n {
          logWritePtr := 0;
        }
        if logSize < n {
          logSize := logSize + 1;
        }
        assert State() == Put(before, c);
        i := i + 1;
      }
      assert s[..i] == s;
    }

    /** Copies the log in order, with a terminator, to `copyAt` and nowhere else; `size` counts the terminator. */
    method GetMemoryLog() returns (start: nat, size: u32)
      requires Valid() && Readable(State())
      modifies copy
      ensures Valid() && State() == old(State())
      ensures start == copyAt && size == |Contents(State())| + 1
      ensures copy[..] == Overwrite(old(copy[..]), start, Contents(State()) + ['\0'])
    {
      ghost var r := State();
      var start1, size1, start2, size2 := GetMemoryLogParts();
      hide Contents, Readable, LogParts, Overwrite;
      ghost var part1, part2 := r.log[start1..start1 + size1], r.log[start2..start2 + size2];
      assert area[start1..start1 + size1] == part1 && area[start2..start2 + size2] == part2;
      Reconstruct(start1, size1, start2, size2, part1, part2);
      return copyAt, size1 + size2 + 1;
    }

    /** The two memcpy calls and the terminator. */
    method Reconstruct(start1: nat, size1: nat, start2: nat, size2: nat, ghost part1: seq<char>, ghost part2: seq<char>)
      requires Valid()
      requires start1 + size1 <= n && start2 + size2 <= n && size1 + size2 <= n
      requires part1 == area[..n][start1..start1 + size1] && part2 == area[..n][start2..start2 + size2]
      modifies copy
      ensures area[..n] == old(area[..n])
      ensures copy[..] == Overwrite(old(copy[..]), copyAt, part1 + part2 + ['\0'])
    {
      hide Overwrite;
      ghost var f := copy[..];
      OverwriteInParts(f, copyAt, part1, part2, ['\0']);
      CopyFromLog(copyAt, start1, size1, part1);
      CopyFromLog(copyAt + size1, start2, size2, part2);
      Terminate(copyAt + size1 + size2);
    }

    method Terminate(at: nat)
      requires Valid() && copyAt <= at < copy.Length
      modifies copy
      ensures area[..n] == old(area[..n])
      ensures copy[..] == Overwrite(old(copy[..]), at, ['\0'])
    {
      OverwriteOne(copy[..], at, '\0');
      copy[at] := '\0';
    }

    /** memcpy from the log into the copy, skipped for an empty part. */
    method CopyFromLog(to: nat, from: nat, size: nat, ghost part: seq<char>)
      requires Valid() && from + size <= n && copyAt <= to && to + size <= copy.Length
      requires part == area[..n][from..from + size]
      modifies copy
      ensures area[..n] == old(area[..n])
      ensures copy[..] == Overwrite(old(copy[..]), to, part)
    {
      if size > 0 {
        assert area[from..from + size] == part;
        ghost var before := copy[..];
        Copy(copy, to, area[from..from + size]);
        if copy == area {
          OverwriteKeepsFront(before, to, part, n);
          assert area[..n] == copy[..][..n] == before[..n];
        }
      } else {
        assert part == [];
        OverwriteNothing(copy[..], to);
        assert copy[..] == Overwrite(copy[..], to, part);
      }
    }

    method GetMemoryLogParts() returns (start1: u32, size1: u32, start2: u32, size2: u32)
      requires Valid()
      ensures Parts(start1, size1, start2, size2) == LogParts(State())
      // The parts lie in the log and fit the copy exactly when the counters allow a read, ...
      ensures Readable(State()) <==> start1 + size1 <= n && start2 + size2 <= n && size1 + size2 <= n
      // ... and then they are the contents, oldest character first.
      ensures Readable(State()) ==>
                area[start1..start1 + size1] + area[start2..start2 + size2] == Contents(State())
    {
      PartsInLogIff(State());
      if Readable(State()) {
        ContentsOfParts(State());
      }
      if logSize < n {
        return 0, logSize, 0, 0;
      } else {
        return logWritePtr, Wrap(n - logWritePtr), 0, logWritePtr;
      }
    }

    method ResetMemoryLog()
      requires Valid()
      modifies this
      ensures Valid() && State() == Apply(old(State()), Reset)
    {
      logSize := 0;
      logWritePtr := 0;
    }
  }

  lemma OverwriteInParts(f: seq<char>, at: nat, a: seq<char>, b: seq<char>, c: seq<char>)
    requires at + |a| + |b| + |c| <= |f|
    ensures Overwrite(Overwrite(Overwrite(f, at, a), at + |a|, b), at + |a| + |b|, c) == Overwrite(f, at, a + b + c)
  {
  }

  lemma ContentsOfParts(r: RingState)
    requires Readable(r)
    ensures var p := LogParts(r);
            && p.start1 + p.size1 <= |r.log| && p.start2 + p.size2 <= |r.log|
            && Contents(r) == r.log[p.start1..p.start1 + p.size1] + r.log[p.start2..p.start2 + p.size2]
  {
    var s := Contents(r);
    assert s + [] == s;
  }

  /** Both logs of a board. */
  class Logger {
    const ram: RingLog
    const persistent: RingLog
    /** Everything printed since both logs were reset. */
    ghost var printed: seq<char>

    ghost predicate Valid()
      reads this, ram, ram.area, persistent, persistent.area
    {
      && ram != persistent && ram.area != persistent.area
      && ram.Valid() && persistent.Valid() && persistent.n <= ram.n
      && HoldsOnly(ram.State(), printed)
      && HoldsOnly(persistent.State(), printed)
    }

    constructor ()
      ensures Valid() && printed == [] && fresh(ram) && fresh(persistent)
    {
      ram := new RingLog.LogRam();
      persistent := new RingLog.Persistent();
      printed := [];
      new;
      ram.ResetMemoryLog();
      persistent.ResetMemoryLog();
    }

    /** Both logs keep agreeing, through every wrap of either. */
    method TargetPrintString(str: seq<char>)
      requires Valid() && '\0' in str
      modifies this`printed, ram, ram.area, persistent, persistent.area
      ensures Valid() && printed == old(printed) + CString(str)
      ensures Contents(ram.State()) == LastN(ram.n, printed)
      ensures Contents(persistent.State()) == LastN(persistent.n, Contents(ram.State()))
    {
      PutAllHolds(ram.State(), printed, CString(str));
      PutAllHolds(persistent.State(), printed, CString(str));
      ram.LogToMemory(str);
      persistent.LogToMemory(str);
      printed := printed + CString(str);
      ContentsOfHeld(ram.State(), printed);
      SmallerLogIsSuffix(ram.State(), persistent.State(), printed);
    }
  }
}
