/** What NOR flash does to memory: programming clears bits, erasing sets them. */
module Flash {

  const FLASH_WORD_SIZE := 32
  const FLASH_SECTOR_SIZE := 0x2_0000

  type Cells = seq<bv8>

  /** `f` after the host port's AND-only write of `src` at `off`. */
  function Programmed(f: Cells, off: nat, src: Cells): (r: Cells)
    requires off + |src| <= |f|
    ensures |r| == |f|
  {
    seq(|f|, i requires 0 <= i < |f| => if off <= i < off + |src| then f[i] & src[i - off] else f[i])
  }

  /** `f` with every bit of a range set. */
  function Erased(f: Cells, off: nat, n: nat): (r: Cells)
    requires off + n <= |f|
    ensures |r| == |f|
  {
    seq<bv8>(|f|, i requires 0 <= i < |f| => if off <= i < off + n then 0xFF else f[i])
  }

  /** No bit of `g` is set that was not set in `f`. */
  predicate OnlyCleared(f: Cells, g: Cells) {
    |f| == |g| && forall i :: 0 <= i < |f| ==> f[i] & g[i] == g[i]
  }

  /** `g` is `f` with `src` stored at `off`. */
  predicate StoredAt(f: Cells, g: Cells, off: nat, src: Cells)
    requires off + |src| <= |f|
  {
    && |g| == |f|
    && g[off..off + |src|] == src
    && SameOutside(f, g, off, off + |src|)
  }

  predicate SameOutside(f: Cells, g: Cells, lo: int, hi: int) {
    |g| == |f| && forall i :: 0 <= i < |f| && !(lo <= i < hi) ==> g[i] == f[i]
  }

  /** An AND-only write stores its source exactly when the flash has every bit of it still set. */
  lemma ProgrammedStoresIff(f: Cells, off: nat, src: Cells)
    requires off + |src| <= |f|
    ensures StoredAt(f, Programmed(f, off, src), off, src) <==> OnlyCleared(f[off..off + |src|], src)
  {
    var g := Programmed(f, off, src);
    var before, after := f[off..off + |src|], g[off..off + |src|];
    forall i | 0 <= i < |src|
      ensures after[i] == before[i] & src[i]
    {
      assert after[i] == g[off + i] && before[i] == f[off + i];
    }
    if OnlyCleared(before, src) {
      assert after == src;
    }
    assert SameOutside(f, g, off, off + |src|);
  }

  /** One more byte of an AND-only write. */
  lemma ProgrammedNext(f: Cells, off: nat, src: Cells, i: nat)
    requires off + |src| <= |f| && i < |src|
    ensures Programmed(f, off, src[..0]) == f
    ensures Programmed(f, off, src[..i])[off + i] == f[off + i]
    ensures Programmed(f, off, src[..i])[off + i := f[off + i] & src[i]] == Programmed(f, off, src[..i + 1])
  {
  }

  lemma ErasedNext(f: Cells, off: nat, n: nat, m: nat)
    requires off + n + m <= |f|
    ensures Erased(f, off, 0) == f
    ensures Erased(Erased(f, off, n), off + n, m) == Erased(f, off, n + m)
  {
  }

  lemma AndByOr(d: bv8, s: bv8)
    ensures !((!d) | (!s)) == d & s
  {
  }

  /** A write that clears bits only and reads back as its source is the AND-only write. */
  lemma ReadBackIsProgrammed(f: Cells, g: Cells, off: nat, src: Cells)
    requires off + |src| <= |f|
    requires StoredAt(f, g, off, src) && OnlyCleared(f, g)
    ensures g == Programmed(f, off, src)
  {
    forall i | 0 <= i < |f|
      ensures g[i] == Programmed(f, off, src)[i]
    {
      if off <= i < off + |src| {
        assert g[i] == g[off..off + |src|][i - off];
      }
    }
  }

  // ----- Several writes -----

  datatype Write = Write(off: nat, src: Cells) {
    predicate Covers(i: int) {
      off <= i < off + |src|
    }
  }

  predicate Fit(f: Cells, ws: seq<Write>) {
    forall w :: w in ws ==> w.off + |w.src| <= |f|
  }

  function ProgrammedAll(f: Cells, ws: seq<Write>): (r: Cells)
    requires Fit(f, ws)
    ensures |r| == |f|
    decreases ws
  {
    if ws == [] then f else ProgrammedAll(Programmed(f, ws[0].off, ws[0].src), ws[1..])
  }

  /** The bits at `i` that no write of `ws` clears. */
  function Mask(ws: seq<Write>, i: int): bv8 {
    if ws == [] then 0xFF
    else (if ws[0].Covers(i) then ws[0].src[i - ws[0].off] else 0xFF) & Mask(ws[1..], i)
  }

  /** What any sequence of writes, overlapping or not, leaves at `i`. */
  lemma {:induction false} ProgrammedAllAt(f: Cells, ws: seq<Write>, i: int)
    requires Fit(f, ws) && 0 <= i < |f|
    ensures ProgrammedAll(f, ws)[i] == f[i] & Mask(ws, i)
    decreases ws
  {
    if ws != [] {
      ProgrammedAllAt(Programmed(f, ws[0].off, ws[0].src), ws[1..], i);
    }
  }

  lemma {:induction false} MaskAppend(a: seq<Write>, b: seq<Write>, i: int)
    ensures Mask(a + b, i) == Mask(a, i) & Mask(b, i)
  {
    if a == [] {
      assert a + b == b;
    } else {
      assert (a + b)[1..] == a[1..] + b;
      MaskAppend(a[1..], b, i);
    }
  }

  /** The order of two batches of writes does not matter. */
  lemma WritesCommute(f: Cells, a: seq<Write>, b: seq<Write>)
    requires Fit(f, a) && Fit(f, b)
    ensures ProgrammedAll(f, a + b) == ProgrammedAll(f, b + a)
  {
    forall i | 0 <= i < |f|
      ensures ProgrammedAll(f, a + b)[i] == ProgrammedAll(f, b + a)[i]
    {
      ProgrammedAllAt(f, a + b, i);
      ProgrammedAllAt(f, b + a, i);
      MaskAppend(a, b, i);
      MaskAppend(b, a, i);
    }
  }

  ghost predicate Disjoint(ws: seq<Write>) {
    forall j, k, i: int :: 0 <= j < k < |ws| ==> !(ws[j].Covers(i) && ws[k].Covers(i))
  }

  lemma {:induction false} MaskDisjoint(ws: seq<Write>, k: nat, i: int)
    requires k < |ws| && ws[k].Covers(i)
    requires forall j :: 0 <= j < |ws| && j != k ==> !ws[j].Covers(i)
    ensures Mask(ws, i) == ws[k].src[i - ws[k].off]
  {
    if k == 0 {
      MaskUncovered(ws[1..], i);
    } else {
      MaskDisjoint(ws[1..], k - 1, i);
    }
  }

  lemma {:induction false} MaskUncovered(ws: seq<Write>, i: int)
    requires forall j :: 0 <= j < |ws| ==> !ws[j].Covers(i)
    ensures Mask(ws, i) == 0xFF
  {
    if ws != [] {
      MaskUncovered(ws[1..], i);
    }
  }

  /** A byte of a write that no other write covers is stored in erased flash. */
  lemma WrittenByte(f: Cells, off: nat, n: nat, ws: seq<Write>, k: nat, i: nat)
    requires off + n <= |f| && Fit(f, ws) && k < |ws| && Disjoint(ws)
    requires ws[k].Covers(i) && off <= i < off + n
    ensures ws[k] in ws && ProgrammedAll(Erased(f, off, n), ws)[i] == ws[k].src[i - ws[k].off]
  {
    assert ws[k] in ws && i < |f|;
    forall j | 0 <= j < |ws| && j != k
      ensures !ws[j].Covers(i)
    {
    }
    ProgrammedAllAt(Erased(f, off, n), ws, i);
    MaskDisjoint(ws, k, i);
    AllOnesAnd(ws[k].src[i - ws[k].off]);
  }

  lemma AllOnesAnd(x: bv8)
    ensures 0xFF & x == x && x & 0xFF == x
  {
  }

  /** A byte that no write covers keeps what the erase left. */
  lemma UnwrittenByte(f: Cells, off: nat, n: nat, ws: seq<Write>, i: nat)
    requires off + n <= |f| && Fit(f, ws) && i < |f|
    requires forall j | 0 <= j < |ws| :: !ws[j].Covers(i)
    ensures ProgrammedAll(Erased(f, off, n), ws)[i] == if off <= i < off + n then 0xFF else f[i]
  {
    var e := Erased(f, off, n);
    ProgrammedAllAt(e, ws, i);
    MaskUncovered(ws, i);
    AllOnesAnd(e[i]);
  }

  lemma WriteReadsBack(f: Cells, off: nat, n: nat, ws: seq<Write>, k: nat)
    requires off + n <= |f| && Fit(f, ws) && k < |ws| && Disjoint(ws)
    requires off <= ws[k].off && ws[k].off + |ws[k].src| <= off + n
    ensures var g := ProgrammedAll(Erased(f, off, n), ws);
            g[ws[k].off..ws[k].off + |ws[k].src|] == ws[k].src
  {
    var g, w := ProgrammedAll(Erased(f, off, n), ws), ws[k];
    hide ProgrammedAll, Erased, Disjoint, Fit;
    var stored := g[w.off..w.off + |w.src|];
    forall i | 0 <= i < |w.src|
      ensures stored[i] == w.src[i]
    {
      WrittenByte(f, off, n, ws, k, w.off + i);
      assert stored[i] == g[w.off + i];
    }
  }

  /** After an erase, disjoint writes into the erased range all read back, and the rest stays erased. */
  lemma EraseThenWrite(f: Cells, off: nat, n: nat, ws: seq<Write>, k: nat)
    requires off + n <= |f| && Fit(f, ws) && k < |ws|
    requires Disjoint(ws)
    requires forall w :: w in ws ==> off <= w.off && w.off + |w.src| <= off + n
    ensures var g := ProgrammedAll(Erased(f, off, n), ws);
            && ws[k] in ws
            && g[ws[k].off..ws[k].off + |ws[k].src|] == ws[k].src
            && SameOutside(f, g, off, off + n)
            && forall i | off <= i < off + n && (forall j | 0 <= j < |ws| :: !ws[j].Covers(i)) :: g[i] == 0xFF
  {
    hide ProgrammedAll, Erased, Disjoint, SameOutside;
    assert ws[k] in ws;
    WriteReadsBack(f, off, n, ws, k);
    WritesStayInside(f, off, n, ws);
    var g := ProgrammedAll(Erased(f, off, n), ws);
    forall i | off <= i < off + n && (forall j | 0 <= j < |ws| :: !ws[j].Covers(i))
      ensures g[i] == 0xFF
    {
      UnwrittenByte(f, off, n, ws, i);
    }
  }

  lemma WritesStayInside(f: Cells, off: nat, n: nat, ws: seq<Write>)
    requires off + n <= |f| && Fit(f, ws)
    requires forall w :: w in ws ==> off <= w.off && w.off + |w.src| <= off + n
    ensures SameOutside(f, ProgrammedAll(Erased(f, off, n), ws), off, off + n)
  {
    var g := ProgrammedAll(Erased(f, off, n), ws);
    hide ProgrammedAll, Erased;
    forall i | 0 <= i < |f| && !(off <= i < off + n)
      ensures g[i] == f[i]
    {
      assert forall j | 0 <= j < |ws| :: ws[j] in ws && !ws[j].Covers(i);
      UnwrittenByte(f, off, n, ws, i);
    }
  }
}
