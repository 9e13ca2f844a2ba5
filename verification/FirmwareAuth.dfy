/** Authentication of a whole firmware slot (firmware_auth.c). */
module FirmwareAuth {
  import opened Bytes
  import opened ImageAuth

  const KEY_MANIFEST_SIZE := 1024
  const L0_TOTAL_SIZE := 255 * 1024
  const FW_SLOT_SIZE := KEY_MANIFEST_SIZE + L0_TOTAL_SIZE + L1_TOTAL_SIZE

  datatype AuthStatus =
    | AuthSuccess | InvalidManifest | InvalidL0 | InvalidL1 | InvalidL1Offset
    | ExtraDataManifestL0 | ExtraDataL0L1 | ExtraDataAfterL1

  // ----- What a slot should hold -----

  /** The parts of a slot, in order. */
  datatype Package = Package(
    manifest: Manifest, gap0: seq<byte>, l0: Image, gap1: seq<byte>, l1: Image, gap2: seq<byte>)

  function Flatten(p: Package): seq<byte> {
    p.manifest + (p.gap0 + (p.l0.header + (p.l0.body + (p.gap1 + (p.l1.header + (p.l1.body + p.gap2))))))
  }

  /** Genuine parts, blank gaps, and headers that agree with where the parts are. */
  predicate Genuine(c: Crypto, p: Package, root: Bytes32) {
    && AuthenticManifest(c, p.manifest, root)
    && AuthenticImage(c, p.l0, L0Key(p.manifest))
    && AuthenticImage(c, p.l1, L1Key(p.manifest))
    && Blank(p.gap0) && Blank(p.gap1) && Blank(p.gap2)
    && |p.manifest| + |p.gap0| == KEY_MANIFEST_SIZE
    && NextImageOffset(p.l0.header) == IMAGE_HEADER_SIZE + |p.l0.body| + |p.gap1|
    && |Flatten(p)| == FW_SLOT_SIZE
  }

  /** The slot at `base` is tiled by a genuine package. */
  ghost predicate Tiled(c: Crypto, mem: Memory, base: u32, root: Bytes32) {
    exists p :: Genuine(c, p, root) && Flatten(p) == View(mem, base, FW_SLOT_SIZE)
  }

  // ----- The verdict in unbounded arithmetic -----

  function ManifestAt(mem: Memory, base: u32): Manifest {
    View(mem, base, MANIFEST_LENGTH)
  }

  function L0At(mem: Memory, base: u32): Image {
    ImageAt(mem, base + KEY_MANIFEST_SIZE)
  }

  function L0End(mem: Memory, base: u32): nat {
    KEY_MANIFEST_SIZE + IMAGE_HEADER_SIZE + |L0At(mem, base).body|
  }

  /** Offset of L1 from the start of the slot. */
  function L1Start(mem: Memory, base: u32): nat {
    KEY_MANIFEST_SIZE + NextImageOffset(L0At(mem, base).header)
  }

  function L1At(mem: Memory, base: u32): Image {
    ImageAt(mem, base + L1Start(mem, base))
  }

  function L1End(mem: Memory, base: u32): nat {
    L1Start(mem, base) + IMAGE_HEADER_SIZE + |L1At(mem, base).body|
  }

  /** The first thing wrong with the slot. Here L1 has to end inside the slot outright. */
  function Verdict(c: Crypto, mem: Memory, base: u32, root: Bytes32): AuthStatus {
    var manifest := ManifestAt(mem, base);
    if !AuthenticManifest(c, manifest, root) then InvalidManifest
    else if !Blank(View(mem, base + MANIFEST_LENGTH, KEY_MANIFEST_SIZE - MANIFEST_LENGTH)) then ExtraDataManifestL0
    else if !AuthenticImage(c, L0At(mem, base), L0Key(manifest)) then InvalidL0
    else RestVerdict(c, mem, base, manifest)
  }

  function RestVerdict(c: Crypto, mem: Memory, base: u32, manifest: Manifest): AuthStatus {
    if !(L0End(mem, base) <= L1Start(mem, base) <= FW_SLOT_SIZE) then InvalidL1Offset
    else if !AuthenticImage(c, L1At(mem, base), L1Key(manifest)) then InvalidL1
    else GapVerdict(mem, base)
  }

  function GapVerdict(mem: Memory, base: u32): AuthStatus
    requires L0End(mem, base) <= L1Start(mem, base)
  {
    if !Blank(View(mem, base + L0End(mem, base), L1Start(mem, base) - L0End(mem, base))) then ExtraDataL0L1
    else if L1End(mem, base) > FW_SLOT_SIZE then ExtraDataAfterL1
    else if !Blank(View(mem, base + L1End(mem, base), FW_SLOT_SIZE - L1End(mem, base))) then ExtraDataAfterL1
    else AuthSuccess
  }

  // ----- The code -----

  method IsSpaceEmpty(mem: Memory, start: u32, size: u32) returns (empty: bool)
    ensures empty <==> Blank(View(mem, start, size))
  {
    var i: u32 := 0;
    while i < size
      invariant 0 <= i <= size
      invariant Blank(View(mem, start, size)[..i])
    {
      var b := mem(Wrap(start + i));
      assert View(mem, start, size)[i] == b;
      if b != 0xFF && b != 0 {
        return false;
      }
      i := i + 1;
    }
    assert View(mem, start, size)[..i] == View(mem, start, size);
    return true;
  }

  /**
   * If L1 ran past the end of the slot, the size of the last gap would wrap and the scan would
   * come round to the first byte of L0's magic number, which is not blank.
   */
  lemma WrappedTailMeetsL0(mem: Memory, base: u32, end: int, gap: u32)
    requires Magic(View(mem, base + KEY_MANIFEST_SIZE, IMAGE_HEADER_SIZE)) == IMAGE_HEADER_MAGIC
    requires FW_SLOT_SIZE < end <= FW_SLOT_SIZE + KEY_MANIFEST_SIZE + IMAGE_HEADER_SIZE + L1_IMAGE_SIZE
    requires gap == Wrap(FW_SLOT_SIZE - end)
    ensures !Blank(View(mem, base + end, gap))
  {
    var header := View(mem, base + KEY_MANIFEST_SIZE, IMAGE_HEADER_SIZE);
    assert header[0] == 0x43;
    assert gap == TWO_TO_THE_32 + FW_SLOT_SIZE - end;
    var k := TWO_TO_THE_32 + KEY_MANIFEST_SIZE - end;
    assert Wrap(base + end + k) == Wrap(base + KEY_MANIFEST_SIZE);
    assert View(mem, base + end, gap)[k] == header[0];
  }

  lemma WrapSum(base: u32, a: int, b: int)
    ensures Wrap(Wrap(base + a) + b) == Wrap(base + (a + b))
  {
    WrapWrap(base + a, b);
    assert base + a + b == base + (a + b);
  }

  lemma WrapGap(base: u32, a: int, b: int)
    ensures Wrap(Wrap(base + a) - Wrap(base + b)) == Wrap(a - b)
  {
    WrapDifference(base + a, base + b);
    assert base + a - (base + b) == a - b;
  }

  method AuthenticateFirmware(c: Crypto, mem: Memory, base: u32, root: Bytes32) returns (status: AuthStatus)
    ensures status == Verdict(c, mem, base, root)
    // The code names the first thing wrong, in this order.
    ensures var manifest := ManifestAt(mem, base);
            var l0End, l1Start, l1End := L0End(mem, base), L1Start(mem, base), L1End(mem, base);
            var ok0 := AuthenticManifest(c, manifest, root);
            var ok1 := ok0 && Blank(View(mem, base + MANIFEST_LENGTH, KEY_MANIFEST_SIZE - MANIFEST_LENGTH));
            var ok2 := ok1 && AuthenticImage(c, L0At(mem, base), L0Key(manifest));
            var ok3 := ok2 && l0End <= l1Start <= FW_SLOT_SIZE;
            var ok4 := ok3 && AuthenticImage(c, L1At(mem, base), L1Key(manifest));
            var ok5 := ok4 && Blank(View(mem, base + l0End, l1Start - l0End));
            var ok6 := ok5 && l1End <= FW_SLOT_SIZE && Blank(View(mem, base + l1End, FW_SLOT_SIZE - l1End));
            && (status == InvalidManifest <==> !ok0)
            && (status == ExtraDataManifestL0 <==> ok0 && !ok1)
            && (status == InvalidL0 <==> ok1 && !ok2)
            && (status == InvalidL1Offset <==> ok2 && !ok3)
            && (status == InvalidL1 <==> ok3 && !ok4)
            && (status == ExtraDataL0L1 <==> ok4 && !ok5)
            && (status == ExtraDataAfterL1 <==> ok5 && !ok6)
            && (status == AuthSuccess <==> ok6)
  {
    VerifyKeyManifestDecides(c, mem, base, root);
    if VerifyKeyManifest(c, mem, base, root) != VerifySuccess {
      return InvalidManifest;
    }

    var manifestEnd := Wrap(base + MANIFEST_LENGTH);
    ViewWrap(mem, base + MANIFEST_LENGTH, KEY_MANIFEST_SIZE - MANIFEST_LENGTH);
    var empty := IsSpaceEmpty(mem, manifestEnd, KEY_MANIFEST_SIZE - MANIFEST_LENGTH);
    if !empty {
      return ExtraDataManifestL0;
    }

    var manifest: Manifest := View(mem, base, MANIFEST_LENGTH);
    var l0Base := Wrap(base + KEY_MANIFEST_SIZE);
    VerifyImageDecides(c, mem, base + KEY_MANIFEST_SIZE, L0Key(manifest));
    if VerifyImage(c, mem, l0Base, L0Key(manifest)) != VerifySuccess {
      return InvalidL0;
    }

    status := AuthenticateRest(c, mem, base, manifest, l0Base);
  }

  /** The second half of `AuthenticateFirmware`, from the location of L1 on. */
  method AuthenticateRest(c: Crypto, mem: Memory, base: u32, manifest: Manifest, l0Base: u32)
    returns (status: AuthStatus)
    requires l0Base == Wrap(base + KEY_MANIFEST_SIZE)
    requires AuthenticImage(c, L0At(mem, base), L0Key(manifest))
    ensures status == RestVerdict(c, mem, base, manifest)
  {
    hide Wrap;
    var l0Header: Header := View(mem, l0Base, IMAGE_HEADER_SIZE);
    assert l0Header == L0At(mem, base).header by {
      ViewWrap(mem, base + KEY_MANIFEST_SIZE, IMAGE_HEADER_SIZE);
    }
    var size0, next := FwSize(l0Header), NextImageOffset(l0Header);
    hide View, FwSize, NextImageOffset, Magic, Blank, GapVerdict;
    var firstValid := Wrap(IMAGE_HEADER_SIZE + size0);
    var lastValid := Wrap(FW_SLOT_SIZE - IMAGE_HEADER_SIZE);
    WrapSmall(IMAGE_HEADER_SIZE + size0);
    WrapSmall(FW_SLOT_SIZE - IMAGE_HEADER_SIZE);
    if next < firstValid || next > lastValid {
      return InvalidL1Offset;
    }

    status := AuthenticateL1(c, mem, base, manifest, l0Base, size0, next);
  }

  /** L1 and the space around it, once its offset is known to be in range. */
  method AuthenticateL1(c: Crypto, mem: Memory, base: u32, manifest: Manifest, l0Base: u32, size0: u32, next: u32)
    returns (status: AuthStatus)
    requires l0Base == Wrap(base + KEY_MANIFEST_SIZE)
    requires Magic(L0At(mem, base).header) == IMAGE_HEADER_MAGIC
    requires size0 == FwSize(L0At(mem, base).header) && next == NextImageOffset(L0At(mem, base).header)
    requires L0End(mem, base) <= L1Start(mem, base) <= FW_SLOT_SIZE
    ensures status == if AuthenticImage(c, L1At(mem, base), L1Key(manifest)) then GapVerdict(mem, base) else InvalidL1
  {
    hide Wrap, View, FwSize, NextImageOffset, Magic, Blank, GapVerdict;
    var l1Base := Wrap(l0Base + next);
    ghost var l1Start := L1Start(mem, base);
    assert l1Base == Wrap(base + l1Start) by {
      WrapSum(base, KEY_MANIFEST_SIZE, next);
    }
    VerifyImageDecides(c, mem, base + l1Start, L1Key(manifest));
    if VerifyImage(c, mem, l1Base, L1Key(manifest)) != VerifySuccess {
      return InvalidL1;
    }
    status := CheckGaps(mem, base, l0Base, l1Base, size0);
  }

  /** The blank space before and after L1. */
  method CheckGaps(mem: Memory, base: u32, l0Base: u32, l1Base: u32, size0: u32) returns (status: AuthStatus)
    requires l0Base == Wrap(base + KEY_MANIFEST_SIZE)
    requires l1Base == Wrap(base + L1Start(mem, base))
    requires Magic(L0At(mem, base).header) == IMAGE_HEADER_MAGIC
    requires size0 == FwSize(L0At(mem, base).header)
    requires L0End(mem, base) <= L1Start(mem, base) <= FW_SLOT_SIZE
    requires |L1At(mem, base).body| <= L1_IMAGE_SIZE
    ensures status == GapVerdict(mem, base)
  {
    hide Wrap, View, FwSize, NextImageOffset, Blank;
    ghost var l0EndOffset, l1Start, l1EndOffset := L0End(mem, base), L1Start(mem, base), L1End(mem, base);
    var l0End := Wrap(l0Base + (IMAGE_HEADER_SIZE + size0));
    var gap1 := Wrap(l1Base - l0End);
    assert gap1 == l1Start - l0EndOffset && l0End == Wrap(base + l0EndOffset) by {
      WrapSum(base, KEY_MANIFEST_SIZE, IMAGE_HEADER_SIZE + size0);
      WrapGap(base, l1Start, l0EndOffset);
      WrapSmall(l1Start - l0EndOffset);
    }
    ViewWrap(mem, base + l0EndOffset, gap1);
    var empty := IsSpaceEmpty(mem, l0End, gap1);
    if !empty {
      return ExtraDataL0L1;
    }

    var l1Header: Header := View(mem, l1Base, IMAGE_HEADER_SIZE);
    var size1 := FwSize(l1Header);
    assert size1 == |L1At(mem, base).body| by {
      ViewWrap(mem, base + l1Start, IMAGE_HEADER_SIZE);
    }
    var l1End := Wrap(l1Base + (IMAGE_HEADER_SIZE + size1));
    var gap2 := Wrap(Wrap(base + FW_SLOT_SIZE) - l1End);
    assert gap2 == Wrap(FW_SLOT_SIZE - l1EndOffset) && l1End == Wrap(base + l1EndOffset) by {
      WrapSum(base, l1Start, IMAGE_HEADER_SIZE + size1);
      WrapGap(base, FW_SLOT_SIZE, l1EndOffset);
    }
    ViewWrap(mem, base + l1EndOffset, gap2);
    if l1EndOffset <= FW_SLOT_SIZE {
      WrapSmall(FW_SLOT_SIZE - l1EndOffset);
    } else {
      WrappedTailMeetsL0(mem, base, l1EndOffset, gap2);
    }
    empty := IsSpaceEmpty(mem, l1End, gap2);
    if !empty {
      return ExtraDataAfterL1;
    }
    return AuthSuccess;
  }

  // ----- The verdict decides tiling -----

  /** The package an accepted slot holds. */
  function PackageAt(mem: Memory, base: u32): Package
    requires L0End(mem, base) <= L1Start(mem, base) && L1End(mem, base) <= FW_SLOT_SIZE
  {
    Package(
      ManifestAt(mem, base),
      View(mem, base + MANIFEST_LENGTH, KEY_MANIFEST_SIZE - MANIFEST_LENGTH),
      L0At(mem, base),
      View(mem, base + L0End(mem, base), L1Start(mem, base) - L0End(mem, base)),
      L1At(mem, base),
      View(mem, base + L1End(mem, base), FW_SLOT_SIZE - L1End(mem, base)))
  }

  /** Two adjacent parts; `off` and `end` are offsets from `base`. */
  lemma Adjacent(mem: Memory, base: u32, off: nat, end: nat, first: seq<byte>, rest: seq<byte>)
    requires off + |first| + |rest| == end
    ensures View(mem, base + off, end - off) == first + rest
            <==> View(mem, base + off, |first|) == first
                 && View(mem, base + (off + |first|), end - (off + |first|)) == rest
  {
    var whole := View(mem, base + off, end - off);
    ViewSlice(mem, base + off, end - off, 0, |first|);
    ViewSlice(mem, base + off, end - off, |first|, end - off);
    assert base + off + |first| == base + (off + |first|);
    assert whole == whole[..|first|] + whole[|first|..];
    assert (first + rest)[..|first|] == first && (first + rest)[|first|..] == rest;
  }

  /** Part by part, what it means that `Flatten(p)` lies at `base`. */
  lemma FlattenAt(p: Package, mem: Memory, base: u32)
    requires |Flatten(p)| == FW_SLOT_SIZE
    ensures var start0 := |p.manifest| + |p.gap0|;
            var end0 := start0 + IMAGE_HEADER_SIZE + |p.l0.body|;
            var start1 := end0 + |p.gap1|;
            var end1 := start1 + IMAGE_HEADER_SIZE + |p.l1.body|;
            Flatten(p) == View(mem, base, FW_SLOT_SIZE)
            <==>
            && View(mem, base, MANIFEST_LENGTH) == p.manifest
            && View(mem, base + MANIFEST_LENGTH, |p.gap0|) == p.gap0
            && View(mem, base + start0, IMAGE_HEADER_SIZE) == p.l0.header
            && View(mem, base + (start0 + IMAGE_HEADER_SIZE), |p.l0.body|) == p.l0.body
            && View(mem, base + end0, |p.gap1|) == p.gap1
            && View(mem, base + start1, IMAGE_HEADER_SIZE) == p.l1.header
            && View(mem, base + (start1 + IMAGE_HEADER_SIZE), |p.l1.body|) == p.l1.body
            && View(mem, base + end1, |p.gap2|) == p.gap2
  {
    hide View, Wrap;
    var start0 := |p.manifest| + |p.gap0|;
    var end0 := start0 + IMAGE_HEADER_SIZE + |p.l0.body|;
    var start1 := end0 + |p.gap1|;
    var end1 := start1 + IMAGE_HEADER_SIZE + |p.l1.body|;
    var end := FW_SLOT_SIZE;
    var r7 := p.gap2;
    var r6 := p.l1.body + r7;
    var r5 := p.l1.header + r6;
    var r4 := p.gap1 + r5;
    var r3 := p.l0.body + r4;
    var r2 := p.l0.header + r3;
    var r1 := p.gap0 + r2;
    Adjacent(mem, base, 0, end, p.manifest, r1);
    Adjacent(mem, base, MANIFEST_LENGTH, end, p.gap0, r2);
    Adjacent(mem, base, start0, end, p.l0.header, r3);
    Adjacent(mem, base, start0 + IMAGE_HEADER_SIZE, end, p.l0.body, r4);
    Adjacent(mem, base, end0, end, p.gap1, r5);
    Adjacent(mem, base, start1, end, p.l1.header, r6);
    Adjacent(mem, base, start1 + IMAGE_HEADER_SIZE, end, p.l1.body, r7);
  }

  lemma PackageAtTiles(mem: Memory, base: u32)
    requires L0End(mem, base) <= L1Start(mem, base) && L1End(mem, base) <= FW_SLOT_SIZE
    ensures Flatten(PackageAt(mem, base)) == View(mem, base, FW_SLOT_SIZE)
  {
    hide View, Wrap, FwSize, NextImageOffset;
    FlattenAt(PackageAt(mem, base), mem, base);
  }

  /** A slot tiled by a genuine `p` is parsed as `p`: the layout is unambiguous. */
  lemma TilingIsParsed(c: Crypto, p: Package, mem: Memory, base: u32, root: Bytes32)
    requires Genuine(c, p, root) && Flatten(p) == View(mem, base, FW_SLOT_SIZE)
    ensures L0End(mem, base) <= L1Start(mem, base) && L1End(mem, base) <= FW_SLOT_SIZE
    ensures PackageAt(mem, base) == p
  {
    hide View, Wrap, FwSize, NextImageOffset;
    FlattenAt(p, mem, base);
  }

  /** The main result: a slot is accepted, at any address whatever, exactly when it is tiled. */
  lemma AcceptedIffTiled(c: Crypto, mem: Memory, base: u32, root: Bytes32)
    ensures Verdict(c, mem, base, root) == AuthSuccess <==> Tiled(c, mem, base, root)
  {
    hide View, Wrap, FwSize, NextImageOffset;
    if Verdict(c, mem, base, root) == AuthSuccess {
      PackageAtTiles(mem, base);
      assert Genuine(c, PackageAt(mem, base), root);
    }
    if p :| Genuine(c, p, root) && Flatten(p) == View(mem, base, FW_SLOT_SIZE) {
      TilingIsParsed(c, p, mem, base, root);
    }
  }
}
