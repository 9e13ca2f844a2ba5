/**
 * Which bytes are verified, which are measured and which are run: the view of L0 handed to the
 * DICE core (HWAbstraction.c), the region L0 measures (l0_main.c) and the jump to L1 (arm/main.c).
 */
module Launch {
  import opened Bytes
  import opened ImageAuth
  import opened FirmwareAuth
  import opened PackageBuilder

  const FIRMWARE_IMAGE_OFFSET := IMAGE_HEADER_SIZE

  // ----- Linker addresses, all fixed by the start of the active slot -----

  function GetL0ImageStart(base: u32): u32 { Wrap(base + KEY_MANIFEST_SIZE) }
  function GetL1ImageStart(base: u32): u32 { Wrap(base + KEY_MANIFEST_SIZE + L0_TOTAL_SIZE) }

  // ----- What the DICE core is told about L0 -----

  /** Addresses and lengths, as in `HWState_l0_image_t`. */
  datatype L0View = L0View(
    headerSize: u32, header: u32, headerSignature: u32,
    imageSize: u32, image: u32, imageHash: u32, publicKey: u32)

  function St(mem: Memory, base: u32): L0View {
    var l0Base := Wrap(base + KEY_MANIFEST_SIZE);
    var fwSizeField: seq<byte> := View(mem, Wrap(l0Base + 8), 4);
    L0View(IMAGE_HEADER_SIZE - 64, l0Base, Wrap(l0Base + HEADER_MESSAGE_LENGTH),
           Le32(fwSizeField), Wrap(l0Base + FIRMWARE_IMAGE_OFFSET), Wrap(l0Base + 12), Wrap(base + 4))
  }

  /** The check on L0 read through the pointers in `v` alone. */
  predicate AuthenticThrough(c: Crypto, mem: Memory, v: L0View) {
    && c.hash(View(mem, v.image, v.imageSize)) == View(mem, v.imageHash, 32)
    && c.verify(View(mem, v.headerSignature, 64), View(mem, v.header, v.headerSize), View(mem, v.publicKey, 32))
  }

  /** The part of the structure at `a` that lies `lo` bytes in, read at its own wrapped address. */
  lemma FieldView(mem: Memory, a: int, n: nat, lo: nat, hi: nat)
    requires lo <= hi <= n
    ensures View(mem, Wrap(Wrap(a) + lo), hi - lo) == View(mem, a, n)[lo..hi]
  {
    WrapWrap(a, lo);
    ViewWrap(mem, a + lo, hi - lo);
    ViewSlice(mem, a, n, lo, hi);
  }

  lemma StPointsAtL0(mem: Memory, base: u32)
    ensures var v := St(mem, base);
            var l0 := L0At(mem, base);
            && View(mem, v.header, v.headerSize) == HeaderMessage(l0.header)
            && View(mem, v.headerSignature, 64) == HeaderSignature(l0.header)
            && View(mem, v.imageHash, 32) == FwHash(l0.header)
            && v.imageSize == FwSize(l0.header)
            && View(mem, v.image, v.imageSize) == l0.body
            && View(mem, v.publicKey, 32) == L0Key(ManifestAt(mem, base))
  {
    var a := base + KEY_MANIFEST_SIZE;
    hide View, Wrap;
    FieldView(mem, a, IMAGE_HEADER_SIZE, HEADER_MESSAGE_LENGTH, IMAGE_HEADER_SIZE);
    FieldView(mem, a, IMAGE_HEADER_SIZE, 8, 12);
    FieldView(mem, a, IMAGE_HEADER_SIZE, 12, 44);
    ViewWrap(mem, a, HEADER_MESSAGE_LENGTH);
    ViewSlice(mem, a, IMAGE_HEADER_SIZE, 0, HEADER_MESSAGE_LENGTH);
    assert a + 0 == a;
    WrapWrap(a, FIRMWARE_IMAGE_OFFSET);
    ViewWrap(mem, a + FIRMWARE_IMAGE_OFFSET, FwSize(L0At(mem, base).header));
    ViewWrap(mem, base + 4, 32);
    ViewSlice(mem, base, MANIFEST_LENGTH, 4, 36);
  }

  /** What `VerifyImage` decides about L0 is what the DICE core can decide from its view. */
  lemma DiceSeesWhatIsVerified(c: Crypto, mem: Memory, base: u32)
    ensures VerifyImage(c, mem, Wrap(base + KEY_MANIFEST_SIZE), L0Key(ManifestAt(mem, base))) == VerifySuccess
            <==>
            && Magic(L0At(mem, base).header) == IMAGE_HEADER_MAGIC
            && 0 < St(mem, base).imageSize <= L1_IMAGE_SIZE
            && AuthenticThrough(c, mem, St(mem, base))
  {
    hide View, Wrap, St, VerifyImage;
    VerifyImageDecides(c, mem, base + KEY_MANIFEST_SIZE, L0Key(ManifestAt(mem, base)));
    StPointsAtL0(mem, base);
  }

  // ----- L1: verified, launched, measured -----

  /** Where `BootToL1` jumps. A mismatch with the linker's address is only logged. */
  function LaunchAddress(mem: Memory, base: u32): u32 {
    var l0Header: Header := View(mem, GetL0ImageStart(base), IMAGE_HEADER_SIZE);
    Wrap(GetL0ImageStart(base) + NextImageOffset(l0Header) + FIRMWARE_IMAGE_OFFSET)
  }

  /** The code that `RunL0` hands to L0's core to be measured. */
  function MeasuredAddress(base: u32): u32 {
    Wrap(GetL1ImageStart(base) + FIRMWARE_IMAGE_OFFSET)
  }

  function MeasuredCode(mem: Memory, base: u32): seq<byte> {
    var header: Header := View(mem, GetL1ImageStart(base), IMAGE_HEADER_SIZE);
    View(mem, MeasuredAddress(base), FwSize(header))
  }

  /** The address jumped to is the start of the body verified under L1's key, wherever the slot is. */
  lemma LaunchedIsVerified(c: Crypto, mem: Memory, base: u32, root: Bytes32)
    requires Verdict(c, mem, base, root) == AuthSuccess
    ensures LaunchAddress(mem, base) == Wrap(base + L1Start(mem, base) + IMAGE_HEADER_SIZE)
    ensures View(mem, LaunchAddress(mem, base), |L1At(mem, base).body|) == L1At(mem, base).body
  {
    hide View, Wrap, Verdict, FwSize, NextImageOffset;
    var a := base + KEY_MANIFEST_SIZE;
    var next := NextImageOffset(L0At(mem, base).header);
    ViewWrap(mem, a, IMAGE_HEADER_SIZE);
    WrapWrap(a, next + FIRMWARE_IMAGE_OFFSET);
    assert Wrap(a) + next + FIRMWARE_IMAGE_OFFSET == Wrap(a) + (next + FIRMWARE_IMAGE_OFFSET);
    assert a + (next + FIRMWARE_IMAGE_OFFSET) == base + L1Start(mem, base) + IMAGE_HEADER_SIZE;
    ViewWrap(mem, base + L1Start(mem, base) + IMAGE_HEADER_SIZE, |L1At(mem, base).body|);
  }

  lemma WrapDistinct(base: u32, x: int, y: int)
    requires 0 <= x < TWO_TO_THE_32 && 0 <= y < TWO_TO_THE_32
    ensures Wrap(base + x) == Wrap(base + y) <==> x == y
  {
    var q, r := (base + x) / TWO_TO_THE_32, (base + y) / TWO_TO_THE_32;
    assert base + x == q * TWO_TO_THE_32 + Wrap(base + x);
    assert base + y == r * TWO_TO_THE_32 + Wrap(base + y);
    assert Wrap(base + x) == Wrap(base + y) ==> x - y == (q - r) * TWO_TO_THE_32;
  }

  /**
   * On an accepted slot, what L0 measures is what is launched if and only if L0's header links to
   * the linker's place for L1. Then the measured code is the verified body.
   */
  lemma MeasuredIffLinkedToL1(c: Crypto, mem: Memory, base: u32, root: Bytes32)
    requires Verdict(c, mem, base, root) == AuthSuccess
    ensures MeasuredAddress(base) == LaunchAddress(mem, base)
            <==> NextImageOffset(L0At(mem, base).header) == L0_TOTAL_SIZE
    ensures NextImageOffset(L0At(mem, base).header) == L0_TOTAL_SIZE
            ==> MeasuredCode(mem, base) == L1At(mem, base).body
  {
    var next := NextImageOffset(L0At(mem, base).header);
    assert next <= FW_SLOT_SIZE;
    hide View, Wrap, Verdict, FwSize, NextImageOffset, LaunchAddress, MeasuredAddress;
    LaunchedIsVerified(c, mem, base, root);
    MeasuredAddressOffset(base);
    var x, y := KEY_MANIFEST_SIZE + L0_TOTAL_SIZE + IMAGE_HEADER_SIZE, L1Start(mem, base) + IMAGE_HEADER_SIZE;
    assert base + L1Start(mem, base) + IMAGE_HEADER_SIZE == base + y;
    WrapDistinct(base, x, y);
    if next == L0_TOTAL_SIZE {
      MeasuredCodeAtL1(mem, base);
    }
  }

  lemma MeasuredAddressOffset(base: u32)
    ensures MeasuredAddress(base) == Wrap(base + (KEY_MANIFEST_SIZE + L0_TOTAL_SIZE + IMAGE_HEADER_SIZE))
  {
    var a := base + KEY_MANIFEST_SIZE + L0_TOTAL_SIZE;
    WrapWrap(a, FIRMWARE_IMAGE_OFFSET);
    assert a + FIRMWARE_IMAGE_OFFSET == base + (KEY_MANIFEST_SIZE + L0_TOTAL_SIZE + IMAGE_HEADER_SIZE);
  }

  lemma MeasuredCodeAtL1(mem: Memory, base: u32)
    requires NextImageOffset(L0At(mem, base).header) == L0_TOTAL_SIZE
    ensures MeasuredCode(mem, base) == L1At(mem, base).body
  {
    hide View, Wrap, FwSize, NextImageOffset;
    var a := base + KEY_MANIFEST_SIZE + L0_TOTAL_SIZE;
    assert a == base + L1Start(mem, base);
    WrapWrap(a, FIRMWARE_IMAGE_OFFSET);
    ViewWrap(mem, a, IMAGE_HEADER_SIZE);
    ViewWrap(mem, a + FIRMWARE_IMAGE_OFFSET, |L1At(mem, base).body|);
  }

  /** A memory with `s` at address 0. */
  function Holding(s: seq<byte>): Memory {
    (a: u32) => if a < |s| then s[a] else 0
  }

  /** So an accepted slot can launch code that was never measured: here L1 follows L0 directly. */
  lemma MeasuredNeedNotBeLaunched(c: Crypto, keys: Keys) returns (mem: Memory)
    requires SignaturesVerify(c)
    ensures Verdict(c, mem, 0, c.publicKey(keys.manifest)) == AuthSuccess
    ensures MeasuredAddress(0) != LaunchAddress(mem, 0)
  {
    hide View, Wrap, Verdict, NextImageOffset, SignedHeader, SignedManifest, MeasuredAddress, LaunchAddress, Holding;
    var b0, b1 := Build(1, [0], IMAGE_HEADER_SIZE + 1), Build(1, [0], 0);
    var p := CompactPackage(c, keys, b0, b1);
    mem := Holding(Flatten(p));
    HoldingView(Flatten(p));
    BuiltPackageIsAccepted(c, keys, p.gap0, b0, [], b1, p.gap2, mem, 0);
    MeasuredIffLinkedToL1(c, mem, 0, c.publicKey(keys.manifest));
    assert L0At(mem, 0).header == p.l0.header by {
      FlattenAt(p, mem, 0);
    }
    BuiltHeaderFields(c, b0, keys.l0);
  }

  lemma CompactPackage(c: Crypto, keys: Keys, b0: Build, b1: Build) returns (p: Package)
    requires |b0.body| == 1 && |b1.body| == 1
    ensures p == BuiltPackage(c, keys, p.gap0, b0, [], b1, p.gap2)
    ensures Blank(p.gap0) && Blank(p.gap2) && |p.gap0| == KEY_MANIFEST_SIZE - MANIFEST_LENGTH
    ensures |Flatten(p)| == FW_SLOT_SIZE
  {
    hide SignedHeader, SignedManifest;
    var gap0 := Zeros(KEY_MANIFEST_SIZE - MANIFEST_LENGTH);
    var gap2 := Zeros(FW_SLOT_SIZE - KEY_MANIFEST_SIZE - 2 * (IMAGE_HEADER_SIZE + 1));
    p := BuiltPackage(c, keys, gap0, b0, [], b1, gap2);
  }

  lemma HoldingView(s: seq<byte>)
    requires |s| < TWO_TO_THE_32
    ensures View(Holding(s), 0, |s|) == s
  {
    forall i | 0 <= i < |s|
      ensures View(Holding(s), 0, |s|)[i] == s[i]
    {
      assert Wrap(0 + i) == i;
    }
  }
}
