/**
 * The tools that produce what the firmware accepts: headertool (header_utils.c),
 * keymanifesttool and the signing step.
 */
module PackageBuilder {
  import opened Buffers
  import opened Bytes
  import opened ImageAuth
  import opened FirmwareAuth
  import opened Wrappers

  const HEADER_PADDING := 912

  // ----- Layout of unsigned headers and manifests -----

  function UnsignedHeader(version: u32, size: u32, hash: Bytes32, next: u32): (s: seq<byte>)
    ensures |s| == HEADER_MESSAGE_LENGTH
  {
    ToLe32(IMAGE_HEADER_MAGIC) + ToLe32(version) + ToLe32(size) + hash + ToLe32(next) + Zeros(HEADER_PADDING)
  }

  function UnsignedManifest(l0Key: Bytes32, l1Key: Bytes32): (s: seq<byte>)
    ensures |s| == MANIFEST_MESSAGE_LENGTH
  {
    ToLe32(KEY_MANIFEST_VERSION) + l0Key + l1Key
  }

  /** The fields of a header, whatever its signature, are the ones it was built from. */
  lemma HeaderFields(version: u32, size: u32, hash: Bytes32, next: u32, signature: Bytes64)
    ensures var h: Header := UnsignedHeader(version, size, hash, next) + signature;
            && Magic(h) == IMAGE_HEADER_MAGIC && FwVersion(h) == version && FwSize(h) == size
            && FwHash(h) == hash && NextImageOffset(h) == next && Padding(h) == Zeros(HEADER_PADDING)
            && HeaderMessage(h) == UnsignedHeader(version, size, hash, next)
            && HeaderSignature(h) == signature
  {
    hide Le32;
    var m := UnsignedHeader(version, size, hash, next);
    var h: Header := m + signature;
    assert h[..4] == ToLe32(IMAGE_HEADER_MAGIC);
    assert h[4..8] == ToLe32(version);
    assert h[8..12] == ToLe32(size);
    assert h[12..44] == hash;
    assert h[44..48] == ToLe32(next);
    assert h[48..HEADER_MESSAGE_LENGTH] == Zeros(HEADER_PADDING);
    assert h[..HEADER_MESSAGE_LENGTH] == m && h[HEADER_MESSAGE_LENGTH..] == signature;
  }

  lemma ManifestFields(l0Key: Bytes32, l1Key: Bytes32, signature: Bytes64)
    ensures var m: Manifest := UnsignedManifest(l0Key, l1Key) + signature;
            && ManifestVersion(m) == KEY_MANIFEST_VERSION && L0Key(m) == l0Key && L1Key(m) == l1Key
            && ManifestMessage(m) == UnsignedManifest(l0Key, l1Key) && ManifestSignature(m) == signature
  {
    hide Le32;
    var u := UnsignedManifest(l0Key, l1Key);
    var m: Manifest := u + signature;
    assert m[..4] == ToLe32(KEY_MANIFEST_VERSION);
    assert m[4..36] == l0Key;
    assert m[36..68] == l1Key;
    assert m[..MANIFEST_MESSAGE_LENGTH] == u && m[MANIFEST_MESSAGE_LENGTH..] == signature;
  }

  // ----- The code -----

  method ImageHeaderBuild(c: Crypto, header: array<byte>, version: u32, fwData: seq<byte>, fwSize: u32, next: u32)
    returns (ret: int)
    requires header.Length == IMAGE_HEADER_SIZE
    requires fwSize <= |fwData|
    modifies header
    ensures ret == 0
    ensures header[..] == UnsignedHeader(version, fwSize, c.hash(fwData[..fwSize]), next) + Zeros(64)
  {
    hide ToLe32, Le32, Overwrite;
    var fwHash: Bytes32 := c.hash(fwData[..fwSize]);
    forall i | 0 <= i < header.Length {
      header[i] := 0;
    }
    assert header[..] == [] + Zeros(IMAGE_HEADER_SIZE);
    ghost var done := [];
    FieldNext(done, 1024, ToLe32(IMAGE_HEADER_MAGIC));
    Copy(header, 0, ToLe32(IMAGE_HEADER_MAGIC));
    done := done + ToLe32(IMAGE_HEADER_MAGIC);
    FieldNext(done, 1020, ToLe32(version));
    Copy(header, 4, ToLe32(version));
    done := done + ToLe32(version);
    FieldNext(done, 1016, ToLe32(fwSize));
    Copy(header, 8, ToLe32(fwSize));
    done := done + ToLe32(fwSize);
    FieldNext(done, 1012, fwHash);
    Copy(header, 12, fwHash);
    done := done + fwHash;
    FieldNext(done, 980, ToLe32(next));
    Copy(header, 44, ToLe32(next));
    assert Zeros(976) == Zeros(HEADER_PADDING) + Zeros(64);
    return 0;
  }

  method ImageHeaderSign(c: Crypto, header: array<byte>, priv: Bytes32) returns (ret: int)
    requires header.Length == IMAGE_HEADER_SIZE
    modifies header
    ensures ret == 0
    ensures var message := old(header[..HEADER_MESSAGE_LENGTH]); header[..] == message + c.sign(message, priv)
  {
    var signature: Bytes64 := c.sign(header[..HEADER_MESSAGE_LENGTH], priv);
    Copy(header, HEADER_MESSAGE_LENGTH, signature);
    return 0;
  }

  /** The unsigned manifest, or nothing if one of the two private keys cannot be loaded. */
  method GenerateKeyManifest(c: Crypto, l0File: Option<Bytes32>, l1File: Option<Bytes32>)
    returns (ret: int, out: seq<byte>)
    ensures ret == 0 <==> l0File.Some? && l1File.Some?
    ensures ret == 0 ==> out == UnsignedManifest(c.publicKey(l0File.value), c.publicKey(l1File.value))
    ensures ret != 0 ==> out == []
  {
    hide ToLe32, Le32;
    var manifest := new byte[MANIFEST_LENGTH](_ => 0);
    Copy(manifest, 0, ToLe32(KEY_MANIFEST_VERSION));
    if l0File.None? {
      return -1, [];
    }
    var l0Pub: Bytes32 := c.publicKey(l0File.value);
    Copy(manifest, 4, l0Pub);
    if l1File.None? {
      return -1, [];
    }
    var l1Pub: Bytes32 := c.publicKey(l1File.value);
    Copy(manifest, 36, l1Pub);
    return 0, manifest[..MANIFEST_MESSAGE_LENGTH];
  }

  // ----- Whatever the tools build, the firmware accepts -----

  /** Sections 5.1.6 and 5.1.7 of RFC 8032: a signature verifies under the matching key. */
  ghost predicate SignaturesVerify(c: Crypto) {
    forall message: seq<byte>, priv: Bytes32 :: c.verify(c.sign(message, priv), message, c.publicKey(priv))
  }

  function SignedHeader(c: Crypto, version: u32, body: seq<byte>, next: u32, priv: Bytes32): Header
    requires |body| < TWO_TO_THE_32
  {
    var message := UnsignedHeader(version, |body|, c.hash(body), next);
    message + c.sign(message, priv)
  }

  function SignedManifest(c: Crypto, l0Key: Bytes32, l1Key: Bytes32, priv: Bytes32): Manifest {
    var message := UnsignedManifest(l0Key, l1Key);
    message + c.sign(message, priv)
  }

  /** headertool and signtool in a row. */
  method BuildHeader(c: Crypto, header: array<byte>, b: Build, priv: Bytes32)
    requires header.Length == IMAGE_HEADER_SIZE && |b.body| < TWO_TO_THE_32
    modifies header
    ensures header[..] == SignedHeader(c, b.version, b.body, b.next, priv)
  {
    hide UnsignedHeader;
    assert b.body[..|b.body|] == b.body;
    ghost var message := UnsignedHeader(b.version, |b.body|, c.hash(b.body), b.next);
    var ret := ImageHeaderBuild(c, header, b.version, b.body, |b.body|, b.next);
    assert header[..HEADER_MESSAGE_LENGTH] == header[..][..HEADER_MESSAGE_LENGTH] == message;
    ret := ImageHeaderSign(c, header, priv);
  }

  /** keymanifesttool, then signtool on what it wrote. */
  method BuildManifest(c: Crypto, l0File: Option<Bytes32>, l1File: Option<Bytes32>, priv: Bytes32)
    returns (manifest: Option<Manifest>)
    ensures manifest == if l0File.Some? && l1File.Some?
                        then Some(SignedManifest(c, c.publicKey(l0File.value), c.publicKey(l1File.value), priv))
                        else None
  {
    var ret, message := GenerateKeyManifest(c, l0File, l1File);
    if ret != 0 {
      return None;
    }
    return Some(message + c.sign(message, priv));
  }

  /** All the tools together make the package that the round trip is about. */
  method BuildSlot(c: Crypto, keys: Keys, gap0: seq<byte>, b0: Build, gap1: seq<byte>, b1: Build, gap2: seq<byte>)
    returns (slot: seq<byte>)
    requires |b0.body| < TWO_TO_THE_32 && |b1.body| < TWO_TO_THE_32
    ensures slot == Flatten(BuiltPackage(c, keys, gap0, b0, gap1, b1, gap2))
  {
    var manifest := BuildManifest(c, Some(keys.l0), Some(keys.l1), keys.manifest);
    var header0, header1 := new byte[IMAGE_HEADER_SIZE](_ => 0), new byte[IMAGE_HEADER_SIZE](_ => 0);
    BuildHeader(c, header0, b0, keys.l0);
    BuildHeader(c, header1, b1, keys.l1);
    hide SignedHeader, SignedManifest;
    slot := Flatten(Package(manifest.value, gap0, Image(header0[..], b0.body), gap1, Image(header1[..], b1.body), gap2));
  }

  datatype Keys = Keys(manifest: Bytes32, l0: Bytes32, l1: Bytes32)

  /** The code of one image and the header fields chosen on the tool's command line. */
  datatype Build = Build(version: u32, body: seq<byte>, next: u32)

  function BuiltPackage(c: Crypto, keys: Keys, gap0: seq<byte>, b0: Build, gap1: seq<byte>, b1: Build, gap2: seq<byte>)
    : Package
    requires |b0.body| < TWO_TO_THE_32 && |b1.body| < TWO_TO_THE_32
  {
    Package(
      SignedManifest(c, c.publicKey(keys.l0), c.publicKey(keys.l1), keys.manifest),
      gap0, Image(SignedHeader(c, b0.version, b0.body, b0.next, keys.l0), b0.body),
      gap1, Image(SignedHeader(c, b1.version, b1.body, b1.next, keys.l1), b1.body), gap2)
  }

  lemma SignedImageIsAuthentic(c: Crypto, b: Build, priv: Bytes32)
    requires SignaturesVerify(c) && |b.body| < TWO_TO_THE_32
    ensures var image := Image(SignedHeader(c, b.version, b.body, b.next, priv), b.body);
            && NextImageOffset(image.header) == b.next
            && (AuthenticImage(c, image, c.publicKey(priv)) <==> 0 < |b.body| <= L1_IMAGE_SIZE)
  {
    var message := UnsignedHeader(b.version, |b.body|, c.hash(b.body), b.next);
    HeaderFields(b.version, |b.body|, c.hash(b.body), b.next, c.sign(message, priv));
  }

  /**
   * Round trip: a package built with any keys, bodies, versions and 0/0xFF filler, placed at any
   * address, is accepted exactly when the two sizes and L0's link to L1 are right.
   */
  lemma BuiltPackageIsAccepted(c: Crypto, keys: Keys, gap0: seq<byte>, b0: Build, gap1: seq<byte>, b1: Build,
                               gap2: seq<byte>, mem: Memory, base: u32)
    requires SignaturesVerify(c)
    requires |b0.body| < TWO_TO_THE_32 && |b1.body| < TWO_TO_THE_32
    requires Blank(gap0) && Blank(gap1) && Blank(gap2)
    requires |gap0| == KEY_MANIFEST_SIZE - MANIFEST_LENGTH
    requires |Flatten(BuiltPackage(c, keys, gap0, b0, gap1, b1, gap2))| == FW_SLOT_SIZE
    requires View(mem, base, FW_SLOT_SIZE) == Flatten(BuiltPackage(c, keys, gap0, b0, gap1, b1, gap2))
    ensures Verdict(c, mem, base, c.publicKey(keys.manifest)) == AuthSuccess
            <==>
            && 0 < |b0.body| <= L1_IMAGE_SIZE && 0 < |b1.body| <= L1_IMAGE_SIZE
            && b0.next == IMAGE_HEADER_SIZE + |b0.body| + |gap1|
  {
    var p := BuiltPackage(c, keys, gap0, b0, gap1, b1, gap2);
    var root := c.publicKey(keys.manifest);
    var message := UnsignedManifest(c.publicKey(keys.l0), c.publicKey(keys.l1));
    ManifestFields(c.publicKey(keys.l0), c.publicKey(keys.l1), c.sign(message, keys.manifest));
    SignedImageIsAuthentic(c, b0, keys.l0);
    SignedImageIsAuthentic(c, b1, keys.l1);
    AcceptedIffTiled(c, mem, base, root);
    var linked := b0.next == IMAGE_HEADER_SIZE + |b0.body| + |gap1|;
    if 0 < |b0.body| <= L1_IMAGE_SIZE && 0 < |b1.body| <= L1_IMAGE_SIZE && linked {
      assert Genuine(c, p, root);
    }
    if q :| Genuine(c, q, root) && Flatten(q) == View(mem, base, FW_SLOT_SIZE) {
      SameSlotSameParts(c, p, q, mem, base, root, b0, b1, keys);
    }
  }

  /**
   * A genuine reading `q` of a built package `p` has the same images: L1's magic number is the
   * first byte after L0 that is not blank, so no other link leads to an L1 after a blank gap.
   */
  lemma SameSlotSameParts(c: Crypto, p: Package, q: Package, mem: Memory, base: u32, root: Bytes32,
                          b0: Build, b1: Build, keys: Keys)
    requires |b0.body| < TWO_TO_THE_32 && |b1.body| < TWO_TO_THE_32
    requires p == BuiltPackage(c, keys, p.gap0, b0, p.gap1, b1, p.gap2)
    requires Blank(p.gap1) && |p.gap0| == KEY_MANIFEST_SIZE - MANIFEST_LENGTH && |Flatten(p)| == FW_SLOT_SIZE
    requires Genuine(c, q, root)
    requires Flatten(p) == Flatten(q) == View(mem, base, FW_SLOT_SIZE)
    ensures q.l0.header == p.l0.header && |q.l0.body| == |b0.body| && |q.l1.body| == |b1.body|
    ensures |q.gap1| == |p.gap1|
    ensures b0.next == IMAGE_HEADER_SIZE + |b0.body| + |p.gap1|
  {
    hide View, Wrap, Magic, FwSize, NextImageOffset, Flatten, UnsignedHeader, SignedManifest, Blank;
    FlattenAt(p, mem, base);
    FlattenAt(q, mem, base);
    BuiltHeaderFields(c, b0, keys.l0);
    BuiltHeaderFields(c, b1, keys.l1);
    assert q.l0.header == p.l0.header;
    var end0 := KEY_MANIFEST_SIZE + IMAGE_HEADER_SIZE + |b0.body|;
    MagicStartsUnblank(p.l1.header);
    MagicStartsUnblank(q.l1.header);
    if |q.gap1| < |p.gap1| {
      ByteAt(mem, base, end0 + |q.gap1|, IMAGE_HEADER_SIZE, end0, |p.gap1|);
      BlankAt(p.gap1, |q.gap1|);
    } else if |p.gap1| < |q.gap1| {
      ByteAt(mem, base, end0 + |p.gap1|, IMAGE_HEADER_SIZE, end0, |q.gap1|);
      BlankAt(q.gap1, |p.gap1|);
    }
    assert q.l1.header == p.l1.header;
  }

  lemma BuiltHeaderFields(c: Crypto, b: Build, priv: Bytes32)
    requires |b.body| < TWO_TO_THE_32
    ensures var h := SignedHeader(c, b.version, b.body, b.next, priv);
            Magic(h) == IMAGE_HEADER_MAGIC && FwSize(h) == |b.body| && NextImageOffset(h) == b.next
  {
    var message := UnsignedHeader(b.version, |b.body|, c.hash(b.body), b.next);
    HeaderFields(b.version, |b.body|, c.hash(b.body), b.next, c.sign(message, priv));
  }

  lemma BlankAt(s: seq<byte>, i: nat)
    requires Blank(s) && i < |s|
    ensures s[i] != 0x43
  {
  }

  /**
   * What a wrong link in L0's header is reported as: outside the range checked, an invalid offset; into
   * the gap before L1, an invalid L1; past the start of L1, an invalid L1 or extra data before it.
   */
  lemma WrongLinkIsNamed(c: Crypto, keys: Keys, p: Package, b0: Build, b1: Build, mem: Memory, base: u32)
    requires SignaturesVerify(c)
    requires 0 < |b0.body| <= L1_IMAGE_SIZE && |b1.body| < TWO_TO_THE_32
    requires p == BuiltPackage(c, keys, p.gap0, b0, p.gap1, b1, p.gap2)
    requires Blank(p.gap0) && Blank(p.gap1) && |p.gap0| == KEY_MANIFEST_SIZE - MANIFEST_LENGTH
    requires |Flatten(p)| == FW_SLOT_SIZE && View(mem, base, FW_SLOT_SIZE) == Flatten(p)
    ensures var verdict := Verdict(c, mem, base, c.publicKey(keys.manifest));
            var first := IMAGE_HEADER_SIZE + |b0.body|;
            var right := first + |p.gap1|;
            && (b0.next < first || b0.next > FW_SLOT_SIZE - IMAGE_HEADER_SIZE <==> verdict == InvalidL1Offset)
            && (first <= b0.next < right ==> verdict == InvalidL1)
            && (right < b0.next <= FW_SLOT_SIZE - IMAGE_HEADER_SIZE ==> verdict in {InvalidL1, ExtraDataL0L1})
  {
    hide View, Wrap, Flatten, SignedManifest, SignedHeader, SignaturesVerify, RestVerdict, FwSize, NextImageOffset,
         AuthenticManifest, AuthenticImage, Genuine, Verdict, Blank;
    BuiltUpToL0(c, keys, p, b0, b1, mem, base);
    BuiltGap1(c, keys, p, b0, b1, mem, base);
    var start1 := KEY_MANIFEST_SIZE + IMAGE_HEADER_SIZE + |b0.body| + |p.gap1|;
    LinkOutcome(c, p.manifest, mem, base, start1, p.gap1);
  }

  /** A built package has L1's magic number right after the gap behind L0. */
  lemma BuiltGap1(c: Crypto, keys: Keys, p: Package, b0: Build, b1: Build, mem: Memory, base: u32)
    requires |b0.body| < TWO_TO_THE_32 && |b1.body| < TWO_TO_THE_32
    requires p == BuiltPackage(c, keys, p.gap0, b0, p.gap1, b1, p.gap2)
    requires |p.gap0| == KEY_MANIFEST_SIZE - MANIFEST_LENGTH
    requires |Flatten(p)| == FW_SLOT_SIZE && View(mem, base, FW_SLOT_SIZE) == Flatten(p)
    ensures var end0 := KEY_MANIFEST_SIZE + IMAGE_HEADER_SIZE + |b0.body|;
            && end0 + |p.gap1| + IMAGE_HEADER_SIZE <= FW_SLOT_SIZE
            && View(mem, base + end0, |p.gap1|) == p.gap1
            && View(mem, base + (end0 + |p.gap1|), IMAGE_HEADER_SIZE)[0] == 0x43
  {
    assert KEY_MANIFEST_SIZE + IMAGE_HEADER_SIZE + |b0.body| + |p.gap1| + IMAGE_HEADER_SIZE <= |Flatten(p)|;
    hide View, Wrap, Flatten, SignedManifest, SignedHeader, Magic;
    FlattenAt(p, mem, base);
    BuiltHeaderFields(c, b1, keys.l1);
    MagicStartsUnblank(p.l1.header);
  }

  /** The outcome by where L0 links to, when L1's magic number is the first byte after a blank `gap`. */
  lemma LinkOutcome(c: Crypto, manifest: Manifest, mem: Memory, base: u32, start1: nat, gap: seq<byte>)
    requires start1 == L0End(mem, base) + |gap| && start1 + IMAGE_HEADER_SIZE <= FW_SLOT_SIZE && Blank(gap)
    requires View(mem, base + L0End(mem, base), |gap|) == gap
    requires View(mem, base + start1, IMAGE_HEADER_SIZE)[0] == 0x43
    ensures var verdict, at := RestVerdict(c, mem, base, manifest), L1Start(mem, base);
            && (at < L0End(mem, base) || at > FW_SLOT_SIZE <==> verdict == InvalidL1Offset)
            && (L0End(mem, base) <= at < start1 ==> verdict == InvalidL1)
            && (start1 < at <= FW_SLOT_SIZE ==> verdict in {InvalidL1, ExtraDataL0L1})
  {
    hide View, Wrap, FwSize, NextImageOffset, AuthenticImage, Blank;
    var at, end0 := L1Start(mem, base), L0End(mem, base);
    if end0 <= at < start1 {
      BlankIsNoImage(c, mem, base, at, end0, gap, L1Key(manifest));
    } else if start1 < at {
      var wide := View(mem, base + end0, at - end0);
      ByteAt(mem, base, start1, IMAGE_HEADER_SIZE, end0, |wide|);
      if Blank(wide) {
        BlankAt(wide, |gap|);
      }
    }
  }

  /** Up to the end of L0, a built package passes every check. */
  lemma BuiltUpToL0(c: Crypto, keys: Keys, p: Package, b0: Build, b1: Build, mem: Memory, base: u32)
    requires SignaturesVerify(c)
    requires 0 < |b0.body| <= L1_IMAGE_SIZE && |b1.body| < TWO_TO_THE_32
    requires p == BuiltPackage(c, keys, p.gap0, b0, p.gap1, b1, p.gap2)
    requires Blank(p.gap0) && |p.gap0| == KEY_MANIFEST_SIZE - MANIFEST_LENGTH
    requires |Flatten(p)| == FW_SLOT_SIZE && View(mem, base, FW_SLOT_SIZE) == Flatten(p)
    ensures ManifestAt(mem, base) == p.manifest && L0At(mem, base) == p.l0
    ensures NextImageOffset(p.l0.header) == b0.next
    ensures Verdict(c, mem, base, c.publicKey(keys.manifest)) == RestVerdict(c, mem, base, p.manifest)
  {
    var root := c.publicKey(keys.manifest);
    var message := UnsignedManifest(c.publicKey(keys.l0), c.publicKey(keys.l1));
    ManifestFields(c.publicKey(keys.l0), c.publicKey(keys.l1), c.sign(message, keys.manifest));
    assert AuthenticManifest(c, p.manifest, root) && L0Key(p.manifest) == c.publicKey(keys.l0);
    SignedImageIsAuthentic(c, b0, keys.l0);
    hide View, Wrap, Magic, FwSize, NextImageOffset, Flatten, SignedManifest, SignedHeader, Blank,
         AuthenticManifest, AuthenticImage, SignaturesVerify, RestVerdict;
    FlattenAt(p, mem, base);
    BuiltHeaderFields(c, b0, keys.l0);
    assert L0At(mem, base) == p.l0;
  }

  /** No image starts in blank space. */
  lemma BlankIsNoImage(c: Crypto, mem: Memory, base: u32, at: nat, off: nat, gap: seq<byte>, key: Bytes32)
    requires Blank(gap) && View(mem, base + off, |gap|) == gap && off <= at < off + |gap|
    ensures !AuthenticImage(c, ImageAt(mem, base + at), key)
  {
    ByteAt(mem, base, at, IMAGE_HEADER_SIZE, off, |gap|);
    BlankAt(gap, at - off);
    var header := ImageAt(mem, base + at).header;
    assert header[..4][0] == header[0];
  }

  lemma MagicStartsUnblank(h: Header)
    requires Magic(h) == IMAGE_HEADER_MAGIC
    ensures h[0] == 0x43
  {
    assert h[..4][0] == h[0];
  }

  /** The byte at offset `a` begins the first view and lies in the second one. */
  lemma ByteAt(mem: Memory, base: u32, a: nat, n: nat, b: nat, m: nat)
    requires 0 < n && b <= a < b + m
    ensures View(mem, base + a, n)[0] == View(mem, base + b, m)[a - b]
  {
    assert base + a + 0 == base + b + (a - b);
  }
}
