/**
 * Signed images and key manifests: their byte layout (image_header.h) and the
 * checks on one image or one manifest (image_auth.c).
 */
module ImageAuth {
  import opened Bytes

  const KEY_MANIFEST_VERSION := 0
  const MANIFEST_MESSAGE_LENGTH := 68
  const MANIFEST_LENGTH := 132
  const IMAGE_HEADER_MAGIC := 0x5746_4343
  const IMAGE_HEADER_SIZE := 1024
  const HEADER_MESSAGE_LENGTH := 960
  const FW_UPDATE_FLAGS_SIZE := 96
  const L1_TOTAL_SIZE := 512 * 1024 - FW_UPDATE_FLAGS_SIZE
  const L1_IMAGE_SIZE := L1_TOTAL_SIZE - IMAGE_HEADER_SIZE

  type Bytes32 = s: seq<byte> | |s| == 32 witness Zeros(32)
  type Bytes64 = s: seq<byte> | |s| == 64 witness Zeros(64)

  /**
   * The primitives the firmware links against. Nothing is assumed of them
   * except where a lemma says so.
   */
  datatype Crypto = Crypto(
    hash: seq<byte> -> Bytes32,
    publicKey: Bytes32 -> Bytes32,
    sign: (seq<byte>, Bytes32) -> Bytes64,
    verify: (Bytes64, seq<byte>, Bytes32) -> bool)

  datatype VerifyStatus =
    | VerifySuccess | ErrorMagic | ErrorVersion | ErrorSize | ErrorHash | ErrorSignature

  type Manifest = s: seq<byte> | |s| == MANIFEST_LENGTH witness Zeros(MANIFEST_LENGTH)

  function ManifestVersion(m: Manifest): u32 { Le32(m[..4]) }
  function L0Key(m: Manifest): Bytes32 { m[4..36] }
  function L1Key(m: Manifest): Bytes32 { m[36..68] }
  function ManifestMessage(m: Manifest): seq<byte> { m[..MANIFEST_MESSAGE_LENGTH] }
  function ManifestSignature(m: Manifest): Bytes64 { m[MANIFEST_MESSAGE_LENGTH..] }

  type Header = s: seq<byte> | |s| == IMAGE_HEADER_SIZE witness Zeros(IMAGE_HEADER_SIZE)

  function Magic(h: Header): u32 { Le32(h[..4]) }
  function FwVersion(h: Header): u32 { Le32(h[4..8]) }
  function FwSize(h: Header): u32 { Le32(h[8..12]) }
  function FwHash(h: Header): Bytes32 { h[12..44] }
  function NextImageOffset(h: Header): u32 { Le32(h[44..48]) }
  function Padding(h: Header): seq<byte> { h[48..HEADER_MESSAGE_LENGTH] }
  function HeaderMessage(h: Header): seq<byte> { h[..HEADER_MESSAGE_LENGTH] }
  function HeaderSignature(h: Header): Bytes64 { h[HEADER_MESSAGE_LENGTH..] }

  /** A header and the code it describes. */
  datatype Image = Image(header: Header, body: seq<byte>)

  /** What it takes for an image to be genuine, without any address. */
  predicate AuthenticImage(c: Crypto, image: Image, key: Bytes32) {
    && Magic(image.header) == IMAGE_HEADER_MAGIC
    && 0 < |image.body| <= L1_IMAGE_SIZE
    && FwSize(image.header) == |image.body|
    && FwHash(image.header) == c.hash(image.body)
    && c.verify(HeaderSignature(image.header), HeaderMessage(image.header), key)
  }

  predicate AuthenticManifest(c: Crypto, m: Manifest, root: Bytes32) {
    && ManifestVersion(m) == KEY_MANIFEST_VERSION
    && c.verify(ManifestSignature(m), ManifestMessage(m), root)
  }

  predicate VerifyHash(c: Crypto, reference: Bytes32, mem: Memory, start: u32, size: u32) {
    c.hash(View(mem, start, size)) == reference
  }

  function VerifyImage(c: Crypto, mem: Memory, addr: u32, key: Bytes32): VerifyStatus {
    var header: Header := View(mem, addr, IMAGE_HEADER_SIZE);
    if Magic(header) != IMAGE_HEADER_MAGIC then ErrorMagic
    else if FwSize(header) == 0 || FwSize(header) > L1_IMAGE_SIZE then ErrorSize
    else if !VerifyHash(c, FwHash(header), mem, Wrap(addr + IMAGE_HEADER_SIZE), FwSize(header)) then ErrorHash
    else if !c.verify(HeaderSignature(header), HeaderMessage(header), key) then ErrorSignature
    else VerifySuccess
  }

  function VerifyKeyManifest(c: Crypto, mem: Memory, addr: u32, key: Bytes32): VerifyStatus {
    var manifest: Manifest := View(mem, addr, MANIFEST_LENGTH);
    if ManifestVersion(manifest) != KEY_MANIFEST_VERSION then ErrorVersion
    else if !c.verify(ManifestSignature(manifest), ManifestMessage(manifest), key) then ErrorSignature
    else VerifySuccess
  }

  /** The image an address denotes: the header there and as many bytes after it as it claims. */
  function ImageAt(mem: Memory, a: int): Image {
    var header: Header := View(mem, a, IMAGE_HEADER_SIZE);
    Image(header, View(mem, a + IMAGE_HEADER_SIZE, FwSize(header)))
  }

  lemma VerifyImageDecides(c: Crypto, mem: Memory, a: int, key: Bytes32)
    ensures VerifyImage(c, mem, Wrap(a), key) == VerifySuccess <==> AuthenticImage(c, ImageAt(mem, a), key)
  {
    var size := FwSize(ImageAt(mem, a).header);
    ViewWrap(mem, a, IMAGE_HEADER_SIZE);
    WrapWrap(a, IMAGE_HEADER_SIZE);
    ViewWrap(mem, a + IMAGE_HEADER_SIZE, size);
  }

  /** An error code names the first thing wrong with the image: magic, size, hash, signature. */
  lemma VerifyImageNamesFault(c: Crypto, mem: Memory, a: int, key: Bytes32)
    ensures var image, status := ImageAt(mem, a), VerifyImage(c, mem, Wrap(a), key);
            && (status == ErrorMagic <==> Magic(image.header) != IMAGE_HEADER_MAGIC)
            && (status == ErrorSize <==>
                  Magic(image.header) == IMAGE_HEADER_MAGIC && !(0 < |image.body| <= L1_IMAGE_SIZE))
            && (status == ErrorHash <==>
                  && Magic(image.header) == IMAGE_HEADER_MAGIC && 0 < |image.body| <= L1_IMAGE_SIZE
                  && FwHash(image.header) != c.hash(image.body))
            && (status == ErrorSignature <==>
                  && Magic(image.header) == IMAGE_HEADER_MAGIC && 0 < |image.body| <= L1_IMAGE_SIZE
                  && FwHash(image.header) == c.hash(image.body)
                  && !c.verify(HeaderSignature(image.header), HeaderMessage(image.header), key))
            && status != ErrorVersion
  {
    var size := FwSize(ImageAt(mem, a).header);
    ViewWrap(mem, a, IMAGE_HEADER_SIZE);
    WrapWrap(a, IMAGE_HEADER_SIZE);
    ViewWrap(mem, a + IMAGE_HEADER_SIZE, size);
  }

  lemma VerifyKeyManifestDecides(c: Crypto, mem: Memory, a: int, root: Bytes32)
    ensures VerifyKeyManifest(c, mem, Wrap(a), root) == VerifySuccess
            <==> AuthenticManifest(c, View(mem, a, MANIFEST_LENGTH), root)
    ensures VerifyKeyManifest(c, mem, Wrap(a), root) == ErrorVersion
            <==> ManifestVersion(View(mem, a, MANIFEST_LENGTH)) != KEY_MANIFEST_VERSION
    ensures VerifyKeyManifest(c, mem, Wrap(a), root) == ErrorSignature
            <==> var m: Manifest := View(mem, a, MANIFEST_LENGTH);
                 ManifestVersion(m) == KEY_MANIFEST_VERSION
                 && !c.verify(ManifestSignature(m), ManifestMessage(m), root)
  {
    ViewWrap(mem, a, MANIFEST_LENGTH);
  }
}
