/**
 * What an accepted slot is bound to: the signed messages determine every byte outside
 * signatures and gaps, and the gaps determine nothing.
 */
module PackageBinding {
  import opened Bytes
  import opened ImageAuth
  import opened FirmwareAuth

  // ----- Offsets in a slot, as its headers describe it -----

  predicate InGap(mem: Memory, base: u32, i: int) {
    || MANIFEST_LENGTH <= i < KEY_MANIFEST_SIZE
    || L0End(mem, base) <= i < L1Start(mem, base)
    || (L0End(mem, base) <= L1Start(mem, base) && L1End(mem, base) <= i < FW_SLOT_SIZE)
  }

  predicate InSignature(mem: Memory, base: u32, i: int) {
    || MANIFEST_MESSAGE_LENGTH <= i < MANIFEST_LENGTH
    || HEADER_MESSAGE_LENGTH <= i - KEY_MANIFEST_SIZE < IMAGE_HEADER_SIZE
    || HEADER_MESSAGE_LENGTH <= i - L1Start(mem, base) < IMAGE_HEADER_SIZE
  }

  function At(mem: Memory, base: u32, i: int): byte {
    mem(Wrap(base + i))
  }

  lemma ViewAt(mem: Memory, base: u32, off: nat, n: nat, i: int)
    requires off <= i < off + n
    ensures View(mem, base + off, n)[i - off] == At(mem, base, i)
  {
    assert base + off + (i - off) == base + i;
  }

  // ----- Binding -----

  predicate Collision(c: Crypto, a: seq<byte>, b: seq<byte>) {
    a != b && c.hash(a) == c.hash(b)
  }

  /** The three signed messages of the slot. */
  function Messages(mem: Memory, base: u32): (seq<byte>, seq<byte>, seq<byte>) {
    (ManifestMessage(ManifestAt(mem, base)), HeaderMessage(L0At(mem, base).header), HeaderMessage(L1At(mem, base).header))
  }

  lemma MessageFixesFields(h: Header, h': Header)
    requires HeaderMessage(h) == HeaderMessage(h')
    ensures FwSize(h) == FwSize(h') && FwHash(h) == FwHash(h') && NextImageOffset(h) == NextImageOffset(h')
  {
    assert h[8..12] == HeaderMessage(h)[8..12] == h'[8..12];
    assert h[12..44] == HeaderMessage(h)[12..44] == h'[12..44];
    assert h[44..48] == HeaderMessage(h)[44..48] == h'[44..48];
  }

  /**
   * Two slots, at any addresses, accepted with the same signed messages agree on every byte outside
   * gaps and signatures, or one pair of bodies is an explicit hash collision.
   */
  lemma MessagesBindContents(c: Crypto, root: Bytes32, mem: Memory, base: u32, mem': Memory, base': u32)
    requires Verdict(c, mem, base, root) == AuthSuccess && Verdict(c, mem', base', root) == AuthSuccess
    requires Messages(mem, base) == Messages(mem', base')
    ensures L0End(mem, base) == L0End(mem', base') && L1Start(mem, base) == L1Start(mem', base')
            && L1End(mem, base) == L1End(mem', base')
    ensures || Collision(c, L0At(mem, base).body, L0At(mem', base').body)
            || Collision(c, L1At(mem, base).body, L1At(mem', base').body)
            || forall i | 0 <= i < FW_SLOT_SIZE && !InGap(mem, base, i) && !InSignature(mem, base, i) ::
                 At(mem, base, i) == At(mem', base', i)
  {
    hide View, Wrap, FwSize, FwHash, NextImageOffset, Blank, At;
    MessageFixesFields(L0At(mem, base).header, L0At(mem', base').header);
    MessageFixesFields(L1At(mem, base).header, L1At(mem', base').header);
    if L0At(mem, base).body == L0At(mem', base').body && L1At(mem, base).body == L1At(mem', base').body {
      forall i | 0 <= i < FW_SLOT_SIZE && !InGap(mem, base, i) && !InSignature(mem, base, i)
        ensures At(mem, base, i) == At(mem', base', i)
      {
        BoundByte(mem, base, mem', base', i);
      }
    }
  }

  lemma BoundByte(mem: Memory, base: u32, mem': Memory, base': u32, i: nat)
    requires Messages(mem, base) == Messages(mem', base')
    requires L0At(mem, base).body == L0At(mem', base').body && L1At(mem, base).body == L1At(mem', base').body
    requires L1Start(mem, base) == L1Start(mem', base')
    requires L0End(mem, base) <= L1Start(mem, base)
    requires i < FW_SLOT_SIZE && !InGap(mem, base, i) && !InSignature(mem, base, i)
    ensures At(mem, base, i) == At(mem', base', i)
  {
    hide View, Wrap, FwSize, FwHash, NextImageOffset, At;
    var start0, start1 := KEY_MANIFEST_SIZE, L1Start(mem, base);
    if i < MANIFEST_MESSAGE_LENGTH {
      SamePart(mem, base, mem', base', 0, MANIFEST_LENGTH, MANIFEST_MESSAGE_LENGTH, i);
    } else if i < start0 + IMAGE_HEADER_SIZE {
      SamePart(mem, base, mem', base', start0, IMAGE_HEADER_SIZE, HEADER_MESSAGE_LENGTH, i);
    } else if i < L0End(mem, base) {
      var n := |L0At(mem, base).body|;
      SamePart(mem, base, mem', base', start0 + IMAGE_HEADER_SIZE, n, n, i);
    } else if i < start1 + IMAGE_HEADER_SIZE {
      SamePart(mem, base, mem', base', start1, IMAGE_HEADER_SIZE, HEADER_MESSAGE_LENGTH, i);
    } else {
      var n := |L1At(mem, base).body|;
      SamePart(mem, base, mem', base', start1 + IMAGE_HEADER_SIZE, n, n, i);
    }
  }

  /** Views that agree on their first `m` bytes, read byte by byte. */
  lemma SamePart(mem: Memory, base: u32, mem': Memory, base': u32, off: nat, n: nat, m: nat, i: int)
    requires m <= n && View(mem, base + off, n)[..m] == View(mem', base' + off, n)[..m]
    requires off <= i < off + m
    ensures At(mem, base, i) == At(mem', base', i)
  {
    hide View, Wrap, At;
    ViewAt(mem, base, off, n, i);
    ViewAt(mem', base', off, n, i);
    assert View(mem, base + off, n)[..m][i - off] == View(mem', base' + off, n)[..m][i - off];
  }

  // ----- Gaps -----

  /** The two memories differ, seen from their bases, only in gap bytes that are blank in both. */
  ghost predicate SameUpToFiller(mem: Memory, base: u32, mem': Memory, base': u32) {
    forall i | 0 <= i < TWO_TO_THE_32 ::
      || At(mem, base, i) == At(mem', base', i)
      || (i < FW_SLOT_SIZE && InGap(mem, base, i) && BlankByte(At(mem, base, i)) && BlankByte(At(mem', base', i)))
  }

  lemma SameOutsideGaps(mem: Memory, base: u32, mem': Memory, base': u32, off: nat, n: nat)
    requires off + n <= TWO_TO_THE_32
    requires forall i | off <= i < off + n :: At(mem, base, i) == At(mem', base', i)
    ensures View(mem, base + off, n) == View(mem', base' + off, n)
  {
    hide View, Wrap, At;
    var v, v' := View(mem, base + off, n), View(mem', base' + off, n);
    forall k | 0 <= k < n
      ensures v[k] == v'[k]
    {
      ViewAt(mem, base, off, n, off + k);
      ViewAt(mem', base', off, n, off + k);
      assert At(mem, base, off + k) == At(mem', base', off + k);
    }
  }

  predicate BlankBetween(mem: Memory, base: u32, lo: int, hi: int) {
    forall i | lo <= i < hi :: BlankByte(At(mem, base, i))
  }

  lemma BlankBytes(mem: Memory, base: u32, off: nat, n: nat)
    ensures Blank(View(mem, base + off, n)) <==> forall i | off <= i < off + n :: BlankByte(At(mem, base, i))
  {
    var v := View(mem, base + off, n);
    forall i | off <= i < off + n
      ensures v[i - off] == At(mem, base, i)
    {
      ViewAt(mem, base, off, n, i);
    }
    if forall i | off <= i < off + n :: BlankByte(At(mem, base, i)) {
      forall k | 0 <= k < n
        ensures BlankByte(v[k])
      {
        assert BlankByte(At(mem, base, off + k));
      }
    }
  }

  /** Headers are never in a gap, so both memories are laid out alike. */
  lemma SameLayout(mem: Memory, base: u32, mem': Memory, base': u32)
    requires forall i | 0 <= i < FW_SLOT_SIZE && !InGap(mem, base, i) :: At(mem, base, i) == At(mem', base', i)
    requires L0End(mem, base) <= L1Start(mem, base) <= FW_SLOT_SIZE - IMAGE_HEADER_SIZE
    ensures ManifestAt(mem, base) == ManifestAt(mem', base')
    ensures L0At(mem, base) == L0At(mem', base')
    ensures L1At(mem, base).header == L1At(mem', base').header
  {
    hide View, Wrap, At, FwSize, NextImageOffset;
    SameOutsideGaps(mem, base, mem', base', 0, MANIFEST_LENGTH);
    SameOutsideGaps(mem, base, mem', base', KEY_MANIFEST_SIZE, IMAGE_HEADER_SIZE);
    SameOutsideGaps(mem, base, mem', base', KEY_MANIFEST_SIZE + IMAGE_HEADER_SIZE, |L0At(mem, base).body|);
    SameOutsideGaps(mem, base, mem', base', L1Start(mem, base), IMAGE_HEADER_SIZE);
  }

  /**
   * From an accepted slot, change gap bytes to anything: the slot stays accepted exactly as long as
   * every gap byte is 0 or 0xFF, and otherwise the verdict names the first gap with extra data.
   */
  lemma GapsMustOnlyBeBlank(c: Crypto, root: Bytes32, mem: Memory, base: u32, mem': Memory, base': u32)
    requires Verdict(c, mem, base, root) == AuthSuccess
    requires forall i | 0 <= i < FW_SLOT_SIZE && !InGap(mem, base, i) :: At(mem, base, i) == At(mem', base', i)
    ensures Verdict(c, mem', base', root) == AuthSuccess
            <==> forall i | 0 <= i < FW_SLOT_SIZE && InGap(mem, base, i) :: BlankByte(At(mem', base', i))
    ensures var gap0 := BlankBetween(mem', base', MANIFEST_LENGTH, KEY_MANIFEST_SIZE);
            var gap1 := BlankBetween(mem', base', L0End(mem, base), L1Start(mem, base));
            Verdict(c, mem', base', root) ==
              if !gap0 then ExtraDataManifestL0
              else if !gap1 then ExtraDataL0L1
              else if !BlankBetween(mem', base', L1End(mem, base), FW_SLOT_SIZE) then ExtraDataAfterL1
              else AuthSuccess
  {
    hide View, Wrap, At, FwSize, NextImageOffset, Blank, AuthenticManifest;
    SameLayout(mem, base, mem', base');
    var end0, start1, end1 := L0End(mem, base), L1Start(mem, base), L1End(mem, base);
    SameOutsideGaps(mem, base, mem', base', start1 + IMAGE_HEADER_SIZE, |L1At(mem, base).body|);
    BlankBytes(mem', base', MANIFEST_LENGTH, KEY_MANIFEST_SIZE - MANIFEST_LENGTH);
    BlankBytes(mem', base', end0, start1 - end0);
    BlankBytes(mem', base', end1, FW_SLOT_SIZE - end1);
  }

  lemma SameBlank(mem: Memory, base: u32, mem': Memory, base': u32, off: nat, n: nat)
    requires off + n <= TWO_TO_THE_32 && SameUpToFiller(mem, base, mem', base')
    ensures Blank(View(mem, base + off, n)) == Blank(View(mem', base' + off, n))
  {
    hide View, Wrap, At, InGap;
    BlankBytes(mem, base, off, n);
    BlankBytes(mem', base', off, n);
  }

  lemma SameImage(c: Crypto, mem: Memory, base: u32, mem': Memory, base': u32, off: nat, key: Bytes32)
    requires off + IMAGE_HEADER_SIZE + L1_IMAGE_SIZE <= TWO_TO_THE_32
    requires SameUpToFiller(mem, base, mem', base')
    requires forall i | off <= i < off + IMAGE_HEADER_SIZE + |ImageAt(mem, base + off).body| :: !InGap(mem, base, i)
    ensures ImageAt(mem, base + off).header == ImageAt(mem', base' + off).header
    ensures AuthenticImage(c, ImageAt(mem, base + off), key) == AuthenticImage(c, ImageAt(mem', base' + off), key)
  {
    hide View, Wrap, At, InGap, FwSize;
    SameOutsideGaps(mem, base, mem', base', off, IMAGE_HEADER_SIZE);
    var size := |ImageAt(mem, base + off).body|;
    if size <= L1_IMAGE_SIZE {
      SameOutsideGaps(mem, base, mem', base', off + IMAGE_HEADER_SIZE, size);
      assert base + off + IMAGE_HEADER_SIZE == base + (off + IMAGE_HEADER_SIZE);
      assert base' + off + IMAGE_HEADER_SIZE == base' + (off + IMAGE_HEADER_SIZE);
    }
  }

  lemma SameManifest(mem: Memory, base: u32, mem': Memory, base': u32)
    requires SameUpToFiller(mem, base, mem', base')
    ensures ManifestAt(mem, base) == ManifestAt(mem', base')
  {
    hide View, Wrap, At, FwSize, NextImageOffset;
    SameOutsideGaps(mem, base, mem', base', 0, MANIFEST_LENGTH);
  }

  /** Swapping filler between 0 and 0xFF, or moving the slot, never changes the verdict, good or bad. */
  lemma FillerAndAddressDoNotMatter(c: Crypto, root: Bytes32, mem: Memory, base: u32, mem': Memory, base': u32)
    requires SameUpToFiller(mem, base, mem', base')
    ensures Verdict(c, mem, base, root) == Verdict(c, mem', base', root)
  {
    hide View, Wrap, At, FwSize, NextImageOffset, Blank, AuthenticManifest, AuthenticImage, SameUpToFiller;
    var end0, start1, end1 := L0End(mem, base), L1Start(mem, base), L1End(mem, base);
    SameManifest(mem, base, mem', base');
    SameBlank(mem, base, mem', base', MANIFEST_LENGTH, KEY_MANIFEST_SIZE - MANIFEST_LENGTH);
    var manifest := ManifestAt(mem, base);
    SameImage(c, mem, base, mem', base', KEY_MANIFEST_SIZE, L0Key(manifest));
    if end0 <= start1 <= FW_SLOT_SIZE {
      SameImage(c, mem, base, mem', base', start1, L1Key(manifest));
      SameBlank(mem, base, mem', base', end0, start1 - end0);
      if end1 <= FW_SLOT_SIZE {
        SameBlank(mem, base, mem', base', end1, FW_SLOT_SIZE - end1);
      }
    }
  }
}
