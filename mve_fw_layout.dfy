/** The firmware image header, the secure descriptor and the MMU constants
    of the MVE video engine: page geometry, the attribute and access
    encodings and the bit fields of a 32-bit page-table entry. */
module MveFwLayout {
  import opened MachineWords

  // ---------------------------------------------------------------------
  // Page geometry (4 kB pages, 32-bit virtual address space)
  // ---------------------------------------------------------------------

  /** A page is `1 << PageShift` bytes. */
  const PageShift: nat := 12
  /** Bytes in a page. Products and quotients elsewhere write it as the
      literal 4096, which keeps them linear for the solver. */
  const PageSize: nat := 4096
  /** Bytes in one MMU page-table entry. */
  const EntrySize: nat := 4
  /** Entries in one page-table page: each core's table is one page. */
  const EntriesPerPage: nat := 1024

  /** A page is `1 << PageShift` bytes and holds `PageSize / EntrySize`
      entries. */
  lemma PageGeometry()
    ensures ((1 as bv32) << PageShift) as int == PageSize
    ensures EntriesPerPage == PageSize / EntrySize
  {
    assert (1 as bv32) << PageShift == 0x1000;
  }

  // ---------------------------------------------------------------------
  // Entry attributes and access permissions
  // ---------------------------------------------------------------------

  datatype Attrib = AttribPrivate | AttribRefFrame | AttribSharedRo | AttribSharedRw

  datatype Access = AccessNo | AccessReadOnly | AccessExecutable | AccessReadWrite

  /** The enumerator value of an attribute; it fits the entry's 2-bit field. */
  function AttribCode(a: Attrib): (c: nat)
    ensures c < 4
    ensures AttribOfCode(c) == a
  {
    match a
    case AttribPrivate => 0
    case AttribRefFrame => 1
    case AttribSharedRo => 2
    case AttribSharedRw => 3
  }

  function AttribOfCode(c: nat): Attrib
    requires c < 4
  {
    if c == 0 then AttribPrivate
    else if c == 1 then AttribRefFrame
    else if c == 2 then AttribSharedRo
    else AttribSharedRw
  }

  /** The enumerator value of an access right; it fits the entry's 2-bit field. */
  function AccessCode(a: Access): (c: nat)
    ensures c < 4
    ensures AccessOfCode(c) == a
  {
    match a
    case AccessNo => 0
    case AccessReadOnly => 1
    case AccessExecutable => 2
    case AccessReadWrite => 3
  }

  function AccessOfCode(c: nat): Access
    requires c < 4
  {
    if c == 0 then AccessNo
    else if c == 1 then AccessReadOnly
    else if c == 2 then AccessExecutable
    else AccessReadWrite
  }

  // ---------------------------------------------------------------------
  // Entry bit fields
  // ---------------------------------------------------------------------

  /** An entry holds the attribute in bits 30-31 (mask 0xC0000000), the
      physical page number from bit 2 (mask 0x3FFFFFFC) and the access in
      bits 0-1 (mask 0x3). */
  const AttributeShift: nat := 30
  const PaddrShift: nat := 2
  const AccessShift: nat := 0

  const AttributeMask: bv32 := 0xC000_0000
  const PaddrMask: bv32 := 0x3FFF_FFFC
  const AccessMask: bv32 := 0x3

  /** The three fields of an entry do not overlap and together cover the
      whole 32-bit word; each mask is a run of ones starting at its
      field's shift. */
  lemma EntryMasksPartitionWord()
    ensures AttributeMask & PaddrMask == 0
    ensures AttributeMask & AccessMask == 0
    ensures PaddrMask & AccessMask == 0
    ensures AttributeMask | PaddrMask | AccessMask == 0xFFFF_FFFF
    ensures AttributeMask == 3 << AttributeShift
    ensures PaddrMask == 0xFFF_FFFF << PaddrShift
    ensures AccessMask == 3 << AccessShift
  {
  }

  // ---------------------------------------------------------------------
  // Firmware header (180 bytes, no padding, little-endian words)
  // ---------------------------------------------------------------------

  const HeaderSize: nat := 180
  /** Words of BSS bitmap storage in the header. */
  const BitmapWords: nat := 16
  /** Bitmap positions the header can describe: 16 words of 32 bits. */
  const BitmapCapacity: nat := 512

  const OffRascJmp: nat := 0
  const OffProtocolMinor: nat := 4
  const OffProtocolMajor: nat := 5
  const OffReserved: nat := 6
  const OffInfoString: nat := 8
  const OffPartNumber: nat := 64
  const OffSvnRevision: nat := 72
  const OffVersionString: nat := 80
  const OffTextLength: nat := 96
  const OffBssStartAddress: nat := 100
  const OffBssBitmapSize: nat := 104
  const OffBssBitmap: nat := 108
  const OffMasterRwStartAddress: nat := 172
  const OffMasterRwSize: nat := 176

  datatype FwHeader = FwHeader(
    rascJmp: u32,
    protocolMinor: byte,
    protocolMajor: byte,
    reserved: seq<byte>,
    infoString: seq<byte>,
    partNumber: seq<byte>,
    svnRevision: seq<byte>,
    versionString: seq<byte>,
    textLength: u32,
    /** Always page-aligned according to the header's own documentation. */
    bssStartAddress: u32,
    bssBitmapSize: u32,
    bssBitmap: seq<u32>,
    masterRwStartAddress: u32,
    masterRwSize: u32)

  /** Every array member of the header has its declared length. */
  ghost predicate WellFormed(h: FwHeader)
  {
    && |h.reserved| == 2
    && |h.infoString| == 56
    && |h.partNumber| == 8
    && |h.svnRevision| == 8
    && |h.versionString| == 16
    && |h.bssBitmap| == BitmapWords
  }

  function U32At(b: seq<byte>, off: nat): u32
    requires off + 4 <= |b|
  {
    Le32(b[off], b[off + 1], b[off + 2], b[off + 3])
  }

  /** Reads the header from the first `HeaderSize` bytes of a decrypted image. */
  function ParseHeader(b: seq<byte>): (h: FwHeader)
    requires |b| >= HeaderSize
    ensures WellFormed(h)
    ensures h.protocolMinor == b[OffProtocolMinor] && h.protocolMajor == b[OffProtocolMajor]
  {
    FwHeader(
      U32At(b, OffRascJmp),
      b[OffProtocolMinor],
      b[OffProtocolMajor],
      b[OffReserved..OffInfoString],
      b[OffInfoString..OffPartNumber],
      b[OffPartNumber..OffSvnRevision],
      b[OffSvnRevision..OffVersionString],
      b[OffVersionString..OffTextLength],
      U32At(b, OffTextLength),
      U32At(b, OffBssStartAddress),
      U32At(b, OffBssBitmapSize),
      seq(BitmapWords, k requires 0 <= k < BitmapWords => U32At(b, OffBssBitmap + 4 * k)),
      U32At(b, OffMasterRwStartAddress),
      U32At(b, OffMasterRwSize))
  }

  function WordsBytes(ws: seq<u32>): (r: seq<byte>)
    ensures |r| == 4 * |ws|
  {
    if ws == [] then [] else Le32Bytes(ws[0]) + WordsBytes(ws[1..])
  }

  /** The byte image of a header, laid out field after field without padding. */
  function EncodeHeader(h: FwHeader): (b: seq<byte>)
    requires WellFormed(h)
    ensures |b| == HeaderSize
  {
    Le32Bytes(h.rascJmp) + [h.protocolMinor, h.protocolMajor] + h.reserved
    + h.infoString + h.partNumber + h.svnRevision + h.versionString
    + Le32Bytes(h.textLength) + Le32Bytes(h.bssStartAddress) + Le32Bytes(h.bssBitmapSize)
    + WordsBytes(h.bssBitmap)
    + Le32Bytes(h.masterRwStartAddress) + Le32Bytes(h.masterRwSize)
  }

  lemma {:induction false} WordsBytesAt(ws: seq<u32>, k: nat)
    requires k < |ws|
    ensures WordsBytes(ws)[4 * k..4 * k + 4] == Le32Bytes(ws[k])
  {
    if k > 0 {
      WordsBytesAt(ws[1..], k - 1);
      assert WordsBytes(ws) == Le32Bytes(ws[0]) + WordsBytes(ws[1..]);
    }
  }

  /** Every field's bytes sit at its documented offset. */
  lemma EncodeHeaderOffsets(h: FwHeader)
    requires WellFormed(h)
    ensures var b := EncodeHeader(h);
      && b[OffRascJmp..OffRascJmp + 4] == Le32Bytes(h.rascJmp)
      && b[OffProtocolMinor] == h.protocolMinor
      && b[OffProtocolMajor] == h.protocolMajor
      && b[OffReserved..OffInfoString] == h.reserved
      && b[OffInfoString..OffPartNumber] == h.infoString
      && b[OffPartNumber..OffSvnRevision] == h.partNumber
      && b[OffSvnRevision..OffVersionString] == h.svnRevision
      && b[OffVersionString..OffTextLength] == h.versionString
      && b[OffTextLength..OffTextLength + 4] == Le32Bytes(h.textLength)
      && b[OffBssStartAddress..OffBssStartAddress + 4] == Le32Bytes(h.bssStartAddress)
      && b[OffBssBitmapSize..OffBssBitmapSize + 4] == Le32Bytes(h.bssBitmapSize)
      && b[OffBssBitmap..OffMasterRwStartAddress] == WordsBytes(h.bssBitmap)
      && b[OffMasterRwStartAddress..OffMasterRwStartAddress + 4] == Le32Bytes(h.masterRwStartAddress)
      && b[OffMasterRwSize..HeaderSize] == Le32Bytes(h.masterRwSize)
  {
    var b := EncodeHeader(h);
    var p0 := Le32Bytes(h.rascJmp) + [h.protocolMinor, h.protocolMajor] + h.reserved;
    var p1 := p0 + h.infoString + h.partNumber + h.svnRevision + h.versionString;
    var p2 := p1 + Le32Bytes(h.textLength) + Le32Bytes(h.bssStartAddress) + Le32Bytes(h.bssBitmapSize);
    var p3 := p2 + WordsBytes(h.bssBitmap);
    var p4 := p3 + Le32Bytes(h.masterRwStartAddress);
    assert b == p4 + Le32Bytes(h.masterRwSize);
    assert |p0| == OffInfoString && |p1| == OffTextLength && |p2| == OffBssBitmap;
    assert |p3| == OffMasterRwStartAddress && |p4| == OffMasterRwSize;
  }

  /** Parsing the byte image of a header gives back that header. */
  lemma ParseEncodeHeader(h: FwHeader)
    requires WellFormed(h)
    ensures ParseHeader(EncodeHeader(h)) == h
  {
    var b := EncodeHeader(h);
    EncodeHeaderOffsets(h);
    var p := ParseHeader(b);
    ReadStoredWord(b, OffRascJmp, h.rascJmp);
    ReadStoredWord(b, OffTextLength, h.textLength);
    ReadStoredWord(b, OffBssStartAddress, h.bssStartAddress);
    ReadStoredWord(b, OffBssBitmapSize, h.bssBitmapSize);
    ReadStoredWord(b, OffMasterRwStartAddress, h.masterRwStartAddress);
    ReadStoredWord(b, OffMasterRwSize, h.masterRwSize);
    forall k | 0 <= k < BitmapWords
      ensures p.bssBitmap[k] == h.bssBitmap[k]
    {
      WordsBytesAt(h.bssBitmap, k);
      var w := WordsBytes(h.bssBitmap);
      assert b[OffBssBitmap + 4 * k..OffBssBitmap + 4 * k + 4] == w[4 * k..4 * k + 4];
      ReadStoredWord(b, OffBssBitmap + 4 * k, h.bssBitmap[k]);
    }
    assert p.bssBitmap == h.bssBitmap;
  }

  /** A word stored at an offset reads back from that offset. */
  lemma ReadStoredWord(b: seq<byte>, off: nat, w: u32)
    requires off + 4 <= |b| && b[off..off + 4] == Le32Bytes(w)
    ensures U32At(b, off) == w
  {
    assert b[off] == Le32Bytes(w)[0] && b[off + 1] == Le32Bytes(w)[1];
    assert b[off + 2] == Le32Bytes(w)[2] && b[off + 3] == Le32Bytes(w)[3];
    Le32RoundTrip(w);
  }

  // ---------------------------------------------------------------------
  // BSS bitmap
  // ---------------------------------------------------------------------

  /** Bit `j` of the BSS bitmap: bit `j & 0x1f` of word `j >> 5`. Bit 31 is
      tested with the sign bit of the C `1 << 31`, which is the same bit. */
  predicate BitmapBit(words: seq<u32>, j: nat)
    requires j < 32 * |words|
  {
    WordBit(words[j / 32], j % 32)
  }

  /** Bit `i` of `w`, counting from the least significant bit. */
  predicate WordBit(w: nat, i: nat)
  {
    if i == 0 then w % 2 == 1 else WordBit(w / 2, i - 1)
  }

  /** The shift and the mask the code uses pick the word `j / 32` and the
      bit `j % 32` of a bitmap position below 512. */
  lemma BitmapIndexSplit(j: bv32)
    requires j < 512
    ensures (j >> 5) as int == (j as int) / 32 < BitmapWords
    ensures (j & 0x1f) as int == (j as int) % 32
  {
  }

  // ---------------------------------------------------------------------
  // Secure descriptor
  // ---------------------------------------------------------------------

  /** The record handed back to the non-secure caller; the secure side
      fills it in place, field by field. */
  class SecureDescriptor {
    var major: byte
    var minor: byte
    /** Physical address of the page tables built by the secure side. */
    var l2pages: u32

    constructor (major: byte, minor: byte, l2pages: u32)
      ensures this.major == major && this.minor == minor && this.l2pages == l2pages
    {
      this.major := major;
      this.minor := minor;
      this.l2pages := l2pages;
    }
  }
}
