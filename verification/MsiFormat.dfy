/**
 The fixed records of a compound file (an MSI is one): the header of section 2.2 of [MS-CFB] and
 the 128-byte directory entry of section 2.6, with their byte layouts.
 */
module MsiFormat {
  import opened Bytes

  const HEADER_CONTENT_BYTES: nat := 76
  const HEADER_TOTAL_BYTES: nat := 512
  const HEADER_SLOTS: nat := 109
  const DIR_ENTRY_BYTES: nat := 128
  const MINI_SECTOR_SIZE: nat := 64
  const MINI_CUTOFF: nat := 4096

  const FREESECT: nat := 0xFFFF_FFFF
  const ENDOFCHAIN: nat := 0xFFFF_FFFE
  const FATSECT: nat := 0xFFFF_FFFD
  const DIFSECT: nat := 0xFFFF_FFFC
  /** Sector numbers are below this value; from here on 32-bit FAT entries are markers. */
  const MAX_SECTORS: nat := 0xFFFF_FFFB

  const MAGIC: seq<byte> := [0xd0, 0xcf, 0x11, 0xe0, 0xa1, 0xb1, 0x1a, 0xe1]
  /** UTF-16 for "\05DigitalSignature". */
  const SIGNATURE_NAME: seq<byte> :=
    [0x05, 0, 0x44, 0, 0x69, 0, 0x67, 0, 0x69, 0, 0x74, 0, 0x61, 0, 0x6c, 0, 0x53, 0, 0x69, 0, 0x67, 0,
     0x6e, 0, 0x61, 0, 0x74, 0, 0x75, 0, 0x72, 0, 0x65, 0, 0, 0]

  /** The marks of section 2.1 of [MS-CFB] are the highest sector numbers, counted down. */
  lemma MarksAre()
    ensures FREESECT == TWO32 - 1 && ENDOFCHAIN == TWO32 - 2 && FATSECT == TWO32 - 3 && DIFSECT == TWO32 - 4
    ensures MAX_SECTORS == TWO32 - 5
  {
  }

  /** The name of the signature's stream, in UTF-16 with its terminating zero. */
  lemma SignatureNameIs()
    ensures SIGNATURE_NAME ==
            [5, 0, 'D' as int, 0, 'i' as int, 0, 'g' as int, 0, 'i' as int, 0, 't' as int, 0,
             'a' as int, 0, 'l' as int, 0, 'S' as int, 0, 'i' as int, 0, 'g' as int, 0, 'n' as int, 0,
             'a' as int, 0, 't' as int, 0, 'u' as int, 0, 'r' as int, 0, 'e' as int, 0, 0, 0]
  {
  }

  datatype Header = Header(
    magic: seq<byte>,
    clsid: seq<byte>,
    minorVersion: nat,
    dllVersion: nat,
    byteOrder: nat,
    sectorShift: nat,
    miniSectorShift: nat,
    reserved: seq<byte>,
    numDirSectors: nat,
    numFatSectors: nat,
    firstDirSector: nat,
    transactionSignatureNumber: nat,
    miniStreamCutoffSize: nat,
    firstMiniFatSector: nat,
    numMiniFatSectors: nat,
    firstDifatSector: nat,
    numDifatSectors: nat)

  predicate HeaderInRange(h: Header) {
    && |h.magic| == 8 && |h.clsid| == 16 && |h.reserved| == 6
    && h.minorVersion < TWO16 && h.dllVersion < TWO16 && h.byteOrder < TWO16
    && h.sectorShift < TWO16 && h.miniSectorShift < TWO16
    && h.numDirSectors < TWO32 && h.numFatSectors < TWO32 && h.firstDirSector < TWO32
    && h.transactionSignatureNumber < TWO32 && h.miniStreamCutoffSize < TWO32
    && h.firstMiniFatSector < TWO32 && h.numMiniFatSectors < TWO32
    && h.firstDifatSector < TWO32 && h.numDifatSectors < TWO32
  }

  function DecodeHeader(b: seq<byte>): (h: Header)
    requires |b| == HEADER_CONTENT_BYTES
    ensures HeaderInRange(h)
  {
    Header(b[..8], b[8..24], U16(b, 24), U16(b, 26), U16(b, 28), U16(b, 30), U16(b, 32), b[34..40],
           U32(b, 40), U32(b, 44), U32(b, 48), U32(b, 52), U32(b, 56), U32(b, 60), U32(b, 64),
           U32(b, 68), U32(b, 72))
  }

  function EncodeHeader(h: Header): (b: seq<byte>)
    requires |h.magic| == 8 && |h.clsid| == 16 && |h.reserved| == 6
    ensures |b| == HEADER_CONTENT_BYTES
  {
    EncodeVersions(h) + EncodeCounters(h)
  }

  function EncodeVersions(h: Header): (b: seq<byte>)
    requires |h.magic| == 8 && |h.clsid| == 16 && |h.reserved| == 6
    ensures |b| == 40
  {
    h.magic + h.clsid
    + Put16(h.minorVersion) + Put16(h.dllVersion) + Put16(h.byteOrder) + Put16(h.sectorShift)
    + Put16(h.miniSectorShift) + h.reserved
  }

  function EncodeCounters(h: Header): (b: seq<byte>)
    ensures |b| == 36
  {
    Put32(h.numDirSectors) + Put32(h.numFatSectors) + Put32(h.firstDirSector)
    + Put32(h.transactionSignatureNumber) + Put32(h.miniStreamCutoffSize)
    + Put32(h.firstMiniFatSector) + Put32(h.numMiniFatSectors)
    + Put32(h.firstDifatSector) + Put32(h.numDifatSectors)
  }

  lemma VersionsLayout(h: Header)
    requires HeaderInRange(h)
    ensures var b := EncodeVersions(h);
            && b[..8] == h.magic && b[8..24] == h.clsid && b[24..26] == Put16(h.minorVersion)
            && b[26..28] == Put16(h.dllVersion) && b[28..30] == Put16(h.byteOrder)
            && b[30..32] == Put16(h.sectorShift) && b[32..34] == Put16(h.miniSectorShift)
            && b[34..40] == h.reserved
  {
    hide Put16;
  }

  lemma CountersLayout(h: Header)
    ensures var b := EncodeCounters(h);
            && b[0..4] == Put32(h.numDirSectors) && b[4..8] == Put32(h.numFatSectors)
            && b[8..12] == Put32(h.firstDirSector) && b[12..16] == Put32(h.transactionSignatureNumber)
            && b[16..20] == Put32(h.miniStreamCutoffSize) && b[20..24] == Put32(h.firstMiniFatSector)
            && b[24..28] == Put32(h.numMiniFatSectors) && b[28..32] == Put32(h.firstDifatSector)
            && b[32..36] == Put32(h.numDifatSectors)
  {
    hide Put32;
  }

  lemma HeaderLayout(h: Header)
    requires HeaderInRange(h)
    ensures var b := EncodeHeader(h);
            && b[..8] == h.magic && b[8..24] == h.clsid && b[24..26] == Put16(h.minorVersion)
            && b[26..28] == Put16(h.dllVersion) && b[28..30] == Put16(h.byteOrder)
            && b[30..32] == Put16(h.sectorShift) && b[32..34] == Put16(h.miniSectorShift)
            && b[34..40] == h.reserved
  {
    VersionsLayout(h);
    hide EncodeVersions, EncodeCounters, Put16, Put32;
    var b, v := EncodeHeader(h), EncodeVersions(h);
    assert b[..8] == v[..8] && b[8..24] == v[8..24] && b[24..26] == v[24..26] && b[26..28] == v[26..28];
    assert b[28..30] == v[28..30] && b[30..32] == v[30..32] && b[32..34] == v[32..34] && b[34..40] == v[34..40];
  }

  lemma HeaderCountersLayout(h: Header)
    requires HeaderInRange(h)
    ensures var b := EncodeHeader(h);
            && b[40..44] == Put32(h.numDirSectors) && b[44..48] == Put32(h.numFatSectors)
            && b[48..52] == Put32(h.firstDirSector) && b[52..56] == Put32(h.transactionSignatureNumber)
            && b[56..60] == Put32(h.miniStreamCutoffSize) && b[60..64] == Put32(h.firstMiniFatSector)
            && b[64..68] == Put32(h.numMiniFatSectors) && b[68..72] == Put32(h.firstDifatSector)
            && b[72..76] == Put32(h.numDifatSectors)
  {
    CountersLayout(h);
    hide EncodeVersions, EncodeCounters, Put16, Put32;
    var b, c := EncodeHeader(h), EncodeCounters(h);
    assert b[40..44] == c[0..4] && b[44..48] == c[4..8] && b[48..52] == c[8..12] && b[52..56] == c[12..16];
    assert b[56..60] == c[16..20] && b[60..64] == c[20..24] && b[64..68] == c[24..28] && b[68..72] == c[28..32];
    assert b[72..76] == c[32..36];
  }

  lemma DecodeEncodeHeader(h: Header)
    requires HeaderInRange(h)
    ensures DecodeHeader(EncodeHeader(h)) == h
  {
    var b := EncodeHeader(h);
    HeaderLayout(h);
    HeaderCountersLayout(h);
    Read16(b, 24, h.minorVersion);
    Read16(b, 26, h.dllVersion);
    Read16(b, 28, h.byteOrder);
    Read16(b, 30, h.sectorShift);
    Read16(b, 32, h.miniSectorShift);
    Read32(b, 40, h.numDirSectors);
    Read32(b, 44, h.numFatSectors);
    Read32(b, 48, h.firstDirSector);
    Read32(b, 52, h.transactionSignatureNumber);
    Read32(b, 56, h.miniStreamCutoffSize);
    Read32(b, 60, h.firstMiniFatSector);
    Read32(b, 64, h.numMiniFatSectors);
    Read32(b, 68, h.firstDifatSector);
    Read32(b, 72, h.numDifatSectors);
  }

  lemma EncodeDecodeHeader(b: seq<byte>)
    requires |b| == HEADER_CONTENT_BYTES
    ensures EncodeHeader(DecodeHeader(b)) == b
  {
    EncodeDecodeVersions(b);
    EncodeDecodeCounters(b);
    hide EncodeVersions, EncodeCounters, DecodeHeader;
  }

  lemma EncodeDecodeVersions(b: seq<byte>)
    requires |b| == HEADER_CONTENT_BYTES
    ensures EncodeVersions(DecodeHeader(b)) == b[..40]
  {
    hide U16, U32, Put16;
    Write16(b, 24);
    Write16(b, 26);
    Write16(b, 28);
    Write16(b, 30);
    Write16(b, 32);
  }

  lemma EncodeDecodeCounters(b: seq<byte>)
    requires |b| == HEADER_CONTENT_BYTES
    ensures EncodeCounters(DecodeHeader(b)) == b[40..]
  {
    hide U16, U32, Put32;
    Write32(b, 40);
    Write32(b, 44);
    Write32(b, 48);
    Write32(b, 52);
    Write32(b, 56);
    Write32(b, 60);
    Write32(b, 64);
    Write32(b, 68);
    Write32(b, 72);
  }

  datatype DirEntry = DirEntry(
    name: seq<byte>,
    numNameBytes: nat,
    objectType: byte,
    colorFlag: byte,
    left: nat,
    right: nat,
    child: nat,
    clsid: seq<byte>,
    stateFlags: nat,
    createTime: nat,
    modifyTime: nat,
    streamFirstSector: nat,
    streamSize: nat)

  predicate DirEntryInRange(d: DirEntry) {
    && |d.name| == 64 && |d.clsid| == 16 && d.numNameBytes < TWO16
    && d.left < TWO32 && d.right < TWO32 && d.child < TWO32 && d.stateFlags < TWO32
    && d.createTime < TWO64 && d.modifyTime < TWO64
    && d.streamFirstSector < TWO32 && d.streamSize < TWO64
  }

  function DecodeDirEntry(b: seq<byte>): (d: DirEntry)
    requires |b| == DIR_ENTRY_BYTES
    ensures DirEntryInRange(d)
  {
    DirEntry(b[..64], U16(b, 64), b[66], b[67], U32(b, 68), U32(b, 72), U32(b, 76), b[80..96],
             U32(b, 96), U64(b, 100), U64(b, 108), U32(b, 116), U64(b, 120))
  }

  function EncodeDirEntry(d: DirEntry): (b: seq<byte>)
    requires |d.name| == 64 && |d.clsid| == 16
    ensures |b| == DIR_ENTRY_BYTES
  {
    d.name + Put16(d.numNameBytes) + [d.objectType, d.colorFlag]
    + Put32(d.left) + Put32(d.right) + Put32(d.child) + d.clsid + Put32(d.stateFlags)
    + Put64(d.createTime) + Put64(d.modifyTime) + Put32(d.streamFirstSector) + Put64(d.streamSize)
  }

  lemma DirEntryLayout(d: DirEntry)
    requires DirEntryInRange(d)
    ensures var b := EncodeDirEntry(d);
            && b[..64] == d.name && b[64..66] == Put16(d.numNameBytes)
            && b[66] == d.objectType && b[67] == d.colorFlag
            && b[68..72] == Put32(d.left) && b[72..76] == Put32(d.right) && b[76..80] == Put32(d.child)
            && b[80..96] == d.clsid
  {
    hide Put16, Put32, Put64;
  }

  lemma DirEntryStreamLayout(d: DirEntry)
    requires DirEntryInRange(d)
    ensures var b := EncodeDirEntry(d);
            && b[96..100] == Put32(d.stateFlags) && b[100..108] == Put64(d.createTime)
            && b[108..116] == Put64(d.modifyTime) && b[116..120] == Put32(d.streamFirstSector)
            && b[120..128] == Put64(d.streamSize)
  {
    hide Put16, Put32, Put64;
  }

  lemma DecodeEncodeDirEntry(d: DirEntry)
    requires DirEntryInRange(d)
    ensures DecodeDirEntry(EncodeDirEntry(d)) == d
  {
    var b := EncodeDirEntry(d);
    DirEntryLayout(d);
    DirEntryStreamLayout(d);
    Read16(b, 64, d.numNameBytes);
    Read32(b, 68, d.left);
    Read32(b, 72, d.right);
    Read32(b, 76, d.child);
    Read32(b, 96, d.stateFlags);
    Read64(b, 100, d.createTime);
    Read64(b, 108, d.modifyTime);
    Read32(b, 116, d.streamFirstSector);
    Read64(b, 120, d.streamSize);
  }

  predicate IsSignatureEntry(d: DirEntry)
    requires |d.name| == 64 && d.numNameBytes <= 64
  {
    d.name[..d.numNameBytes] == SIGNATURE_NAME
  }

  /** The number of table entries in `k` sectors. */
  function Entries(ints: nat, k: nat): nat {
    ints * k
  }

  /** True of DIFAT indices that hold a sector's link to the next DIFAT sector. */
  predicate IsLastInSector(ints: nat, index: int)
    requires ints > 0
  {
    index > HEADER_SLOTS && (index - HEADER_SLOTS + 1) % ints == 0
  }
}
