/**
 Two compound files, byte by byte, and what the parser makes of them: one with sectors of 512 bytes and a signature in the
 mini stream, one with sectors of 4096 bytes and a signature in sectors of its own.
 */
module MsiSamples {
  import opened Bytes
  import opened MsiFormat
  import opened MsiTables
  import opened MsiFile
  import opened MsiStreams
  import opened MsiRoundTrip

  function Fill(b: byte, n: nat): (r: seq<byte>)
    ensures |r| == n && forall i :: 0 <= i < n ==> r[i] == b
  {
    seq(n, _ => b)
  }

  lemma Parts<T>(a: seq<T>, b: seq<T>, c: seq<T>, d: seq<T>)
    ensures var s := a + b + c + d;
            && s[..|a|] == a && s[|a|..|a| + |b|] == b && s[|a| + |b|..|a| + |b| + |c|] == c
            && s[|a| + |b| + |c|..] == d
  {
  }

  // ---------------------------------------------------------------- header, DIFAT and FAT

  /** A header with one FAT sector, the directory in sector 1 and no DIFAT sectors. */
  function Head(version: byte, shift: byte, dirSectors: byte, miniFat: byte, miniFats: byte): (b: seq<byte>)
    ensures |b| == 76
  {
    [0xd0, 0xcf, 0x11, 0xe0, 0xa1, 0xb1, 0x1a, 0xe1] + Fill(0, 16)
    + [0x3e, 0, version, 0, 0xfe, 0xff, shift, 0, 6, 0] + Fill(0, 6)
    + ([dirSectors, 0, 0, 0, 1, 0, 0, 0, 1, 0, 0, 0] + Fill(0, 5) + [0x10, 0, 0, miniFat, 0, 0, 0, miniFats, 0, 0, 0]
       + [0xfe, 0xff, 0xff, 0xff] + Fill(0, 4))
  }

  lemma HeadFacts(version: byte, shift: byte, dirSectors: byte, miniFat: byte, miniFats: byte)
    ensures var h := DecodeHeader(Head(version, shift, dirSectors, miniFat, miniFats));
            && h.magic == MAGIC && AllZero(h.clsid) && h.dllVersion == version && h.sectorShift == shift
            && h.firstDirSector == 1 && h.firstMiniFatSector == miniFat && h.numMiniFatSectors == miniFats
            && h.numDifatSectors == 0
  {
    var b := Head(version, shift, dirSectors, miniFat, miniFats);
    assert b[..8] == MAGIC;
    assert forall i :: 8 <= i < 24 ==> b[i] == 0;
    assert b[26] == version && b[27] == 0 && b[30] == shift && b[31] == 0;
    assert b[48] == 1 && b[49] == 0 && b[50] == 0 && b[51] == 0;
    assert b[60] == miniFat && b[61] == 0 && b[62] == 0 && b[63] == 0;
    assert b[64] == miniFats && b[65] == 0 && b[66] == 0 && b[67] == 0;
    assert b[72] == 0 && b[73] == 0 && b[74] == 0 && b[75] == 0;
    hide Head;
    assert forall i :: 0 <= i < 16 ==> b[8..24][i] == b[i + 8];
  }

  /** The first DIFAT entry names sector 0; the others are free. */
  function Slots(): (b: seq<byte>)
    ensures |b| == 436
  {
    [0, 0, 0, 0] + Fill(0xff, 432)
  }

  lemma SlotsFacts()
    ensures var difat := DecodeInts(Slots());
            |difat| == 109 && difat[0] == 0 && forall i :: 0 < i < 109 ==> difat[i] == FREESECT
  {
    forall i | 0 < i < 109
      ensures DecodeInts(Slots())[i] == FREESECT
    {
      var b := Slots();
      assert b[4 * i] == 0xff && b[4 * i + 1] == 0xff && b[4 * i + 2] == 0xff && b[4 * i + 3] == 0xff;
    }
  }

  function OneSector(file: seq<byte>, ints: nat): Tables
    requires |file| >= HEADER_TOTAL_BYTES && |file| >= SectorSize(ints)
    requires HasSector(Contents(file, ints), SectorSize(ints), 0)
  {
    Tables(DecodeHeader(file[..HEADER_CONTENT_BYTES]), SectorInts(Contents(file, ints), ints, 0), HeaderSlots(file), [])
  }

  lemma OneSectorDecodes(file: seq<byte>, ints: nat)
    requires ints > 0 && |file| >= HEADER_TOTAL_BYTES && |file| >= SectorSize(ints)
    requires HasSector(Contents(file, ints), SectorSize(ints), 0)
    requires DecodeHeader(file[..HEADER_CONTENT_BYTES]).numDifatSectors == 0 && file[76..512] == Slots()
    ensures TablesDecode(file, ints, OneSector(file, ints))
  {
    SlotsFacts();
    hide Slots, SectorInts, DecodeHeader, DecodeInts;
    var t := OneSector(file, ints);
    OneLiveEntry(t.difat, ints);
    hide Live;
    assert t.difat[..HEADER_SLOTS] == t.difat;
    assert t.fat[0..0 + ints] == t.fat;
    assert FatSectorDecodes(Contents(file, ints), ints, t.fat, [0], 0);
  }

  // ---------------------------------------------------------------- the directory

  /** The root entry: its stream, the mini stream, is in sector 3 and has 512 bytes. */
  function Root(): (b: seq<byte>)
    ensures |b| == 128
  {
    [0x52, 0] + Fill(0, 62) + [4, 0, 5, 1] + Fill(0xff, 8) + [1, 0, 0, 0] + Fill(0, 36)
    + [3, 0, 0, 0, 0, 2, 0, 0, 0, 0, 0, 0]
  }

  /** The signature's entry: where it starts, and how long it is. */
  function Signature(start: byte, low: byte, high: byte): (b: seq<byte>)
    ensures |b| == 128
  {
    SIGNATURE_NAME + Fill(0, 28) + [36, 0, 2, 1] + Fill(0xff, 12) + Fill(0, 36)
    + [start, 0, 0, 0, low, high, 0, 0, 0, 0, 0, 0]
  }

  lemma RootFacts()
    ensures var d := DecodeDirEntry(Root());
            d.numNameBytes == 4 && d.streamFirstSector == 3 && d.streamSize == 512 && !IsSignatureEntry(d)
  {
    var b := Root();
    assert b[64] == 4 && b[65] == 0;
    assert b[116] == 3 && b[117] == 0 && b[118] == 0 && b[119] == 0;
    assert b[120] == 0 && b[121] == 2 && b[122] == 0 && b[123] == 0;
    assert b[124] == 0 && b[125] == 0 && b[126] == 0 && b[127] == 0;
  }

  lemma SignatureFacts(start: byte, low: byte, high: byte)
    ensures var d := DecodeDirEntry(Signature(start, low, high));
            && d.numNameBytes == 36 && d.streamFirstSector == start && d.streamSize == 0x100 * (high as int) + low
            && IsSignatureEntry(d)
  {
    var b := Signature(start, low, high);
    assert b[64] == 36 && b[65] == 0;
    assert b[116] == start && b[117] == 0 && b[118] == 0 && b[119] == 0;
    assert b[120] == low && b[121] == high && b[122] == 0 && b[123] == 0;
    assert b[124] == 0 && b[125] == 0 && b[126] == 0 && b[127] == 0;
    assert b[..64][..36] == SIGNATURE_NAME;
  }

  /** A directory sector with these two entries: the signature's is the second. */
  lemma DirectoryFound(c: seq<byte>, ints: nat, fat: seq<nat>, entry: seq<byte>)
    requires ints >= 128 && 2 * SectorSize(ints) <= |c| && |entry| == 128
    requires DecodeDirEntry(entry).numNameBytes <= 64 && IsSignatureEntry(DecodeDirEntry(entry))
    requires var s := SectorSize(ints); c[s..s + 128] == Root() && c[s + 128..s + 256] == entry
    ensures FoundAt(c, ints, fat, 1, [1], 1) && EntryOff(ints, 1, 1) == SectorSize(ints) + 128
    ensures EntryAt(c, SectorSize(ints) + 128) == DecodeDirEntry(entry)
    ensures EntryAt(c, SectorSize(ints)) == DecodeDirEntry(Root())
  {
    RootFacts();
    hide Root, DecodeDirEntry, IsSignatureEntry;
    assert EntryOff(ints, 1, 0) == SectorSize(ints) && EntryOff(ints, 1, 1) == SectorSize(ints) + 128;
    assert EntriesPerSector(ints) >= 4;
    assert NoSignatureIn(c, ints, 1, 1);
  }

  // ---------------------------------------------------------------- the file around the sectors

  /** A file of four sectors behind the header sector. */
  function FileOf(head: seq<byte>, size: nat, contents: seq<byte>): (f: seq<byte>)
    requires |head| == 76 && size >= 512
    ensures |f| == size + |contents|
  {
    head + Slots() + Fill(0, size - 512) + contents
  }

  lemma FileParts(head: seq<byte>, ints: nat, contents: seq<byte>)
    requires |head| == 76 && ints >= 128
    ensures var f := FileOf(head, SectorSize(ints), contents);
            f[..76] == head && f[76..512] == Slots() && Contents(f, ints) == contents
  {
    Parts(head, Slots(), Fill(0, SectorSize(ints) - 512), contents);
  }

  /** The FAT: its own sector, the end of the directory, and two more entries. */
  function Fat(size: nat, second: seq<byte>, third: seq<byte>): (b: seq<byte>)
    requires size >= 16 && |second| == 4 && |third| == 4
    ensures |b| == size
  {
    [0xfd, 0xff, 0xff, 0xff, 0xfe, 0xff, 0xff, 0xff] + second + third + Fill(0xff, size - 16)
  }

  lemma FatFacts(contents: seq<byte>, ints: nat, second: seq<byte>, third: seq<byte>)
    requires ints >= 128 && |second| == 4 && |third| == 4
    requires SectorSize(ints) <= |contents| && contents[..SectorSize(ints)] == Fat(SectorSize(ints), second, third)
    ensures HasSector(contents, SectorSize(ints), 0)
    ensures var fat := SectorInts(contents, ints, 0); fat[2] == U32(second, 0) && fat[3] == U32(third, 0)
  {
    var b := Sector(contents, SectorSize(ints), 0);
    assert b == Fat(SectorSize(ints), second, third);
    assert b[8..12] == second && b[12..16] == third;
    assert b[8] == second[0] && b[9] == second[1] && b[10] == second[2] && b[11] == second[3];
    assert b[12] == third[0] && b[13] == third[1] && b[14] == third[2] && b[15] == third[3];
    hide Fat, Word;
  }

  function Directory(size: nat, entry: seq<byte>): (b: seq<byte>)
    requires size >= 256 && |entry| == 128
    ensures |b| == size
  {
    Root() + entry + Fill(0, size - 256)
  }

  function Sectors(size: nat, third: seq<byte>, entry: seq<byte>, x: seq<byte>, y: seq<byte>): (c: seq<byte>)
    requires size >= 512 && |third| == 4 && |entry| == 128
    ensures |c| == 2 * size + |x| + |y|
  {
    Fat(size, [0xfe, 0xff, 0xff, 0xff], third) + Directory(size, entry) + x + y
  }

  lemma SectorsParts(size: nat, third: seq<byte>, entry: seq<byte>, x: seq<byte>, y: seq<byte>)
    requires size >= 512 && |third| == 4 && |entry| == 128 && |x| == size && |y| == size
    ensures var c := Sectors(size, third, entry, x, y);
            && c[..size] == Fat(size, [0xfe, 0xff, 0xff, 0xff], third)
            && c[size..size + 128] == Root() && c[size + 128..size + 256] == entry
            && c[2 * size..3 * size] == x && c[3 * size..4 * size] == y
  {
    var f, d := Fat(size, [0xfe, 0xff, 0xff, 0xff], third), Directory(size, entry);
    var c := Sectors(size, third, entry, x, y);
    Parts(f, d, x, y);
    assert d[..128] == Root() && d[128..256] == entry;
    hide Fat, Root;
    assert c[size..2 * size] == d;
    assert c[size..size + 128] == d[..128] && c[size + 128..size + 256] == d[128..256];
    assert c[3 * size..4 * size] == c[3 * size..];
  }

  // ---------------------------------------------------------------- a short signature

  /** Mini sector 5 goes on in mini sector 2, which ends the chain. */
  function MiniFat(): (b: seq<byte>)
    ensures |b| == 512
  {
    Fill(0xff, 8) + [0xfe, 0xff, 0xff, 0xff] + Fill(0xff, 8) + [2, 0, 0, 0] + Fill(0xff, 488)
  }

  lemma MiniFatFacts()
    ensures var fat := DecodeInts(MiniFat()); |fat| == 128 && fat[5] == 2 && fat[2] == ENDOFCHAIN
  {
    var b := MiniFat();
    assert b[8] == 0xfe && b[9] == 0xff && b[10] == 0xff && b[11] == 0xff;
    assert b[20] == 2 && b[21] == 0 && b[22] == 0 && b[23] == 0;
  }

  /** The bytes of mini sectors 5 and 2, at 320 and at 128. */
  function MiniBytes(data: seq<byte>): (b: seq<byte>)
    requires |data| == 100
    ensures |b| == 512
  {
    Fill(0, 128) + data[64..] + Fill(0, 156) + data[..64] + Fill(0, 128)
  }

  lemma MiniBytesParts(data: seq<byte>)
    requires |data| == 100
    ensures MiniBytes(data)[320..384] == data[..64] && MiniBytes(data)[128..164] == data[64..]
  {
  }

  function ShortContents(data: seq<byte>): (c: seq<byte>)
    requires |data| == 100
    ensures |c| == 2048
  {
    Sectors(512, [0xfe, 0xff, 0xff, 0xff], Signature(5, 100, 0), MiniFat(), MiniBytes(data))
  }

  function ShortFile(data: seq<byte>): seq<byte>
    requires |data| == 100
  {
    FileOf(Head(3, 9, 0, 2, 1), 512, ShortContents(data))
  }

  lemma OneSectorStream(c: seq<byte>, fat: seq<nat>, s: nat)
    requires s < |fat| <= MAX_SECTORS && fat[s] == ENDOFCHAIN && 512 * s + 512 <= |c|
    ensures ChainOf(fat, 512, s, 512) == [s] && Covers(fat, 512, s, 512)
    ensures Gather(c, 512, [s], 512) == c[512 * s..512 * s + 512]
  {
    assert ChainOf(fat, 512, fat[s], 0) == [];
    assert [s][1..] == [];
    assert Gather(c, 512, [], 0) == [];
  }

  lemma TwoMiniSectors(stream: seq<byte>, fat: seq<nat>, data: seq<byte>)
    requires |fat| == 128 && fat[5] == 2 && fat[2] == ENDOFCHAIN && |data| == 100 && |stream| == 512
    requires stream[320..384] == data[..64] && stream[128..164] == data[64..]
    ensures Covers(fat, MINI_SECTOR_SIZE, 5, 100)
    ensures Gather(stream, MINI_SECTOR_SIZE, ChainOf(fat, MINI_SECTOR_SIZE, 5, 100), 100) == data
  {
    assert ChainOf(fat, 64, ENDOFCHAIN, 0) == [];
    assert ChainOf(fat, 64, 2, 36) == [2];
    assert ChainOf(fat, 64, 5, 100) == [5, 2];
    assert [5, 2][1..] == [2] && [2][1..] == [];
    assert Gather(stream, 64, [], 0) == [];
    assert Gather(stream, 64, [2], 36) == data[64..];
    assert Gather(stream, 64, [5, 2], 100) == data[..64] + data[64..];
    assert Covers(fat, 64, ENDOFCHAIN, 0) && Covers(fat, 64, 2, 36);
  }

  lemma ShortTables(data: seq<byte>)
    requires |data| == 100
    ensures var f, c := ShortFile(data), ShortContents(data);
            && |f| == 2560 && Contents(f, 128) == c && HeaderAccepted(f, 128) && HasSector(c, 512, 0)
            && var t := OneSector(f, 128);
               && TablesDecode(f, 128, t) && t.fat[2] == ENDOFCHAIN && t.fat[3] == ENDOFCHAIN && |t.fat| == 128
               && t.header.firstDirSector == 1 && t.header.dllVersion == 3
               && t.header.firstMiniFatSector == 2 && t.header.numMiniFatSectors == 1
               && FoundAt(c, 128, t.fat, 1, [1], 1) && EntryOff(128, 1, 1) == 640
               && EntryAt(c, 640) == DecodeDirEntry(Signature(5, 100, 0)) && EntryAt(c, 512) == DecodeDirEntry(Root())
  {
    var f, c := ShortFile(data), ShortContents(data);
    HeadFacts(3, 9, 0, 2, 1);
    FileParts(Head(3, 9, 0, 2, 1), 128, c);
    SectorsParts(512, [0xfe, 0xff, 0xff, 0xff], Signature(5, 100, 0), MiniFat(), MiniBytes(data));
    FatFacts(c, 128, [0xfe, 0xff, 0xff, 0xff], [0xfe, 0xff, 0xff, 0xff]);
    SignatureFacts(5, 100, 0);
    hide Head, FileOf, Sectors, Signature, MiniFat, MiniBytes, DecodeHeader, DecodeDirEntry, IsSignatureEntry, SectorInts,
      Slots, Fat, Root, TablesDecode, FoundAt, EntryAt;
    OneSectorDecodes(f, 128);
    DirectoryFound(c, 128, OneSector(f, 128).fat, Signature(5, 100, 0));
  }

  lemma ShortRead(data: seq<byte>, t: Tables)
    requires |data| == 100 && |t.fat| == 128 && t.fat[2] == ENDOFCHAIN && t.fat[3] == ENDOFCHAIN
    requires t.header.firstDirSector == 1 && t.header.firstMiniFatSector == 2 && t.header.numMiniFatSectors == 1
    requires EntryAt(ShortContents(data), 512) == DecodeDirEntry(Root())
    ensures var c := ShortContents(data);
            MiniCovers(c, 128, t, 5, 100) && |MiniFatBytes(c, 128, t)| % 4 == 0 && MiniData(c, 128, t, 5, 100) == data
  {
    var c := ShortContents(data);
    SectorsParts(512, [0xfe, 0xff, 0xff, 0xff], Signature(5, 100, 0), MiniFat(), MiniBytes(data));
    RootFacts();
    MiniFatFacts();
    MiniBytesParts(data);
    hide ShortContents, Signature, MiniFat, MiniBytes, Root, DecodeDirEntry, EntryAt, ChainOf, Covers, Gather, DecodeInts,
      Fat;
    OneSectorStream(c, t.fat, 2);
    OneSectorStream(c, t.fat, 3);
    assert c[1024..1536] == MiniFat() && c[1536..2048] == MiniBytes(data);
    assert Off(512, 1) == 512;
    assert RootEntry(c, 128, t).streamFirstSector == 3 && RootEntry(c, 128, t).streamSize == 512;
    assert MiniFatBytes(c, 128, t) == MiniFat() && MiniStream(c, 128, t) == MiniBytes(data);
    TwoMiniSectors(MiniBytes(data), DecodeInts(MiniFat()), data);
  }

  function ShortMsi(data: seq<byte>, t: Tables): Msi
    requires |data| == 100
  {
    Msi(128, t, ShortContents(data), 640, DecodeDirEntry(Signature(5, 100, 0)), data)
  }

  /** A signature of 100 bytes in mini sectors 5 and 2, of 64 bytes each, is read from there. */
  lemma ShortFileParses(data: seq<byte>)
    requires |data| == 100
    ensures var f, c := ShortFile(data), ShortContents(data);
            && |f| == 2560 && Contents(f, 128) == c && HasSector(c, 512, 0)
            && Parsed(f, OneSector(f, 128), Place([1], 1), ShortMsi(data, OneSector(f, 128)))
  {
    var f, c := ShortFile(data), ShortContents(data);
    hide ShortFile, ShortContents, DecodeHeader, DecodeDirEntry, TablesDecode, FoundAt, Signature, MiniCovers, MiniData,
      HeaderAccepted, Contents, EntryAt, EntryOff, Parsed, Root, MiniFatBytes, SectorInts, HeaderSlots;
    ShortTables(data);
    ShortSize(OneSector(f, 128).header);
    hide OneSector, HasSector, Off, SignatureSize;
    var t := OneSector(f, 128);
    ShortRead(data, t);
    ShortParsed(f, t, ShortMsi(data, t));
  }

  lemma ShortSize(h: Header)
    requires h.dllVersion == 3
    ensures var d := DecodeDirEntry(Signature(5, 100, 0)); SignatureSize(h, d) == 100 && d.streamFirstSector == 5
  {
    SignatureFacts(5, 100, 0);
    hide Signature, DecodeDirEntry;
  }

  lemma ShortParsed(f: seq<byte>, t: Tables, m: Msi)
    requires m.ints == 128 && HeaderAccepted(f, 128) && TablesDecode(f, 128, t) && Contents(f, 128) == m.contents
    requires t.header.firstDirSector == 1 && FoundAt(m.contents, 128, t.fat, 1, [1], 1)
    requires EntryOff(128, 1, 1) == m.sigDirOffset
    requires m.sigDirOffset + 128 <= |m.contents| && EntryAt(m.contents, m.sigDirOffset) == m.sigDirEntry
    requires SignatureSize(t.header, m.sigDirEntry) == 100 && m.sigDirEntry.streamFirstSector == 5
    requires MiniCovers(m.contents, 128, t, 5, 100) && |MiniFatBytes(m.contents, 128, t)| % 4 == 0
    requires m.signedData == MiniData(m.contents, 128, t, 5, 100) && m.tables == t
    ensures Parsed(f, t, Place([1], 1), m)
  {
    hide HeaderAccepted, TablesDecode, FoundAt, EntryAt, MiniCovers, MiniData, MiniFatBytes, SignatureSize;
    assert Off(SectorSize(128), 1) == 512;
  }

  // ---------------------------------------------------------------- a long signature

  function LongContents(data: seq<byte>): (c: seq<byte>)
    requires |data| == 5000
    ensures |c| == 16384
  {
    Sectors(4096, [2, 0, 0, 0], Signature(3, 0x88, 0x13), data[4096..] + Fill(0, 3192), data[..4096])
  }

  function LongFile(data: seq<byte>): seq<byte>
    requires |data| == 5000
  {
    FileOf(Head(4, 12, 1, 0, 0), 4096, LongContents(data))
  }

  lemma LongBytes(data: seq<byte>)
    requires |data| == 5000
    ensures var c := LongContents(data); c[8192..9096] == data[4096..] && c[12288..16384] == data[..4096]
  {
    var c, x := LongContents(data), data[4096..] + Fill(0, 3192);
    SectorsParts(4096, [2, 0, 0, 0], Signature(3, 0x88, 0x13), x, data[..4096]);
    hide Sectors, Signature;
    assert c[8192..9096] == c[8192..12288][..904] && x[..904] == data[4096..];
  }

  lemma LongTables(data: seq<byte>)
    requires |data| == 5000
    ensures var f, c := LongFile(data), LongContents(data);
            && |f| == 20480 && Contents(f, 1024) == c && HeaderAccepted(f, 1024) && HasSector(c, 4096, 0)
            && var t := OneSector(f, 1024);
               && TablesDecode(f, 1024, t) && t.fat[2] == ENDOFCHAIN && t.fat[3] == 2 && |t.fat| == 1024
               && t.header.firstDirSector == 1 && t.header.dllVersion == 4
               && FoundAt(c, 1024, t.fat, 1, [1], 1) && EntryOff(1024, 1, 1) == 4224
               && EntryAt(c, 4224) == DecodeDirEntry(Signature(3, 0x88, 0x13))
  {
    var f, c := LongFile(data), LongContents(data);
    HeadFacts(4, 12, 1, 0, 0);
    FileParts(Head(4, 12, 1, 0, 0), 1024, c);
    SectorsParts(4096, [2, 0, 0, 0], Signature(3, 0x88, 0x13), data[4096..] + Fill(0, 3192), data[..4096]);
    FatFacts(c, 1024, [0xfe, 0xff, 0xff, 0xff], [2, 0, 0, 0]);
    SignatureFacts(3, 0x88, 0x13);
    hide Head, FileOf, Sectors, Signature, DecodeHeader, DecodeDirEntry, IsSignatureEntry, SectorInts, Slots, Fat, Root,
      TablesDecode, FoundAt, EntryAt;
    OneSectorDecodes(f, 1024);
    DirectoryFound(c, 1024, OneSector(f, 1024).fat, Signature(3, 0x88, 0x13));
  }

  lemma TwoSectors(c: seq<byte>, fat: seq<nat>, data: seq<byte>)
    requires |fat| == 1024 && fat[3] == 2 && fat[2] == ENDOFCHAIN && |data| == 5000 && |c| == 16384
    requires c[12288..16384] == data[..4096] && c[8192..9096] == data[4096..]
    ensures Covers(fat, 4096, 3, 5000) && ChainOf(fat, 4096, 3, 5000) == [3, 2]
    ensures Gather(c, 4096, [3, 2], 5000) == data
  {
    assert ChainOf(fat, 4096, ENDOFCHAIN, 0) == [];
    assert ChainOf(fat, 4096, 2, 904) == [2];
    assert [3, 2][1..] == [2] && [2][1..] == [];
    assert Gather(c, 4096, [], 0) == [];
    assert Gather(c, 4096, [2], 904) == data[4096..];
    assert Gather(c, 4096, [3, 2], 5000) == data[..4096] + data[4096..];
    assert Covers(fat, 4096, ENDOFCHAIN, 0) && Covers(fat, 4096, 2, 904);
  }

  /** What is left of the file when its signature has been taken out of sectors 3 and 2. */
  function LongMsi(data: seq<byte>, t: Tables): Msi
    requires |data| == 5000
  {
    Msi(1024, t.(fat := FreeAll(t.fat, [3, 2])), ZeroOut(LongContents(data), 4096, [3, 2], 5000), 4224,
        DecodeDirEntry(Signature(3, 0x88, 0x13)), data)
  }

  /** A signature of 5000 bytes in sectors 3 and 2, of 4096 bytes each, is read from there. */
  lemma LongFileParses(data: seq<byte>)
    requires |data| == 5000
    ensures var f, c := LongFile(data), LongContents(data);
            && |f| == 20480 && Contents(f, 1024) == c && HasSector(c, 4096, 0)
            && Parsed(f, OneSector(f, 1024), Place([1], 1), LongMsi(data, OneSector(f, 1024)))
  {
    var f, c := LongFile(data), LongContents(data);
    hide LongFile, LongContents, DecodeHeader, DecodeDirEntry, TablesDecode, FoundAt, Signature, ChainOf, Covers, Gather,
      ZeroOut, FreeAll, HeaderAccepted, Contents, EntryAt, EntryOff, Parsed, SectorInts, HeaderSlots;
    LongTables(data);
    LongBytes(data);
    var t := OneSector(f, 1024);
    TwoSectors(c, t.fat, data);
    SignatureFacts(3, 0x88, 0x13);
    LongParsed(f, t, c, LongMsi(data, t));
  }

  lemma LongParsed(f: seq<byte>, t: Tables, c: seq<byte>, m: Msi)
    requires m.ints == 1024 && HeaderAccepted(f, 1024) && TablesDecode(f, 1024, t) && Contents(f, 1024) == c
    requires t.header.firstDirSector == 1 && FoundAt(c, 1024, t.fat, 1, [1], 1) && EntryOff(1024, 1, 1) == m.sigDirOffset
    requires m.sigDirOffset + 128 <= |c| && EntryAt(c, m.sigDirOffset) == m.sigDirEntry
    requires SignatureSize(t.header, m.sigDirEntry) == 5000 && m.sigDirEntry.streamFirstSector == 3
    requires Covers(t.fat, 4096, 3, 5000) && ChainOf(t.fat, 4096, 3, 5000) == [3, 2]
    requires m.signedData == Gather(c, 4096, [3, 2], 5000) && m.contents == ZeroOut(c, 4096, [3, 2], 5000)
    requires m.tables == t.(fat := FreeAll(t.fat, [3, 2]))
    ensures Parsed(f, t, Place([1], 1), m)
  {
    hide HeaderAccepted, TablesDecode, FoundAt, EntryAt, Covers, ChainOf, Gather, ZeroOut, FreeAll, SignatureSize;
  }
}
