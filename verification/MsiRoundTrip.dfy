/**
 The MSI editor's laws.  `Parsed` says what the parser makes of a file, `Laid` what the writer makes of
 a parsed file and a new SignedData; the theorems say that they undo each other and spare every other stream.
 */
module MsiRoundTrip {
  import opened Arith
  import opened Bytes
  import opened MsiFormat
  import opened MsiTables
  import opened MsiFile
  import opened MsiStreams

  /** A parsed MSI, its SignedData removed from the contents and from the FAT. */
  datatype Msi = Msi(
    ints: nat,
    tables: Tables,
    contents: seq<byte>,
    sigDirOffset: nat,
    sigDirEntry: DirEntry,
    signedData: seq<byte>)

  /** Where the parser's search for the signature's directory entry ended. */
  datatype Place = Place(path: seq<nat>, entry: nat)

  // ---------------------------------------------------------------- parsing

  function SignatureSize(header: Header, entry: DirEntry): nat {
    if header.dllVersion == 3 then entry.streamSize % TWO31 else entry.streamSize
  }

  /** The mini FAT and the mini stream, two ordinary streams. */
  function MiniFatBytes(contents: seq<byte>, ints: nat, t: Tables): (b: seq<byte>)
    requires ints > 0
  {
    var bytes := t.header.numMiniFatSectors * SectorSize(ints);
    Gather(contents, SectorSize(ints), ChainOf(t.fat, SectorSize(ints), t.header.firstMiniFatSector, bytes), bytes)
  }

  function RootEntry(contents: seq<byte>, ints: nat, t: Tables): DirEntry
    requires Off(SectorSize(ints), t.header.firstDirSector) + DIR_ENTRY_BYTES <= |contents|
  {
    EntryAt(contents, Off(SectorSize(ints), t.header.firstDirSector))
  }

  function MiniStream(contents: seq<byte>, ints: nat, t: Tables): seq<byte>
    requires ints > 0
    requires Off(SectorSize(ints), t.header.firstDirSector) + DIR_ENTRY_BYTES <= |contents|
  {
    var root := RootEntry(contents, ints, t);
    Gather(contents, SectorSize(ints), ChainOf(t.fat, SectorSize(ints), root.streamFirstSector, root.streamSize), root.streamSize)
  }

  /** A signature of `bytes` bytes that starts at `start`, read from the FAT and freed there. */
  ghost predicate ReadFromFat(contents: seq<byte>, t: Tables, start: nat, bytes: nat, m: Msi)
    requires m.ints > 0
  {
    var size := SectorSize(m.ints);
    var chain := ChainOf(t.fat, size, start, bytes);
    && Covers(t.fat, size, start, bytes)
    && m.signedData == Gather(contents, size, chain, bytes)
    && m.contents == ZeroOut(contents, size, chain, bytes)
    && m.tables == t.(fat := FreeAll(t.fat, chain))
  }

  /** The three reads of a short stream all find enough sectors. */
  ghost predicate MiniCovers(contents: seq<byte>, ints: nat, t: Tables, start: nat, bytes: nat)
    requires ints > 0 && Off(SectorSize(ints), t.header.firstDirSector) + DIR_ENTRY_BYTES <= |contents|
  {
    && Covers(t.fat, SectorSize(ints), t.header.firstMiniFatSector, t.header.numMiniFatSectors * SectorSize(ints))
    && Covers(t.fat, SectorSize(ints), RootEntry(contents, ints, t).streamFirstSector, RootEntry(contents, ints, t).streamSize)
    && |MiniFatBytes(contents, ints, t)| % 4 == 0
    && Covers(DecodeInts(MiniFatBytes(contents, ints, t)), MINI_SECTOR_SIZE, start, bytes)
  }

  ghost function MiniData(contents: seq<byte>, ints: nat, t: Tables, start: nat, bytes: nat): seq<byte>
    requires ints > 0 && Off(SectorSize(ints), t.header.firstDirSector) + DIR_ENTRY_BYTES <= |contents|
    requires |MiniFatBytes(contents, ints, t)| % 4 == 0
  {
    var fat := DecodeInts(MiniFatBytes(contents, ints, t));
    Gather(MiniStream(contents, ints, t), MINI_SECTOR_SIZE, ChainOf(fat, MINI_SECTOR_SIZE, start, bytes), bytes)
  }

  /** A short signature, read from the mini stream; nothing is freed. */
  ghost predicate ReadFromMini(contents: seq<byte>, t: Tables, start: nat, bytes: nat, m: Msi)
    requires m.ints > 0
  {
    && Off(SectorSize(m.ints), t.header.firstDirSector) + DIR_ENTRY_BYTES <= |contents|
    && MiniCovers(contents, m.ints, t, start, bytes)
    && m.signedData == MiniData(contents, m.ints, t, start, bytes)
    && m.contents == contents && m.tables == t
  }

  ghost predicate SignatureRead(contents: seq<byte>, t: Tables, m: Msi)
    requires m.ints > 0
  {
    var start, bytes := m.sigDirEntry.streamFirstSector, SignatureSize(t.header, m.sigDirEntry);
    if bytes >= MINI_CUTOFF then ReadFromFat(contents, t, start, bytes, m)
    else ReadFromMini(contents, t, start, bytes, m)
  }

  /** Parsing `file` finds tables `t`, the signature's entry at `place`, and ends in `m`. */
  ghost predicate Parsed(file: seq<byte>, t: Tables, place: Place, m: Msi) {
    && HeaderAccepted(file, m.ints)
    && TablesDecode(file, m.ints, t)
    && var contents := Contents(file, m.ints);
       && FoundAt(contents, m.ints, t.fat, t.header.firstDirSector, place.path, place.entry)
       && m.sigDirOffset == EntryOff(m.ints, place.path[|place.path| - 1], place.entry)
       && m.sigDirEntry == EntryAt(contents, m.sigDirOffset)
       && SignatureRead(contents, t, m)
  }

  /** Parsing is a function. */
  lemma ParsedUnique(file: seq<byte>, t: Tables, place: Place, m: Msi, t': Tables, place': Place, m': Msi)
    requires Parsed(file, t, place, m) && Parsed(file, t', place', m')
    ensures t == t' && place == place' && m == m'
  {
    TablesUnique(file, m.ints, t, t');
    FoundUnique(Contents(file, m.ints), m.ints, t.fat, t.header.firstDirSector, place.path, place.entry, place'.path, place'.entry);
  }

  // ---------------------------------------------------------------- the invariant of a parsed MSI

  /** A FAT entry of a sector that belongs to a stream. */
  predicate IsData(entry: nat) {
    entry == ENDOFCHAIN || entry < MAX_SECTORS
  }

  ghost predicate DirectoryInv(m: Msi, place: Place) {
    && FoundAt(m.contents, m.ints, m.tables.fat, m.tables.header.firstDirSector, place.path, place.entry)
    && (forall i :: 0 <= i < |place.path| ==> place.path[i] < |m.tables.fat| && IsData(m.tables.fat[place.path[i]]))
    && m.sigDirOffset == EntryOff(m.ints, place.path[|place.path| - 1], place.entry)
    && m.sigDirEntry == EntryAt(m.contents, m.sigDirOffset)
  }

  ghost predicate HeaderInv(h: Header, ints: nat) {
    && HeaderInRange(h) && h.magic == MAGIC && AllZero(h.clsid) && IsSectorShift(h.sectorShift, ints)
  }

  ghost predicate MsiInv(m: Msi, place: Place) {
    && HeaderInv(m.tables.header, m.ints)
    && TablesInv(m.tables, m.ints) && Words(m.tables.fat) && Words(m.tables.difat)
    && DirectoryInv(m, place)
  }

  // ---------------------------------------------------------------- writing

  /** Sectors needed for `bytes` bytes. */
  function SectorsFor(bytes: nat, size: nat): nat
    requires bytes > 0 && size > 0
  {
    (bytes - 1) / size + 1
  }

  /** The FAT with `n` sectors from `first` on chained up for the SignedData. */
  function SignedFat(fat: seq<nat>, first: nat, n: nat): (r: seq<nat>)
    ensures |r| == |fat|
  {
    seq(|fat|, s requires 0 <= s < |fat| =>
      if first <= s < first + n - 1 then s + 1 else if s == first + n - 1 then ENDOFCHAIN else fat[s])
  }

  function SignedEntry(m: Msi, first: nat, bytes: nat): DirEntry {
    m.sigDirEntry.(streamFirstSector := first, streamSize := bytes)
  }

  /** The parsed contents, extended with zeros. */
  function Padded(contents: seq<byte>, p: nat): byte {
    if p < |contents| then contents[p] else 0
  }

  ghost predicate InSectors(size: nat, sectors: seq<nat>, p: nat) {
    exists k :: 0 <= k < |sectors| && InSector(size, sectors[k], p)
  }

  ghost predicate HeaderLaid(out: seq<byte>, m: Msi) {
    && |out| >= SectorSize(m.ints) >= HEADER_TOTAL_BYTES && |m.tables.difat| >= HEADER_SLOTS
    && |m.tables.header.magic| == 8 && |m.tables.header.clsid| == 16 && |m.tables.header.reserved| == 6
    && out[..HEADER_CONTENT_BYTES] == EncodeHeader(m.tables.header)
    && out[HEADER_CONTENT_BYTES..HEADER_TOTAL_BYTES] == EncodeInts(m.tables.difat[..HEADER_SLOTS])
    && AllZero(out[HEADER_TOTAL_BYTES..SectorSize(m.ints)])
  }

  /** Sector `s` holds the `ints` entries of `xs` from `start` on. */
  ghost predicate SectorHolds(c: seq<byte>, ints: nat, s: nat, xs: seq<nat>, start: nat) {
    && HasSector(c, SectorSize(ints), s) && start + ints <= |xs|
    && Sector(c, SectorSize(ints), s) == EncodeInts(Block(xs, ints, start))
  }

  /** Sector `sectors[k]` holds the `k`-th block of `xs` behind the first `skip` entries. */
  ghost predicate TableLaid(c: seq<byte>, ints: nat, sectors: seq<nat>, xs: seq<nat>, skip: nat) {
    forall k :: 0 <= k < |sectors| ==> SectorHolds(c, ints, sectors[k], xs, skip + Entries(ints, k))
  }

  function NumSectors(m: Msi, sd: seq<byte>): nat
    requires m.ints > 0 && |sd| > 0
  {
    SectorsFor(|sd|, SectorSize(m.ints))
  }

  function NewFat(m: Msi, sd: seq<byte>): (fat: seq<nat>)
    requires m.ints > 0 && |sd| > 0
    ensures |fat| == |m.tables.fat|
  {
    SignedFat(m.tables.fat, FirstFree(m.tables.fat), NumSectors(m, sd))
  }

  ghost predicate EntryLaid(c: seq<byte>, m: Msi, sd: seq<byte>) {
    var entry := SignedEntry(m, FirstFree(m.tables.fat), |sd|);
    && m.sigDirOffset + DIR_ENTRY_BYTES <= |c| && |entry.name| == 64 && |entry.clsid| == 16
    && c[m.sigDirOffset..m.sigDirOffset + DIR_ENTRY_BYTES] == EncodeDirEntry(entry)
  }

  ghost predicate SignedDataLaid(c: seq<byte>, m: Msi, sd: seq<byte>) {
    var off := Off(SectorSize(m.ints), FirstFree(m.tables.fat));
    off + |sd| <= |c| && c[off..off + |sd|] == sd
  }

  /** Byte `p` is in no FAT or DIFAT sector, not in the signature's entry and not in its stream. */
  ghost predicate Elsewhere(m: Msi, sd: seq<byte>, p: nat)
    requires m.ints > 0
  {
    var size, off := SectorSize(m.ints), Off(SectorSize(m.ints), FirstFree(m.tables.fat));
    && !InSectors(size, m.tables.difatSectors, p)
    && !InSectors(size, Live(m.tables.difat, m.ints), p)
    && !(m.sigDirOffset <= p < m.sigDirOffset + DIR_ENTRY_BYTES)
    && !(off <= p < off + |sd|)
  }

  ghost predicate RestLaid(c: seq<byte>, m: Msi, sd: seq<byte>)
    requires m.ints > 0
  {
    forall p :: 0 <= p < |c| && Elsewhere(m, sd, p) ==> c[p] == Padded(m.contents, p)
  }

  /** What the contents `c` of the output hold, byte by byte. */
  ghost predicate ContentsLaid(c: seq<byte>, m: Msi, sd: seq<byte>)
    requires m.ints > 0 && |sd| > 0
  {
    && |c| == Off(SectorSize(m.ints), FirstFree(m.tables.fat) + NumSectors(m, sd))
    && TableLaid(c, m.ints, m.tables.difatSectors, m.tables.difat, HEADER_SLOTS)
    && TableLaid(c, m.ints, Live(m.tables.difat, m.ints), NewFat(m, sd), 0)
    && EntryLaid(c, m, sd)
    && SignedDataLaid(c, m, sd)
    && RestLaid(c, m, sd)
  }

  /** `out` is the file written for `m` with SignedData `sd`. */
  ghost predicate Laid(out: seq<byte>, m: Msi, sd: seq<byte>)
    requires m.ints > 0 && |sd| > 0
  {
    HeaderLaid(out, m) && ContentsLaid(Contents(out, m.ints), m, sd)
  }

  // ---------------------------------------------------------------- the output's tables

  lemma SectorHoldsInts(c: seq<byte>, ints: nat, s: nat, xs: seq<nat>, start: nat)
    requires SectorHolds(c, ints, s, xs, start) && Words(xs)
    ensures SectorInts(c, ints, s) == Block(xs, ints, start)
  {
    DecodeEncodeInts(Block(xs, ints, start));
  }

  lemma HeaderBack(out: seq<byte>, m: Msi)
    requires HeaderLaid(out, m) && HeaderInv(m.tables.header, m.ints) && Words(m.tables.difat)
    ensures HeaderAccepted(out, m.ints)
    ensures DecodeHeader(out[..HEADER_CONTENT_BYTES]) == m.tables.header
    ensures HeaderSlots(out) == m.tables.difat[..HEADER_SLOTS]
  {
    DecodeEncodeHeader(m.tables.header);
    DecodeEncodeInts(m.tables.difat[..HEADER_SLOTS]);
  }

  lemma DifatBack(c: seq<byte>, ints: nat, t: Tables)
    requires TablesInv(t, ints) && Words(t.difat)
    requires TableLaid(c, ints, t.difatSectors, t.difat, HEADER_SLOTS)
    ensures DifatDecodes(t.difat[..HEADER_SLOTS], c, ints, t)
  {
    hide TablesInv, Entries, Words, SectorInts, DifatSectorAt;
    forall k | 0 <= k < |t.difatSectors|
      ensures DifatSectorDecodes(c, ints, t, k)
    {
      DifatLink(t, ints, k);
      assert SectorHolds(c, ints, t.difatSectors[k], t.difat, HEADER_SLOTS + Entries(ints, k));
      SectorHoldsInts(c, ints, t.difatSectors[k], t.difat, HEADER_SLOTS + Entries(ints, k));
    }
    DifatLength(t, ints);
  }

  lemma DifatLength(t: Tables, ints: nat)
    requires TablesInv(t, ints)
    ensures |t.difatSectors| == t.header.numDifatSectors && |t.difat| == HEADER_SLOTS + Entries(ints, |t.difatSectors|)
  {
  }

  lemma DifatLink(t: Tables, ints: nat, k: nat)
    requires TablesInv(t, ints) && k < |t.difatSectors|
    ensures ints > 0 && HEADER_SLOTS + Entries(ints, k) + ints <= |t.difat|
    ensures k > 0 ==> ChainSlot(ints, k - 1) < |t.difat|
    ensures t.difatSectors[k] == DifatSectorAt(t.header, t.difat, ints, k)
  {
    BlockBefore(k, |t.difatSectors|, ints);
    if k > 0 {
      assert t.difat[ChainSlot(ints, k - 1)] == t.difatSectors[k - 1 + 1];
    }
  }

  lemma FatBack(c: seq<byte>, ints: nat, fat: seq<nat>, sectors: seq<nat>)
    requires |fat| == Entries(ints, |sectors|) && Words(fat) && TableLaid(c, ints, sectors, fat, 0)
    ensures FatDecodes(c, ints, fat, sectors)
  {
    forall j | 0 <= j < |sectors|
      ensures FatSectorDecodes(c, ints, fat, sectors, j)
    {
      SectorHoldsInts(c, ints, sectors[j], fat, Entries(ints, j));
    }
  }

  lemma NewFatWords(m: Msi, sd: seq<byte>)
    requires m.ints > 0 && |sd| > 0 && Words(m.tables.fat) && |m.tables.fat| <= MAX_SECTORS
    ensures Words(NewFat(m, sd))
  {
  }

  /** Reading the output finds the tables that were written. */
  lemma TablesBack(out: seq<byte>, m: Msi, place: Place, sd: seq<byte>)
    requires MsiInv(m, place) && |sd| > 0 && Laid(out, m, sd)
    ensures TablesDecode(out, m.ints, m.tables.(fat := NewFat(m, sd)))
  {
    var t := m.tables.(fat := NewFat(m, sd));
    hide NewFat, MsiInv, TableLaid, DifatDecodes, FatDecodes, Live, HeaderLaid, Words;
    TablesBackParts(out, m, place, sd);
    HeaderBack(out, m);
    var c := Contents(out, m.ints);
    NewFatWords(m, sd);
    DifatBack(c, m.ints, m.tables);
    DifatDecodesFat(m.tables.difat[..HEADER_SLOTS], c, m.ints, m.tables, t);
    FatBack(c, m.ints, t.fat, Live(m.tables.difat, m.ints));
  }

  lemma TablesBackParts(out: seq<byte>, m: Msi, place: Place, sd: seq<byte>)
    requires MsiInv(m, place) && |sd| > 0 && Laid(out, m, sd)
    ensures HeaderLaid(out, m) && HeaderInv(m.tables.header, m.ints) && Words(m.tables.difat) && Words(m.tables.fat)
    ensures TablesInv(m.tables, m.ints) && |m.tables.fat| <= MAX_SECTORS
    ensures |m.tables.fat| == Entries(m.ints, |Live(m.tables.difat, m.ints)|)
  {
  }

  lemma DifatDecodesFat(slots: seq<nat>, c: seq<byte>, ints: nat, t: Tables, t': Tables)
    requires DifatDecodes(slots, c, ints, t) && t' == t.(fat := t'.fat)
    ensures DifatDecodes(slots, c, ints, t')
  {
    forall k | 0 <= k < |t'.difatSectors|
      ensures DifatSectorDecodes(c, ints, t', k)
    {
      assert DifatSectorDecodes(c, ints, t, k);
    }
  }

  // ---------------------------------------------------------------- sectors of streams are left alone

  lemma NotDifatSector(t: Tables, size: nat, s: nat, p: nat)
    requires DifatSectorsMarked(t) && s < |t.fat| && IsData(t.fat[s]) && InSector(size, s, p)
    ensures !InSectors(size, t.difatSectors, p)
  {
    if k :| 0 <= k < |t.difatSectors| && InSector(size, t.difatSectors[k], p) {
      SectorsApart(size, s, t.difatSectors[k], p);
    }
  }

  lemma NotFatSector(t: Tables, ints: nat, s: nat, p: nat)
    requires Consistent(t, ints) && s < |t.fat| && IsData(t.fat[s]) && InSector(SectorSize(ints), s, p)
    ensures !InSectors(SectorSize(ints), Live(t.difat, ints), p)
  {
    var sectors := Live(t.difat, ints);
    if j :| 0 <= j < |sectors| && InSector(SectorSize(ints), sectors[j], p) {
      SectorsApart(SectorSize(ints), s, sectors[j], p);
      NotLive(t, ints, s);
    }
  }

  lemma BeforeFree(fat: seq<nat>, size: nat, s: nat)
    requires s < |fat| && fat[s] != FREESECT
    ensures s < FirstFree(fat) && Off(size, s) + size <= Off(size, FirstFree(fat))
  {
    BlockBefore(s, FirstFree(fat), size);
  }

  /** No table, and no byte of the new SignedData, is written into a sector of a stream. */
  lemma StreamElsewhere(m: Msi, sd: seq<byte>, s: nat, p: nat)
    requires TablesInv(m.tables, m.ints) && s < |m.tables.fat| && IsData(m.tables.fat[s])
    requires InSector(SectorSize(m.ints), s, p)
    requires !(m.sigDirOffset <= p < m.sigDirOffset + DIR_ENTRY_BYTES)
    ensures Elsewhere(m, sd, p)
  {
    hide Live;
    NotDifatSector(m.tables, SectorSize(m.ints), s, p);
    NotFatSector(m.tables, m.ints, s, p);
    BeforeFree(m.tables.fat, SectorSize(m.ints), s);
  }

  // ---------------------------------------------------------------- the output's directory

  lemma EntryInSector(ints: nat, sector: nat, e: nat, p: nat)
    requires e < EntriesPerSector(ints) && EntryOff(ints, sector, e) <= p < EntryOff(ints, sector, e) + DIR_ENTRY_BYTES
    ensures InSector(SectorSize(ints), sector, p)
  {
  }

  lemma EntriesApart(ints: nat, s: nat, e: nat, s': nat, e': nat, p: nat)
    requires e < EntriesPerSector(ints) && e' < EntriesPerSector(ints) && (s, e) != (s', e')
    requires EntryOff(ints, s, e) <= p < EntryOff(ints, s, e) + DIR_ENTRY_BYTES
    ensures !(EntryOff(ints, s', e') <= p < EntryOff(ints, s', e') + DIR_ENTRY_BYTES)
  {
    if EntryOff(ints, s', e') <= p < EntryOff(ints, s', e') + DIR_ENTRY_BYTES {
      EntryInSector(ints, s, e, p);
      EntryInSector(ints, s', e', p);
      SectorsApart(SectorSize(ints), s, s', p);
    }
  }

  lemma StreamInContents(c: seq<byte>, m: Msi, sd: seq<byte>, s: nat)
    requires m.ints > 0 && |sd| > 0 && |c| == Off(SectorSize(m.ints), FirstFree(m.tables.fat) + NumSectors(m, sd))
    requires s < |m.tables.fat| && m.tables.fat[s] != FREESECT
    ensures HasSector(c, SectorSize(m.ints), s)
  {
    BlockBefore(s, FirstFree(m.tables.fat) + NumSectors(m, sd), SectorSize(m.ints));
  }

  /** Every byte of a stream's sector outside the signature's directory entry is kept. */
  lemma StreamByteKept(c: seq<byte>, m: Msi, sd: seq<byte>, s: nat, p: nat)
    requires TablesInv(m.tables, m.ints) && |sd| > 0 && ContentsLaid(c, m, sd)
    requires s < |m.tables.fat| && IsData(m.tables.fat[s]) && InSector(SectorSize(m.ints), s, p)
    requires !(m.sigDirOffset <= p < m.sigDirOffset + DIR_ENTRY_BYTES)
    ensures p < |c| && c[p] == Padded(m.contents, p)
  {
    hide TablesInv, TableLaid, EntryLaid, SignedDataLaid, Elsewhere, NewFat, Live, FirstFree;
    InvBasics(m.tables, m.ints);
    StreamInContents(c, m, sd, s);
    StreamElsewhere(m, sd, s, p);
  }

  /** Every other directory entry keeps its bytes. */
  lemma EntryKept(c: seq<byte>, m: Msi, sd: seq<byte>, s: nat, e: nat, last: nat, entry: nat)
    requires TablesInv(m.tables, m.ints) && |sd| > 0 && ContentsLaid(c, m, sd)
    requires s < |m.tables.fat| && IsData(m.tables.fat[s]) && e < EntriesPerSector(m.ints)
    requires EntryOff(m.ints, s, e) + DIR_ENTRY_BYTES <= |m.contents|
    requires entry < EntriesPerSector(m.ints) && m.sigDirOffset == EntryOff(m.ints, last, entry) && (s, e) != (last, entry)
    ensures EntryOff(m.ints, s, e) + DIR_ENTRY_BYTES <= |c|
    ensures EntryAt(c, EntryOff(m.ints, s, e)) == EntryAt(m.contents, EntryOff(m.ints, s, e))
  {
    var off := EntryOff(m.ints, s, e);
    hide TablesInv, ContentsLaid, EntryOff, InSector, DecodeDirEntry;
    forall p | off <= p < off + DIR_ENTRY_BYTES
      ensures p < |c| && c[p] == m.contents[p]
    {
      EntryInSector(m.ints, s, e, p);
      EntriesApart(m.ints, s, e, last, entry, p);
      StreamByteKept(c, m, sd, s, p);
    }
    var end := off + DIR_ENTRY_BYTES - 1;
    EntryInSector(m.ints, s, e, end);
    EntriesApart(m.ints, s, e, last, entry, end);
    StreamByteKept(c, m, sd, s, end);
    assert c[off..off + DIR_ENTRY_BYTES] == m.contents[off..off + DIR_ENTRY_BYTES];
  }

  lemma SignatureEntryBack(c: seq<byte>, m: Msi, sd: seq<byte>)
    requires EntryLaid(c, m, sd) && DirEntryInRange(m.sigDirEntry) && FirstFree(m.tables.fat) < TWO32 && |sd| < TWO64
    ensures EntryAt(c, m.sigDirOffset) == SignedEntry(m, FirstFree(m.tables.fat), |sd|)
  {
    DecodeEncodeDirEntry(SignedEntry(m, FirstFree(m.tables.fat), |sd|));
  }

  lemma NoSignatureKept(c: seq<byte>, m: Msi, sd: seq<byte>, s: nat, n: nat, last: nat, entry: nat)
    requires TablesInv(m.tables, m.ints) && |sd| > 0 && ContentsLaid(c, m, sd)
    requires s < |m.tables.fat| && IsData(m.tables.fat[s]) && n <= EntriesPerSector(m.ints)
    requires entry < EntriesPerSector(m.ints) && m.sigDirOffset == EntryOff(m.ints, last, entry)
    requires s != last || n <= entry
    requires NoSignatureIn(m.contents, m.ints, s, n)
    ensures NoSignatureIn(c, m.ints, s, n)
  {
    hide TablesInv, ContentsLaid, EntryOff;
    forall e | 0 <= e < n
      ensures EntryReadable(c, m.ints, s, e) && !IsSignatureAt(c, m.ints, s, e)
    {
      assert EntryReadable(m.contents, m.ints, s, e) && !IsSignatureAt(m.contents, m.ints, s, e);
      EntryKept(c, m, sd, s, e, last, entry);
    }
  }

  lemma NewFatKept(m: Msi, sd: seq<byte>, s: nat)
    requires m.ints > 0 && |sd| > 0 && s < |m.tables.fat| && IsData(m.tables.fat[s])
    ensures NewFat(m, sd)[s] == m.tables.fat[s]
  {
    BeforeFree(m.tables.fat, 0, s);
  }

  lemma DirPathKept(m: Msi, place: Place, sd: seq<byte>)
    requires m.ints > 0 && |sd| > 0 && DirectoryInv(m, place)
    ensures DirPath(NewFat(m, sd), m.tables.header.firstDirSector, place.path)
  {
    hide NewFat;
    forall i | 0 <= i < |place.path|
      ensures NewFat(m, sd)[place.path[i]] == m.tables.fat[place.path[i]]
    {
      NewFatKept(m, sd, place.path[i]);
    }
  }

  lemma DirectoryParts(m: Msi, place: Place)
    requires DirectoryInv(m, place)
    ensures place.path != [] && place.entry < EntriesPerSector(m.ints) && DirEntryInRange(m.sigDirEntry)
    ensures forall i :: 0 <= i < |place.path| ==> place.path[i] < |m.tables.fat| && IsData(m.tables.fat[place.path[i]])
    ensures m.sigDirOffset == EntryOff(m.ints, place.path[|place.path| - 1], place.entry)
    ensures m.sigDirEntry.numNameBytes <= 64 && IsSignatureEntry(m.sigDirEntry)
    ensures NoSignatureIn(m.contents, m.ints, place.path[|place.path| - 1], place.entry)
    ensures forall i :: 0 <= i < |place.path| - 1 ==> NoSignatureIn(m.contents, m.ints, place.path[i], EntriesPerSector(m.ints))
  {
    hide EntryOff, DecodeDirEntry, NoSignatureIn;
  }

  lemma NotLast(contents: seq<byte>, ints: nat, fat: seq<nat>, first: nat, path: seq<nat>, entry: nat, i: nat)
    requires FoundAt(contents, ints, fat, first, path, entry) && i < |path| - 1
    ensures path[i] != path[|path| - 1]
  {
    assert NoSignatureIn(contents, ints, path[i], EntriesPerSector(ints));
    hide IsSignatureAt, EntryReadable;
  }

  lemma NoSignatureBack(c: seq<byte>, m: Msi, place: Place, sd: seq<byte>)
    requires TablesInv(m.tables, m.ints) && DirectoryInv(m, place) && |sd| > 0 && ContentsLaid(c, m, sd)
    ensures place.path != []
    ensures NoSignatureIn(c, m.ints, place.path[|place.path| - 1], place.entry)
    ensures forall i :: 0 <= i < |place.path| - 1 ==> NoSignatureIn(c, m.ints, place.path[i], EntriesPerSector(m.ints))
  {
    hide TablesInv, ContentsLaid, EntryOff, NoSignatureIn, FoundAt, EntryAt;
    DirectoryParts(m, place);
    var path, last := place.path, place.path[|place.path| - 1];
    forall i | 0 <= i < |path| - 1
      ensures NoSignatureIn(c, m.ints, path[i], EntriesPerSector(m.ints))
    {
      NotLast(m.contents, m.ints, m.tables.fat, m.tables.header.firstDirSector, path, place.entry, i);
      NoSignatureKept(c, m, sd, path[i], EntriesPerSector(m.ints), last, place.entry);
    }
    NoSignatureKept(c, m, sd, last, place.entry, last, place.entry);
  }

  lemma LaidBasics(c: seq<byte>, m: Msi, sd: seq<byte>)
    requires TablesInv(m.tables, m.ints) && |sd| > 0 && ContentsLaid(c, m, sd)
    ensures EntryLaid(c, m, sd) && FirstFree(m.tables.fat) < TWO32
  {
    hide TableLaid, EntryLaid, RestLaid, SignedDataLaid, FirstFree;
    InvBasics(m.tables, m.ints);
  }

  /** The parser's search in the output ends at the same entry, now describing the new SignedData. */
  lemma DirectoryBack(c: seq<byte>, m: Msi, place: Place, sd: seq<byte>)
    requires TablesInv(m.tables, m.ints) && DirectoryInv(m, place) && 0 < |sd| < TWO64 && ContentsLaid(c, m, sd)
    ensures m.sigDirOffset + DIR_ENTRY_BYTES <= |c|
    ensures EntryAt(c, m.sigDirOffset) == SignedEntry(m, FirstFree(m.tables.fat), |sd|)
    ensures FoundAt(c, m.ints, NewFat(m, sd), m.tables.header.firstDirSector, place.path, place.entry)
  {
    hide TablesInv, ContentsLaid, EntryOff, NoSignatureIn, DirectoryInv, EntryAt, FirstFree, NewFat;
    LaidBasics(c, m, sd);
    DirectoryParts(m, place);
    NoSignatureBack(c, m, place, sd);
    InvBasics(m.tables, m.ints);
    DirPathKept(m, place, sd);
    hide DirPath;
    SignatureEntryBack(c, m, sd);
  }

  // ---------------------------------------------------------------- the output's SignedData

  function Run(s: nat, k: nat): (r: seq<nat>)
    ensures |r| == k && forall i :: 0 <= i < k ==> r[i] == s + i
  {
    seq(k, i => s + i)
  }

  lemma RunTail(s: nat, k: nat)
    requires k > 0
    ensures Run(s, k)[0] == s && Run(s, k)[1..] == Run(s + 1, k - 1)
  {
  }

  /** `k` sectors are what `bytes` bytes need. */
  predicate Fits(bytes: nat, size: nat, k: nat) {
    if k == 0 then bytes == 0 else Off(size, k - 1) < bytes <= Off(size, k)
  }

  lemma SectorsForFits(bytes: nat, size: nat)
    requires bytes > 0 && size > 0
    ensures Fits(bytes, size, SectorsFor(bytes, size))
  {
    var q, r := (bytes - 1) / size, (bytes - 1) % size;
    assert bytes - 1 == size * q + r;
    assert (q + 1) * size == q * size + size;
  }

  lemma FitsTail(bytes: nat, size: nat, k: nat)
    requires size > 0 && k > 0 && Fits(bytes, size, k)
    ensures bytes > 0 && Fits(bytes - Min(bytes, size), size, k - 1)
    ensures bytes <= size <==> k == 1
  {
    assert k * size == (k - 1) * size + size;
    if k > 1 {
      assert (k - 1) * size == (k - 2) * size + size;
    }
  }

  lemma {:induction false} ChainBack(fat: seq<nat>, size: nat, s: nat, bytes: nat, k: nat)
    requires size > 0 && s + k <= |fat| <= MAX_SECTORS && Fits(bytes, size, k)
    requires forall i :: s <= i < s + k - 1 ==> fat[i] == i + 1
    ensures ChainOf(fat, size, s, bytes) == Run(s, k) && Covers(fat, size, s, bytes)
    decreases k
  {
    if k > 0 {
      FitsTail(bytes, size, k);
      RunTail(s, k);
      if k > 1 {
        ChainBack(fat, size, s + 1, bytes - Min(bytes, size), k - 1);
      }
      assert Run(s, k) == [s] + Run(s + 1, k - 1);
    }
  }

  lemma {:induction false} GatherRun(c: seq<byte>, size: nat, s: nat, bytes: nat, k: nat)
    requires size > 0 && Fits(bytes, size, k) && Off(size, s) + bytes <= |c|
    ensures Gather(c, size, Run(s, k), bytes) == c[Off(size, s)..Off(size, s) + bytes]
    decreases k
  {
    var lo := Off(size, s);
    OffNext(size, s);
    hide Off, Gather;
    if k > 0 {
      FitsTail(bytes, size, k);
      RunTail(s, k);
      hide Fits, Run;
      var n := Min(bytes, size);
      GatherStep(c, size, Run(s, k), bytes);
      if k > 1 {
        GatherRun(c, size, s + 1, bytes - n, k - 1);
      } else {
        GatherStop(c, size, Run(s + 1, k - 1));
      }
      assert c[lo..lo + bytes] == c[lo..lo + n] + c[lo + n..lo + bytes];
    } else {
      GatherStop(c, size, Run(s, k));
    }
  }

  lemma GatherStep(c: seq<byte>, size: nat, chain: seq<nat>, bytes: nat)
    requires size > 0 && bytes > 0 && chain != [] && Off(size, chain[0]) + Min(bytes, size) <= |c|
    ensures Gather(c, size, chain, bytes) == c[Off(size, chain[0])..Off(size, chain[0]) + Min(bytes, size)]
                                             + Gather(c, size, chain[1..], bytes - Min(bytes, size))
  {
  }

  lemma GatherStop(c: seq<byte>, size: nat, chain: seq<nat>)
    requires size > 0
    ensures Gather(c, size, chain, 0) == []
  {
  }

  lemma OffNext(size: nat, s: nat)
    ensures Off(size, s + 1) == Off(size, s) + size
  {
  }

  lemma FreeRun(fat: seq<nat>, first: nat, n: nat)
    requires n > 0 && first + n <= |fat| && forall i :: first <= i < |fat| ==> fat[i] == FREESECT
    ensures FreeAll(SignedFat(fat, first, n), Run(first, n)) == fat
  {
    var r := Run(first, n);
    forall s | 0 <= s < |fat|
      ensures s in r <==> first <= s < first + n
    {
      if first <= s < first + n {
        assert r[s - first] == s;
      }
    }
  }

  /** What the parser makes of the output: the same MSI, but for the SignedData, its entry and its zeroed bytes. */
  function Retagged(c: seq<byte>, m: Msi, sd: seq<byte>): Msi
    requires m.ints > 0 && |sd| > 0
  {
    var first := FirstFree(m.tables.fat);
    Msi(m.ints, m.tables,
        ZeroOut(c, SectorSize(m.ints), Run(first, NumSectors(m, sd)), |sd|),
        m.sigDirOffset, SignedEntry(m, first, |sd|), sd)
  }

  lemma SignatureBack(c: seq<byte>, m: Msi, sd: seq<byte>)
    requires m.ints > 0 && |sd| > 0 && SignedDataLaid(c, m, sd) && |m.tables.fat| <= MAX_SECTORS
    requires FirstFree(m.tables.fat) + NumSectors(m, sd) <= |m.tables.fat|
    ensures ReadFromFat(c, m.tables.(fat := NewFat(m, sd)), FirstFree(m.tables.fat), |sd|, Retagged(c, m, sd))
  {
    var size, first, n := SectorSize(m.ints), FirstFree(m.tables.fat), NumSectors(m, sd);
    SectorsForFits(|sd|, size);
    ChainBack(NewFat(m, sd), size, first, |sd|, n);
    GatherRun(c, size, first, |sd|, n);
    FreeRun(m.tables.fat, first, n);
  }

  // ---------------------------------------------------------------- the theorems

  /** SignedData that the writer takes and the version-3 size field can hold. */
  predicate Writable(header: Header, sd: seq<byte>) {
    MINI_CUTOFF <= |sd| < if header.dllVersion == 3 then TWO31 else TWO64
  }

  /** Parsing the written file gives back the SignedData, the same entry, the same tables and an MSI that can be written again. */
  lemma RoundTrip(out: seq<byte>, m: Msi, place: Place, sd: seq<byte>)
    requires MsiInv(m, place) && Writable(m.tables.header, sd)
    requires FreeAtEnd(m.tables.fat) >= NumSectors(m, sd) && Laid(out, m, sd)
    ensures Parsed(out, m.tables.(fat := NewFat(m, sd)), place, Retagged(Contents(out, m.ints), m, sd))
  {
    var c := Contents(out, m.ints);
    hide *;
    RoundTripSearch(out, m, place, sd);
    RoundTripRead(out, m, place, sd);
    ParsedFromParts(out, m.tables.(fat := NewFat(m, sd)), place, Retagged(c, m, sd));
  }

  lemma ParsedFromParts(file: seq<byte>, t: Tables, place: Place, m: Msi)
    requires HeaderAccepted(file, m.ints) && TablesDecode(file, m.ints, t)
    requires FoundAt(Contents(file, m.ints), m.ints, t.fat, t.header.firstDirSector, place.path, place.entry)
    requires m.sigDirOffset == EntryOff(m.ints, place.path[|place.path| - 1], place.entry)
    requires m.sigDirOffset + DIR_ENTRY_BYTES <= |Contents(file, m.ints)|
    requires m.sigDirEntry == EntryAt(Contents(file, m.ints), m.sigDirOffset)
    requires SignatureRead(Contents(file, m.ints), t, m)
    ensures Parsed(file, t, place, m)
  {
    hide TablesDecode, HeaderAccepted, FoundAt, SignatureRead, EntryOff, EntryAt;
  }

  lemma RoundTripSearch(out: seq<byte>, m: Msi, place: Place, sd: seq<byte>)
    requires MsiInv(m, place) && 0 < |sd| < TWO64 && Laid(out, m, sd)
    ensures var t, c, r := m.tables.(fat := NewFat(m, sd)), Contents(out, m.ints), Retagged(Contents(out, m.ints), m, sd);
            && HeaderAccepted(out, m.ints) && TablesDecode(out, m.ints, t)
            && FoundAt(c, m.ints, t.fat, t.header.firstDirSector, place.path, place.entry)
            && m.sigDirOffset == EntryOff(m.ints, place.path[|place.path| - 1], place.entry)
            && m.sigDirOffset + DIR_ENTRY_BYTES <= |c| && r.sigDirEntry == EntryAt(c, m.sigDirOffset)
            && r.ints == m.ints && r.sigDirOffset == m.sigDirOffset
  {
    hide TablesInv, ContentsLaid, HeaderLaid, TablesDecode, FoundAt, EntryAt, EntryOff, FirstFree, NewFat, HeaderInv, HeaderAccepted, Words;
    TablesBack(out, m, place, sd);
    HeaderBack(out, m);
    DirectoryBack(Contents(out, m.ints), m, place, sd);
  }

  lemma RoundTripRead(out: seq<byte>, m: Msi, place: Place, sd: seq<byte>)
    requires MsiInv(m, place) && Writable(m.tables.header, sd)
    requires FreeAtEnd(m.tables.fat) >= NumSectors(m, sd) && Laid(out, m, sd)
    ensures SignatureRead(Contents(out, m.ints), m.tables.(fat := NewFat(m, sd)), Retagged(Contents(out, m.ints), m, sd))
  {
    assert |sd| > 0;
    hide *;
    InvParts(m, place);
    LaidParts(out, m, sd);
    RoomForSignedData(m, sd);
    SignatureBack(Contents(out, m.ints), m, sd);
    FatSignatureRead(Contents(out, m.ints), m, sd);
  }

  lemma InvParts(m: Msi, place: Place)
    requires MsiInv(m, place)
    ensures m.ints >= 128 && |m.tables.fat| <= MAX_SECTORS
    ensures HeaderInv(m.tables.header, m.ints) && TablesInv(m.tables, m.ints)
    ensures Words(m.tables.fat) && Words(m.tables.difat) && DirectoryInv(m, place)
  {
    hide HeaderInv, DirectoryInv, Words;
  }

  lemma LaidParts(out: seq<byte>, m: Msi, sd: seq<byte>)
    requires m.ints > 0 && |sd| > 0 && Laid(out, m, sd)
    ensures |out| >= SectorSize(m.ints) && HeaderLaid(out, m) && ContentsLaid(Contents(out, m.ints), m, sd)
    ensures SignedDataLaid(Contents(out, m.ints), m, sd)
  {
    hide EntryLaid, RestLaid, TableLaid, SignedDataLaid;
  }

  lemma RoomForSignedData(m: Msi, sd: seq<byte>)
    requires m.ints > 0 && |sd| > 0 && FreeAtEnd(m.tables.fat) >= NumSectors(m, sd)
    ensures FirstFree(m.tables.fat) + NumSectors(m, sd) <= |m.tables.fat|
  {
  }

  lemma FatSignatureRead(c: seq<byte>, m: Msi, sd: seq<byte>)
    requires m.ints > 0 && Writable(m.tables.header, sd)
    requires ReadFromFat(c, m.tables.(fat := NewFat(m, sd)), FirstFree(m.tables.fat), |sd|, Retagged(c, m, sd))
    ensures SignatureRead(c, m.tables.(fat := NewFat(m, sd)), Retagged(c, m, sd))
  {
    hide ReadFromFat, NewFat, FirstFree;
  }
}
