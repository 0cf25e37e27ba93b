/** The MSI editor: parsing, the recursive sector allocator, and writing the file back. */
module MsiEditor {
  import opened Bytes
  import opened MsiFormat
  import opened MsiTables
  import opened MsiFile
  import opened MsiStreams
  import opened MsiRoundTrip
  import opened MsiLaws
  import opened MsiParser
  import opened MsiWriter

  datatype Error =
    | HeaderTruncated | NotAnMsi | BadSectorShift | HeaderSectorTruncated
    | NoSignatureStream | OutOfSectors | SignedDataRejected
    | AppendedTagUnsupported | SignedDataTooShort

  datatype Result<+T> = Ok(value: T) | Err(error: Error)

  method FirstFreeFatEntry(entries: seq<nat>) returns (first: nat)
    requires FirstFree(entries) > 0
    ensures first == FirstFree(entries)
  {
    first := |entries|;
    while entries[first - 1] == FREESECT
      invariant FirstFree(entries) <= first <= |entries|
      decreases first
    {
      first := first - 1;
    }
    FirstFreeIs(entries, first);
  }

  /** `entries` with another sector's worth of free entries. */
  method AppendFreeSector(entries: seq<nat>, ints: nat) returns (r: seq<nat>)
    ensures r == entries + Repeat(FREESECT, ints)
  {
    r := entries;
    for i := 0 to ints
      invariant r == entries + Repeat(FREESECT, i)
    {
      r := r + [FREESECT];
    }
  }

  ghost predicate NothingFound(contents: seq<byte>, ints: nat, fat: seq<nat>, first: nat) {
    forall path, e :: !FoundAt(contents, ints, fat, first, path, e)
  }

  /** No reading of the signature yields SignedData that is accepted. */
  ghost predicate NothingAccepted(contents: seq<byte>, t: Tables, ints: nat, entry: DirEntry, accepts: seq<byte> -> bool)
    requires ints > 0
  {
    forall m: Msi ::
      m.ints == ints && m.sigDirEntry == entry && SignatureRead(contents, t, m) ==> !accepts(m.signedData)
  }

  lemma SafeParts(contents: seq<byte>, ints: nat, t: Tables, dir: seq<nat>, entry: DirEntry)
    requires ints > 0 && SignatureSafe(contents, ints, t, dir, entry)
    ensures var size, start, bytes := SectorSize(ints), entry.streamFirstSector, SignatureSize(t.header, entry);
            if bytes >= MINI_CUTOFF then
              Readable(t.fat, |contents|, size, start, bytes) && NoDuplicates(ChainOf(t.fat, size, start, bytes))
            else MiniSafe(contents, ints, t, start, bytes)
  {
  }

  /** The outcome of reading the signature, put together. */
  lemma SignatureReadFromParts(contents: seq<byte>, t: Tables, m: Msi)
    requires m.ints > 0
    requires var size, start, bytes := SectorSize(m.ints), m.sigDirEntry.streamFirstSector, SignatureSize(t.header, m.sigDirEntry);
             if bytes >= MINI_CUTOFF then
               var chain := ChainOf(t.fat, size, start, bytes);
               && Covers(t.fat, size, start, bytes)
               && m.signedData == Gather(contents, size, chain, bytes)
               && m.contents == ZeroOut(contents, size, chain, bytes)
               && m.tables == t.(fat := FreeAll(t.fat, chain))
             else
               && Off(SectorSize(m.ints), t.header.firstDirSector) + DIR_ENTRY_BYTES <= |contents|
               && MiniCovers(contents, m.ints, t, start, bytes)
               && m.signedData == MiniData(contents, m.ints, t, start, bytes)
               && m.contents == contents && m.tables == t
    ensures SignatureRead(contents, t, m)
  {
    hide ChainOf, Covers, Gather, ZeroOut, FreeAll, MiniFatBytes, MiniStream, DecodeInts, RootEntry;
  }

  lemma NothingRead(contents: seq<byte>, t: Tables, ints: nat, entry: DirEntry, accepts: seq<byte> -> bool)
    requires ints > 0
    requires var size, start, bytes := SectorSize(ints), entry.streamFirstSector, SignatureSize(t.header, entry);
             if bytes >= MINI_CUTOFF then !Covers(t.fat, size, start, bytes)
             else
               && Off(SectorSize(ints), t.header.firstDirSector) + DIR_ENTRY_BYTES <= |contents|
               && !MiniCovers(contents, ints, t, start, bytes)
    ensures NothingAccepted(contents, t, ints, entry, accepts)
  {
    hide ChainOf, Covers, Gather, ZeroOut, FreeAll, MiniFatBytes, MiniStream, DecodeInts, RootEntry;
  }

  lemma NothingElseRead(contents: seq<byte>, t: Tables, m: Msi, accepts: seq<byte> -> bool)
    requires m.ints > 0 && SignatureRead(contents, t, m) && !accepts(m.signedData)
    ensures NothingAccepted(contents, t, m.ints, m.sigDirEntry, accepts)
  {
    hide ChainOf, Covers, Gather, ZeroOut, FreeAll, MiniFatBytes, MiniStream, DecodeInts, RootEntry;
  }

  lemma MiniFatWhole(n: nat, ints: nat)
    ensures n * SectorSize(ints) % 4 == 0
  {
    assert n * SectorSize(ints) == 4 * (n * ints);
  }

  class MsiBinary {
    const ints: nat
    var header: Header
    var fatEntries: seq<nat>
    var difatEntries: seq<nat>
    var difatSectors: seq<nat>

    const file: array<byte>
    var sigDirOffset: nat
    var sigDirEntry: DirEntry
    var signedDataBytes: seq<byte>

    constructor (file: array<byte>, ints: nat, header: Header)
      ensures this.file == file && this.ints == ints && this.header == header
    {
      this.file, this.ints, this.header := file, ints, header;
      fatEntries, difatEntries, difatSectors := [], [], [];
      sigDirOffset, signedDataBytes := 0, [];
      sigDirEntry := DirEntry([], 0, 0, 0, 0, 0, 0, [], 0, 0, 0, 0, 0);
    }

    ghost function Shape(): Tables
      reads this
    {
      Tables(header, fatEntries, difatEntries, difatSectors)
    }

    /** The object as a value: `file` holds the header sector and, behind it, the contents. */
    ghost function Value(): Msi
      requires file.Length >= SectorSize(ints)
      reads this, file
    {
      Msi(ints, Shape(), Contents(file[..], ints), sigDirOffset, sigDirEntry, signedDataBytes)
    }

    // -------------------------------------------------------------- parsing

    method PopulateDifatEntries(ghost t: Tables)
      requires TablesDecode(file[..], ints, t) && t.header == header
      modifies this`difatEntries, this`difatSectors
      ensures difatEntries == t.difat && difatSectors == t.difatSectors
    {
      difatEntries, difatSectors := ReadDifat(file[..], ints, header, t);
    }

    method PopulateFatEntries(ghost t: Tables)
      requires TablesDecode(file[..], ints, t) && t.difat == difatEntries
      modifies this`fatEntries
      ensures fatEntries == t.fat
    {
      fatEntries := ReadFat(Contents(file[..], ints), ints, difatEntries, t.fat);
    }

    method PopulateSignatureDirEntry(ghost dir: seq<nat>) returns (found: bool, ghost place: Place)
      requires file.Length >= SectorSize(ints) && |fatEntries| <= MAX_SECTORS
      requires IsChain(fatEntries, header.firstDirSector, dir) && DirReadable(Contents(file[..], ints), ints, dir)
      modifies this`sigDirEntry, this`sigDirOffset
      ensures var contents := Contents(file[..], ints);
              if found then
                && FoundAt(contents, ints, fatEntries, header.firstDirSector, place.path, place.entry)
                && sigDirOffset == EntryOff(ints, place.path[|place.path| - 1], place.entry)
                && sigDirOffset + DIR_ENTRY_BYTES <= |contents| && sigDirEntry == EntryAt(contents, sigDirOffset)
              else
                NothingFound(contents, ints, fatEntries, header.firstDirSector)
    {
      hide FoundAt, EntryAt, EntryOff, IsChain, DirReadable;
      found, sigDirEntry, sigDirOffset, place :=
        FindSignatureEntry(Contents(file[..], ints), ints, fatEntries, header.firstDirSector, dir);
    }

    /** Reads a stream straight from the FAT. */
    method ReadFatStream(start: nat, bytes: nat, freeData: bool) returns (r: Result<seq<byte>>)
      requires ints > 0 && file.Length >= SectorSize(ints)
      requires Readable(fatEntries, file.Length - SectorSize(ints), SectorSize(ints), start, bytes)
      requires freeData ==> NoDuplicates(ChainOf(fatEntries, SectorSize(ints), start, bytes))
      modifies this`fatEntries, file
      ensures r.Ok? <==> old(Covers(fatEntries, SectorSize(ints), start, bytes))
      ensures r.Err? ==> r.error == OutOfSectors
      ensures file[..SectorSize(ints)] == old(file[..SectorSize(ints)])
      ensures var chain := ChainOf(old(fatEntries), SectorSize(ints), start, bytes);
              var c0 := old(Contents(file[..], ints));
              && (r.Ok? ==> |r.value| == bytes && r.value == Gather(c0, SectorSize(ints), chain, bytes))
              && (r.Ok? && freeData ==>
                    && Contents(file[..], ints) == ZeroOut(c0, SectorSize(ints), chain, bytes)
                    && fatEntries == FreeAll(old(fatEntries), chain))
      ensures !freeData ==> file[..] == old(file[..]) && fatEntries == old(fatEntries)
    {
      hide ChainOf, Covers, Readable, Gather, ZeroOut, FreeAll, NoDuplicates;
      assert Contents(file[..], ints) == file[SectorSize(ints)..];
      var ok, stream, entries := CopyChain(file, SectorSize(ints), fatEntries, SectorSize(ints), start, bytes, freeData);
      assert Contents(file[..], ints) == file[SectorSize(ints)..];
      fatEntries := entries;
      r := if ok then Ok(stream) else Err(OutOfSectors);
    }

    /** Reads a short stream from the mini stream.  What is freed are copies: the file and its FAT stay as they are. */
    method ReadMiniStream(start: nat, bytes: nat, freeData: bool) returns (r: Result<seq<byte>>)
      requires ints > 0 && file.Length >= SectorSize(ints)
      requires MiniSafe(Contents(file[..], ints), ints, Shape(), start, bytes)
      modifies this`fatEntries, file
      ensures file[..] == old(file[..]) && fatEntries == old(fatEntries)
      ensures r.Err? ==> r.error == OutOfSectors
      ensures r.Ok? <==> MiniCovers(old(Contents(file[..], ints)), ints, old(Shape()), start, bytes)
      ensures r.Ok? ==> r.value == MiniData(old(Contents(file[..], ints)), ints, old(Shape()), start, bytes)
    {
      hide ChainOf, Covers, Readable, Gather, ZeroOut, FreeAll, NoDuplicates, DecodeInts, EntryAt;
      ghost var contents, t := Contents(file[..], ints), Shape();
      r := ReadFatStream(header.firstMiniFatSector, header.numMiniFatSectors * SectorSize(ints), false);
      if r.Err? {
        return;
      }
      var miniFatBytes := r.value;
      MiniFatWhole(header.numMiniFatSectors, ints);
      var fat := ReadInts(miniFatBytes, 0, |miniFatBytes| / 4);
      assert miniFatBytes[0..0 + 4 * (|miniFatBytes| / 4)] == miniFatBytes;
      var root := EntryAt(Contents(file[..], ints), Off(SectorSize(ints), header.firstDirSector));
      r := ReadFatStream(root.streamFirstSector, root.streamSize, false);
      if r.Err? {
        return;
      }
      var miniStream := r.value;
      var copy := new byte[|miniStream|](i requires 0 <= i < |miniStream| => miniStream[i]);
      assert copy[0..] == miniStream;
      var ok, stream, _ := CopyChain(copy, 0, fat, MINI_SECTOR_SIZE, start, bytes, freeData);
      r := if ok then Ok(stream) else Err(OutOfSectors);
    }

    /** Reads the signature's stream out of the file; `accepts` stands for the ASN.1 parse of SignedData. */
    method PopulateSignedData(accepts: seq<byte> -> bool, ghost dir: seq<nat>) returns (r: Result<()>)
      requires ints > 0 && file.Length >= SectorSize(ints)
      requires SignatureSafe(Contents(file[..], ints), ints, Shape(), dir, sigDirEntry)
      modifies this`fatEntries, this`signedDataBytes, file
      ensures file[..SectorSize(ints)] == old(file[..SectorSize(ints)])
      ensures r.Ok? ==> SignatureRead(old(Contents(file[..], ints)), old(Shape()), Value()) && accepts(signedDataBytes)
      ensures r.Err? ==> NothingAccepted(old(Contents(file[..], ints)), old(Shape()), ints, sigDirEntry, accepts)
      ensures r.Err? ==> r.error == OutOfSectors || r.error == SignedDataRejected
    {
      hide ChainOf, Covers, Readable, Gather, ZeroOut, FreeAll, NoDuplicates, MiniSafe, SignatureSafe, SignatureRead,
           NothingAccepted, MiniCovers, MiniData, SignatureSize, Off;
      ghost var contents, t := Contents(file[..], ints), Shape();
      SafeParts(contents, ints, t, dir, sigDirEntry);
      var start := sigDirEntry.streamFirstSector;
      var bytes := SignatureSize(header, sigDirEntry);
      var stream;
      if bytes >= MINI_CUTOFF {
        stream := ReadFatStream(start, bytes, true);
      } else {
        stream := ReadMiniStream(start, bytes, true);
      }
      if stream.Err? {
        NothingRead(contents, t, ints, sigDirEntry, accepts);
        return Err(stream.error);
      }
      signedDataBytes := stream.value;
      SignatureReadFromParts(contents, t, Value());
      if !accepts(signedDataBytes) {
        NothingElseRead(contents, t, Value(), accepts);
        return Err(SignedDataRejected);
      }
      r := Ok(());
    }

    /** Fills in the object: the tables, the signature's entry, the SignedData. */
    method Populate(accepts: seq<byte> -> bool, ghost t: Tables, ghost dir: seq<nat>) returns (r: Result<()>, ghost place: Place)
      requires ints > 0 && file.Length >= SectorSize(ints) && header == t.header
      requires WellFormed(file[..], ints, t, dir)
      modifies this, file
      ensures r.Ok? ==> Parsed(old(file[..]), t, place, Value()) && MsiInv(Value(), place) && accepts(signedDataBytes)
      ensures r.Err? ==> NoAcceptedParse(old(file[..]), t, accepts)
      ensures r.Err? ==> r.error in {NoSignatureStream, OutOfSectors, SignedDataRejected}
    {
      ghost var was := file[..];
      hide WellFormed, MsiInv, NoAcceptedParse, Parsed, HeaderAccepted, IsChain, DirReadable, FoundAt, EntryAt, EntryOff,
           SignatureSafe, SignatureRead, NothingAccepted, TablesInv, HeaderInv, TablesDecode, NothingFound;
      WellFormedParts(was, ints, t, dir);
      WellFormedDirectory(was, ints, t, dir);
      PopulateDifatEntries(t);
      PopulateFatEntries(t);
      assert Shape() == t;
      var found;
      found, place := PopulateSignatureDirEntry(dir);
      if !found {
        NothingFoundNoParse(was, ints, t, accepts);
        return Err(NoSignatureStream), place;
      }
      FoundEntrySafe(was, ints, t, dir, place, sigDirOffset);
      r := PopulateSignedData(accepts, dir);
      if r.Err? {
        NothingAcceptedNoParse(was, ints, t, place, sigDirOffset, sigDirEntry, accepts);
        return;
      }
      ParsedFromParts(was, t, place, Value());
      ParsedInv(was, ints, t, dir, place, Value());
    }

    /** 0 while `EnsureFreeDifatEntry` can be served from the tables as they are, 1 when it must grow the FAT. */
    ghost function DifatDepth(): nat
      requires |difatEntries| >= HEADER_SLOTS
      reads this
    {
      if FreeAtEnd(fatEntries) == 0 && !DifatHasFree(difatEntries) then 1 else 0
    }

    method EnsureFreeFatEntries(n: nat) returns (first: nat)
      requires Ready(Shape(), ints) && |Grow(Shape(), ints, n).fat| <= MAX_SECTORS
      modifies this`header, this`fatEntries, this`difatEntries, this`difatSectors
      ensures Shape() == Grow(old(Shape()), ints, n) && Ready(Shape(), ints)
      ensures first == FirstFree(fatEntries)
      decreases if n > FreeAtEnd(fatEntries) then n - FreeAtEnd(fatEntries) else 0, 0
    {
      ghost var t := Shape();
      ReadyBasics(t, ints);
      hide Ready, Round, FirstFree, DifatHasFree, EnsureDifat, AssignDifat;
      var sizeFat := |fatEntries|;
      first := FirstFreeFatEntry(fatEntries);
      if sizeFat - first >= n {
        return;
      }
      GrowStep(t, ints, n);
      FatAppendedReady(t, ints);
      RoundFromAppended(t, ints);
      hide Grow;
      fatEntries := AppendFreeSector(fatEntries, ints);
      fatEntries := fatEntries[first := FATSECT];
      assert Shape() == FatAppended(t, ints);
      AssignDifatEntry(first);
      header := header.(numFatSectors := header.numFatSectors + 1);
      assert Shape() == Round(t, ints);
      var _ := EnsureFreeFatEntries(n);
      ReadyBasics(Shape(), ints);
      first := FirstFreeFatEntry(fatEntries);
    }

    method AssignDifatEntry(fatSector: nat)
      requires Ready(Shape(), ints) && |EnsureDifat(Shape(), ints).fat| <= MAX_SECTORS
      requires fatSector < MAX_SECTORS
      modifies this`header, this`fatEntries, this`difatEntries, this`difatSectors
      ensures Shape() == AssignDifat(old(Shape()), ints, fatSector) && Ready(Shape(), ints)
      decreases DifatDepth(), 3
    {
      ReadyBasics(Shape(), ints);
      hide Ready, DifatHasFree, EnsureDifat, IsLastInSector;
      EnsureFreeDifatEntry();
      ReadyBasics(Shape(), ints);
      AssignReady(Shape(), ints, fatSector);
      var i := |difatEntries| - 1;
      while difatEntries[i - 1] == FREESECT || (IsLastInSector(ints, i - 1) && difatEntries[i - 2] == FREESECT)
        invariant 1 <= i < |difatEntries|
        invariant FirstFreeSlot(difatEntries, ints) == FreeSlotFrom(difatEntries, ints, i)
        decreases i
      {
        i := i - 1;
      }
      difatEntries := difatEntries[i := fatSector];
    }

    method EnsureFreeDifatEntry()
      requires Ready(Shape(), ints) && |EnsureDifat(Shape(), ints).fat| <= MAX_SECTORS
      modifies this`header, this`fatEntries, this`difatEntries, this`difatSectors
      ensures Shape() == EnsureDifat(old(Shape()), ints) && Ready(Shape(), ints) && DifatHasFree(difatEntries)
      decreases DifatDepth(), 2
    {
      ghost var t := Shape();
      hide Ready, Grow, FirstFree, EnsureDifat, LinkDifat;
      ReadyBasics(t, ints);
      EnsureDifatReady(t, ints);
      EnsureDifatCases(t, ints);
      var i := |difatEntries| - 1;
      if difatEntries[i] == ENDOFCHAIN {
        i := i - 1;
      }
      if difatEntries[i] == FREESECT {
        return;
      }
      AddDifatSector();
    }

    /** The rest of `EnsureFreeDifatEntry`, once no free entry was found. */
    method AddDifatSector()
      requires |difatEntries| >= HEADER_SLOTS && ints >= 128
      requires var e := Shape().(difat := ExtendDifat(difatEntries, ints));
               Ready(e, ints) && |Grow(e, ints, 1).fat| <= MAX_SECTORS
      modifies this`header, this`fatEntries, this`difatEntries, this`difatSectors
      ensures var g := Grow(old(Shape()).(difat := ExtendDifat(old(difatEntries), ints)), ints, 1);
              Shape() == LinkDifat(g, |old(difatEntries)| - 1, FirstFree(g.fat))
      decreases if FreeAtEnd(fatEntries) == 0 then 1 else 0, 1
    {
      ghost var t := Shape();
      hide Ready, Grow, FirstFree, DifatHasFree;
      var oldDifatTail := |difatEntries| - 1;
      difatEntries := AppendFreeSector(difatEntries, ints);
      difatEntries := difatEntries[|difatEntries| - 1 := ENDOFCHAIN];
      assert Shape() == t.(difat := ExtendDifat(t.difat, ints));
      hide ExtendDifat, Repeat;
      var sector := EnsureFreeFatEntries(1);
      fatEntries := fatEntries[sector := DIFSECT];
      if header.numDifatSectors == 0 {
        header := header.(firstDifatSector := sector);
      } else {
        difatEntries := difatEntries[oldDifatTail := sector];
      }
      header := header.(numDifatSectors := header.numDifatSectors + 1);
      difatSectors := difatSectors + [sector];
    }

    // -------------------------------------------------------------- writing

    /**
     The file with `sd` as its SignedData.  The object only grows its tables; the buffer is not written.
     `MAX_SECTORS` is where 32-bit sector numbers end.
     */
    method BuildBinary(sd: seq<byte>, tag: seq<byte>, ghost place: Place) returns (r: Result<seq<byte>>)
      requires file.Length >= SectorSize(ints) && ints >= 128 && |difatEntries| >= HEADER_SLOTS
      requires MsiInv(Value(), place)
      requires |sd| >= MINI_CUTOFF ==> |Grown(Value(), sd).tables.fat| <= MAX_SECTORS
      modifies this`header, this`fatEntries, this`difatEntries, this`difatSectors
      ensures tag != [] ==> r == Err(AppendedTagUnsupported)
      ensures tag == [] && |sd| < 4096 ==> r == Err(SignedDataTooShort)
      ensures r.Err? ==> Value() == old(Value())
      ensures tag == [] && |sd| >= 4096 ==>
                && r.Ok? && Value() == Grown(old(Value()), sd)
                && Laid(r.value, Value(), sd) && MsiInv(Value(), place)
    {
      hide MsiInv, Grow, Laid, FirstFree, Ready, TablesInv, HeaderInv, DirectoryInv, Words;
      if |tag| > 0 {
        return Err(AppendedTagUnsupported);
      }
      if |sd| < MINI_CUTOFF {
        return Err(SignedDataTooShort);
      }
      ghost var was := Value();
      GrownInv(was, place, sd);
      InvParts(was, place);
      InvReady(was.tables, ints);
      var size := SectorSize(ints);
      var n := (|sd| - 1) / size + 1;
      var first := EnsureFreeFatEntries(n);
      assert Value() == Grown(was, sd);
      hide Grown;
      var out := Layout(sd, place, n, first);
      r := Ok(out);
    }

    /** Lays the file out, once the FAT has room for `n` sectors from `first` on. */
    method Layout(sd: seq<byte>, ghost place: Place, n: nat, first: nat) returns (out: seq<byte>)
      requires file.Length >= SectorSize(ints) && ints >= 128 && MsiInv(Value(), place) && |sd| > 0
      requires n == NumSectors(Value(), sd) && FreeAtEnd(fatEntries) >= n && first == FirstFree(fatEntries)
      ensures Laid(out, Value(), sd)
    {
      ghost var m := Value();
      hide MsiInv, Laid, FirstFree, NumSectors, StepsTaken, TableWritten, EncodeDirEntry, Live, ContentsLaid, NewFat,
           SectorsInRange, Off, Entries, NoDuplicates, Consistent, DirectoryInv, Overlay, Padded, SignedFat;
      LayoutFacts(m, place, sd);
      NewFatIs(m, sd);
      var size := SectorSize(ints);
      var newFat := ChainSectors(fatEntries, first, n);
      var entry := sigDirEntry.(streamFirstSector := first, streamSize := |sd|);
      var headerSector := HeaderSector(header, difatEntries, ints);
      var firstFreeSector := FirstFreeFatEntry(newFat);
      var contents, x := LayContents(file[size..], Off(size, firstFreeSector), ints, difatSectors, difatEntries, newFat,
                                     sigDirOffset, EncodeDirEntry(entry), Off(size, first), sd);
      StepsFromParts(x, m, sd);
      LaidFromSteps(x, m, place, sd);
      out := headerSector + contents;
      LaidFromParts(out, headerSector, contents, m, sd);
    }
  }

  lemma NoHeaderNoParse(file: seq<byte>, t: Tables, accepts: seq<byte> -> bool)
    requires forall ints :: !HeaderAccepted(file, ints)
    ensures NoAcceptedParse(file, t, accepts)
  {
    hide HeaderAccepted;
  }

  /** The file has no parse whose SignedData is accepted. */
  ghost predicate NoAcceptedParse(file: seq<byte>, t: Tables, accepts: seq<byte> -> bool) {
    forall place, m :: Parsed(file, t, place, m) ==> !accepts(m.signedData)
  }

  lemma OneFormat(file: seq<byte>, a: nat, b: nat)
    requires HeaderAccepted(file, a) && HeaderAccepted(file, b)
    ensures a == b
  {
  }

  lemma NotFoundNotParsed(file: seq<byte>, ints: nat, t: Tables, place: Place, m: Msi)
    requires HeaderAccepted(file, ints) && NothingFound(Contents(file, ints), ints, t.fat, t.header.firstDirSector)
    ensures !Parsed(file, t, place, m)
  {
    if Parsed(file, t, place, m) {
      ParsedBasics(file, t, place, m);
      OneFormat(file, ints, m.ints);
      assert false;
    }
  }

  lemma NothingFoundNoParse(file: seq<byte>, ints: nat, t: Tables, accepts: seq<byte> -> bool)
    requires HeaderAccepted(file, ints) && NothingFound(Contents(file, ints), ints, t.fat, t.header.firstDirSector)
    ensures NoAcceptedParse(file, t, accepts)
  {
    forall place, m
      ensures !Parsed(file, t, place, m)
    {
      NotFoundNotParsed(file, ints, t, place, m);
    }
  }

  lemma NothingAcceptedNoParse(file: seq<byte>, ints: nat, t: Tables, place: Place, off: nat, entry: DirEntry, accepts: seq<byte> -> bool)
    requires HeaderAccepted(file, ints) && ints > 0
    requires FoundAt(Contents(file, ints), ints, t.fat, t.header.firstDirSector, place.path, place.entry)
    requires off == EntryOff(ints, place.path[|place.path| - 1], place.entry) && off + DIR_ENTRY_BYTES <= |Contents(file, ints)|
    requires entry == EntryAt(Contents(file, ints), off)
    requires NothingAccepted(Contents(file, ints), t, ints, entry, accepts)
    ensures NoAcceptedParse(file, t, accepts)
  {
    forall p, m | Parsed(file, t, p, m)
      ensures !accepts(m.signedData)
    {
      hide SignatureRead, FoundAt, EntryAt, EntryOff, TablesDecode;
      ParsedBasics(file, t, p, m);
      OneFormat(file, ints, m.ints);
      FoundUnique(Contents(file, ints), ints, t.fat, t.header.firstDirSector, place.path, place.entry, p.path, p.entry);
    }
  }

  /** On a well-formed file, what the parser needs to know about the entry it finds. */
  lemma FoundEntrySafe(file: seq<byte>, ints: nat, t: Tables, dir: seq<nat>, place: Place, off: nat)
    requires WellFormed(file, ints, t, dir) && ints > 0
    requires FoundAt(Contents(file, ints), ints, t.fat, t.header.firstDirSector, place.path, place.entry)
    requires off == EntryOff(ints, place.path[|place.path| - 1], place.entry) && off + DIR_ENTRY_BYTES <= |Contents(file, ints)|
    ensures SignatureSafe(Contents(file, ints), ints, t, dir, EntryAt(Contents(file, ints), off))
  {
    hide TablesDecode, TablesInv, SignatureSafe, EntryAt, EntryOff, FoundAt, IsChain, DirReadable;
  }

  /** The header checks, in the source's order. */
  method CheckHeader(bytes: seq<byte>) returns (r: Result<(Header, nat)>)
    ensures r.Ok? ==> HeaderAccepted(bytes, r.value.1) && r.value.0 == DecodeHeader(bytes[..HEADER_CONTENT_BYTES])
    ensures r.Err? ==> forall ints :: !HeaderAccepted(bytes, ints)
    ensures r == Err(HeaderTruncated) <==> |bytes| < 512
    ensures r == Err(NotAnMsi) <==>
            |bytes| >= 512 && !(bytes[..8] == [0xd0, 0xcf, 0x11, 0xe0, 0xa1, 0xb1, 0x1a, 0xe1] && AllZero(bytes[8..24]))
    ensures r == Err(HeaderSectorTruncated) ==> |bytes| < 4096 && bytes[30..32] == [12, 0]
    ensures r.Err? ==> r.error in {HeaderTruncated, NotAnMsi, BadSectorShift, HeaderSectorTruncated}
  {
    if |bytes| >= 512 {
      var b := bytes[..HEADER_CONTENT_BYTES];
      assert b[..8] == bytes[..8] && b[8..24] == bytes[8..24];
      assert bytes[30..32] == [b[30], b[31]];
    }
    if |bytes| < HEADER_TOTAL_BYTES {
      return Err(HeaderTruncated);
    }
    var header := DecodeHeader(bytes[..HEADER_CONTENT_BYTES]);
    if header.magic != MAGIC || !AllZero(header.clsid) {
      return Err(NotAnMsi);
    }
    if header.sectorShift != 9 && header.sectorShift != 12 {
      return Err(BadSectorShift);
    }
    var ints := if header.sectorShift == 9 then 128 else 1024;
    if |bytes| < SectorSize(ints) {
      return Err(HeaderSectorTruncated);
    }
    r := Ok((header, ints));
  }

  /**
   Parses the file in the caller's buffer, which loses its SignedData.  The precondition is the trust the source
   puts in its input; it asks nothing of a file whose header is rejected.
   */
  method NewMsiBinary(file: array<byte>, accepts: seq<byte> -> bool, ghost t: Tables, ghost dir: seq<nat>)
    returns (r: Result<MsiBinary>, ghost place: Place)
    requires forall ints :: HeaderAccepted(file[..], ints) ==> WellFormed(file[..], ints, t, dir)
    modifies file
    ensures r.Ok? ==>
              && fresh(r.value) && r.value.file == file && file.Length >= SectorSize(r.value.ints)
              && Parsed(old(file[..]), t, place, r.value.Value()) && accepts(r.value.signedDataBytes)
              && MsiInv(r.value.Value(), place)
    ensures r.Err? ==> NoAcceptedParse(old(file[..]), t, accepts)
    ensures (r.Err? && r.error in {HeaderTruncated, NotAnMsi, BadSectorShift, HeaderSectorTruncated}) <==>
            forall ints :: !HeaderAccepted(old(file[..]), ints)
  {
    place := Place([], 0);
    hide WellFormed, MsiInv, NoAcceptedParse, Parsed, HeaderAccepted;
    var h := CheckHeader(file[..]);
    if h.Err? {
      NoHeaderNoParse(file[..], t, accepts);
      return Err(h.error), place;
    }
    var (header, ints) := h.value;
    WellFormedParts(file[..], ints, t, dir);
    TablesHeader(file[..], ints, t);
    hide TablesDecode;
    var bin := new MsiBinary(file, ints, header);
    var read;
    read, place := bin.Populate(accepts, t, dir);
    r := if read.Ok? then Ok(bin) else Err(read.error);
  }

  lemma TablesHeader(file: seq<byte>, ints: nat, t: Tables)
    requires TablesDecode(file, ints, t)
    ensures |file| >= HEADER_TOTAL_BYTES && t.header == DecodeHeader(file[..HEADER_CONTENT_BYTES])
  {
    hide DifatDecodes, FatDecodes;
  }
}
