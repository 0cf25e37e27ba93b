/** The written file is again one the parser may be given, so editing can go on for ever. */
module MsiRuns {
  import opened Arith
  import opened Bytes
  import opened MsiFormat
  import opened MsiTables
  import opened MsiFile
  import opened MsiStreams
  import opened MsiRoundTrip
  import opened MsiLaws

  /** `dir` is the whole directory chain of `m`, readable to its end. */
  ghost predicate DirInv(m: Msi, dir: seq<nat>) {
    && IsChain(m.tables.fat, m.tables.header.firstDirSector, dir)
    && DirReadable(m.contents, m.ints, dir)
  }

  lemma ParsedDirInv(file: seq<byte>, ints: nat, t: Tables, dir: seq<nat>, place: Place, m: Msi)
    requires WellFormed(file, ints, t, dir) && Parsed(file, t, place, m) && m.ints == ints
    ensures DirInv(m, dir)
  {
    hide *;
    WellFormedParts(file, ints, t, dir);
    WellFormedDirectory(file, ints, t, dir);
    ParsedFrees(file, t, place, m);
    FreedSafe(file, ints, t, dir, place, m);
    forall i | 0 <= i < |dir|
      ensures dir[i] !in Freed(t, m)
    {
      MemberOf(dir, i);
    }
    ParsedIntact(file, t, place, m, t.header.firstDirSector, dir);
    ReadableTransfer(Contents(file, ints), m.contents, ints, dir);
    DirInvFrom(m, t.header.firstDirSector, dir);
  }

  lemma MemberOf(s: seq<nat>, i: nat)
    requires i < |s|
    ensures s[i] in s
  {
  }

  lemma DirInvFrom(m: Msi, first: nat, dir: seq<nat>)
    requires first == m.tables.header.firstDirSector && IsChain(m.tables.fat, first, dir) && DirReadable(m.contents, m.ints, dir)
    ensures DirInv(m, dir)
  {
    hide IsChain, DirReadable;
  }

  lemma ReadableTransfer(c: seq<byte>, c': seq<byte>, ints: nat, dir: seq<nat>)
    requires DirReadable(c, ints, dir) && SameBytes(c, c', SectorSize(ints), dir, 0, 0)
    ensures DirReadable(c', ints, dir)
  {
    forall i, e | 0 <= i < |dir| && 0 <= e < EntriesPerSector(ints)
      ensures EntryReadable(c', ints, dir[i], e)
    {
      hide EntryOff, SameBytes;
      assert EntryReadable(c, ints, dir[i], e);
      EntryTransfer(c, c', ints, dir, i, e);
    }
  }

  lemma WrittenReadable(c: seq<byte>, m: Msi, place: Place, sd: seq<byte>, dir: seq<nat>)
    requires TablesInv(m.tables, m.ints) && DirectoryInv(m, place) && DirInv(m, dir) && 0 < |sd| < TWO64 && ContentsLaid(c, m, sd)
    ensures DirReadable(c, m.ints, dir)
  {
    hide TablesInv, DirectoryInv, ContentsLaid, EntryOff, IsChain, FirstFree;
    InvBasics(m.tables, m.ints);
    ChainData(m.tables.fat, m.tables.header.firstDirSector, dir);
    DirectoryParts(m, place);
    DirectoryBack(c, m, place, sd);
    var last := place.path[|place.path| - 1];
    forall i, e | 0 <= i < |dir| && 0 <= e < EntriesPerSector(m.ints)
      ensures EntryReadable(c, m.ints, dir[i], e)
    {
      assert EntryReadable(m.contents, m.ints, dir[i], e);
      if (dir[i], e) != (last, place.entry) {
        EntryKept(c, m, sd, dir[i], e, last, place.entry);
      }
    }
  }

  lemma WrittenTables(m: Msi, sd: seq<byte>)
    requires TablesInv(m.tables, m.ints) && |sd| > 0
    ensures TablesInv(m.tables.(fat := NewFat(m, sd)), m.ints)
  {
    var fat := NewFat(m, sd);
    forall s | 0 <= s < |m.tables.fat| && m.tables.fat[s] != FREESECT
      ensures fat[s] == m.tables.fat[s]
    {
      BeforeFree(m.tables.fat, 0, s);
    }
    hide NewFat, Live, DifatShape;
  }

  lemma RunReadable(fat: seq<nat>, len: nat, size: nat, s: nat, bytes: nat, k: nat)
    requires size > 0 && s + k <= |fat| <= MAX_SECTORS && Fits(bytes, size, k) && Off(size, s) + bytes <= len
    requires forall i :: s <= i < s + k - 1 ==> fat[i] == i + 1
    ensures Readable(fat, len, size, s, bytes)
    decreases k
  {
    if k > 0 {
      FitsTail(bytes, size, k);
      OffNext(size, s);
      hide Fits, Off;
      if k > 1 {
        RunReadable(fat, len, size, s + 1, bytes - Min(bytes, size), k - 1);
      }
    }
  }

  /** The chain of the new SignedData. */
  lemma NewChain(c: seq<byte>, m: Msi, sd: seq<byte>)
    requires m.ints > 0 && |m.tables.fat| <= MAX_SECTORS && |sd| > 0 && SignedDataLaid(c, m, sd)
    requires FirstFree(m.tables.fat) + NumSectors(m, sd) <= |m.tables.fat|
    ensures var size, first := SectorSize(m.ints), FirstFree(m.tables.fat);
            && Readable(NewFat(m, sd), |c|, size, first, |sd|)
            && ChainOf(NewFat(m, sd), size, first, |sd|) == Run(first, NumSectors(m, sd))
  {
    var size, first, n := SectorSize(m.ints), FirstFree(m.tables.fat), NumSectors(m, sd);
    SectorsForFits(|sd|, size);
    ChainBack(NewFat(m, sd), size, first, |sd|, n);
    RunReadable(NewFat(m, sd), |c|, size, first, |sd|, n);
    hide ChainOf, Readable, Covers;
  }

  lemma NewChainData(m: Msi, sd: seq<byte>, dir: seq<nat>)
    requires m.ints > 0 && |m.tables.fat| <= MAX_SECTORS && |sd| > 0
    requires FirstFree(m.tables.fat) + NumSectors(m, sd) <= |m.tables.fat|
    requires forall i :: 0 <= i < |dir| ==> dir[i] < |m.tables.fat| && m.tables.fat[dir[i]] != FREESECT
    ensures var run := Run(FirstFree(m.tables.fat), NumSectors(m, sd));
            && NoDuplicates(run)
            && forall i :: 0 <= i < |run| ==> run[i] < |m.tables.fat| && IsData(NewFat(m, sd)[run[i]]) && run[i] !in dir
  {
    hide NumSectors;
    var run := Run(FirstFree(m.tables.fat), NumSectors(m, sd));
    assert forall i :: 0 <= i < |run| ==> run[i] == FirstFree(m.tables.fat) + i;
  }

  lemma WrittenSafe(c: seq<byte>, m: Msi, sd: seq<byte>, dir: seq<nat>)
    requires m.ints > 0 && |m.tables.fat| <= MAX_SECTORS && Writable(m.tables.header, sd) && SignedDataLaid(c, m, sd)
    requires FirstFree(m.tables.fat) + NumSectors(m, sd) <= |m.tables.fat|
    requires forall i :: 0 <= i < |dir| ==> dir[i] < |m.tables.fat| && m.tables.fat[dir[i]] != FREESECT
    ensures SignatureSafe(c, m.ints, m.tables.(fat := NewFat(m, sd)), dir, SignedEntry(m, FirstFree(m.tables.fat), |sd|))
  {
    hide ChainOf, Readable, SignedDataLaid, NewFat, FirstFree, NumSectors, Run, NoDuplicates, MiniSafe;
    NewChain(c, m, sd);
    NewChainData(m, sd, dir);
  }

  /** The file that is written is well-formed, with the same directory. */
  lemma WrittenWellFormed(out: seq<byte>, m: Msi, place: Place, sd: seq<byte>, dir: seq<nat>)
    requires MsiInv(m, place) && DirInv(m, dir) && Writable(m.tables.header, sd)
    requires FreeAtEnd(m.tables.fat) >= NumSectors(m, sd) && Laid(out, m, sd)
    ensures WellFormed(out, m.ints, m.tables.(fat := NewFat(m, sd)), dir)
  {
    assert 0 < |sd| < TWO64;
    var c, t := Contents(out, m.ints), m.tables.(fat := NewFat(m, sd));
    hide *;
    InvParts(m, place);
    LaidParts(out, m, sd);
    DirChain(m, dir);
    TablesBack(out, m, place, sd);
    HeaderBack(out, m);
    WrittenTables(m, sd);
    WrittenIntact(c, m, sd, m.tables.header.firstDirSector, dir);
    WrittenReadable(c, m, place, sd, dir);
    RoomForSignedData(m, sd);
    ChainData(m.tables.fat, m.tables.header.firstDirSector, dir);
    DataNotFree(m.tables.fat, dir);
    WrittenSafe(c, m, sd, dir);
    DirectoryParts(m, place);
    DirectoryBack(c, m, place, sd);
    forall path, e | FoundAt(c, m.ints, t.fat, t.header.firstDirSector, path, e)
      ensures path != [] && EntryOff(m.ints, path[|path| - 1], e) + DIR_ENTRY_BYTES <= |c|
      ensures SignatureSafe(c, m.ints, t, dir, EntryAt(c, EntryOff(m.ints, path[|path| - 1], e)))
    {
      FoundUnique(c, m.ints, t.fat, t.header.firstDirSector, place.path, place.entry, path, e);
    }
    WellFormedFrom(out, m.ints, t, dir);
  }

  lemma DirChain(m: Msi, dir: seq<nat>)
    requires DirInv(m, dir)
    ensures IsChain(m.tables.fat, m.tables.header.firstDirSector, dir) && DirReadable(m.contents, m.ints, dir)
  {
  }

  lemma DataNotFree(fat: seq<nat>, dir: seq<nat>)
    requires forall i :: 0 <= i < |dir| ==> dir[i] < |fat| && IsData(fat[dir[i]])
    ensures forall i :: 0 <= i < |dir| ==> dir[i] < |fat| && fat[dir[i]] != FREESECT
  {
  }

  lemma WellFormedFrom(file: seq<byte>, ints: nat, t: Tables, dir: seq<nat>)
    requires HeaderAccepted(file, ints) && TablesDecode(file, ints, t) && TablesInv(t, ints)
    requires |file| >= SectorSize(ints) && ints > 0
    requires IsChain(t.fat, t.header.firstDirSector, dir) && DirReadable(Contents(file, ints), ints, dir)
    requires forall path, e :: FoundAt(Contents(file, ints), ints, t.fat, t.header.firstDirSector, path, e) ==>
               && path != [] && EntryOff(ints, path[|path| - 1], e) + DIR_ENTRY_BYTES <= |Contents(file, ints)|
               && SignatureSafe(Contents(file, ints), ints, t, dir, EntryAt(Contents(file, ints), EntryOff(ints, path[|path| - 1], e)))
    ensures WellFormed(file, ints, t, dir)
  {
    hide HeaderAccepted, TablesDecode, TablesInv, IsChain, DirReadable, FoundAt, SignatureSafe, EntryAt, EntryOff;
  }

  // ---------------------------------------------------------------- any number of edits

  /** One edit: `file` is written for `m` and `sd`. */
  ghost predicate Edit(m: Msi, sd: seq<byte>, file: seq<byte>) {
    && m.ints >= 128 && |m.tables.difat| >= HEADER_SLOTS && Writable(m.tables.header, sd)
    && |Grown(m, sd).tables.fat| <= MAX_SECTORS
    && Laid(file, Grown(m, sd), sd)
  }

  /** The MSI that parsing the written file yields. */
  ghost function AfterEdit(m: Msi, sd: seq<byte>, file: seq<byte>): Msi
    requires Edit(m, sd, file)
  {
    Retagged(Contents(file, m.ints), Grown(m, sd), sd)
  }

  lemma EditParts(m: Msi, sd: seq<byte>, file: seq<byte>)
    requires Edit(m, sd, file)
    ensures m.ints >= 128 && |m.tables.difat| >= HEADER_SLOTS && Writable(m.tables.header, sd) && 0 < |sd| < TWO64
    ensures |Grown(m, sd).tables.fat| <= MAX_SECTORS && Laid(file, Grown(m, sd), sd)
    ensures |file| >= SectorSize(m.ints) && AfterEdit(m, sd, file) == Retagged(Contents(file, m.ints), Grown(m, sd), sd)
  {
    hide Grown, ContentsLaid, Retagged;
  }

  lemma GrownFields(m: Msi, sd: seq<byte>)
    requires m.ints >= 128 && |m.tables.difat| >= HEADER_SLOTS && |sd| > 0
    ensures var g := Grown(m, sd);
            && g.ints == m.ints && g.contents == m.contents && g.sigDirOffset == m.sigDirOffset
            && FreeAtEnd(g.tables.fat) >= NumSectors(g, sd) && NumSectors(g, sd) == NumSectors(m, sd)
  {
    hide NumSectors, FreeAtEnd;
    assert NumSectors(Grown(m, sd), sd) == NumSectors(m, sd) by { NumSectorsSame(m, Grown(m, sd), sd); }
  }

  lemma NumSectorsSame(m: Msi, m': Msi, sd: seq<byte>)
    requires m.ints == m'.ints > 0 && |sd| > 0
    ensures NumSectors(m, sd) == NumSectors(m', sd)
  {
  }

  lemma GrownVersion(m: Msi, sd: seq<byte>)
    requires m.ints >= 128 && |m.tables.difat| >= HEADER_SLOTS && |sd| > 0
    requires |Grown(m, sd).tables.fat| <= MAX_SECTORS && Words(m.tables.fat) && Words(m.tables.difat)
    ensures Grown(m, sd).tables.header.dllVersion == m.tables.header.dllVersion
  {
    hide Grow, NumSectors, Words;
    GrowHeaderWords(m.tables, m.ints, NumSectors(m, sd));
  }

  /** One edit reads back: the parser accepts the file and finds the SignedData at the same directory entry. */
  lemma EditRoundTrip(m: Msi, place: Place, dir: seq<nat>, sd: seq<byte>, file: seq<byte>)
    requires Edit(m, sd, file) && MsiInv(m, place) && DirInv(m, dir)
    ensures ParsesTo(file, place, AfterEdit(m, sd, file)) && GoodFile(file, m.ints, dir)
    ensures MsiInv(AfterEdit(m, sd, file), place) && DirInv(AfterEdit(m, sd, file), dir)
    ensures AfterEdit(m, sd, file).signedData == sd && AfterEdit(m, sd, file).sigDirOffset == m.sigDirOffset
  {
    hide *;
    EditParts(m, sd, file);
    InvParts(m, place);
    GrownInv(m, place, sd);
    GrownFields(m, sd);
    GrownVersion(m, sd);
    WritableVersion(m.tables.header, Grown(m, sd).tables.header, sd);
    RoundTrip(file, Grown(m, sd), place, sd);
    RetaggedInv(file, Grown(m, sd), place, sd);
    RetaggedFields(Contents(file, m.ints), Grown(m, sd), sd);
    IsParse(file, Grown(m, sd).tables.(fat := NewFat(Grown(m, sd), sd)), place, AfterEdit(m, sd, file));
    GrownDirInv(m, sd, dir);
    WrittenWellFormed(file, Grown(m, sd), place, sd, dir);
    IsGoodFile(file, m.ints, Grown(m, sd).tables.(fat := NewFat(Grown(m, sd), sd)), dir);
    ParsedDirInv(file, m.ints, Grown(m, sd).tables.(fat := NewFat(Grown(m, sd), sd)), dir, place, AfterEdit(m, sd, file));
  }

  /** The parser may be given this file: it is well-formed, with directory `dir`. */
  ghost predicate GoodFile(file: seq<byte>, ints: nat, dir: seq<nat>) {
    exists t :: WellFormed(file, ints, t, dir)
  }

  lemma IsGoodFile(file: seq<byte>, ints: nat, t: Tables, dir: seq<nat>)
    requires WellFormed(file, ints, t, dir)
    ensures GoodFile(file, ints, dir)
  {
  }

  lemma GrownDirInv(m: Msi, sd: seq<byte>, dir: seq<nat>)
    requires m.ints >= 128 && |m.tables.difat| >= HEADER_SLOTS && |sd| > 0
    requires |Grown(m, sd).tables.fat| <= MAX_SECTORS && TablesInv(m.tables, m.ints) && DirInv(m, dir)
    requires Words(m.tables.fat) && Words(m.tables.difat)
    ensures DirInv(Grown(m, sd), dir)
  {
    hide TablesInv, IsChain, DirReadable, Grow, Words, NumSectors;
    GrowHeaderWords(m.tables, m.ints, NumSectors(m, sd));
    FirstDirKept(m.tables, Grown(m, sd).tables);
    hide HeaderGrew;
    GrownIntact(m, sd, m.tables.header.firstDirSector, dir);
  }

  ghost predicate ParsesTo(file: seq<byte>, place: Place, m: Msi) {
    exists t :: Parsed(file, t, place, m)
  }

  lemma IsParse(file: seq<byte>, t: Tables, place: Place, m: Msi)
    requires Parsed(file, t, place, m)
    ensures ParsesTo(file, place, m)
  {
  }

  lemma WritableVersion(h: Header, h': Header, sd: seq<byte>)
    requires Writable(h, sd) && h.dllVersion == h'.dllVersion
    ensures Writable(h', sd)
  {
  }

  lemma EditIntact(m: Msi, place: Place, sd: seq<byte>, file: seq<byte>, start: nat, c: seq<nat>)
    requires Edit(m, sd, file) && MsiInv(m, place) && IsChain(m.tables.fat, start, c)
    ensures Intact(m, AfterEdit(m, sd, file), start, c)
  {
    hide *;
    EditParts(m, sd, file);
    InvParts(m, place);
    GrownInv(m, place, sd);
    InvParts(Grown(m, sd), place);
    GrownFields(m, sd);
    GrownIntact(m, sd, start, c);
    LaidParts(file, Grown(m, sd), sd);
    RetaggedIntact(Contents(file, m.ints), Grown(m, sd), sd, start, c);
    IntactFrom(m, Grown(m, sd), AfterEdit(m, sd, file), start, c);
  }

  lemma IntactFrom(m: Msi, g: Msi, m': Msi, start: nat, c: seq<nat>)
    requires Intact(g, m', start, c) && g.ints == m.ints && g.contents == m.contents && g.sigDirOffset == m.sigDirOffset
    ensures Intact(m, m', start, c)
  {
    hide IsChain, SameBytes;
  }

  /** A run of edits: each file is written from the parse of the one before. */
  ghost predicate EditRun(m: Msi, sds: seq<seq<byte>>, files: seq<seq<byte>>, m': Msi)
    decreases |sds|
  {
    && |files| == |sds|
    && if sds == [] then m' == m
       else Edit(m, sds[0], files[0]) && EditRun(AfterEdit(m, sds[0], files[0]), sds[1..], files[1..], m')
  }

  lemma IntactReflexive(m: Msi, start: nat, c: seq<nat>)
    requires IsChain(m.tables.fat, start, c)
    ensures Intact(m, m, start, c)
  {
  }

  lemma IntactTransitive(m: Msi, m1: Msi, m2: Msi, start: nat, c: seq<nat>)
    requires Intact(m, m1, start, c) && Intact(m1, m2, start, c) && m1.ints == m.ints && m1.sigDirOffset == m.sigDirOffset
    ensures Intact(m, m2, start, c)
  {
    hide IsChain;
    SameBytesTransitive(m.contents, m1.contents, m2.contents, SectorSize(m.ints), c, m.sigDirOffset, m.sigDirOffset + DIR_ENTRY_BYTES);
  }

  lemma AfterEditFields(m: Msi, sd: seq<byte>, file: seq<byte>)
    requires Edit(m, sd, file)
    ensures AfterEdit(m, sd, file).ints == m.ints && AfterEdit(m, sd, file).sigDirOffset == m.sigDirOffset
  {
    hide *;
    EditParts(m, sd, file);
    GrownFields(m, sd);
    RetaggedFields(Contents(file, m.ints), Grown(m, sd), sd);
  }

  /** However often an MSI is re-tagged: it stays well-formed, the last SignedData reads back, no other stream changes. */
  lemma {:induction false} EditRunLaws(m: Msi, place: Place, dir: seq<nat>, sds: seq<seq<byte>>, files: seq<seq<byte>>, m': Msi,
                                       start: nat, c: seq<nat>)
    requires MsiInv(m, place) && DirInv(m, dir) && EditRun(m, sds, files, m') && IsChain(m.tables.fat, start, c)
    ensures MsiInv(m', place) && DirInv(m', dir) && Intact(m, m', start, c)
    ensures forall k :: 0 <= k < |files| ==> GoodFile(files[k], m.ints, dir)
    ensures sds != [] ==> m'.signedData == sds[|sds| - 1] && ParsesTo(files[|files| - 1], place, m')
    decreases |sds|
  {
    hide MsiInv, DirInv, Edit, AfterEdit, Intact, ParsesTo, IsChain, GoodFile;
    if sds == [] {
      IntactReflexive(m, start, c);
    } else {
      var m1 := AfterEdit(m, sds[0], files[0]);
      EditRoundTrip(m, place, dir, sds[0], files[0]);
      EditIntact(m, place, sds[0], files[0], start, c);
      AfterEditFields(m, sds[0], files[0]);
      IntactParts(m, m1, start, c);
      EditRunLaws(m1, place, dir, sds[1..], files[1..], m', start, c);
      forall k | 0 <= k < |files|
        ensures GoodFile(files[k], m.ints, dir)
      {
        if k > 0 {
          assert files[k] == files[1..][k - 1];
        }
      }
      IntactTransitive(m, m1, m', start, c);
    }
  }

  /**
   From file to file.  Take a well-formed MSI, re-tag it any number of times, and parse the last file: the
   parser finds the last SignedData at the same directory entry, and every stream of the first file that is
   not its signature has the same sectors and bytes in the last one, outside the signature's entry.  Every file
   on the way is well-formed, so each can be parsed in its turn.
   */
  lemma FileRunLaws(file: seq<byte>, t: Tables, dir: seq<nat>, place: Place, m: Msi, sds: seq<seq<byte>>, files: seq<seq<byte>>,
                    m': Msi, start: nat, c: seq<nat>)
    requires m.ints > 0 && WellFormed(file, m.ints, t, dir) && Parsed(file, t, place, m)
    requires EditRun(m, sds, files, m') && sds != []
    requires IsChain(t.fat, start, c) && forall i :: 0 <= i < |c| ==> c[i] !in Freed(t, m)
    ensures m'.signedData == sds[|sds| - 1] && m'.sigDirOffset == m.sigDirOffset && m'.ints == m.ints
    ensures |file| >= SectorSize(m.ints) && |files[|files| - 1]| >= SectorSize(m.ints)
    ensures forall k :: 0 <= k < |files| ==> GoodFile(files[k], m.ints, dir)
    ensures exists t' :: Parsed(files[|files| - 1], t', place, m') && IsChain(t'.fat, start, c)
    ensures SameBytes(Contents(file, m.ints), Contents(files[|files| - 1], m.ints), SectorSize(m.ints), c,
                      m.sigDirOffset, m.sigDirOffset + DIR_ENTRY_BYTES)
  {
    var last := files[|files| - 1];
    hide *;
    WellFormedParts(file, m.ints, t, dir);
    ParsedInv(file, m.ints, t, dir, place, m);
    ParsedIntact(file, t, place, m, start, c);
    ParsedDirInv(file, m.ints, t, dir, place, m);
    EditRunLaws(m, place, dir, sds, files, m', start, c);
    EditRunFields(m, sds, files, m');
    InvParts(m', place);
    IntactParts(m, m', start, c);
    var t' := ParseOf(last, place, m');
    ParsedBasics(last, t', place, m');
    UnparsedIntact(last, t', place, m', start, c);
    var lo, hi := m.sigDirOffset, m.sigDirOffset + DIR_ENTRY_BYTES;
    SameBytesExcept(Contents(file, m.ints), m.contents, SectorSize(m.ints), c, lo, hi);
    SameBytesExcept(m'.contents, Contents(last, m.ints), SectorSize(m.ints), c, lo, hi);
    SameBytesTransitive(Contents(file, m.ints), m.contents, m'.contents, SectorSize(m.ints), c, lo, hi);
    SameBytesTransitive(Contents(file, m.ints), m'.contents, Contents(last, m.ints), SectorSize(m.ints), c, lo, hi);
  }

  ghost function ParseOf(file: seq<byte>, place: Place, m: Msi): (t: Tables)
    requires ParsesTo(file, place, m)
    ensures Parsed(file, t, place, m)
  {
    var t :| Parsed(file, t, place, m);
    t
  }

  lemma IntactParts(m: Msi, m': Msi, start: nat, c: seq<nat>)
    requires Intact(m, m', start, c)
    ensures IsChain(m'.tables.fat, start, c)
    ensures SameBytes(m.contents, m'.contents, SectorSize(m.ints), c, m.sigDirOffset, m.sigDirOffset + DIR_ENTRY_BYTES)
  {
  }

  lemma {:induction false} EditRunFields(m: Msi, sds: seq<seq<byte>>, files: seq<seq<byte>>, m': Msi)
    requires EditRun(m, sds, files, m')
    ensures m'.ints == m.ints && m'.sigDirOffset == m.sigDirOffset && |files| == |sds|
    decreases |sds|
  {
    hide Edit, AfterEdit;
    if sds != [] {
      AfterEditFields(m, sds[0], files[0]);
      EditRunFields(AfterEdit(m, sds[0], files[0]), sds[1..], files[1..], m');
    }
  }

  // ---------------------------------------------------------------- the size field of version 3

  lemma {:induction false} GatherAtMost(c: seq<byte>, size: nat, chain: seq<nat>, bytes: nat)
    requires size > 0
    ensures |Gather(c, size, chain, bytes)| <= bytes
    decreases |chain|
  {
    hide Off;
    if bytes > 0 && chain != [] {
      GatherAtMost(c, size, chain[1..], bytes - Min(bytes, size));
    }
  }

  lemma ReadAtMost(contents: seq<byte>, t: Tables, m: Msi)
    requires m.ints > 0 && SignatureRead(contents, t, m)
    ensures |m.signedData| <= SignatureSize(t.header, m.sigDirEntry)
  {
    hide Gather, ChainOf, ZeroOut, FreeAll, Covers, DecodeInts, EntryAt, Off;
    var start, bytes := m.sigDirEntry.streamFirstSector, SignatureSize(t.header, m.sigDirEntry);
    hide SignatureSize;
    if bytes >= MINI_CUTOFF {
      GatherAtMost(contents, SectorSize(m.ints), ChainOf(t.fat, SectorSize(m.ints), start, bytes), bytes);
    } else {
      var fat := DecodeInts(MiniFatBytes(contents, m.ints, t));
      GatherAtMost(MiniStream(contents, m.ints, t), MINI_SECTOR_SIZE, ChainOf(fat, MINI_SECTOR_SIZE, start, bytes), bytes);
    }
  }

  /** With DLL version 3 the SignedData reads back if and only if its size fits 31 bits. */
  lemma Version3Exact(out: seq<byte>, m: Msi, place: Place, sd: seq<byte>, t: Tables, place': Place, m': Msi)
    requires MsiInv(m, place) && MINI_CUTOFF <= |sd| < TWO64 && m.tables.header.dllVersion == 3
    requires FreeAtEnd(m.tables.fat) >= NumSectors(m, sd) && Laid(out, m, sd)
    requires Parsed(out, t, place', m') && m'.ints == m.ints
    ensures m'.signedData == sd <==> |sd| < TWO31
  {
    assert 0 < |sd| < TWO64;
    hide *;
    InvParts(m, place);
    LaidParts(out, m, sd);
    RetaggedFields(Contents(out, m.ints), m, sd);
    if |sd| < TWO31 {
      WritableIn3(m.tables.header, sd);
      RoundTrip(out, m, place, sd);
      ParsedUnique(out, t, place', m', m.tables.(fat := NewFat(m, sd)), place, Retagged(Contents(out, m.ints), m, sd));
    } else {
      RoundTripSearch(out, m, place, sd);
      ParsedEntry(out, t, place', m', m.tables.(fat := NewFat(m, sd)), place);
      ReadAtMost(Contents(out, m.ints), t, m');
      SizeWraps(m, sd);
    }
  }

  lemma WritableIn3(h: Header, sd: seq<byte>)
    requires h.dllVersion == 3 && MINI_CUTOFF <= |sd| < TWO31
    ensures Writable(h, sd)
  {
  }

  /** The entry of a parse is the one the search in the file ends at. */
  lemma ParsedEntry(file: seq<byte>, t: Tables, place: Place, m: Msi, t': Tables, place': Place)
    requires Parsed(file, t, place, m) && m.ints > 0 && |file| >= SectorSize(m.ints)
    requires TablesDecode(file, m.ints, t')
    requires FoundAt(Contents(file, m.ints), m.ints, t'.fat, t'.header.firstDirSector, place'.path, place'.entry)
    ensures t == t' && SignatureRead(Contents(file, m.ints), t, m)
    ensures EntryOff(m.ints, place'.path[|place'.path| - 1], place'.entry) + DIR_ENTRY_BYTES <= |Contents(file, m.ints)|
    ensures m.sigDirEntry == EntryAt(Contents(file, m.ints), EntryOff(m.ints, place'.path[|place'.path| - 1], place'.entry))
  {
    TablesUnique(file, m.ints, t, t');
    FoundUnique(Contents(file, m.ints), m.ints, t.fat, t.header.firstDirSector, place.path, place.entry, place'.path, place'.entry);
    hide TablesDecode, SignatureRead;
  }

  lemma SizeWraps(m: Msi, sd: seq<byte>)
    requires m.ints > 0 && m.tables.header.dllVersion == 3 && TWO31 <= |sd|
    ensures SignatureSize(m.tables.header, SignedEntry(m, FirstFree(m.tables.fat), |sd|)) < |sd|
  {
  }

  // ---------------------------------------------------------------- where the certificate is reported to be

  function CertificateOffset(m: Msi): nat {
    Off(SectorSize(m.ints), FirstFree(m.tables.fat))
  }

  /** The reported offset leaves out the header sector: the SignedData starts one sector behind it. */
  lemma CertificateBehindOffset(out: seq<byte>, m: Msi, sd: seq<byte>)
    requires m.ints > 0 && |sd| > 0 && |out| >= SectorSize(m.ints) && Laid(out, m, sd)
    ensures var at := CertificateOffset(m) + SectorSize(m.ints);
            at + |sd| <= |out| && out[at..at + |sd|] == sd && at != CertificateOffset(m)
  {
    var size, off := SectorSize(m.ints), CertificateOffset(m);
    assert SignedDataLaid(Contents(out, m.ints), m, sd);
    hide Laid, Off;
    assert out[size..][off..off + |sd|] == out[size + off..size + off + |sd|];
  }
}
