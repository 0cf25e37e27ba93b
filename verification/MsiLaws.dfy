/** What editing an MSI preserves: the invariant, every other stream, and the result of writing twice. */
module MsiLaws {
  import opened Arith
  import opened Bytes
  import opened MsiFormat
  import opened MsiTables
  import opened MsiFile
  import opened MsiStreams
  import opened MsiRoundTrip

  // ---------------------------------------------------------------- agreement on sectors

  /** The bytes that `c` has in the given sectors, `c'` has too, except perhaps from `from` to `to`. */
  ghost predicate SameBytes(c: seq<byte>, c': seq<byte>, size: nat, sectors: seq<nat>, from: nat, to: nat) {
    forall i, p {:trigger InSector(size, sectors[i], p)} ::
      0 <= i < |sectors| && 0 <= p < |c| && InSector(size, sectors[i], p) && !(from <= p < to) ==>
        p < |c'| && c'[p] == c[p]
  }

  lemma EntryTransfer(c: seq<byte>, c': seq<byte>, ints: nat, path: seq<nat>, i: nat, e: nat)
    requires SameBytes(c, c', SectorSize(ints), path, 0, 0) && i < |path| && e < EntriesPerSector(ints)
    requires EntryOff(ints, path[i], e) + DIR_ENTRY_BYTES <= |c|
    ensures EntryOff(ints, path[i], e) + DIR_ENTRY_BYTES <= |c'|
    ensures EntryAt(c', EntryOff(ints, path[i], e)) == EntryAt(c, EntryOff(ints, path[i], e))
  {
    var off := EntryOff(ints, path[i], e);
    hide EntryOff, InSector;
    forall p | off <= p < off + DIR_ENTRY_BYTES
      ensures p < |c'| && c'[p] == c[p]
    {
      EntryInSector(ints, path[i], e, p);
    }
    var end := off + DIR_ENTRY_BYTES - 1;
    EntryInSector(ints, path[i], e, end);
    assert c[off..off + DIR_ENTRY_BYTES] == c'[off..off + DIR_ENTRY_BYTES];
  }

  lemma NoSignatureTransfer(c: seq<byte>, c': seq<byte>, ints: nat, path: seq<nat>, i: nat, n: nat)
    requires SameBytes(c, c', SectorSize(ints), path, 0, 0) && i < |path| && n <= EntriesPerSector(ints)
    requires NoSignatureIn(c, ints, path[i], n)
    ensures NoSignatureIn(c', ints, path[i], n)
  {
    hide EntryOff, SameBytes;
    forall e | 0 <= e < n
      ensures EntryReadable(c', ints, path[i], e) && !IsSignatureAt(c', ints, path[i], e)
    {
      assert EntryReadable(c, ints, path[i], e) && !IsSignatureAt(c, ints, path[i], e);
      EntryTransfer(c, c', ints, path, i, e);
    }
  }

  /** The search for the signature's entry only looks at the sectors it passes. */
  lemma FoundTransfer(c: seq<byte>, c': seq<byte>, ints: nat, fat: seq<nat>, fat': seq<nat>, first: nat, path: seq<nat>, e: nat)
    requires FoundAt(c, ints, fat, first, path, e) && DirPath(fat', first, path)
    requires SameBytes(c, c', SectorSize(ints), path, 0, 0)
    ensures FoundAt(c', ints, fat', first, path, e)
    ensures EntryAt(c', EntryOff(ints, path[|path| - 1], e)) == EntryAt(c, EntryOff(ints, path[|path| - 1], e))
  {
    hide EntryOff, SameBytes, NoSignatureIn;
    var last := |path| - 1;
    forall i | 0 <= i < last
      ensures NoSignatureIn(c', ints, path[i], EntriesPerSector(ints))
    {
      NoSignatureTransfer(c, c', ints, path, i, EntriesPerSector(ints));
    }
    NoSignatureTransfer(c, c', ints, path, last, e);
    EntryTransfer(c, c', ints, path, last, e);
  }

  // ---------------------------------------------------------------- writing and parsing keep the invariant

  lemma ZeroedElsewhere(c: seq<byte>, size: nat, chain: seq<nat>, bytes: nat, sectors: seq<nat>)
    requires size > 0
    requires forall i :: 0 <= i < |sectors| ==> sectors[i] !in chain
    ensures SameBytes(c, ZeroOut(c, size, chain, bytes), size, sectors, 0, 0)
  {
    var z := ZeroOut(c, size, chain, bytes);
    forall i, p | 0 <= i < |sectors| && 0 <= p < |c| && InSector(size, sectors[i], p)
      ensures z[p] == c[p]
    {
      if Covered(size, chain, bytes, p) {
        CoveredInSector(size, chain, bytes, p);
        var j :| 0 <= j < |chain| && InSector(size, chain[j], p);
        SectorsApart(size, sectors[i], chain[j], p);
      }
    }
  }

  lemma NotInRun(fat: seq<nat>, s: nat, n: nat)
    requires s < |fat| && fat[s] != FREESECT
    ensures s !in Run(FirstFree(fat), n)
  {
  }

  lemma RetaggedInv(out: seq<byte>, m: Msi, place: Place, sd: seq<byte>)
    requires MsiInv(m, place) && 0 < |sd| < TWO64 && Laid(out, m, sd)
    ensures MsiInv(Retagged(Contents(out, m.ints), m, sd), place)
  {
    hide *;
    InvParts(m, place);
    LaidParts(out, m, sd);
    RetaggedDirectory(Contents(out, m.ints), m, place, sd);
    RetaggedFields(Contents(out, m.ints), m, sd);
    InvFromParts(Retagged(Contents(out, m.ints), m, sd), place);
  }

  lemma InvFromParts(m: Msi, place: Place)
    requires HeaderInv(m.tables.header, m.ints) && TablesInv(m.tables, m.ints)
    requires Words(m.tables.fat) && Words(m.tables.difat) && DirectoryInv(m, place)
    ensures MsiInv(m, place)
  {
    hide HeaderInv, TablesInv, Words, DirectoryInv;
  }

  lemma RetaggedDirectory(c: seq<byte>, m: Msi, place: Place, sd: seq<byte>)
    requires TablesInv(m.tables, m.ints) && DirectoryInv(m, place) && 0 < |sd| < TWO64 && ContentsLaid(c, m, sd)
    requires m.ints >= 128
    ensures DirectoryInv(Retagged(c, m, sd), place)
  {
    hide *;
    DirectoryBack(c, m, place, sd);
    DirectoryParts(m, place);
    DirectoryPath(m, place);
    RetaggedFields(c, m, sd);
    RetaggedPathSame(c, m, place.path, sd);
    FoundTransfer(c, Retagged(c, m, sd).contents, m.ints, NewFat(m, sd), m.tables.fat, m.tables.header.firstDirSector, place.path, place.entry);
    DirectoryFromParts(Retagged(c, m, sd), place);
  }

  lemma DirectoryPath(m: Msi, place: Place)
    requires DirectoryInv(m, place)
    ensures DirPath(m.tables.fat, m.tables.header.firstDirSector, place.path)
  {
  }

  lemma DirectoryFromParts(m: Msi, place: Place)
    requires FoundAt(m.contents, m.ints, m.tables.fat, m.tables.header.firstDirSector, place.path, place.entry)
    requires forall i :: 0 <= i < |place.path| ==> place.path[i] < |m.tables.fat| && IsData(m.tables.fat[place.path[i]])
    requires m.sigDirOffset == EntryOff(m.ints, place.path[|place.path| - 1], place.entry)
    requires m.sigDirOffset + DIR_ENTRY_BYTES <= |m.contents| && m.sigDirEntry == EntryAt(m.contents, m.sigDirOffset)
    ensures DirectoryInv(m, place)
  {
    hide FoundAt, EntryAt, EntryOff;
  }

  lemma RetaggedFields(c: seq<byte>, m: Msi, sd: seq<byte>)
    requires m.ints > 0 && |sd| > 0
    ensures var r := Retagged(c, m, sd);
            && r.ints == m.ints && r.tables == m.tables && r.sigDirOffset == m.sigDirOffset
            && r.sigDirEntry == SignedEntry(m, FirstFree(m.tables.fat), |sd|) && r.signedData == sd
            && |r.contents| == |c|
  {
    hide ZeroOut, FirstFree, SignedEntry;
  }

  lemma RetaggedPathSame(c: seq<byte>, m: Msi, path: seq<nat>, sd: seq<byte>)
    requires m.ints > 0 && |sd| > 0
    requires forall i :: 0 <= i < |path| ==> path[i] < |m.tables.fat| && IsData(m.tables.fat[path[i]])
    ensures SameBytes(c, Retagged(c, m, sd).contents, SectorSize(m.ints), path, 0, 0)
  {
    var run := Run(FirstFree(m.tables.fat), NumSectors(m, sd));
    hide SameBytes, NumSectors;
    forall i | 0 <= i < |path|
      ensures path[i] !in run
    {
      NotInRun(m.tables.fat, path[i], NumSectors(m, sd));
    }
    ZeroedElsewhere(c, SectorSize(m.ints), run, |sd|, path);
  }

  /** The MSI after its FAT has grown to take `sd`. */
  function Grown(m: Msi, sd: seq<byte>): (g: Msi)
    requires m.ints >= 128 && |m.tables.difat| >= HEADER_SLOTS && |sd| > 0
    ensures g.ints == m.ints
  {
    m.(tables := Grow(m.tables, m.ints, NumSectors(m, sd)))
  }

  lemma RoundWords(t: Tables, ints: nat)
    requires ints >= 128 && |t.difat| >= HEADER_SLOTS && Words(t.fat) && Words(t.difat) && |t.fat| + ints <= MAX_SECTORS
    ensures Words(Round(t, ints).fat) && Words(Round(t, ints).difat)
  {
    hide FirstFreeSlot, DifatHasFree;
  }

  /** Growth touches three header fields only. */
  ghost predicate HeaderGrew(t: Tables, t': Tables) {
    && t'.header == t.header.(numFatSectors := t'.header.numFatSectors, numDifatSectors := t'.header.numDifatSectors,
                              firstDifatSector := t'.header.firstDifatSector)
    && |t.difatSectors| <= |t'.difatSectors|
    && (t'.difatSectors == [] ==> t'.header.firstDifatSector == t.header.firstDifatSector)
  }

  lemma RoundHeader(t: Tables, ints: nat)
    requires ints >= 128 && |t.difat| >= HEADER_SLOTS
    ensures HeaderGrew(t, Round(t, ints))
  {
    hide FirstFreeSlot, DifatHasFree, FirstFree;
  }

  lemma {:induction false} GrowHeaderWords(t: Tables, ints: nat, n: nat)
    requires ints >= 128 && |t.difat| >= HEADER_SLOTS && Words(t.fat) && Words(t.difat)
    requires |Grow(t, ints, n).fat| <= MAX_SECTORS
    ensures var g := Grow(t, ints, n); HeaderGrew(t, g) && Words(g.fat) && Words(g.difat)
    decreases n - FreeAtEnd(t.fat)
  {
    if FreeAtEnd(t.fat) < n {
      hide Round, FirstFree, Words;
      RoundFree(t, ints);
      RoundHeader(t, ints);
      RoundWords(t, ints);
      GrowHeaderWords(Round(t, ints), ints, n);
    }
  }

  lemma HeaderInRangeAfter(t: Tables, t': Tables, ints: nat)
    requires HeaderInv(t.header, ints) && HeaderGrew(t, t') && TablesInv(t', ints)
    ensures HeaderInv(t'.header, ints)
  {
    var n := |Live(t'.difat, ints)|;
    MulLe(1, ints, n);
    DistinctBounded(t'.difatSectors, |t'.fat|);
    hide Live, DifatShape, SlotsNameFatSectors;
  }

  lemma DataKept(fat: seq<nat>, fat': seq<nat>, s: nat)
    requires FatGrewFrom(fat, fat') && s < |fat| && fat[s] != FREESECT
    ensures s < |fat'| && fat'[s] == fat[s]
  {
    assert fat[s] == fat[..FirstFree(fat)][s];
    assert fat'[s] == fat'[..FirstFree(fat)][s];
  }

  lemma DirectoryGrown(m: Msi, place: Place, t: Tables)
    requires DirectoryInv(m, place) && FatGrewFrom(m.tables.fat, t.fat) && t.header.firstDirSector == m.tables.header.firstDirSector
    ensures DirectoryInv(m.(tables := t), place)
  {
    hide FatGrewFrom, NoSignatureIn, IsSignatureAt, EntryOff, EntryAt;
    forall i | 0 <= i < |place.path|
      ensures place.path[i] < |t.fat| && t.fat[place.path[i]] == m.tables.fat[place.path[i]]
    {
      DataKept(m.tables.fat, t.fat, place.path[i]);
    }
  }

  /** Growing the FAT keeps the invariant. */
  lemma GrownInv(m: Msi, place: Place, sd: seq<byte>)
    requires m.ints >= 128 && |m.tables.difat| >= HEADER_SLOTS && |sd| > 0
    requires |Grown(m, sd).tables.fat| <= MAX_SECTORS && MsiInv(m, place)
    ensures MsiInv(Grown(m, sd), place)
  {
    hide NumSectors, Grow, MsiInv;
    var n, t := NumSectors(m, sd), Grow(m.tables, m.ints, NumSectors(m, sd));
    assert Grown(m, sd) == m.(tables := t);
    hide *;
    InvParts(m, place);
    GrowKeepsInv(m.tables, m.ints, n);
    GrowHeaderWords(m.tables, m.ints, n);
    HeaderInRangeAfter(m.tables, t, m.ints);
    FirstDirKept(m.tables, t);
    DirectoryGrown(m, place, t);
    InvFromParts(m.(tables := t), place);
  }

  lemma FirstDirKept(t: Tables, t': Tables)
    requires HeaderGrew(t, t')
    ensures t'.header.firstDirSector == t.header.firstDirSector && t'.header.dllVersion == t.header.dllVersion
  {
  }

  // ---------------------------------------------------------------- other streams

  /** The chain `c` of `m` is still there in `m'`, with the same bytes outside the signature's entry. */
  ghost predicate Intact(m: Msi, m': Msi, start: nat, c: seq<nat>) {
    && IsChain(m'.tables.fat, start, c)
    && SameBytes(m.contents, m'.contents, SectorSize(m.ints), c, m.sigDirOffset, m.sigDirOffset + DIR_ENTRY_BYTES)
  }

  lemma ChainData(fat: seq<nat>, start: nat, c: seq<nat>)
    requires IsChain(fat, start, c) && |fat| <= MAX_SECTORS
    ensures forall i :: 0 <= i < |c| ==> c[i] < |fat| && IsData(fat[c[i]])
  {
    forall i | 0 <= i < |c|
      ensures c[i] < |fat| && IsData(fat[c[i]])
    {
      if i < |c| - 1 {
        assert fat[c[i]] == c[i + 1] < |fat|;
      }
    }
  }

  lemma ChainKept(fat: seq<nat>, fat': seq<nat>, start: nat, c: seq<nat>)
    requires IsChain(fat, start, c)
    requires forall i :: 0 <= i < |c| ==> c[i] < |fat'| && fat'[c[i]] == fat[c[i]]
    ensures IsChain(fat', start, c)
  {
  }

  lemma GrownIntact(m: Msi, sd: seq<byte>, start: nat, c: seq<nat>)
    requires TablesInv(m.tables, m.ints) && |sd| > 0 && |Grown(m, sd).tables.fat| <= MAX_SECTORS
    requires IsChain(m.tables.fat, start, c)
    ensures IsChain(Grown(m, sd).tables.fat, start, c)
  {
    var n, fat := NumSectors(m, sd), Grown(m, sd).tables.fat;
    assert fat == Grow(m.tables, m.ints, n).fat;
    hide Grown, Grow, FatGrewFrom, TablesInv, IsChain;
    GrowKeepsInv(m.tables, m.ints, n);
    InvBasics(m.tables, m.ints);
    ChainData(m.tables.fat, start, c);
    forall i | 0 <= i < |c|
      ensures c[i] < |fat| && fat[c[i]] == m.tables.fat[c[i]]
    {
      DataKept(m.tables.fat, fat, c[i]);
    }
    ChainKept(m.tables.fat, fat, start, c);
  }

  /** In the written file every other stream has its sectors and its bytes. */
  lemma WrittenIntact(c: seq<byte>, m: Msi, sd: seq<byte>, start: nat, chain: seq<nat>)
    requires m.ints > 0 && |m.tables.fat| <= MAX_SECTORS && |sd| > 0
    requires TablesInv(m.tables, m.ints) && ContentsLaid(c, m, sd) && IsChain(m.tables.fat, start, chain)
    ensures IsChain(NewFat(m, sd), start, chain)
    ensures SameBytes(m.contents, c, SectorSize(m.ints), chain, m.sigDirOffset, m.sigDirOffset + DIR_ENTRY_BYTES)
  {
    hide TablesInv, ContentsLaid, IsChain, NewFat, InSector;
    ChainData(m.tables.fat, start, chain);
    forall i | 0 <= i < |chain|
      ensures chain[i] < |NewFat(m, sd)| && NewFat(m, sd)[chain[i]] == m.tables.fat[chain[i]]
    {
      NewFatKept(m, sd, chain[i]);
    }
    ChainKept(m.tables.fat, NewFat(m, sd), start, chain);
    var size, from := SectorSize(m.ints), m.sigDirOffset;
    forall i, p {:trigger InSector(size, chain[i], p)}
      | 0 <= i < |chain| && 0 <= p < |m.contents| && InSector(size, chain[i], p) && !(from <= p < from + DIR_ENTRY_BYTES)
      ensures p < |c| && c[p] == m.contents[p]
    {
      StreamByteKept(c, m, sd, chain[i], p);
    }
  }

  lemma SameBytesTransitive(a: seq<byte>, b: seq<byte>, c: seq<byte>, size: nat, sectors: seq<nat>, from: nat, to: nat)
    requires SameBytes(a, b, size, sectors, from, to) && SameBytes(b, c, size, sectors, from, to)
    ensures SameBytes(a, c, size, sectors, from, to)
  {
  }

  lemma SameBytesExcept(a: seq<byte>, b: seq<byte>, size: nat, sectors: seq<nat>, from: nat, to: nat)
    requires SameBytes(a, b, size, sectors, 0, 0)
    ensures SameBytes(a, b, size, sectors, from, to)
  {
  }

  /** Parsing the written file keeps them too. */
  lemma RetaggedIntact(c: seq<byte>, m: Msi, sd: seq<byte>, start: nat, chain: seq<nat>)
    requires m.ints > 0 && |m.tables.fat| <= MAX_SECTORS && |sd| > 0
    requires TablesInv(m.tables, m.ints) && ContentsLaid(c, m, sd) && IsChain(m.tables.fat, start, chain)
    ensures Intact(m, Retagged(c, m, sd), start, chain)
  {
    var size, run, from := SectorSize(m.ints), Run(FirstFree(m.tables.fat), NumSectors(m, sd)), m.sigDirOffset;
    var z := ZeroOut(c, size, run, |sd|);
    assert Retagged(c, m, sd).contents == z && Retagged(c, m, sd).tables == m.tables;
    hide TablesInv, ContentsLaid, IsChain, SameBytes, Retagged, ZeroOut, Run, FirstFree, NumSectors;
    ChainData(m.tables.fat, start, chain);
    WrittenIntact(c, m, sd, start, chain);
    forall i | 0 <= i < |chain|
      ensures chain[i] !in run
    {
      NotInRun(m.tables.fat, chain[i], NumSectors(m, sd));
    }
    ZeroedElsewhere(c, size, run, |sd|, chain);
    SameBytesExcept(c, z, size, chain, from, from + DIR_ENTRY_BYTES);
    SameBytesTransitive(m.contents, c, z, size, chain, from, from + DIR_ENTRY_BYTES);
  }

  // ---------------------------------------------------------------- writing is a function

  lemma SectorHoldsSame(a: seq<byte>, b: seq<byte>, ints: nat, s: nat, xs: seq<nat>, start: nat, p: nat)
    requires SectorHolds(a, ints, s, xs, start) && SectorHolds(b, ints, s, xs, start) && InSector(SectorSize(ints), s, p)
    ensures p < |a| && p < |b| && a[p] == b[p]
  {
    var off := Off(SectorSize(ints), s);
    assert a[p] == Sector(a, SectorSize(ints), s)[p - off] && b[p] == Sector(b, SectorSize(ints), s)[p - off];
  }

  lemma TableSame(a: seq<byte>, b: seq<byte>, ints: nat, sectors: seq<nat>, xs: seq<nat>, skip: nat, p: nat)
    requires TableLaid(a, ints, sectors, xs, skip) && TableLaid(b, ints, sectors, xs, skip)
    requires InSectors(SectorSize(ints), sectors, p)
    ensures p < |a| && p < |b| && a[p] == b[p]
  {
    var k :| 0 <= k < |sectors| && InSector(SectorSize(ints), sectors[k], p);
    SectorHoldsSame(a, b, ints, sectors[k], xs, skip + Entries(ints, k), p);
  }

  lemma SliceSame(a: seq<byte>, b: seq<byte>, lo: nat, hi: nat, p: nat)
    requires lo <= p < hi <= |a| && hi <= |b| && a[lo..hi] == b[lo..hi]
    ensures a[p] == b[p]
  {
    assert a[p] == a[lo..hi][p - lo] && b[p] == b[lo..hi][p - lo];
  }

  lemma ContentsUnique(a: seq<byte>, b: seq<byte>, m: Msi, sd: seq<byte>)
    requires m.ints > 0 && |sd| > 0 && ContentsLaid(a, m, sd) && ContentsLaid(b, m, sd)
    ensures a == b
  {
    hide TableLaid, NewFat, Live, InSectors, FirstFree, Padded, NumSectors, Off;
    forall p | 0 <= p < |a|
      ensures a[p] == b[p]
    {
      if InSectors(SectorSize(m.ints), m.tables.difatSectors, p) {
        TableSame(a, b, m.ints, m.tables.difatSectors, m.tables.difat, HEADER_SLOTS, p);
      } else if InSectors(SectorSize(m.ints), Live(m.tables.difat, m.ints), p) {
        TableSame(a, b, m.ints, Live(m.tables.difat, m.ints), NewFat(m, sd), 0, p);
      } else if m.sigDirOffset <= p < m.sigDirOffset + DIR_ENTRY_BYTES {
        SliceSame(a, b, m.sigDirOffset, m.sigDirOffset + DIR_ENTRY_BYTES, p);
      } else {
        var off := Off(SectorSize(m.ints), FirstFree(m.tables.fat));
        if off <= p < off + |sd| {
          SliceSame(a, b, off, off + |sd|, p);
        }
      }
    }
  }

  lemma HeaderUnique(a: seq<byte>, b: seq<byte>, m: Msi)
    requires HeaderLaid(a, m) && HeaderLaid(b, m)
    ensures a[..SectorSize(m.ints)] == b[..SectorSize(m.ints)]
  {
    hide EncodeHeader, EncodeInts;
    var size := SectorSize(m.ints);
    assert a[HEADER_TOTAL_BYTES..size] == b[HEADER_TOTAL_BYTES..size];
    assert a[..size] == a[..HEADER_CONTENT_BYTES] + a[HEADER_CONTENT_BYTES..HEADER_TOTAL_BYTES] + a[HEADER_TOTAL_BYTES..size];
    assert b[..size] == b[..HEADER_CONTENT_BYTES] + b[HEADER_CONTENT_BYTES..HEADER_TOTAL_BYTES] + b[HEADER_TOTAL_BYTES..size];
  }

  /** The layout fixes every byte of the file. */
  lemma LaidUnique(a: seq<byte>, b: seq<byte>, m: Msi, sd: seq<byte>)
    requires m.ints > 0 && |sd| > 0 && Laid(a, m, sd) && Laid(b, m, sd)
    ensures a == b
  {
    hide HeaderLaid, ContentsLaid;
    LaidParts(a, m, sd);
    LaidParts(b, m, sd);
    HeaderUnique(a, b, m);
    ContentsUnique(Contents(a, m.ints), Contents(b, m.ints), m, sd);
    var size := SectorSize(m.ints);
    assert a == a[..size] + Contents(a, m.ints) && b == b[..size] + Contents(b, m.ints);
  }

  /** Writing the same SignedData twice from the same object gives the same file: the second time nothing grows. */
  lemma WriteTwice(a: seq<byte>, b: seq<byte>, m: Msi, sd: seq<byte>)
    requires m.ints >= 128 && |m.tables.difat| >= HEADER_SLOTS && |sd| > 0
    requires Laid(a, Grown(m, sd), sd) && Laid(b, Grown(Grown(m, sd), sd), sd)
    ensures Grown(Grown(m, sd), sd) == Grown(m, sd) && a == b
  {
    GrowIdempotent(m.tables, m.ints, NumSectors(m, sd));
    hide Laid, Grow;
    LaidUnique(a, b, Grown(m, sd), sd);
  }

  // ---------------------------------------------------------------- well-formed files

  /** The signature's stream can be read, visits no sector twice, and owns its sectors. */
  ghost predicate SignatureSafe(contents: seq<byte>, ints: nat, t: Tables, dir: seq<nat>, entry: DirEntry)
    requires ints > 0
  {
    var size, start, bytes := SectorSize(ints), entry.streamFirstSector, SignatureSize(t.header, entry);
    if bytes >= MINI_CUTOFF then
      && Readable(t.fat, |contents|, size, start, bytes)
      && var chain := ChainOf(t.fat, size, start, bytes);
         && NoDuplicates(chain)
         && forall i :: 0 <= i < |chain| ==> IsData(t.fat[chain[i]]) && chain[i] !in dir
    else
      MiniSafe(contents, ints, t, start, bytes)
  }

  /** The same for a signature in the mini stream, the mini FAT and the mini stream being readable too. */
  ghost predicate MiniSafe(contents: seq<byte>, ints: nat, t: Tables, start: nat, bytes: nat)
    requires ints > 0
  {
    && Off(SectorSize(ints), t.header.firstDirSector) + DIR_ENTRY_BYTES <= |contents|
    && Readable(t.fat, |contents|, SectorSize(ints), t.header.firstMiniFatSector, t.header.numMiniFatSectors * SectorSize(ints))
    && Readable(t.fat, |contents|, SectorSize(ints), RootEntry(contents, ints, t).streamFirstSector,
                RootEntry(contents, ints, t).streamSize)
    && (|MiniFatBytes(contents, ints, t)| % 4 == 0 ==>
          var fat := DecodeInts(MiniFatBytes(contents, ints, t));
          && Readable(fat, |MiniStream(contents, ints, t)|, MINI_SECTOR_SIZE, start, bytes)
          && NoDuplicates(ChainOf(fat, MINI_SECTOR_SIZE, start, bytes)))
  }

  /** An MSI as the parser trusts it to be: consistent tables `t`, and a directory that is the chain `dir`. */
  ghost predicate WellFormed(file: seq<byte>, ints: nat, t: Tables, dir: seq<nat>) {
    && HeaderAccepted(file, ints)
    && TablesDecode(file, ints, t) && TablesInv(t, ints)
    && IsChain(t.fat, t.header.firstDirSector, dir)
    && DirReadable(Contents(file, ints), ints, dir)
    && (forall path, e :: FoundAt(Contents(file, ints), ints, t.fat, t.header.firstDirSector, path, e) ==>
          SignatureSafe(Contents(file, ints), ints, t, dir, EntryAt(Contents(file, ints), EntryOff(ints, path[|path| - 1], e))))
  }

  lemma {:induction false} PathInDirectory(fat: seq<nat>, first: nat, path: seq<nat>, dir: seq<nat>, i: nat)
    requires DirPath(fat, first, path) && IsChain(fat, first, dir) && i < |path|
    ensures i < |dir| && path[i] == dir[i]
  {
    if i > 0 {
      PathInDirectory(fat, first, path, dir, i - 1);
      assert path[i] == fat[path[i - 1]];
    }
  }

  lemma FreeKeepsTables(t: Tables, ints: nat, chain: seq<nat>)
    requires TablesInv(t, ints)
    requires forall i :: 0 <= i < |chain| ==> chain[i] < |t.fat| && IsData(t.fat[chain[i]])
    ensures TablesInv(t.(fat := FreeAll(t.fat, chain)), ints)
  {
    var fat := FreeAll(t.fat, chain);
    assert forall s :: 0 <= s < |t.fat| && !IsData(t.fat[s]) ==> fat[s] == t.fat[s];
    hide Live, DifatShape;
  }

  lemma DecodedWords(file: seq<byte>, ints: nat, t: Tables)
    requires TablesDecode(file, ints, t)
    ensures Words(t.fat) && Words(t.difat)
  {
    FatWords(Contents(file, ints), ints, t.fat, Live(t.difat, ints));
    hide Live, FatDecodes;
    DifatWords(HeaderSlots(file), Contents(file, ints), ints, t);
  }

  lemma SectorWords(c: seq<byte>, ints: nat, s: nat)
    requires HasSector(c, SectorSize(ints), s)
    ensures Words(SectorInts(c, ints, s))
  {
    EncodeDecodeInts(Sector(c, SectorSize(ints), s));
  }

  lemma FatWords(c: seq<byte>, ints: nat, fat: seq<nat>, sectors: seq<nat>)
    requires ints > 0 && FatDecodes(c, ints, fat, sectors)
    ensures Words(fat)
  {
    forall i | 0 <= i < |fat|
      ensures fat[i] < TWO32
    {
      var j, r := i / ints, i % ints;
      assert i == Entries(ints, j) + r;
      if j >= |sectors| {
        MulLe(|sectors|, j, ints);
      }
      assert FatSectorDecodes(c, ints, fat, sectors, j);
      SectorWords(c, ints, sectors[j]);
      assert fat[i] == Block(fat, ints, Entries(ints, j))[r];
    }
  }

  lemma DifatWords(slots: seq<nat>, c: seq<byte>, ints: nat, t: Tables)
    requires ints > 0 && DifatDecodes(slots, c, ints, t) && Words(slots)
    ensures Words(t.difat)
  {
    forall i | 0 <= i < |t.difat|
      ensures t.difat[i] < TWO32
    {
      if i < HEADER_SLOTS {
        assert t.difat[i] == slots[i];
      } else {
        var x := i - HEADER_SLOTS;
        var k, r := x / ints, x % ints;
        assert x == Entries(ints, k) + r;
        if k >= |t.difatSectors| {
          MulLe(|t.difatSectors|, k, ints);
        }
        assert DifatSectorDecodes(c, ints, t, k);
        SectorWords(c, ints, t.difatSectors[k]);
        assert t.difat[i] == Block(t.difat, ints, HEADER_SLOTS + Entries(ints, k))[r];
      }
    }
  }

  /** The sectors that parsing freed. */
  ghost function Freed(t: Tables, m: Msi): seq<nat>
    requires m.ints > 0
  {
    var bytes := SignatureSize(t.header, m.sigDirEntry);
    if bytes >= MINI_CUTOFF then ChainOf(t.fat, SectorSize(m.ints), m.sigDirEntry.streamFirstSector, bytes) else []
  }

  /** Parsing zeroes and frees those sectors and nothing else. */
  lemma ParsedFrees(file: seq<byte>, t: Tables, place: Place, m: Msi)
    requires Parsed(file, t, place, m)
    ensures m.ints > 0 && |file| >= SectorSize(m.ints)
    ensures m.tables == t.(fat := FreeAll(t.fat, Freed(t, m)))
    ensures m.contents == ZeroOut(Contents(file, m.ints), SectorSize(m.ints), Freed(t, m), SignatureSize(t.header, m.sigDirEntry))
    ensures |m.tables.fat| == |t.fat| && forall i :: 0 <= i < |Freed(t, m)| ==> Freed(t, m)[i] < |t.fat|
  {
    hide TablesDecode, FoundAt, EntryAt, EntryOff, HeaderAccepted, Covers, Gather, MiniFatBytes, MiniStream;
    assert m.ints > 0 && |file| >= SectorSize(m.ints) by { ParsedBasics(file, t, place, m); }
    var bytes := SignatureSize(t.header, m.sigDirEntry);
    if bytes < MINI_CUTOFF {
      FreeNone(t.fat);
      ZeroNone(Contents(file, m.ints), SectorSize(m.ints), bytes);
    }
  }

  lemma ParsedBasics(file: seq<byte>, t: Tables, place: Place, m: Msi)
    requires Parsed(file, t, place, m)
    ensures m.ints > 0 && |file| >= SectorSize(m.ints)
    ensures HeaderAccepted(file, m.ints) && TablesDecode(file, m.ints, t)
    ensures FoundAt(Contents(file, m.ints), m.ints, t.fat, t.header.firstDirSector, place.path, place.entry)
    ensures DirPath(t.fat, t.header.firstDirSector, place.path)
    ensures m.sigDirOffset == EntryOff(m.ints, place.path[|place.path| - 1], place.entry)
    ensures m.sigDirOffset + DIR_ENTRY_BYTES <= |Contents(file, m.ints)|
    ensures m.sigDirEntry == EntryAt(Contents(file, m.ints), m.sigDirOffset)
  {
    hide DifatDecodes, FatDecodes, NoSignatureIn, DecodeDirEntry, SignatureRead, EntryOff, IsSignatureEntry, DecodeHeader;
  }

  lemma FreeNone(fat: seq<nat>)
    ensures FreeAll(fat, []) == fat
  {
  }

  lemma ZeroNone(c: seq<byte>, size: nat, bytes: nat)
    requires size > 0
    ensures ZeroOut(c, size, [], bytes) == c
  {
  }

  /** On a well-formed file, no freed sector is a table's or the directory's. */
  lemma FreedSafe(file: seq<byte>, ints: nat, t: Tables, dir: seq<nat>, place: Place, m: Msi)
    requires WellFormed(file, ints, t, dir) && Parsed(file, t, place, m) && m.ints == ints
    ensures ints > 0 && forall i :: 0 <= i < |Freed(t, m)| ==> Freed(t, m)[i] < |t.fat| && IsData(t.fat[Freed(t, m)[i]]) && Freed(t, m)[i] !in dir
  {
    hide TablesDecode, TablesInv, HeaderAccepted, EntryOff, EntryAt, MiniSafe, Readable, SignatureRead;
    ParsedBasics(file, t, place, m);
    ParsedFrees(file, t, place, m);
    assert SignatureSafe(Contents(file, ints), ints, t, dir, m.sigDirEntry);
  }

  lemma NotFreed(fat: seq<nat>, freed: seq<nat>, s: nat)
    requires s < |fat| && s !in freed
    ensures FreeAll(fat, freed)[s] == fat[s]
  {
  }

  lemma WellFormedDirectory(file: seq<byte>, ints: nat, t: Tables, dir: seq<nat>)
    requires WellFormed(file, ints, t, dir)
    ensures |file| >= SectorSize(ints) && DirReadable(Contents(file, ints), ints, dir) && HeaderAccepted(file, ints)
  {
    hide TablesDecode, TablesInv, SignatureSafe, DirReadable, EntryAt, FoundAt, IsChain;
  }

  lemma WellFormedParts(file: seq<byte>, ints: nat, t: Tables, dir: seq<nat>)
    requires WellFormed(file, ints, t, dir)
    ensures ints >= 128 && |file| >= SectorSize(ints) > 0 && TablesDecode(file, ints, t) && TablesInv(t, ints)
    ensures IsChain(t.fat, t.header.firstDirSector, dir) && |t.fat| <= MAX_SECTORS
    ensures HeaderInv(t.header, ints)
  {
    hide DifatDecodes, FatDecodes, DifatShape, SlotsNameFatSectors, DifatLinked, DifatSectorsMarked, Live, IsChain, DirReadable, FoundAt, SignatureSafe;
  }

  lemma ParsedDirectory(file: seq<byte>, ints: nat, t: Tables, dir: seq<nat>, place: Place, m: Msi)
    requires WellFormed(file, ints, t, dir) && Parsed(file, t, place, m) && m.ints == ints
    ensures DirectoryInv(m, place)
  {
    hide *;
    WellFormedParts(file, ints, t, dir);
    ParsedBasics(file, t, place, m);
    ParsedFrees(file, t, place, m);
    FreedSafe(file, ints, t, dir, place, m);
    ChainData(t.fat, t.header.firstDirSector, dir);
    forall i | 0 <= i < |place.path|
      ensures place.path[i] !in Freed(t, m) && place.path[i] < |t.fat| && IsData(t.fat[place.path[i]])
      ensures m.tables.fat[place.path[i]] == t.fat[place.path[i]]
    {
      PathInDirectory(t.fat, t.header.firstDirSector, place.path, dir, i);
      NotFreed(t.fat, Freed(t, m), place.path[i]);
    }
    ZeroedElsewhere(Contents(file, ints), SectorSize(ints), Freed(t, m), SignatureSize(t.header, m.sigDirEntry), place.path);
    PathKept(t.fat, m.tables.fat, t.header.firstDirSector, place.path);
    FoundTransfer(Contents(file, ints), m.contents, ints, t.fat, m.tables.fat, t.header.firstDirSector, place.path, place.entry);
    DirectoryFromParts(m, place);
  }

  lemma PathKept(fat: seq<nat>, fat': seq<nat>, first: nat, path: seq<nat>)
    requires DirPath(fat, first, path) && |fat| == |fat'|
    requires forall i :: 0 <= i < |path| ==> path[i] < |fat| && fat'[path[i]] == fat[path[i]]
    ensures DirPath(fat', first, path)
  {
  }

  /** The parser establishes the invariant on every well-formed file. */
  lemma ParsedInv(file: seq<byte>, ints: nat, t: Tables, dir: seq<nat>, place: Place, m: Msi)
    requires WellFormed(file, ints, t, dir) && Parsed(file, t, place, m) && m.ints == ints
    ensures MsiInv(m, place)
  {
    hide *;
    WellFormedParts(file, ints, t, dir);
    ParsedFrees(file, t, place, m);
    FreedSafe(file, ints, t, dir, place, m);
    FreeKeepsTables(t, ints, Freed(t, m));
    DecodedWords(file, ints, t);
    FreedWords(t.fat, Freed(t, m));
    ParsedDirectory(file, ints, t, dir, place, m);
    InvFromParts(m, place);
  }

  lemma FreedWords(fat: seq<nat>, freed: seq<nat>)
    requires Words(fat)
    ensures Words(FreeAll(fat, freed))
  {
  }

  /** A stream that shares no sector with the signature is untouched by parsing. */
  lemma ParsedIntact(file: seq<byte>, t: Tables, place: Place, m: Msi, start: nat, c: seq<nat>)
    requires m.ints > 0 && |file| >= SectorSize(m.ints) && Parsed(file, t, place, m) && IsChain(t.fat, start, c)
    requires forall i :: 0 <= i < |c| ==> c[i] !in Freed(t, m)
    ensures IsChain(m.tables.fat, start, c)
    ensures SameBytes(Contents(file, m.ints), m.contents, SectorSize(m.ints), c, 0, 0)
  {
    hide Parsed, IsChain, Freed, SameBytes;
    ParsedFrees(file, t, place, m);
    ChainBounds(t.fat, start, c);
    forall i | 0 <= i < |c|
      ensures c[i] < |m.tables.fat| && m.tables.fat[c[i]] == t.fat[c[i]]
    {
      NotFreed(t.fat, Freed(t, m), c[i]);
    }
    ChainKept(t.fat, m.tables.fat, start, c);
    ZeroedElsewhere(Contents(file, m.ints), SectorSize(m.ints), Freed(t, m), SignatureSize(t.header, m.sigDirEntry), c);
  }

  lemma ChainBounds(fat: seq<nat>, start: nat, c: seq<nat>)
    requires IsChain(fat, start, c)
    ensures forall i :: 0 <= i < |c| ==> c[i] < |fat|
  {
  }

  lemma SameBytesBack(a: seq<byte>, b: seq<byte>, size: nat, sectors: seq<nat>)
    requires SameBytes(a, b, size, sectors, 0, 0) && |a| == |b|
    ensures SameBytes(b, a, size, sectors, 0, 0)
  {
  }

  /** Conversely, a chain that parsing left in the FAT is in the file as it is. */
  lemma UnparsedIntact(file: seq<byte>, t: Tables, place: Place, m: Msi, start: nat, c: seq<nat>)
    requires m.ints > 0 && |file| >= SectorSize(m.ints) && Parsed(file, t, place, m)
    requires IsChain(m.tables.fat, start, c) && |m.tables.fat| <= MAX_SECTORS
    ensures IsChain(t.fat, start, c)
    ensures SameBytes(m.contents, Contents(file, m.ints), SectorSize(m.ints), c, 0, 0)
  {
    hide Parsed, IsChain, Freed, SameBytes;
    ParsedFrees(file, t, place, m);
    ChainData(m.tables.fat, start, c);
    forall i | 0 <= i < |c|
      ensures c[i] !in Freed(t, m) && c[i] < |t.fat| && t.fat[c[i]] == m.tables.fat[c[i]]
    {
      FreedIsFree(t.fat, Freed(t, m), c[i]);
    }
    ChainKept(m.tables.fat, t.fat, start, c);
    ZeroedElsewhere(Contents(file, m.ints), SectorSize(m.ints), Freed(t, m), SignatureSize(t.header, m.sigDirEntry), c);
    SameBytesBack(Contents(file, m.ints), m.contents, SectorSize(m.ints), c);
  }

  lemma FreedIsFree(fat: seq<nat>, freed: seq<nat>, s: nat)
    requires s < |fat| && FreeAll(fat, freed)[s] != FREESECT
    ensures s !in freed && FreeAll(fat, freed)[s] == fat[s]
  {
  }

  // ---------------------------------------------------------------- streams are read as a whole

  /**
   The SignedData has the size its entry says.  From 4096 bytes on it is freed; below, it is read through the mini FAT and
   the mini stream, which have the sizes said of them, too.
   */
  lemma SignedDataWhole(file: seq<byte>, t: Tables, dir: seq<nat>, place: Place, m: Msi)
    requires WellFormed(file, m.ints, t, dir) && Parsed(file, t, place, m)
    ensures |m.signedData| == SignatureSize(t.header, m.sigDirEntry)
    ensures |m.signedData| >= 4096 ==>
              Freed(t, m) == ChainOf(t.fat, SectorSize(m.ints), m.sigDirEntry.streamFirstSector, |m.signedData|)
    ensures |m.signedData| < 4096 ==>
              var c := Contents(file, m.ints);
              && Freed(t, m) == [] && Off(SectorSize(m.ints), t.header.firstDirSector) + DIR_ENTRY_BYTES <= |c|
              && |MiniFatBytes(c, m.ints, t)| == t.header.numMiniFatSectors * SectorSize(m.ints)
              && |MiniStream(c, m.ints, t)| == RootEntry(c, m.ints, t).streamSize
  {
    var c, size := Contents(file, m.ints), SectorSize(m.ints);
    var start, bytes := m.sigDirEntry.streamFirstSector, SignatureSize(t.header, m.sigDirEntry);
    assert SignatureSafe(c, m.ints, t, dir, m.sigDirEntry);
    hide WellFormed, HeaderAccepted, TablesDecode, FoundAt, EntryAt, Covers, Readable, ChainOf, Gather, DecodeInts, Off, SignatureSize;
    if bytes >= MINI_CUTOFF {
      GatherWhole(c, t.fat, size, start, bytes);
    } else {
      var root := RootEntry(c, m.ints, t);
      GatherWhole(c, t.fat, size, t.header.firstMiniFatSector, t.header.numMiniFatSectors * size);
      GatherWhole(c, t.fat, size, root.streamFirstSector, root.streamSize);
      GatherWhole(MiniStream(c, m.ints, t), DecodeInts(MiniFatBytes(c, m.ints, t)), MINI_SECTOR_SIZE, start, bytes);
    }
  }

  /** Behind the old contents, whatever is not one of the written parts is zero, as is the padding of the last sector. */
  lemma PaddedWithZeros(c: seq<byte>, m: Msi, sd: seq<byte>, p: nat)
    requires m.ints > 0 && |sd| > 0 && ContentsLaid(c, m, sd) && |m.contents| <= p < |c| && Elsewhere(m, sd, p)
    ensures c[p] == 0
  {
    hide EntryLaid, SignedDataLaid, TableLaid, Elsewhere;
  }
}
