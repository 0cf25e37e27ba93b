/** The steps that lay out the output file, and the proof that together they produce the layout `Laid` describes. */
module MsiWriter {
  import opened Arith
  import opened Bytes
  import opened MsiFormat
  import opened MsiTables
  import opened MsiFile
  import opened MsiStreams
  import opened MsiRoundTrip
  import opened MsiParser

  /** Writes the integers one by one. */
  method PutInts(a: array<byte>, off: nat, xs: seq<nat>)
    requires off + 4 * |xs| <= a.Length
    modifies a
    ensures a[..] == Overlay(old(a[..]), off, EncodeInts(xs))
  {
    ghost var c, b := a[..], EncodeInts(xs);
    for i := 0 to |xs|
      invariant forall p :: 0 <= p < a.Length ==> a[p] == if off <= p < off + 4 * i then b[p - off] else c[p]
    {
      EncodedWord(xs, i);
      hide EncodeInts;
      ghost var before := a[..];
      PutBytes(a, off + 4 * i, Put32(xs[i]));
      forall p | 0 <= p < a.Length
        ensures a[p] == if off <= p < off + 4 * (i + 1) then b[p - off] else c[p]
      {
        if off + 4 * i <= p < off + 4 * i + 4 {
          assert a[p] == a[..][off + 4 * i..off + 4 * i + 4][p - off - 4 * i];
        } else {
          assert a[p] == before[p];
        }
      }
    }
  }

  lemma EncodedWord(xs: seq<nat>, i: nat)
    requires i < |xs|
    ensures Put32(xs[i]) == EncodeInts(xs)[4 * i..4 * i + 4]
  {
    EncodedAt(xs, i, 0);
    EncodedAt(xs, i, 1);
    EncodedAt(xs, i, 2);
    EncodedAt(xs, i, 3);
  }

  /** From `c` to `c'` exactly the given sectors were written, each with its block of `xs`. */
  ghost predicate TableWritten(c: seq<byte>, c': seq<byte>, ints: nat, sectors: seq<nat>, xs: seq<nat>, skip: nat) {
    && |c'| == |c|
    && TableLaid(c', ints, sectors, xs, skip)
    && forall p :: 0 <= p < |c| && !InSectors(SectorSize(ints), sectors, p) ==> c'[p] == c[p]
  }

  lemma SectorHoldsKept(c: seq<byte>, c': seq<byte>, ints: nat, s: nat, xs: seq<nat>, start: nat)
    requires SectorHolds(c, ints, s, xs, start) && |c'| == |c|
    requires forall p :: 0 <= p < |c| && InSector(SectorSize(ints), s, p) ==> c'[p] == c[p]
    ensures SectorHolds(c', ints, s, xs, start)
  {
    assert Sector(c', SectorSize(ints), s) == Sector(c, SectorSize(ints), s);
  }

  lemma TableWrittenNone(c: seq<byte>, ints: nat, xs: seq<nat>, skip: nat)
    ensures TableWritten(c, c, ints, [], xs, skip)
  {
  }

  /** Writing the next block into a sector of its own extends the table. */
  lemma TableWrittenNext(c: seq<byte>, c': seq<byte>, ints: nat, sectors: seq<nat>, s: nat, xs: seq<nat>, skip: nat, b: seq<nat>)
    requires TableWritten(c, c', ints, sectors, xs, skip) && s !in sectors && HasSector(c', SectorSize(ints), s)
    requires skip + Entries(ints, |sectors|) + ints <= |xs| && b == Block(xs, ints, skip + Entries(ints, |sectors|))
    ensures TableWritten(c, Overlay(c', Off(SectorSize(ints), s), EncodeInts(b)), ints, sectors + [s], xs, skip)
  {
    var size, ss := SectorSize(ints), sectors + [s];
    var c'' := Overlay(c', Off(size, s), EncodeInts(b));
    hide EncodeInts, Entries;
    forall k | 0 <= k < |ss|
      ensures SectorHolds(c'', ints, ss[k], xs, skip + Entries(ints, k))
    {
      if k < |sectors| {
        forall p | 0 <= p < |c'| && InSector(size, sectors[k], p)
          ensures c''[p] == c'[p]
        {
          if InSector(size, s, p) {
            SectorsApart(size, sectors[k], s, p);
          }
        }
        SectorHoldsKept(c', c'', ints, sectors[k], xs, skip + Entries(ints, k));
      }
    }
    forall p | 0 <= p < |c| && !InSectors(size, ss, p)
      ensures c''[p] == c[p]
    {
      assert !InSector(size, ss[|sectors|], p);
      assert forall k :: 0 <= k < |sectors| ==> ss[k] == sectors[k];
      assert !InSectors(size, sectors, p);
    }
  }

  method WriteDifatSectors(a: array<byte>, ints: nat, sectors: seq<nat>, difat: seq<nat>)
    requires NoDuplicates(sectors) && |difat| == HEADER_SLOTS + Entries(ints, |sectors|)
    requires forall k :: 0 <= k < |sectors| ==> HasSector(a[..], SectorSize(ints), sectors[k])
    modifies a
    ensures TableWritten(old(a[..]), a[..], ints, sectors, difat, HEADER_SLOTS)
  {
    hide TableWritten, HasSector;
    ghost var c := a[..];
    TableWrittenNone(c, ints, difat, HEADER_SLOTS);
    for k := 0 to |sectors|
      invariant TableWritten(c, a[..], ints, sectors[..k], difat, HEADER_SLOTS)
    {
      BlockInTable(ints, k, |sectors|);
      assert sectors[k] !in sectors[..k];
      WriteBlock(a, ints, sectors[k], difat, HEADER_SLOTS + k * ints, HEADER_SLOTS, c, sectors[..k]);
      assert sectors[..k] + [sectors[k]] == sectors[..k + 1];
    }
    assert sectors[..|sectors|] == sectors;
  }

  /** Writes one more block of a table into a sector of its own. */
  method WriteBlock(a: array<byte>, ints: nat, s: nat, xs: seq<nat>, index: nat, ghost skip: nat, ghost c: seq<byte>,
                    ghost sectors: seq<nat>)
    requires TableWritten(c, a[..], ints, sectors, xs, skip) && HasSector(c, SectorSize(ints), s) && s !in sectors
    requires index == skip + Entries(ints, |sectors|) && index + ints <= |xs|
    modifies a
    ensures TableWritten(c, a[..], ints, sectors + [s], xs, skip)
  {
    hide TableWritten, EncodeInts, HasSector, Entries;
    WrittenSameSize(c, a[..], ints, sectors, xs, skip, s);
    TableWrittenNext(c, a[..], ints, sectors, s, xs, skip, xs[index..index + ints]);
    SectorFits(a[..], ints, s);
    PutInts(a, Off(SectorSize(ints), s), xs[index..index + ints]);
  }

  lemma SectorFits(c: seq<byte>, ints: nat, s: nat)
    requires HasSector(c, SectorSize(ints), s)
    ensures Off(SectorSize(ints), s) + 4 * ints <= |c|
  {
  }

  lemma BlockInTable(ints: nat, k: nat, n: nat)
    requires k < n
    ensures Entries(ints, k) + ints <= Entries(ints, n)
  {
    BlockBefore(k, n, ints);
  }

  lemma WrittenSameSize(c: seq<byte>, c': seq<byte>, ints: nat, sectors: seq<nat>, xs: seq<nat>, skip: nat, s: nat)
    requires TableWritten(c, c', ints, sectors, xs, skip) && HasSector(c, SectorSize(ints), s)
    ensures |c'| == |c| && HasSector(c', SectorSize(ints), s)
  {
  }

  /** Writes the FAT into the sectors the DIFAT names, in the DIFAT's order. */
  method WriteFatSectors(a: array<byte>, ints: nat, difat: seq<nat>, fat: seq<nat>)
    requires ints > 0 && NoDuplicates(Live(difat, ints)) && |fat| == Entries(ints, |Live(difat, ints)|)
    requires forall k :: 0 <= k < |Live(difat, ints)| ==> HasSector(a[..], SectorSize(ints), Live(difat, ints)[k])
    modifies a
    ensures TableWritten(old(a[..]), a[..], ints, Live(difat, ints), fat, 0)
  {
    hide TableWritten, HasSector, NoDuplicates, Entries, LiveUpTo, Live, IsLive;
    ghost var c, live := a[..], Live(difat, ints);
    TableWrittenNone(c, ints, fat, 0);
    var index := 0;
    EntriesZero(ints);
    LiveEnds(difat, ints);
    for i := 0 to |difat|
      invariant index == Entries(ints, |LiveUpTo(difat, ints, i)|)
      invariant TableWritten(c, a[..], ints, LiveUpTo(difat, ints, i), fat, 0)
    {
      var sector := difat[i];
      ghost var done := LiveUpTo(difat, ints, i);
      LiveStep(difat, ints, i);
      if sector != FREESECT && sector != ENDOFCHAIN && !IsLastInSector(ints, i) {
        LiveNext(difat, ints, i);
        BlockInTable(ints, |done|, |live|);
        EntriesNext(ints, |done|);
        WriteBlock(a, ints, sector, fat, index, 0, c, done);
        index := index + ints;
      }
    }
  }

  lemma LiveEnds(difat: seq<nat>, ints: nat)
    requires ints > 0
    ensures LiveUpTo(difat, ints, 0) == [] && LiveUpTo(difat, ints, |difat|) == Live(difat, ints)
  {
  }

  lemma LiveStep(difat: seq<nat>, ints: nat, i: nat)
    requires ints > 0 && i < |difat|
    ensures IsLive(difat, ints, i)
            <==> difat[i] != FREESECT && difat[i] != ENDOFCHAIN && !IsLastInSector(ints, i)
    ensures !IsLive(difat, ints, i) ==> LiveUpTo(difat, ints, i + 1) == LiveUpTo(difat, ints, i)
  {
  }

  lemma LiveNext(difat: seq<nat>, ints: nat, i: nat)
    requires ints > 0 && i < |difat| && IsLive(difat, ints, i) && NoDuplicates(Live(difat, ints))
    ensures var done := LiveUpTo(difat, ints, i);
            && |done| < |Live(difat, ints)| && Live(difat, ints)[|done|] == difat[i] && difat[i] !in done
            && LiveUpTo(difat, ints, i + 1) == done + [difat[i]]
  {
    var done, live := LiveUpTo(difat, ints, i), Live(difat, ints);
    LivePrefix(difat, ints, i + 1, |difat|);
    var next := LiveUpTo(difat, ints, i + 1);
    assert next == done + [difat[i]] && next <= live;
    assert live[|done|] == next[|done|];
    forall k | 0 <= k < |done|
      ensures done[k] != difat[i]
    {
      assert live[k] == next[k];
    }
  }

  lemma {:induction false} LiveDistinct(difat: seq<nat>, ints: nat, n: nat)
    requires ints > 0 && n <= |difat|
    requires forall i, j :: 0 <= i < j < |difat| && IsLive(difat, ints, i) && IsLive(difat, ints, j) ==> difat[i] != difat[j]
    ensures NoDuplicates(LiveUpTo(difat, ints, n))
  {
    if n > 0 {
      LiveDistinct(difat, ints, n - 1);
      LiveMembers(difat, ints, n - 1);
      var d := LiveUpTo(difat, ints, n - 1);
      if IsLive(difat, ints, n - 1) {
        forall k | 0 <= k < |d|
          ensures d[k] != difat[n - 1]
        {
          assert d[k] in d;
        }
      }
    }
  }

  method CopyPadded(contents: seq<byte>, n: nat) returns (a: array<byte>)
    ensures fresh(a) && a.Length == n && forall p :: 0 <= p < n ==> a[p] == Padded(contents, p)
  {
    a := new byte[n](_ => 0);
    var k := if |contents| < n then |contents| else n;
    PutBytes(a, 0, contents[..k]);
    forall p | 0 <= p < n
      ensures a[p] == Padded(contents, p)
    {
      if p < k {
        assert a[..][0..0 + k][p] == contents[..k][p];
      }
    }
  }

  /** The FAT with the SignedData's sectors chained up. */
  method ChainSectors(fat: seq<nat>, first: nat, n: nat) returns (r: seq<nat>)
    requires n > 0 && first + n <= |fat|
    ensures r == SignedFat(fat, first, n)
  {
    r := fat;
    for i := 0 to n - 1
      invariant |r| == |fat|
      invariant forall s :: 0 <= s < |fat| ==> r[s] == if first <= s < first + i then s + 1 else fat[s]
    {
      r := r[first + i := first + i + 1];
    }
    r := r[first + n - 1 := ENDOFCHAIN];
  }

  method HeaderSector(header: Header, difat: seq<nat>, ints: nat) returns (h: seq<byte>)
    requires SectorSize(ints) >= HEADER_TOTAL_BYTES && |difat| >= HEADER_SLOTS
    requires |header.magic| == 8 && |header.clsid| == 16 && |header.reserved| == 6
    ensures |h| == SectorSize(ints)
    ensures h[..HEADER_CONTENT_BYTES] == EncodeHeader(header)
    ensures h[HEADER_CONTENT_BYTES..HEADER_TOTAL_BYTES] == EncodeInts(difat[..HEADER_SLOTS])
    ensures AllZero(h[HEADER_TOTAL_BYTES..])
  {
    hide EncodeHeader, EncodeInts;
    var a := new byte[SectorSize(ints)](_ => 0);
    PutBytes(a, 0, EncodeHeader(header));
    ghost var c := a[..];
    PutInts(a, HEADER_CONTENT_BYTES, difat[..HEADER_SLOTS]);
    h := a[..];
    assert forall p :: 0 <= p < HEADER_CONTENT_BYTES ==> h[p] == c[p];
    assert h[..HEADER_CONTENT_BYTES] == c[..HEADER_CONTENT_BYTES] == c[0..0 + HEADER_CONTENT_BYTES];
  }

  // ---------------------------------------------------------------- the steps make the layout

  lemma TableKept(c: seq<byte>, c': seq<byte>, ints: nat, sectors: seq<nat>, xs: seq<nat>, skip: nat)
    requires TableLaid(c, ints, sectors, xs, skip) && |c'| == |c|
    requires forall p :: 0 <= p < |c| && InSectors(SectorSize(ints), sectors, p) ==> c'[p] == c[p]
    ensures TableLaid(c', ints, sectors, xs, skip)
  {
    forall k | 0 <= k < |sectors|
      ensures SectorHolds(c', ints, sectors[k], xs, skip + Entries(ints, k))
    {
      forall p | 0 <= p < |c| && InSector(SectorSize(ints), sectors[k], p)
        ensures c'[p] == c[p]
      {
        assert InSectors(SectorSize(ints), sectors, p);
      }
      SectorHoldsKept(c, c', ints, sectors[k], xs, skip + Entries(ints, k));
    }
  }

  lemma TablesApart(t: Tables, ints: nat, p: nat)
    requires Consistent(t, ints) && InSectors(SectorSize(ints), t.difatSectors, p)
    ensures !InSectors(SectorSize(ints), Live(t.difat, ints), p)
  {
    var live, size := Live(t.difat, ints), SectorSize(ints);
    var k :| 0 <= k < |t.difatSectors| && InSector(size, t.difatSectors[k], p);
    NotLive(t, ints, t.difatSectors[k]);
    if j :| 0 <= j < |live| && InSector(size, live[j], p) {
      SectorsApart(size, t.difatSectors[k], live[j], p);
    }
  }

  lemma TablesBeforeFree(t: Tables, ints: nat, p: nat)
    requires Consistent(t, ints)
    requires InSectors(SectorSize(ints), t.difatSectors, p) || InSectors(SectorSize(ints), Live(t.difat, ints), p)
    ensures p < Off(SectorSize(ints), FirstFree(t.fat))
  {
    var live, size := Live(t.difat, ints), SectorSize(ints);
    if InSectors(size, t.difatSectors, p) {
      var k :| 0 <= k < |t.difatSectors| && InSector(size, t.difatSectors[k], p);
      BeforeFree(t.fat, size, t.difatSectors[k]);
    } else {
      var j :| 0 <= j < |live| && InSector(size, live[j], p);
      LiveMembers(t.difat, ints, |t.difat|);
      assert live[j] in live;
      BeforeFree(t.fat, size, live[j]);
    }
  }

  /** The signature's entry lies in a sector of the directory, apart from the tables and the SignedData. */
  lemma EntryApart(m: Msi, place: Place, p: nat)
    requires Consistent(m.tables, m.ints) && DirectoryInv(m, place)
    requires m.sigDirOffset <= p < m.sigDirOffset + DIR_ENTRY_BYTES
    ensures !InSectors(SectorSize(m.ints), m.tables.difatSectors, p)
    ensures !InSectors(SectorSize(m.ints), Live(m.tables.difat, m.ints), p)
    ensures p < Off(SectorSize(m.ints), FirstFree(m.tables.fat))
  {
    hide Consistent, DirectoryInv, InSectors, InSector, EntryOff, FirstFree;
    DirectoryParts(m, place);
    var last := place.path[|place.path| - 1];
    EntryInSector(m.ints, last, place.entry, p);
    ConsistentMarks(m.tables, m.ints);
    NotDifatSector(m.tables, SectorSize(m.ints), last, p);
    NotFatSector(m.tables, m.ints, last, p);
    BeforeFree(m.tables.fat, SectorSize(m.ints), last);
    InSectorBelow(SectorSize(m.ints), last, p);
  }

  lemma ConsistentMarks(t: Tables, ints: nat)
    requires Consistent(t, ints)
    ensures DifatSectorsMarked(t) && ints >= 128
  {
  }

  lemma InSectorBelow(size: nat, s: nat, p: nat)
    requires InSector(size, s, p)
    ensures p < Off(size, s) + size
  {
  }

  /** The writer's buffer after each step. */
  datatype Steps = Steps(base: seq<byte>, entry: seq<byte>, difat: seq<byte>, fat: seq<byte>, done: seq<byte>)

  ghost predicate StepsTaken(x: Steps, m: Msi, sd: seq<byte>)
    requires m.ints > 0 && |sd| > 0
  {
    var size, first := SectorSize(m.ints), FirstFree(m.tables.fat);
    var entry := SignedEntry(m, first, |sd|);
    && |x.base| == Off(size, first + NumSectors(m, sd)) && (forall p :: 0 <= p < |x.base| ==> x.base[p] == Padded(m.contents, p))
    && |entry.name| == 64 && |entry.clsid| == 16 && m.sigDirOffset + DIR_ENTRY_BYTES <= |x.base|
    && x.entry == Overlay(x.base, m.sigDirOffset, EncodeDirEntry(entry))
    && TableWritten(x.entry, x.difat, m.ints, m.tables.difatSectors, m.tables.difat, HEADER_SLOTS)
    && TableWritten(x.difat, x.fat, m.ints, Live(m.tables.difat, m.ints), NewFat(m, sd), 0)
    && Off(size, first) + |sd| <= |x.fat|
    && x.done == Overlay(x.fat, Off(size, first), sd)
  }

  lemma DifatStaysLaid(x: Steps, m: Msi, sd: seq<byte>)
    requires Consistent(m.tables, m.ints) && |sd| > 0 && StepsTaken(x, m, sd)
    ensures TableLaid(x.done, m.ints, m.tables.difatSectors, m.tables.difat, HEADER_SLOTS)
  {
    hide Live, NewFat, FirstFree, NumSectors, EncodeDirEntry, Consistent, TableLaid, InSectors;
    forall p | 0 <= p < |x.difat| && InSectors(SectorSize(m.ints), m.tables.difatSectors, p)
      ensures x.done[p] == x.difat[p]
    {
      TablesApart(m.tables, m.ints, p);
      TablesBeforeFree(m.tables, m.ints, p);
    }
    TableKept(x.difat, x.done, m.ints, m.tables.difatSectors, m.tables.difat, HEADER_SLOTS);
  }

  lemma FatStaysLaid(x: Steps, m: Msi, sd: seq<byte>)
    requires Consistent(m.tables, m.ints) && |sd| > 0 && StepsTaken(x, m, sd)
    ensures TableLaid(x.done, m.ints, Live(m.tables.difat, m.ints), NewFat(m, sd), 0)
  {
    hide Live, NewFat, FirstFree, NumSectors, EncodeDirEntry, Consistent, TableLaid, InSectors;
    forall p | 0 <= p < |x.fat| && InSectors(SectorSize(m.ints), Live(m.tables.difat, m.ints), p)
      ensures x.done[p] == x.fat[p]
    {
      TablesBeforeFree(m.tables, m.ints, p);
    }
    TableKept(x.fat, x.done, m.ints, Live(m.tables.difat, m.ints), NewFat(m, sd), 0);
  }

  lemma EntryStaysLaid(x: Steps, m: Msi, place: Place, sd: seq<byte>)
    requires Consistent(m.tables, m.ints) && DirectoryInv(m, place) && |sd| > 0 && StepsTaken(x, m, sd)
    ensures EntryLaid(x.done, m, sd)
  {
    hide Live, NewFat, FirstFree, NumSectors, EncodeDirEntry, Consistent, TableLaid, InSectors, DirectoryInv;
    var lo, hi := m.sigDirOffset, m.sigDirOffset + DIR_ENTRY_BYTES;
    forall p | lo <= p < hi
      ensures x.done[p] == x.entry[p]
    {
      EntryApart(m, place, p);
    }
    assert x.done[lo..hi] == x.entry[lo..hi];
  }

  lemma RestStays(x: Steps, m: Msi, sd: seq<byte>)
    requires m.ints > 0 && |sd| > 0 && StepsTaken(x, m, sd)
    ensures RestLaid(x.done, m, sd)
  {
    hide Live, NewFat, FirstFree, NumSectors, EncodeDirEntry, TableLaid, InSectors, Padded;
  }

  /** Whatever the order of sectors, the five steps leave exactly the layout promised. */
  lemma LaidFromSteps(x: Steps, m: Msi, place: Place, sd: seq<byte>)
    requires Consistent(m.tables, m.ints) && DirectoryInv(m, place) && |sd| > 0 && StepsTaken(x, m, sd)
    ensures ContentsLaid(x.done, m, sd)
  {
    DifatStaysLaid(x, m, sd);
    FatStaysLaid(x, m, sd);
    EntryStaysLaid(x, m, place, sd);
    RestStays(x, m, sd);
    hide Live, NewFat, FirstFree, NumSectors, EncodeDirEntry, TableLaid, InSectors, DirectoryInv, EntryLaid, RestLaid, Consistent;
  }

  lemma InvReady(t: Tables, ints: nat)
    requires TablesInv(t, ints)
    ensures Ready(t, ints)
  {
    hide Live;
    assert !IsLastInSector(ints, 0);
    assert t.fat[t.difat[0]] == FATSECT;
  }

  lemma NewFatIs(m: Msi, sd: seq<byte>)
    requires m.ints > 0 && |sd| > 0
    ensures NewFat(m, sd) == SignedFat(m.tables.fat, FirstFree(m.tables.fat), NumSectors(m, sd))
  {
  }

  lemma NewFatFirstFree(m: Msi, sd: seq<byte>)
    requires m.ints > 0 && |sd| > 0 && FreeAtEnd(m.tables.fat) >= NumSectors(m, sd)
    ensures FirstFree(NewFat(m, sd)) == FirstFree(m.tables.fat) + NumSectors(m, sd) > 0
  {
    FirstFreeIs(NewFat(m, sd), FirstFree(m.tables.fat) + NumSectors(m, sd));
  }

  /** Everything the writing steps rely on. */
  lemma LayoutFacts(m: Msi, place: Place, sd: seq<byte>)
    requires m.ints >= 128 && MsiInv(m, place) && |sd| > 0 && FreeAtEnd(m.tables.fat) >= NumSectors(m, sd)
    ensures var h, t, size, first, n := m.tables.header, m.tables, SectorSize(m.ints), FirstFree(m.tables.fat), NumSectors(m, sd);
            && |h.magic| == 8 && |h.clsid| == 16 && |h.reserved| == 6 && |t.difat| >= HEADER_SLOTS
            && n > 0 && first + n <= |t.fat| && FirstFree(NewFat(m, sd)) == first + n > 0
            && |m.sigDirEntry.name| == 64 && |m.sigDirEntry.clsid| == 16
            && m.sigDirOffset + DIR_ENTRY_BYTES <= Off(size, first + n)
            && Off(size, first) + |sd| <= Off(size, first + n)
            && NoDuplicates(t.difatSectors) && |t.difat| == HEADER_SLOTS + Entries(m.ints, |t.difatSectors|)
            && NoDuplicates(Live(t.difat, m.ints)) && |t.fat| == Entries(m.ints, |Live(t.difat, m.ints)|)
            && Consistent(t, m.ints) && DirectoryInv(m, place)
    ensures var len := Off(SectorSize(m.ints), FirstFree(m.tables.fat) + NumSectors(m, sd));
            && SectorsInRange(len, SectorSize(m.ints), m.tables.difatSectors)
            && SectorsInRange(len, SectorSize(m.ints), Live(m.tables.difat, m.ints))
  {
    hide *;
    InvParts(m, place);
    HeaderLengths(m.tables.header, m.ints);
    TableFacts(m.tables, m.ints);
    NewFatFirstFree(m, sd);
    RoomForSignedData(m, sd);
    DirectoryParts(m, place);
    EntryLengths(m.sigDirEntry);
    EntryFits(m, place, sd);
    SignedDataFits(m, sd);
    BufferHoldsTables(m, sd);
  }

  lemma HeaderLengths(h: Header, ints: nat)
    requires HeaderInv(h, ints)
    ensures |h.magic| == 8 && |h.clsid| == 16 && |h.reserved| == 6
  {
  }

  lemma EntryLengths(d: DirEntry)
    requires DirEntryInRange(d)
    ensures |d.name| == 64 && |d.clsid| == 16
  {
  }

  lemma TableFacts(t: Tables, ints: nat)
    requires TablesInv(t, ints)
    ensures |t.difat| >= HEADER_SLOTS && Consistent(t, ints)
    ensures NoDuplicates(t.difatSectors) && |t.difat| == HEADER_SLOTS + Entries(ints, |t.difatSectors|)
    ensures NoDuplicates(Live(t.difat, ints)) && |t.fat| == Entries(ints, |Live(t.difat, ints)|)
  {
    LiveDistinct(t.difat, ints, |t.difat|);
    hide LiveUpTo, DifatLinked;
  }

  lemma EntryFits(m: Msi, place: Place, sd: seq<byte>)
    requires TablesInv(m.tables, m.ints) && DirectoryInv(m, place) && m.ints > 0 && |sd| > 0
    ensures m.sigDirOffset + DIR_ENTRY_BYTES <= Off(SectorSize(m.ints), FirstFree(m.tables.fat) + NumSectors(m, sd))
  {
    hide TablesInv, DirectoryInv, FirstFree, NumSectors, EntryOff, Off;
    DirectoryParts(m, place);
    InvConsistent(m.tables, m.ints);
    EntryApart(m, place, m.sigDirOffset + DIR_ENTRY_BYTES - 1);
    OffMono(SectorSize(m.ints), FirstFree(m.tables.fat), FirstFree(m.tables.fat) + NumSectors(m, sd));
  }

  lemma InvConsistent(t: Tables, ints: nat)
    requires TablesInv(t, ints)
    ensures Consistent(t, ints)
  {
  }

  lemma OffMono(size: nat, a: nat, b: nat)
    requires a <= b
    ensures Off(size, a) <= Off(size, b)
  {
    MulLe(a, b, size);
  }

  lemma SignedDataFits(m: Msi, sd: seq<byte>)
    requires m.ints > 0 && |sd| > 0
    ensures NumSectors(m, sd) > 0
    ensures Off(SectorSize(m.ints), FirstFree(m.tables.fat)) + |sd| <=
            Off(SectorSize(m.ints), FirstFree(m.tables.fat) + NumSectors(m, sd))
  {
    var size, first, n := SectorSize(m.ints), FirstFree(m.tables.fat), NumSectors(m, sd);
    SectorsForFits(|sd|, size);
    assert (first + n) * size == first * size + n * size;
  }

  /** A buffer of `len` bytes holds every one of the sectors. */
  ghost predicate SectorsInRange(len: nat, size: nat, sectors: seq<nat>) {
    forall k :: 0 <= k < |sectors| ==> Off(size, sectors[k]) + size <= len
  }

  lemma BufferHoldsTables(m: Msi, sd: seq<byte>)
    requires TablesInv(m.tables, m.ints) && m.ints > 0 && |sd| > 0
    ensures var len := Off(SectorSize(m.ints), FirstFree(m.tables.fat) + NumSectors(m, sd));
            && SectorsInRange(len, SectorSize(m.ints), m.tables.difatSectors)
            && SectorsInRange(len, SectorSize(m.ints), Live(m.tables.difat, m.ints))
  {
    var t, live, end := m.tables, Live(m.tables.difat, m.ints), FirstFree(m.tables.fat) + NumSectors(m, sd);
    LiveMembers(t.difat, m.ints, |t.difat|);
    hide NumSectors, DifatShape, DifatLinked, Live;
    forall k | 0 <= k < |t.difatSectors|
      ensures Off(SectorSize(m.ints), t.difatSectors[k]) + SectorSize(m.ints) <= Off(SectorSize(m.ints), end)
    {
      BlockBefore(t.difatSectors[k], end, SectorSize(m.ints));
    }
    forall k | 0 <= k < |live|
      ensures Off(SectorSize(m.ints), live[k]) + SectorSize(m.ints) <= Off(SectorSize(m.ints), end)
    {
      assert live[k] in live;
      BlockBefore(live[k], end, SectorSize(m.ints));
    }
  }

  /** The writing steps, on a buffer of `len` bytes. */
  method LayContents(contents: seq<byte>, len: nat, ints: nat, difatSectors: seq<nat>, difat: seq<nat>, fat: seq<nat>,
                     entryOff: nat, entry: seq<byte>, dataOff: nat, data: seq<byte>) returns (c: seq<byte>, ghost x: Steps)
    requires ints > 0 && NoDuplicates(difatSectors) && |difat| == HEADER_SLOTS + Entries(ints, |difatSectors|)
    requires NoDuplicates(Live(difat, ints)) && |fat| == Entries(ints, |Live(difat, ints)|)
    requires SectorsInRange(len, SectorSize(ints), difatSectors) && SectorsInRange(len, SectorSize(ints), Live(difat, ints))
    requires entryOff + |entry| <= len && dataOff + |data| <= len
    ensures |x.base| == len && forall p :: 0 <= p < len ==> x.base[p] == Padded(contents, p)
    ensures x.entry == Overlay(x.base, entryOff, entry)
    ensures TableWritten(x.entry, x.difat, ints, difatSectors, difat, HEADER_SLOTS)
    ensures TableWritten(x.difat, x.fat, ints, Live(difat, ints), fat, 0)
    ensures |x.fat| == len && x.done == Overlay(x.fat, dataOff, data) && c == x.done
  {
    hide TableWritten, Live, Entries, NoDuplicates, Padded, Off;
    var a := CopyPadded(contents, len);
    ghost var base := a[..];
    PutBytes(a, entryOff, entry);
    ghost var afterEntry := a[..];
    WriteDifatSectors(a, ints, difatSectors, difat);
    ghost var afterDifat := a[..];
    WriteFatSectors(a, ints, difat, fat);
    ghost var afterFat := a[..];
    PutBytes(a, dataOff, data);
    c := a[..];
    x := Steps(base, afterEntry, afterDifat, afterFat, c);
  }

  lemma StepsFromParts(x: Steps, m: Msi, sd: seq<byte>)
    requires m.ints > 0 && |sd| > 0
    requires var size, first, entry := SectorSize(m.ints), FirstFree(m.tables.fat), SignedEntry(m, FirstFree(m.tables.fat), |sd|);
             && |x.base| == Off(size, first + NumSectors(m, sd)) && (forall p :: 0 <= p < |x.base| ==> x.base[p] == Padded(m.contents, p))
             && |entry.name| == 64 && |entry.clsid| == 16 && m.sigDirOffset + DIR_ENTRY_BYTES <= |x.base|
             && x.entry == Overlay(x.base, m.sigDirOffset, EncodeDirEntry(entry))
             && TableWritten(x.entry, x.difat, m.ints, m.tables.difatSectors, m.tables.difat, HEADER_SLOTS)
             && TableWritten(x.difat, x.fat, m.ints, Live(m.tables.difat, m.ints), NewFat(m, sd), 0)
             && Off(size, first) + |sd| <= |x.fat|
             && x.done == Overlay(x.fat, Off(size, first), sd)
    ensures StepsTaken(x, m, sd)
  {
    hide TableWritten, EncodeDirEntry, FirstFree, Live, NewFat, NumSectors, Overlay;
  }

  lemma LaidFromParts(out: seq<byte>, h: seq<byte>, c: seq<byte>, m: Msi, sd: seq<byte>)
    requires m.ints >= 128 && |sd| > 0 && out == h + c && |h| == SectorSize(m.ints)
    requires |m.tables.header.magic| == 8 && |m.tables.header.clsid| == 16 && |m.tables.header.reserved| == 6
    requires |m.tables.difat| >= HEADER_SLOTS && |h| >= HEADER_TOTAL_BYTES
    requires h[..HEADER_CONTENT_BYTES] == EncodeHeader(m.tables.header)
    requires h[HEADER_CONTENT_BYTES..HEADER_TOTAL_BYTES] == EncodeInts(m.tables.difat[..HEADER_SLOTS])
    requires AllZero(h[HEADER_TOTAL_BYTES..]) && ContentsLaid(c, m, sd)
    ensures Laid(out, m, sd)
  {
    hide EncodeHeader, EncodeInts, ContentsLaid;
    assert Contents(out, m.ints) == c;
    assert out[..HEADER_CONTENT_BYTES] == h[..HEADER_CONTENT_BYTES];
    assert out[HEADER_CONTENT_BYTES..HEADER_TOTAL_BYTES] == h[HEADER_CONTENT_BYTES..HEADER_TOTAL_BYTES];
    assert out[HEADER_TOTAL_BYTES..SectorSize(m.ints)] == h[HEADER_TOTAL_BYTES..];
  }
}
