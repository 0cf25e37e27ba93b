/** The loops that read a compound file: tables, directory and streams. */
module MsiParser {
  import opened Arith
  import opened Bytes
  import opened MsiFormat
  import opened MsiTables
  import opened MsiFile
  import opened MsiStreams
  import opened MsiRoundTrip
  import opened MsiLaws

  /** `n` consecutive little-endian integers. */
  method ReadInts(contents: seq<byte>, start: nat, n: nat) returns (xs: seq<nat>)
    requires start + 4 * n <= |contents|
    ensures xs == DecodeInts(contents[start..start + 4 * n])
  {
    xs := [];
    ghost var b := contents[start..start + 4 * n];
    for i := 0 to n
      invariant xs == DecodeInts(b)[..i]
    {
      assert b[4 * i] == contents[start + 4 * i] && b[4 * i + 1] == contents[start + 4 * i + 1];
      assert b[4 * i + 2] == contents[start + 4 * i + 2] && b[4 * i + 3] == contents[start + 4 * i + 3];
      xs := xs + [U32(contents, start + 4 * i)];
    }
  }

  method ReadSectorInts(contents: seq<byte>, ints: nat, sector: nat) returns (xs: seq<nat>)
    requires HasSector(contents, SectorSize(ints), sector)
    ensures xs == SectorInts(contents, ints, sector)
  {
    xs := ReadInts(contents, Off(SectorSize(ints), sector), ints);
  }

  lemma EntriesZero(ints: nat)
    ensures Entries(ints, 0) == 0
  {
  }

  lemma EntriesNext(ints: nat, k: nat)
    ensures Entries(ints, k + 1) == Entries(ints, k) + ints
  {
  }

  lemma DifatStart(file: seq<byte>, ints: nat, t: Tables)
    requires TablesDecode(file, ints, t)
    ensures ints > 0 && |file| >= HEADER_TOTAL_BYTES && DifatDecodes(HeaderSlots(file), Contents(file, ints), ints, t)
    ensures t.header.numDifatSectors == |t.difatSectors| && |t.difat| == HEADER_SLOTS + Entries(ints, |t.difatSectors|)
    ensures t.difat[..HEADER_SLOTS] == HeaderSlots(file)
  {
    hide FatDecodes, DifatSectorDecodes, DecodeInts, DecodeHeader, HeaderSlots;
  }

  /** What the parser reads for DIFAT sector `i`. */
  lemma DifatStep(slots: seq<nat>, contents: seq<byte>, ints: nat, t: Tables, i: nat)
    requires ints > 0 && DifatDecodes(slots, contents, ints, t) && i < |t.difatSectors|
    ensures HEADER_SLOTS + Entries(ints, i) + ints == HEADER_SLOTS + Entries(ints, i + 1) <= |t.difat|
    ensures i == 0 ==> t.difatSectors[i] == t.header.firstDifatSector
    ensures i > 0 ==> t.difatSectors[i] == t.difat[HEADER_SLOTS + Entries(ints, i) - 1]
    ensures HasSector(contents, SectorSize(ints), t.difatSectors[i])
    ensures t.difat[..HEADER_SLOTS + Entries(ints, i + 1)] ==
            t.difat[..HEADER_SLOTS + Entries(ints, i)] + SectorInts(contents, ints, t.difatSectors[i])
  {
    assert DifatSectorDecodes(contents, ints, t, i);
    assert Entries(ints, i + 1) == Entries(ints, i) + ints;
    if i > 0 {
      assert Entries(ints, i) == Entries(ints, i - 1) + ints;
    }
    var n := HEADER_SLOTS + Entries(ints, i);
    assert n + ints <= |t.difat| && Block(t.difat, ints, n) == SectorInts(contents, ints, t.difatSectors[i]);
    hide DifatDecodes, DifatSectorDecodes, SectorInts, Entries, HasSector;
    assert t.difat[..n + ints] == t.difat[..n] + Block(t.difat, ints, n);
  }

  method ReadDifat(bytes: seq<byte>, ints: nat, header: Header, ghost t: Tables) returns (difat: seq<nat>, sectors: seq<nat>)
    requires TablesDecode(bytes, ints, t) && t.header == header
    ensures difat == t.difat && sectors == t.difatSectors
  {
    hide DifatDecodes, FatDecodes;
    var contents := Contents(bytes, ints);
    DifatStart(bytes, ints, t);
    hide TablesDecode;
    difat := ReadInts(bytes, HEADER_CONTENT_BYTES, HEADER_SLOTS);
    EntriesZero(ints);
    hide DecodeInts, Entries, SectorInts, HasSector, HeaderSlots;
    sectors := [];
    for i := 0 to header.numDifatSectors
      invariant HEADER_SLOTS + Entries(ints, i) <= |t.difat|
      invariant difat == t.difat[..HEADER_SLOTS + Entries(ints, i)]
      invariant sectors == t.difatSectors[..i]
    {
      DifatStep(HeaderSlots(bytes), contents, ints, t, i);
      var sector := if i == 0 then header.firstDifatSector else difat[|difat| - 1];
      sectors := sectors + [sector];
      var block := ReadSectorInts(contents, ints, sector);
      difat := difat + block;
    }
  }

  lemma {:induction false} LivePrefix(difat: seq<nat>, ints: nat, k: nat, n: nat)
    requires ints > 0 && k <= n <= |difat|
    ensures LiveUpTo(difat, ints, k) <= LiveUpTo(difat, ints, n)
  {
    if k < n {
      LivePrefix(difat, ints, k, n - 1);
    }
  }

  /** What the parser reads for the live DIFAT entry `i`, the `j`-th of them. */
  lemma FatStep(contents: seq<byte>, ints: nat, difat: seq<nat>, fat: seq<nat>, i: nat, j: nat)
    requires ints > 0 && FatDecodes(contents, ints, fat, Live(difat, ints))
    requires i < |difat| && IsLive(difat, ints, i) && j == |LiveUpTo(difat, ints, i)|
    ensures HasSector(contents, SectorSize(ints), difat[i])
    ensures Entries(ints, j) <= Entries(ints, j) + ints == Entries(ints, j + 1) <= |fat|
    ensures fat[..Entries(ints, j + 1)] == fat[..Entries(ints, j)] + SectorInts(contents, ints, difat[i])
  {
    LivePrefix(difat, ints, i + 1, |difat|);
    assert LiveUpTo(difat, ints, i + 1)[j] == difat[i];
    assert FatSectorDecodes(contents, ints, fat, Live(difat, ints), j);
    EntriesNext(ints, j);
    var n := Entries(ints, j);
    assert n + ints <= |fat| && HasSector(contents, SectorSize(ints), difat[i]);
    assert Block(fat, ints, n) == SectorInts(contents, ints, difat[i]);
    hide FatDecodes, Entries, SectorInts, IsLive, Live, LiveUpTo, HasSector;
    assert fat[..n + ints] == fat[..n] + Block(fat, ints, n);
  }

  method ReadFat(contents: seq<byte>, ints: nat, difat: seq<nat>, ghost fat: seq<nat>) returns (entries: seq<nat>)
    requires ints > 0 && FatDecodes(contents, ints, fat, Live(difat, ints))
    ensures entries == fat
  {
    entries := [];
    ghost var j := 0;
    assert |fat| == Entries(ints, |Live(difat, ints)|);
    hide FatDecodes, DecodeInts, Entries;
    EntriesZero(ints);
    for i := 0 to |difat|
      invariant j == |LiveUpTo(difat, ints, i)| && Entries(ints, j) <= |fat|
      invariant entries == fat[..Entries(ints, j)]
    {
      var sector := difat[i];
      if sector == FREESECT || sector == ENDOFCHAIN || IsLastInSector(ints, i) {
        continue;
      }
      FatStep(contents, ints, difat, fat, i, j);
      var block := ReadSectorInts(contents, ints, sector);
      entries := entries + block;
      j := j + 1;
    }
  }

  /** What looking at one entry of a directory sector says. */
  lemma EntryLookedAt(contents: seq<byte>, ints: nat, dirSector: nat, i: nat)
    requires EntryReadable(contents, ints, dirSector, i) && NoSignatureIn(contents, ints, dirSector, i)
    ensures var offset := EntryOff(ints, dirSector, i);
            && offset == Off(SectorSize(ints), dirSector) + i * DIR_ENTRY_BYTES && offset + DIR_ENTRY_BYTES <= |contents|
            && var entry := EntryAt(contents, offset);
               && entry.numNameBytes <= |entry.name|
               && if entry.name[..entry.numNameBytes] == SIGNATURE_NAME then IsSignatureAt(contents, ints, dirSector, i)
                  else NoSignatureIn(contents, ints, dirSector, i + 1)
  {
    hide EntryAt, Off;
  }

  lemma NothingLookedAt(contents: seq<byte>, ints: nat, dirSector: nat)
    ensures NoSignatureIn(contents, ints, dirSector, 0)
  {
  }

  /** The signature's entry in one directory sector, if it is there. */
  method SignedDataDirFromSector(contents: seq<byte>, ints: nat, dirSector: nat)
    returns (entry: DirEntry, offset: nat, found: bool, ghost e: nat)
    requires forall e :: 0 <= e < EntriesPerSector(ints) ==> EntryReadable(contents, ints, dirSector, e)
    ensures found ==>
              && e < EntriesPerSector(ints) && offset == EntryOff(ints, dirSector, e)
              && NoSignatureIn(contents, ints, dirSector, e) && IsSignatureAt(contents, ints, dirSector, e)
              && entry == EntryAt(contents, offset)
    ensures !found ==> NoSignatureIn(contents, ints, dirSector, EntriesPerSector(ints))
  {
    entry, offset, found, e := DirEntry([], 0, 0, 0, 0, 0, 0, [], 0, 0, 0, 0, 0), 0, false, 0;
    NothingLookedAt(contents, ints, dirSector);
    hide EntryAt, Off, EntryOff, EntryReadable, IsSignatureAt, NoSignatureIn;
    for i := 0 to EntriesPerSector(ints)
      invariant !found && NoSignatureIn(contents, ints, dirSector, i)
    {
      EntryLookedAt(contents, ints, dirSector, i);
      offset := Off(SectorSize(ints), dirSector) + i * DIR_ENTRY_BYTES;
      entry := EntryAt(contents, offset);
      if entry.name[..entry.numNameBytes] == SIGNATURE_NAME {
        found, e := true, i;
        return;
      }
    }
  }

  method FindSignatureEntry(contents: seq<byte>, ints: nat, fat: seq<nat>, first: nat, ghost dir: seq<nat>)
    returns (found: bool, entry: DirEntry, offset: nat, ghost place: Place)
    requires IsChain(fat, first, dir) && |fat| <= MAX_SECTORS && DirReadable(contents, ints, dir)
    ensures found ==>
              && FoundAt(contents, ints, fat, first, place.path, place.entry)
              && offset == EntryOff(ints, place.path[|place.path| - 1], place.entry)
              && offset + DIR_ENTRY_BYTES <= |contents| && entry == EntryAt(contents, offset)
    ensures !found ==> forall path, e :: !FoundAt(contents, ints, fat, first, path, e)
  {
    var dirSector := first;
    ghost var path := [first];
    ghost var e := 0;
    hide EntryAt, EntryOff, NoSignatureIn, EntryReadable, IsSignatureAt, IsChain, DirPath;
    DirStart(fat, first, dir);
    while true
      invariant 0 < |path| <= |dir| && path == dir[..|path|] && dirSector == path[|path| - 1]
      invariant DirPath(fat, first, path)
      invariant forall i :: 0 <= i < |path| - 1 ==> NoSignatureIn(contents, ints, path[i], EntriesPerSector(ints))
      decreases |dir| - |path|
    {
      assert dirSector == dir[|path| - 1];
      entry, offset, found, e := SignedDataDirFromSector(contents, ints, dirSector);
      if found {
        place := Place(path, e);
        FoundFromParts(contents, ints, fat, first, path, e);
        return;
      }
      DirAdvance(fat, first, dir, path);
      dirSector := fat[dirSector];
      if dirSector == ENDOFCHAIN {
        place := Place(path, 0);
        assert path == dir;
        forall p, x
          ensures !FoundAt(contents, ints, fat, first, p, x)
        {
          NotFound(contents, ints, fat, first, dir, p, x);
        }
        return;
      }
      path := path + [dirSector];
    }
  }

  lemma FoundFromParts(contents: seq<byte>, ints: nat, fat: seq<nat>, first: nat, path: seq<nat>, e: nat)
    requires DirPath(fat, first, path) && path != [] && e < EntriesPerSector(ints)
    requires forall i :: 0 <= i < |path| - 1 ==> NoSignatureIn(contents, ints, path[i], EntriesPerSector(ints))
    requires NoSignatureIn(contents, ints, path[|path| - 1], e) && IsSignatureAt(contents, ints, path[|path| - 1], e)
    ensures FoundAt(contents, ints, fat, first, path, e)
    ensures EntryOff(ints, path[|path| - 1], e) + DIR_ENTRY_BYTES <= |contents|
  {
    hide NoSignatureIn, DirPath, EntryAt, EntryOff;
  }

  lemma DirStart(fat: seq<nat>, first: nat, dir: seq<nat>)
    requires IsChain(fat, first, dir)
    ensures |dir| > 0 && [first] == dir[..1] && DirPath(fat, first, [first])
  {
  }

  /** One step along the directory chain. */
  lemma DirAdvance(fat: seq<nat>, first: nat, dir: seq<nat>, path: seq<nat>)
    requires IsChain(fat, first, dir) && |fat| <= MAX_SECTORS
    requires 0 < |path| <= |dir| && path == dir[..|path|]
    ensures path[|path| - 1] < |fat|
    ensures var next := fat[path[|path| - 1]];
            if next == ENDOFCHAIN then |path| == |dir|
            else |path| < |dir| && path + [next] == dir[..|path| + 1] && DirPath(fat, first, path + [next])
  {
    var k := |path| - 1;
    assert path[k] == dir[k];
    if k < |dir| - 1 {
      assert fat[dir[k]] == dir[k + 1] < |fat|;
      var longer := path + [dir[k + 1]];
      assert longer == dir[..k + 2];
      forall i | 0 <= i < |longer| - 1
        ensures longer[i] < |fat| && fat[longer[i]] == longer[i + 1]
      {
        assert longer[i] == dir[i] && longer[i + 1] == dir[i + 1];
      }
      forall i | 0 < i < |longer|
        ensures longer[i] != ENDOFCHAIN
      {
        assert longer[i] == dir[i];
      }
    }
  }

  lemma NotFound(contents: seq<byte>, ints: nat, fat: seq<nat>, first: nat, dir: seq<nat>, path: seq<nat>, e: nat)
    requires IsChain(fat, first, dir)
    requires forall i :: 0 <= i < |dir| ==> NoSignatureIn(contents, ints, dir[i], EntriesPerSector(ints))
    ensures !FoundAt(contents, ints, fat, first, path, e)
  {
    if FoundAt(contents, ints, fat, first, path, e) {
      PathInDirectory(fat, first, path, dir, |path| - 1);
      assert false;
    }
  }

  // ---------------------------------------------------------------- streams

  /** `c` with zeros in `lo .. lo + n`. */
  function Zeroed(c: seq<byte>, lo: nat, n: nat): (r: seq<byte>)
    ensures |r| == |c|
  {
    seq(|c|, p requires 0 <= p < |c| => if lo <= p < lo + n then 0 else c[p])
  }

  /** Where `CopyChain` stands: `sector` and `left` remain, of `start` and `bytes` in the contents `c0` and FAT `fat0`. */
  datatype Copy = Copy(contents: seq<byte>, fat: seq<nat>, sector: nat, left: nat, stream: seq<byte>)

  /** Nothing is lost on the way: what was copied and what remains add up to the whole stream. */
  ghost predicate CopyStream(c0: seq<byte>, fat0: seq<nat>, size: nat, start: nat, bytes: nat, x: Copy)
    requires size > 0
  {
    && |x.contents| == |c0| && |x.fat| == |fat0|
    && Covers(x.fat, size, x.sector, x.left) == Covers(fat0, size, start, bytes)
    && Readable(x.fat, |c0|, size, x.sector, x.left)
    && |x.stream| + x.left == bytes
    && x.stream + Gather(c0, size, ChainOf(x.fat, size, x.sector, x.left), x.left)
       == Gather(c0, size, ChainOf(fat0, size, start, bytes), bytes)
  }

  ghost predicate CopyFreed(c0: seq<byte>, fat0: seq<nat>, size: nat, start: nat, bytes: nat, x: Copy)
    requires size > 0
  {
    var all, rest := ChainOf(fat0, size, start, bytes), ChainOf(x.fat, size, x.sector, x.left);
    && |x.contents| == |c0|
    && NoDuplicates(rest)
    && ZeroOut(x.contents, size, rest, x.left) == ZeroOut(c0, size, all, bytes)
    && FreeAll(x.fat, rest) == FreeAll(fat0, all)
    && SameBytes(c0, x.contents, size, rest, 0, 0)
  }

  function CopyNext(size: nat, x: Copy, free: bool): Copy
    requires x.sector < |x.fat| && Off(size, x.sector) + Min(x.left, size) <= |x.contents|
  {
    var n, off := Min(x.left, size), Off(size, x.sector);
    Copy(if free then Zeroed(x.contents, off, n) else x.contents,
         if free then x.fat[x.sector := FREESECT] else x.fat,
         x.fat[x.sector], x.left - n, x.stream + x.contents[off..off + n])
  }

  lemma ChainHead(fat: seq<nat>, len: nat, size: nat, sector: nat, left: nat)
    requires size > 0 && left > 0 && !EndsChain(sector) && Readable(fat, len, size, sector, left)
    ensures sector < |fat| && Off(size, sector) + Min(left, size) <= len
    ensures var c := ChainOf(fat, size, sector, left);
            c != [] && c[0] == sector && c[1..] == ChainOf(fat, size, fat[sector], left - Min(left, size))
    ensures Readable(fat, len, size, fat[sector], left - Min(left, size))
    ensures Covers(fat, size, sector, left) == Covers(fat, size, fat[sector], left - Min(left, size))
  {
  }

  lemma SliceOf(c: seq<byte>, c': seq<byte>, size: nat, chain: seq<nat>, n: nat)
    requires SameBytes(c, c', size, chain, 0, 0) && chain != [] && n <= size && |c| == |c'| && Off(size, chain[0]) + n <= |c|
    ensures c'[Off(size, chain[0])..Off(size, chain[0]) + n] == c[Off(size, chain[0])..Off(size, chain[0]) + n]
  {
    var off := Off(size, chain[0]);
    forall p | off <= p < off + n
      ensures c'[p] == c[p]
    {
      assert InSector(size, chain[0], p);
    }
  }

  lemma CopyStreamNext(c0: seq<byte>, fat0: seq<nat>, size: nat, start: nat, bytes: nat, x: Copy, free: bool)
    requires size > 0 && CopyStream(c0, fat0, size, start, bytes, x) && x.left > 0 && !EndsChain(x.sector)
    requires free ==> CopyFreed(c0, fat0, size, start, bytes, x)
    requires !free ==> x.contents == c0
    ensures x.sector < |x.fat| && Off(size, x.sector) + Min(x.left, size) <= |x.contents|
    ensures Readable(x.fat, |c0|, size, x.sector, x.left)
    ensures CopyStream(c0, fat0, size, start, bytes, CopyNext(size, x, free))
  {
    hide ChainOf, Covers, Readable, Gather, Off, Min, ZeroOut, FreeAll, SameBytes, NoDuplicates;
    ChainHead(x.fat, |c0|, size, x.sector, x.left);
    var rest := ChainOf(x.fat, size, x.sector, x.left);
    var n, off, next := Min(x.left, size), Off(size, x.sector), x.fat[x.sector];
    MinLe(x.left, size);
    GatherStep(c0, size, rest, x.left);
    if free {
      SliceOf(c0, x.contents, size, rest, n);
      HeadNotInTail(rest);
      ChainOfFreed(x.fat, size, next, x.left - n, x.sector);
    }
    assert x.contents[off..off + n] == c0[off..off + n];
    var g := Gather(c0, size, rest[1..], x.left - n);
    assert x.stream + (c0[off..off + n] + g) == (x.stream + c0[off..off + n]) + g;
  }

  lemma MinLe(a: nat, b: nat)
    ensures Min(a, b) <= a && Min(a, b) <= b
  {
  }

  lemma HeadNotInTail(s: seq<nat>)
    requires NoDuplicates(s) && s != []
    ensures s[0] !in s[1..] && NoDuplicates(s[1..])
  {
  }

  lemma ZeroStep(c: seq<byte>, size: nat, chain: seq<nat>, left: nat)
    requires size > 0 && left > 0 && chain != []
    ensures ZeroOut(Zeroed(c, Off(size, chain[0]), Min(left, size)), size, chain[1..], left - Min(left, size)) ==
            ZeroOut(c, size, chain, left)
  {
  }

  lemma FreeStep(fat: seq<nat>, chain: seq<nat>)
    requires chain != [] && chain[0] < |fat|
    ensures FreeAll(fat[chain[0] := FREESECT], chain[1..]) == FreeAll(fat, chain)
  {
    assert forall s :: s in chain <==> s == chain[0] || s in chain[1..];
  }

  lemma SameAfterZero(c: seq<byte>, c': seq<byte>, size: nat, chain: seq<nat>, n: nat)
    requires SameBytes(c, c', size, chain, 0, 0) && |c| == |c'| && NoDuplicates(chain) && chain != [] && n <= size
    ensures SameBytes(c, Zeroed(c', Off(size, chain[0]), n), size, chain[1..], 0, 0)
  {
    var z := Zeroed(c', Off(size, chain[0]), n);
    forall i, p {:trigger InSector(size, chain[1..][i], p)} | 0 <= i < |chain[1..]| && 0 <= p < |c| && InSector(size, chain[1..][i], p)
      ensures z[p] == c[p]
    {
      assert InSector(size, chain[i + 1], p);
      if InSector(size, chain[0], p) {
        SectorsApart(size, chain[0], chain[i + 1], p);
      }
    }
  }

  lemma CopyFreedNext(c0: seq<byte>, fat0: seq<nat>, size: nat, start: nat, bytes: nat, x: Copy)
    requires size > 0 && x.left > 0 && !EndsChain(x.sector) && Readable(x.fat, |c0|, size, x.sector, x.left)
    requires CopyFreed(c0, fat0, size, start, bytes, x)
    ensures x.sector < |x.fat| && Off(size, x.sector) + Min(x.left, size) <= |x.contents|
    ensures CopyFreed(c0, fat0, size, start, bytes, CopyNext(size, x, true))
  {
    hide ChainOf, Covers, Readable, Off, Min, ZeroOut, FreeAll, SameBytes, NoDuplicates, Zeroed;
    ChainHead(x.fat, |c0|, size, x.sector, x.left);
    var rest := ChainOf(x.fat, size, x.sector, x.left);
    MinLe(x.left, size);
    HeadNotInTail(rest);
    ChainOfFreed(x.fat, size, x.fat[x.sector], x.left - Min(x.left, size), x.sector);
    ZeroStep(x.contents, size, rest, x.left);
    FreeStep(x.fat, rest);
    SameAfterZero(c0, x.contents, size, rest, Min(x.left, size));
  }

  method ZeroRange(a: array<byte>, lo: nat, n: nat)
    requires lo + n <= a.Length
    modifies a
    ensures forall p :: 0 <= p < a.Length ==> a[p] == if lo <= p < lo + n then 0 else old(a[p])
  {
    for i := 0 to n
      invariant forall p :: 0 <= p < a.Length ==> a[p] == if lo <= p < lo + i then 0 else old(a[p])
    {
      a[lo + i] := 0;
    }
  }

  lemma ZeroedBehind(a: seq<byte>, b: seq<byte>, base: nat, lo: nat, n: nat)
    requires base <= |a| == |b|
    requires forall p :: 0 <= p < |a| ==> b[p] == if base + lo <= p < base + lo + n then 0 else a[p]
    ensures b[base..] == Zeroed(a[base..], lo, n) && b[..base] == a[..base]
  {
  }

  /** One sector of a stream: its bytes are copied, and with `free` zeroed and the sector freed. */
  method CopySector(contents: array<byte>, base: nat, size: nat, ghost x: Copy, sector: nat, left: nat, stream: seq<byte>,
                    entries: seq<nat>, free: bool)
    returns (sector': nat, left': nat, stream': seq<byte>, entries': seq<nat>)
    requires base <= contents.Length && x == Copy(contents[base..], entries, sector, left, stream)
    requires sector < |entries| && Off(size, sector) + Min(left, size) <= contents.Length - base
    modifies contents
    ensures Copy(contents[base..], entries', sector', left', stream') == CopyNext(size, x, free)
    ensures contents[..base] == old(contents[..base]) && (!free ==> contents[..] == old(contents[..]) && entries' == entries)
  {
    hide Zeroed, Off;
    var n := Min(left, size);
    var offset := Off(size, sector);
    stream' := stream + contents[base + offset..base + offset + n];
    assert contents[base + offset..base + offset + n] == contents[base..][offset..offset + n];
    left' := left - n;
    if free {
      ghost var before := contents[..];
      ZeroRange(contents, base + offset, n);
      ZeroedBehind(before, contents[..], base, offset, n);
      assert contents[..][base..] == contents[base..] && before[base..] == x.contents;
    }
    sector' := entries[sector];
    entries' := if free then entries[sector := FREESECT] else entries;
  }

  /**
   Copies the stream of `bytes` bytes that starts in sector `start`; with `free`, zeroes the bytes and frees the
   sectors it passes.  The contents are the part of the array from `base` on.
   */
  method CopyChain(contents: array<byte>, base: nat, fat: seq<nat>, size: nat, start: nat, bytes: nat, free: bool)
    returns (ok: bool, stream: seq<byte>, entries: seq<nat>)
    requires size > 0 && base <= contents.Length
    requires Readable(fat, contents.Length - base, size, start, bytes)
    requires free ==> NoDuplicates(ChainOf(fat, size, start, bytes))
    modifies contents
    ensures ok <==> Covers(fat, size, start, bytes)
    ensures ok ==> |stream| == bytes && stream == Gather(old(contents[base..]), size, ChainOf(fat, size, start, bytes), bytes)
    ensures ok && free ==>
              && contents[base..] == ZeroOut(old(contents[base..]), size, ChainOf(fat, size, start, bytes), bytes)
              && entries == FreeAll(fat, ChainOf(fat, size, start, bytes))
    ensures !free ==> contents[..] == old(contents[..]) && entries == fat
    ensures contents[..base] == old(contents[..base])
  {
    ghost var c0 := contents[base..];
    var sector, left := start, bytes;
    stream, entries := [], fat;
    hide ChainOf, Covers, Readable, Gather, ZeroOut, FreeAll, CopyStream, CopyFreed, Zeroed;
    CopyStart(c0, fat, size, start, bytes, free);
    while left > 0
      invariant CopyStream(c0, fat, size, start, bytes, Copy(contents[base..], entries, sector, left, stream))
      invariant free ==> CopyFreed(c0, fat, size, start, bytes, Copy(contents[base..], entries, sector, left, stream))
      invariant !free ==> contents[..] == old(contents[..]) && entries == fat
      invariant contents[..base] == old(contents[..base])
      decreases left
    {
      ghost var x := Copy(contents[base..], entries, sector, left, stream);
      if EndsChain(sector) {
        ok := false;
        CopyFails(c0, fat, size, start, bytes, x);
        return;
      }
      CopyStreamNext(c0, fat, size, start, bytes, x, free);
      if free {
        CopyFreedNext(c0, fat, size, start, bytes, x);
      }
      sector, left, stream, entries := CopySector(contents, base, size, x, sector, left, stream, entries, free);
    }
    ok := true;
    CopyEnds(c0, fat, size, start, bytes, free, Copy(contents[base..], entries, sector, 0, stream));
  }

  lemma CopyStart(c0: seq<byte>, fat: seq<nat>, size: nat, start: nat, bytes: nat, free: bool)
    requires size > 0 && Readable(fat, |c0|, size, start, bytes)
    ensures CopyStream(c0, fat, size, start, bytes, Copy(c0, fat, start, bytes, []))
    ensures NoDuplicates(ChainOf(fat, size, start, bytes)) ==> CopyFreed(c0, fat, size, start, bytes, Copy(c0, fat, start, bytes, []))
  {
    hide ChainOf, Covers, Readable, Gather, ZeroOut, FreeAll, NoDuplicates;
  }

  lemma CopyFails(c0: seq<byte>, fat: seq<nat>, size: nat, start: nat, bytes: nat, x: Copy)
    requires size > 0 && CopyStream(c0, fat, size, start, bytes, x) && x.left > 0 && EndsChain(x.sector)
    ensures !Covers(fat, size, start, bytes)
  {
  }

  lemma CopyEnds(c0: seq<byte>, fat: seq<nat>, size: nat, start: nat, bytes: nat, free: bool, x: Copy)
    requires size > 0 && x.left == 0 && CopyStream(c0, fat, size, start, bytes, x)
    requires free ==> CopyFreed(c0, fat, size, start, bytes, x)
    ensures Covers(fat, size, start, bytes)
    ensures |x.stream| == bytes && x.stream == Gather(c0, size, ChainOf(fat, size, start, bytes), bytes)
    ensures free ==> x.contents == ZeroOut(c0, size, ChainOf(fat, size, start, bytes), bytes)
    ensures free ==> x.fat == FreeAll(fat, ChainOf(fat, size, start, bytes))
  {
    ZeroNone(x.contents, size, 0);
    FreeNone(x.fat);
    hide ZeroOut, FreeAll;
  }
}
