/**
 Compound files as byte strings: what it means for a file to hold given tables, a given signature
 entry and given streams.  Nothing here says how to compute them; `MsiBinary` does.
 */
module MsiFile {
  import opened Arith
  import opened Bytes
  import opened MsiFormat
  import opened MsiTables

  // ---------------------------------------------------------------- sectors

  function SectorSize(ints: nat): nat {
    4 * ints
  }

  function Off(size: nat, s: nat): nat {
    s * size
  }

  predicate HasSector(contents: seq<byte>, size: nat, s: nat) {
    Off(size, s) + size <= |contents|
  }

  predicate InSector(size: nat, s: nat, p: nat) {
    Off(size, s) <= p < Off(size, s) + size
  }

  function Sector(contents: seq<byte>, size: nat, s: nat): (b: seq<byte>)
    requires HasSector(contents, size, s)
    ensures |b| == size
  {
    contents[Off(size, s)..Off(size, s) + size]
  }

  function SectorInts(contents: seq<byte>, ints: nat, s: nat): (xs: seq<nat>)
    requires HasSector(contents, SectorSize(ints), s)
    ensures |xs| == ints
  {
    DecodeInts(Sector(contents, SectorSize(ints), s))
  }

  lemma SectorsApart(size: nat, s: nat, t: nat, p: nat)
    requires InSector(size, s, p) && InSector(size, t, p)
    ensures s == t
  {
    if s < t {
      BlockBefore(s, t, size);
    } else if t < s {
      BlockBefore(t, s, size);
    }
  }

  // ---------------------------------------------------------------- tables

  /** Entries `start .. start + ints` of a table. */
  function Block(xs: seq<nat>, ints: nat, start: nat): (b: seq<nat>)
    requires start + ints <= |xs|
    ensures |b| == ints
  {
    xs[start..start + ints]
  }

  /** The sector that holds DIFAT sector number `k`. */
  function DifatSectorAt(header: Header, difat: seq<nat>, ints: nat, k: nat): nat
    requires k > 0 ==> ints > 0 && ChainSlot(ints, k - 1) < |difat|
  {
    if k == 0 then header.firstDifatSector else difat[ChainSlot(ints, k - 1)]
  }

  ghost predicate DifatSectorDecodes(contents: seq<byte>, ints: nat, t: Tables, k: nat)
    requires k < |t.difatSectors|
  {
    && ints > 0 && HEADER_SLOTS + Entries(ints, k) + ints <= |t.difat|
    && (k > 0 ==> ChainSlot(ints, k - 1) < |t.difat|)
    && t.difatSectors[k] == DifatSectorAt(t.header, t.difat, ints, k)
    && HasSector(contents, SectorSize(ints), t.difatSectors[k])
    && Block(t.difat, ints, HEADER_SLOTS + Entries(ints, k)) == SectorInts(contents, ints, t.difatSectors[k])
  }

  ghost predicate DifatDecodes(slots: seq<nat>, contents: seq<byte>, ints: nat, t: Tables) {
    && |t.difatSectors| == t.header.numDifatSectors
    && |t.difat| == HEADER_SLOTS + Entries(ints, |t.difatSectors|)
    && t.difat[..HEADER_SLOTS] == slots
    && forall k :: 0 <= k < |t.difatSectors| ==> DifatSectorDecodes(contents, ints, t, k)
  }

  ghost predicate FatSectorDecodes(contents: seq<byte>, ints: nat, fat: seq<nat>, sectors: seq<nat>, j: nat)
    requires j < |sectors|
  {
    && Entries(ints, j) + ints <= |fat|
    && HasSector(contents, SectorSize(ints), sectors[j])
    && Block(fat, ints, Entries(ints, j)) == SectorInts(contents, ints, sectors[j])
  }

  ghost predicate FatDecodes(contents: seq<byte>, ints: nat, fat: seq<nat>, sectors: seq<nat>) {
    && |fat| == Entries(ints, |sectors|)
    && forall j :: 0 <= j < |sectors| ==> FatSectorDecodes(contents, ints, fat, sectors, j)
  }

  /** The header is one the parser accepts, and it calls for sectors of `ints` integers. */
  predicate HeaderAccepted(file: seq<byte>, ints: nat) {
    && |file| >= HEADER_TOTAL_BYTES
    && var h := DecodeHeader(file[..HEADER_CONTENT_BYTES]);
       && h.magic == MAGIC && AllZero(h.clsid)
       && IsSectorShift(h.sectorShift, ints)
       && |file| >= SectorSize(ints)
  }

  /** `1 << shift` bytes are `ints` integers, for the two sizes the parser supports. */
  predicate IsSectorShift(shift: nat, ints: nat) {
    (shift == 9 && ints == 128) || (shift == 12 && ints == 1024)
  }

  /** The sectors have the power of two bytes that the header's shift says, and as many integers as fit. */
  lemma SectorSizeIs(file: seq<byte>, ints: nat)
    requires HeaderAccepted(file, ints)
    ensures SectorSize(ints) == Pow2(DecodeHeader(file[..HEADER_CONTENT_BYTES]).sectorShift)
  {
    Pow2Eight();
    assert Pow2(9) == 2 * Pow2(8) && Pow2(12) == 2 * Pow2(11) && Pow2(11) == 2 * Pow2(10) && Pow2(10) == 2 * Pow2(9);
  }

  /** Headers are accepted by the signature of [MS-CFB], an empty class, one of two shifts and a whole first sector. */
  lemma HeaderExact(file: seq<byte>, ints: nat)
    ensures HeaderAccepted(file, ints) <==>
            && |file| >= 512 && file[..8] == [0xd0, 0xcf, 0x11, 0xe0, 0xa1, 0xb1, 0x1a, 0xe1]
            && (forall i :: 8 <= i < 24 ==> file[i] == 0)
            && ((file[30..32] == [9, 0] && SectorSize(ints) == 512)
                || (file[30..32] == [12, 0] && SectorSize(ints) == 4096 <= |file|))
  {
    if |file| >= 512 {
      var b := file[..HEADER_CONTENT_BYTES];
      assert b[..8] == file[..8] && b[30] == file[30] && b[31] == file[31];
      assert file[30..32] == [file[30], file[31]];
      assert forall i :: 0 <= i < 16 ==> b[8..24][i] == file[i + 8];
      assert AllZero(b[8..24]) <==> forall i :: 8 <= i < 24 ==> file[i] == 0 by {
        if AllZero(b[8..24]) {
          forall i | 8 <= i < 24
            ensures file[i] == 0
          {
            assert b[8..24][i - 8] == file[i];
          }
        }
      }
    }
  }

  /** The sector of the DIFAT behind another one is named by the last integer of that one. */
  lemma DifatChained(file: seq<byte>, ints: nat, t: Tables, k: nat)
    requires TablesDecode(file, ints, t) && k + 1 < |t.difatSectors|
    ensures HasSector(Contents(file, ints), SectorSize(ints), t.difatSectors[k])
    ensures t.difatSectors[k + 1] == SectorInts(Contents(file, ints), ints, t.difatSectors[k])[ints - 1]
    ensures t.difatSectors[0] == t.header.firstDifatSector
  {
    var contents := Contents(file, ints);
    assert DifatSectorDecodes(contents, ints, t, 0) && DifatSectorDecodes(contents, ints, t, k);
    assert DifatSectorDecodes(contents, ints, t, k + 1);
    hide SectorInts, Entries;
    assert Block(t.difat, ints, HEADER_SLOTS + Entries(ints, k))[ints - 1] == t.difat[ChainSlot(ints, k)];
  }

  function Contents(file: seq<byte>, ints: nat): seq<byte>
    requires |file| >= SectorSize(ints)
  {
    file[SectorSize(ints)..]
  }

  function HeaderSlots(file: seq<byte>): (slots: seq<nat>)
    requires |file| >= HEADER_TOTAL_BYTES
    ensures |slots| == HEADER_SLOTS
  {
    DecodeInts(file[HEADER_CONTENT_BYTES..HEADER_TOTAL_BYTES])
  }

  /** The file's header, DIFAT and FAT are those of `t`. */
  ghost predicate TablesDecode(file: seq<byte>, ints: nat, t: Tables) {
    && ints > 0 && |file| >= HEADER_TOTAL_BYTES && |file| >= SectorSize(ints)
    && t.header == DecodeHeader(file[..HEADER_CONTENT_BYTES])
    && DifatDecodes(HeaderSlots(file), Contents(file, ints), ints, t)
    && FatDecodes(Contents(file, ints), ints, t.fat, Live(t.difat, ints))
  }

  // ---------------------------------------------------------------- a file has one set of tables

  lemma {:induction false} DifatPrefixUnique(slots: seq<nat>, contents: seq<byte>, ints: nat, a: Tables, b: Tables, k: nat)
    requires ints > 0 && a.header == b.header && |slots| == HEADER_SLOTS
    requires DifatDecodes(slots, contents, ints, a) && DifatDecodes(slots, contents, ints, b)
    requires k <= |a.difatSectors|
    ensures HEADER_SLOTS + Entries(ints, k) <= |a.difat| && |b.difat| == |a.difat|
    ensures a.difat[..HEADER_SLOTS + Entries(ints, k)] == b.difat[..HEADER_SLOTS + Entries(ints, k)]
    ensures a.difatSectors[..k] == b.difatSectors[..k]
  {
    hide DifatDecodes, DifatSectorDecodes, Entries;
    DifatFacts(slots, contents, ints, a, k);
    DifatFacts(slots, contents, ints, b, k);
    assert |a.difatSectors| == |b.difatSectors|;
    if k > 0 {
      DifatPrefixUnique(slots, contents, ints, a, b, k - 1);
      DifatSectorUnique(contents, ints, a, b, k - 1);
    }
  }

  lemma DifatFacts(slots: seq<nat>, contents: seq<byte>, ints: nat, t: Tables, k: nat)
    requires ints > 0 && |slots| == HEADER_SLOTS && DifatDecodes(slots, contents, ints, t)
    ensures |t.difatSectors| == t.header.numDifatSectors
    ensures |t.difat| == HEADER_SLOTS + Entries(ints, |t.difatSectors|) && t.difat[..HEADER_SLOTS] == slots
    ensures k <= |t.difatSectors| ==> HEADER_SLOTS + Entries(ints, k) <= |t.difat|
    ensures k == 0 ==> Entries(ints, k) == 0
    ensures 0 < k <= |t.difatSectors| ==>
              Entries(ints, k) == Entries(ints, k - 1) + ints && DifatSectorDecodes(contents, ints, t, k - 1)
  {
    hide DifatSectorDecodes;
    if k <= |t.difatSectors| {
      MulLe(k, |t.difatSectors|, ints);
    }
  }

  /** Tables that agree up to a DIFAT sector agree on that sector. */
  lemma DifatSectorUnique(contents: seq<byte>, ints: nat, a: Tables, b: Tables, k: nat)
    requires ints > 0 && a.header == b.header && |a.difat| == |b.difat|
    requires k < |a.difatSectors| && k < |b.difatSectors| && a.difatSectors[..k] == b.difatSectors[..k]
    requires DifatSectorDecodes(contents, ints, a, k) && DifatSectorDecodes(contents, ints, b, k)
    requires a.difat[..HEADER_SLOTS + Entries(ints, k)] == b.difat[..HEADER_SLOTS + Entries(ints, k)]
    ensures a.difat[..HEADER_SLOTS + Entries(ints, k) + ints] == b.difat[..HEADER_SLOTS + Entries(ints, k) + ints]
    ensures a.difatSectors[..k + 1] == b.difatSectors[..k + 1]
  {
    hide DifatSectorDecodes, Entries;
    SameDifatSector(contents, ints, a, b, k);
    var n := HEADER_SLOTS + Entries(ints, k);
    assert a.difatSectors[..k + 1] == a.difatSectors[..k] + [a.difatSectors[k]];
    assert b.difatSectors[..k + 1] == b.difatSectors[..k] + [b.difatSectors[k]];
    assert a.difat[..n + ints] == a.difat[..n] + Block(a.difat, ints, n);
    assert b.difat[..n + ints] == b.difat[..n] + Block(b.difat, ints, n);
  }

  lemma SameDifatSector(contents: seq<byte>, ints: nat, a: Tables, b: Tables, k: nat)
    requires ints > 0 && a.header == b.header && |a.difat| == |b.difat|
    requires k < |a.difatSectors| && k < |b.difatSectors|
    requires DifatSectorDecodes(contents, ints, a, k) && DifatSectorDecodes(contents, ints, b, k)
    requires a.difat[..HEADER_SLOTS + Entries(ints, k)] == b.difat[..HEADER_SLOTS + Entries(ints, k)]
    ensures a.difatSectors[k] == b.difatSectors[k]
    ensures var n := HEADER_SLOTS + Entries(ints, k);
            n + ints <= |a.difat| && Block(a.difat, ints, n) == Block(b.difat, ints, n)
  {
    hide SectorInts, HasSector, Block;
    if k > 0 {
      var n, c := HEADER_SLOTS + Entries(ints, k), ChainSlot(ints, k - 1);
      assert Entries(ints, k) == Entries(ints, k - 1) + ints;
      hide Entries;
      assert a.difat[c] == a.difat[..n][c] && b.difat[c] == b.difat[..n][c];
    }
  }

  lemma FatUnique(contents: seq<byte>, ints: nat, f: seq<nat>, g: seq<nat>, sectors: seq<nat>)
    requires ints > 0 && FatDecodes(contents, ints, f, sectors) && FatDecodes(contents, ints, g, sectors)
    ensures f == g
  {
    forall i | 0 <= i < |f|
      ensures f[i] == g[i]
    {
      var j, r := i / ints, i % ints;
      assert i == Entries(ints, j) + r;
      assert j < |sectors| by {
        if j >= |sectors| {
          MulLe(|sectors|, j, ints);
        }
      }
      hide Entries, SectorInts, HasSector;
      assert FatSectorDecodes(contents, ints, f, sectors, j) && FatSectorDecodes(contents, ints, g, sectors, j);
      assert f[i] == Block(f, ints, Entries(ints, j))[r] && g[i] == Block(g, ints, Entries(ints, j))[r];
    }
  }

  /** Reading is a function: a file determines its header, DIFAT, DIFAT sectors and FAT. */
  lemma TablesUnique(file: seq<byte>, ints: nat, a: Tables, b: Tables)
    requires TablesDecode(file, ints, a) && TablesDecode(file, ints, b)
    ensures a == b
  {
    var n := |a.difatSectors|;
    DifatPrefixUnique(HeaderSlots(file), Contents(file, ints), ints, a, b, n);
    assert a.difat == a.difat[..HEADER_SLOTS + Entries(ints, n)] && b.difat == b.difat[..HEADER_SLOTS + Entries(ints, n)];
    assert a.difatSectors == a.difatSectors[..n] && b.difatSectors == b.difatSectors[..n];
    FatUnique(Contents(file, ints), ints, a.fat, b.fat, Live(a.difat, ints));
  }
}
