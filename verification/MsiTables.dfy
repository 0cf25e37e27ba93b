/**
 The sector allocator of a compound file: the FAT, the DIFAT that lists the FAT's own sectors, and
 the chain of DIFAT sectors.  `Round` is one step of growth with the recursion taken out; `Grow`
 repeats it until enough free entries end the FAT.  The class `MsiBinary` runs the recursive form
 and is proved to compute these functions.
 */
module MsiTables {
  import opened Bytes
  import opened MsiFormat
  import opened Arith

  datatype Tables = Tables(header: Header, fat: seq<nat>, difat: seq<nat>, difatSectors: seq<nat>)

  function Repeat(x: nat, n: nat): (r: seq<nat>)
    ensures |r| == n && forall i :: 0 <= i < n ==> r[i] == x
  {
    seq(n, _ => x)
  }

  // ---------------------------------------------------------------- free entries at the end

  /** Index of the first entry of the run of free entries that ends the FAT. */
  function FirstFree(fat: seq<nat>): (r: nat)
    ensures r <= |fat|
    ensures forall i :: r <= i < |fat| ==> fat[i] == FREESECT
    ensures r > 0 ==> fat[r - 1] != FREESECT
  {
    if |fat| > 0 && fat[|fat| - 1] == FREESECT then FirstFree(fat[..|fat| - 1]) else |fat|
  }

  function FreeAtEnd(fat: seq<nat>): nat {
    |fat| - FirstFree(fat)
  }

  /** The run is determined by where it starts. */
  lemma FirstFreeIs(fat: seq<nat>, r: nat)
    requires r <= |fat| && (forall i :: r <= i < |fat| ==> fat[i] == FREESECT)
    requires r > 0 ==> fat[r - 1] != FREESECT
    ensures FirstFree(fat) == r
  {
    var f := FirstFree(fat);
  }

  // ---------------------------------------------------------------- live DIFAT entries

  predicate IsLive(difat: seq<nat>, ints: nat, i: nat)
    requires ints > 0 && i < |difat|
  {
    difat[i] != FREESECT && difat[i] != ENDOFCHAIN && !IsLastInSector(ints, i)
  }

  /** The FAT sectors named by the first `k` DIFAT entries, in order. */
  function LiveUpTo(difat: seq<nat>, ints: nat, k: nat): (r: seq<nat>)
    requires ints > 0 && k <= |difat|
    ensures |r| <= k
  {
    if k == 0 then []
    else LiveUpTo(difat, ints, k - 1) + (if IsLive(difat, ints, k - 1) then [difat[k - 1]] else [])
  }

  function Live(difat: seq<nat>, ints: nat): seq<nat>
    requires ints > 0
  {
    LiveUpTo(difat, ints, |difat|)
  }

  lemma {:induction false} LiveMembers(difat: seq<nat>, ints: nat, k: nat)
    requires ints > 0 && k <= |difat|
    ensures forall i :: 0 <= i < k && IsLive(difat, ints, i) ==> difat[i] in LiveUpTo(difat, ints, k)
    ensures forall s :: s in LiveUpTo(difat, ints, k) ==> exists i :: 0 <= i < k && IsLive(difat, ints, i) && difat[i] == s
  {
    if k > 0 {
      LiveMembers(difat, ints, k - 1);
    }
  }

  lemma {:induction false} LiveSame(a: seq<nat>, b: seq<nat>, ints: nat, k: nat)
    requires ints > 0 && k <= |a| && k <= |b|
    requires forall i :: 0 <= i < k ==> (IsLive(a, ints, i) <==> IsLive(b, ints, i))
    requires forall i :: 0 <= i < k && IsLive(a, ints, i) ==> a[i] == b[i]
    ensures LiveUpTo(a, ints, k) == LiveUpTo(b, ints, k)
  {
    if k > 0 {
      LiveSame(a, b, ints, k - 1);
    }
  }

  lemma {:induction false} LiveDeadTail(difat: seq<nat>, ints: nat, k: nat, n: nat)
    requires ints > 0 && k <= n <= |difat|
    requires forall i :: k <= i < n ==> !IsLive(difat, ints, i)
    ensures LiveUpTo(difat, ints, n) == LiveUpTo(difat, ints, k)
  {
    if k < n {
      LiveDeadTail(difat, ints, k, n - 1);
    }
  }

  lemma OneLiveEntry(difat: seq<nat>, ints: nat)
    requires ints > 0 && |difat| == HEADER_SLOTS && difat[0] == 0 && forall i :: 0 < i < |difat| ==> difat[i] == FREESECT
    ensures Live(difat, ints) == [0]
  {
    LiveDeadTail(difat, ints, 1, |difat|);
    assert LiveUpTo(difat, ints, 1) == [0];
  }

  /** Filling a slot after every live entry appends to the list of FAT sectors. */
  lemma LiveAssign(difat: seq<nat>, ints: nat, slot: nat, sector: nat)
    requires ints > 0 && slot < |difat| && !IsLastInSector(ints, slot)
    requires forall i :: slot <= i < |difat| ==> !IsLive(difat, ints, i)
    requires sector != FREESECT && sector != ENDOFCHAIN
    ensures Live(difat[slot := sector], ints) == Live(difat, ints) + [sector]
  {
    var d := difat[slot := sector];
    LiveSame(difat, d, ints, slot);
    LiveDeadTail(difat, ints, slot, |difat|);
    assert forall i :: slot < i < |d| ==> !IsLive(difat, ints, i) && d[i] == difat[i];
    LiveDeadTail(d, ints, slot + 1, |d|);
  }

  // ---------------------------------------------------------------- DIFAT slots

  /** True when the tail of the DIFAT, apart from a final end-of-chain marker, is free. */
  predicate DifatHasFree(difat: seq<nat>)
    requires |difat| >= HEADER_SLOTS
  {
    var i := |difat| - 1;
    if difat[i] == ENDOFCHAIN then difat[i - 1] == FREESECT else difat[i] == FREESECT
  }

  /** Walking down from `k`, the start of the run of free slots, passing over sector links. */
  function FreeSlotFrom(difat: seq<nat>, ints: nat, k: nat): (r: nat)
    requires ints > 0 && k < |difat|
    ensures r <= k
  {
    if k >= 1 && (difat[k - 1] == FREESECT || (IsLastInSector(ints, k - 1) && difat[k - 2] == FREESECT))
    then FreeSlotFrom(difat, ints, k - 1)
    else k
  }

  function FirstFreeSlot(difat: seq<nat>, ints: nat): nat
    requires ints > 0 && |difat| > 0
  {
    FreeSlotFrom(difat, ints, |difat| - 1)
  }

  /** What every reachable DIFAT looks like: whole sectors after the header slots, the last one ending the chain. */
  ghost predicate DifatShape(difat: seq<nat>, ints: nat, sectors: nat) {
    && ints >= 128
    && |difat| == HEADER_SLOTS + Entries(ints, sectors)
    && difat[0] != FREESECT
    && (sectors > 0 ==> difat[|difat| - 1] == ENDOFCHAIN)
    && (sectors == 0 ==> difat[|difat| - 1] != ENDOFCHAIN)
    && (forall i :: 0 <= i < |difat| && IsLastInSector(ints, i) ==> difat[i] != FREESECT)
  }

  lemma LastIsChain(ints: nat, sectors: nat, i: nat)
    requires ints >= 128
    ensures sectors > 0 ==> IsLastInSector(ints, HEADER_SLOTS + Entries(ints, sectors) - 1)
    ensures HEADER_SLOTS + Entries(ints, sectors) <= i < HEADER_SLOTS + Entries(ints, sectors) + ints - 1 ==> !IsLastInSector(ints, i)
  {
    if sectors > 0 {
      assert HEADER_SLOTS + Entries(ints, sectors) - 1 - HEADER_SLOTS + 1 == Entries(ints, sectors);
      MultipleMod(ints, sectors, 0);
      assert Entries(ints, sectors) >= ints;
    }
    if HEADER_SLOTS + Entries(ints, sectors) <= i < HEADER_SLOTS + Entries(ints, sectors) + ints - 1 {
      MultipleMod(ints, sectors, i - HEADER_SLOTS - Entries(ints, sectors) + 1);
    }
  }

  /** The slot found holds FREESECT, is no sector link, and starts the run of free slots. */
  ghost predicate IsFirstFreeSlot(difat: seq<nat>, ints: nat, r: nat)
    requires ints > 0
  {
    && 1 <= r < |difat| && difat[r] == FREESECT && !IsLastInSector(ints, r)
    && (forall i :: r < i < |difat| ==> IsLastInSector(ints, i) || difat[i] == FREESECT)
    && difat[r - 1] != FREESECT
    && (IsLastInSector(ints, r - 1) ==> difat[r - 2] != FREESECT)
  }

  lemma {:induction false} FreeSlotFromIsFree(difat: seq<nat>, ints: nat, sectors: nat, k: nat)
    requires DifatShape(difat, ints, sectors) && 1 <= k < |difat|
    requires difat[k] == FREESECT || (IsLastInSector(ints, k) && difat[k - 1] == FREESECT)
    requires forall i :: k < i < |difat| ==> IsLastInSector(ints, i) || difat[i] == FREESECT
    ensures IsFirstFreeSlot(difat, ints, FreeSlotFrom(difat, ints, k))
  {
    if difat[k - 1] == FREESECT || (IsLastInSector(ints, k - 1) && difat[k - 2] == FREESECT) {
      FreeSlotFromIsFree(difat, ints, sectors, k - 1);
    }
  }

  lemma FirstFreeSlotIsFree(difat: seq<nat>, ints: nat, sectors: nat)
    requires DifatShape(difat, ints, sectors) && DifatHasFree(difat)
    ensures IsFirstFreeSlot(difat, ints, FirstFreeSlot(difat, ints))
  {
    if sectors > 0 {
      LastIsChain(ints, sectors, 0);
    }
    FreeSlotFromIsFree(difat, ints, sectors, |difat| - 1);
  }

  // ---------------------------------------------------------------- growth

  /** Another DIFAT sector, not yet linked. */
  function ExtendDifat(difat: seq<nat>, ints: nat): (d: seq<nat>)
    requires ints > 0
    ensures |d| == |difat| + ints
  {
    difat + Repeat(FREESECT, ints - 1) + [ENDOFCHAIN]
  }

  /** Links the DIFAT sector stored in `sector`, whose predecessor's link is slot `oldTail`. */
  function LinkDifat(t: Tables, oldTail: nat, sector: nat): (r: Tables)
    requires oldTail < |t.difat| && sector < |t.fat|
    ensures |r.fat| == |t.fat| && |r.difat| == |t.difat|
  {
    var first := t.header.numDifatSectors == 0;
    Tables(
      t.header.(firstDifatSector := if first then sector else t.header.firstDifatSector,
                numDifatSectors := t.header.numDifatSectors + 1),
      t.fat[sector := DIFSECT],
      if first then t.difat else t.difat[oldTail := sector],
      t.difatSectors + [sector])
  }

  function AddDifatSector(t: Tables, ints: nat, sector: nat): (r: Tables)
    requires ints > 0 && |t.difat| > 0 && sector < |t.fat|
    ensures |r.difat| == |t.difat| + ints && |r.fat| == |t.fat|
  {
    LinkDifat(t.(difat := ExtendDifat(t.difat, ints)), |t.difat| - 1, sector)
  }

  /** A FAT longer by one sector, which takes the first free sector for itself. */
  function FatAppended(t: Tables, ints: nat): (r: Tables)
    requires ints > 0
    ensures |r.fat| == |t.fat| + ints && r.difat == t.difat
  {
    t.(fat := (t.fat + Repeat(FREESECT, ints))[FirstFree(t.fat) := FATSECT])
  }

  /** One more FAT sector in the header's count. */
  function Counted(t: Tables): Tables {
    t.(header := t.header.(numFatSectors := t.header.numFatSectors + 1))
  }

  function AddFatSector(t: Tables, ints: nat): (r: Tables)
    requires ints > 0
    ensures |r.fat| == |t.fat| + ints && r.difat == t.difat
  {
    Counted(FatAppended(t, ints))
  }

  /** Room in the DIFAT for one more entry. */
  function MakeRoom(t: Tables, ints: nat, sector: nat): (r: Tables)
    requires ints > 0 && |t.difat| >= HEADER_SLOTS && sector < |t.fat|
    ensures |r.difat| >= |t.difat| && |r.fat| == |t.fat|
  {
    if DifatHasFree(t.difat) then t else AddDifatSector(t, ints, sector)
  }

  function RecordFatSector(t: Tables, ints: nat, sector: nat): (r: Tables)
    requires ints > 0 && |t.difat| > 0
    ensures |r.difat| == |t.difat| && r.fat == t.fat
  {
    t.(difat := t.difat[FirstFreeSlot(t.difat, ints) := sector])
  }

  /**
   One more FAT sector.  It is stored in the first free sector `f` and recorded in the DIFAT; when the
   DIFAT is full, sector `f + 1` becomes a DIFAT sector first.
   */
  function Round(t: Tables, ints: nat): (r: Tables)
    requires ints >= 128 && |t.difat| >= HEADER_SLOTS
    ensures |r.fat| == |t.fat| + ints && |r.difat| >= |t.difat|
  {
    var f := FirstFree(t.fat);
    RecordFatSector(MakeRoom(AddFatSector(t, ints), ints, f + 1), ints, f)
  }

  lemma RoundFree(t: Tables, ints: nat)
    requires ints >= 128 && |t.difat| >= HEADER_SLOTS
    ensures var f := FirstFree(t.fat);
            FirstFree(Round(t, ints).fat) == if DifatHasFree(t.difat) then f + 1 else f + 2
    ensures FreeAtEnd(Round(t, ints).fat) >= FreeAtEnd(t.fat) + ints - 2
  {
    var f := FirstFree(t.fat);
    var r := Round(t, ints).fat;
    FirstFreeIs(r, if DifatHasFree(t.difat) then f + 1 else f + 2);
  }

  /** Rounds repeated until at least `n` free entries end the FAT. */
  function Grow(t: Tables, ints: nat, n: nat): (r: Tables)
    requires ints >= 128 && |t.difat| >= HEADER_SLOTS
    ensures FreeAtEnd(r.fat) >= n && |r.difat| >= |t.difat| && |r.fat| >= |t.fat|
    decreases n - FreeAtEnd(t.fat)
  {
    if FreeAtEnd(t.fat) >= n then t
    else
      RoundFree(t, ints);
      Grow(Round(t, ints), ints, n)
  }

  // ---------------------------------------------------------------- the invariant

  /** The slot of DIFAT sector `k` that links to sector `k + 1`. */
  function ChainSlot(ints: nat, k: nat): nat {
    HEADER_SLOTS + Entries(ints, k) + ints - 1
  }

  /** Every DIFAT entry that is no link is free or names a sector the FAT marks as its own. */
  ghost predicate SlotsNameFatSectors(t: Tables, ints: nat)
    requires ints > 0
  {
    && (forall i :: 0 <= i < |t.difat| && !IsLastInSector(ints, i) ==>
          t.difat[i] == FREESECT || (t.difat[i] < |t.fat| && t.fat[t.difat[i]] == FATSECT))
    && (forall i, j :: 0 <= i < j < |t.difat| && IsLive(t.difat, ints, i) && IsLive(t.difat, ints, j) ==>
          t.difat[i] != t.difat[j])
  }

  ghost predicate DifatSectorsMarked(t: Tables) {
    && (forall k :: 0 <= k < |t.difatSectors| ==>
          t.difatSectors[k] < |t.fat| && t.fat[t.difatSectors[k]] == DIFSECT)
    && (forall k, l :: 0 <= k < l < |t.difatSectors| ==> t.difatSectors[k] != t.difatSectors[l])
  }

  /** The links of the DIFAT chain spell out `difatSectors`. */
  ghost predicate DifatLinked(t: Tables, ints: nat)
    requires |t.difat| == HEADER_SLOTS + Entries(ints, |t.difatSectors|)
  {
    && t.header.numDifatSectors == |t.difatSectors|
    && (t.difatSectors != [] ==> t.header.firstDifatSector == t.difatSectors[0])
    && (forall k :: 0 <= k < |t.difatSectors| - 1 ==>
          ChainSlot(ints, k) < |t.difat| && t.difat[ChainSlot(ints, k)] == t.difatSectors[k + 1])
  }

  /** All of the invariant except that the FAT's length agrees with the DIFAT. */
  ghost predicate Consistent(t: Tables, ints: nat) {
    && DifatShape(t.difat, ints, |t.difatSectors|)
    && DifatLinked(t, ints)
    && SlotsNameFatSectors(t, ints)
    && DifatSectorsMarked(t)
    && |t.fat| <= MAX_SECTORS
  }

  ghost predicate TablesInv(t: Tables, ints: nat) {
    && Consistent(t, ints)
    && |t.fat| == Entries(ints, |Live(t.difat, ints)|)
    && t.header.numFatSectors == |Live(t.difat, ints)|
  }

  lemma AddFatSectorConsistent(t: Tables, ints: nat)
    requires Consistent(t, ints) && |t.fat| + ints <= MAX_SECTORS
    ensures Consistent(AddFatSector(t, ints), ints)
    ensures var f, fat := FirstFree(t.fat), AddFatSector(t, ints).fat;
            fat[f] == FATSECT && fat[f + 1] == FREESECT && f !in Live(t.difat, ints)
  {
    var f, fat := FirstFree(t.fat), AddFatSector(t, ints).fat;
    assert forall s :: 0 <= s < |t.fat| && t.fat[s] != FREESECT ==> fat[s] == t.fat[s];
    NotLive(t, ints, f);
  }

  lemma AssignKeepsShape(t: Tables, ints: nat, slot: nat, f: nat)
    requires DifatShape(t.difat, ints, |t.difatSectors|) && DifatLinked(t, ints)
    requires 1 <= slot < |t.difat| && !IsLastInSector(ints, slot) && f < MAX_SECTORS
    ensures var d := t.difat[slot := f];
            DifatShape(d, ints, |t.difatSectors|) && DifatLinked(t.(difat := d), ints)
  {
    var d, n := t.difat[slot := f], |t.difatSectors|;
    LastIsChain(ints, n, 0);
    forall k | 0 <= k < n - 1
      ensures ChainSlot(ints, k) < |d| && d[ChainSlot(ints, k)] == t.difatSectors[k + 1]
    {
      LastIsChain(ints, k + 1, 0);
      assert Entries(ints, k + 1) == Entries(ints, k) + ints;
    }
  }

  lemma AssignKeepsSlots(t: Tables, ints: nat, slot: nat, f: nat)
    requires ints > 0 && SlotsNameFatSectors(t, ints)
    requires slot < |t.difat| && f < |t.fat| && t.fat[f] == FATSECT && f !in Live(t.difat, ints)
    ensures SlotsNameFatSectors(t.(difat := t.difat[slot := f]), ints)
  {
    var d := t.difat[slot := f];
    LiveMembers(t.difat, ints, |t.difat|);
    forall i, j | 0 <= i < j < |d| && IsLive(d, ints, i) && IsLive(d, ints, j)
      ensures d[i] != d[j]
    {
      assert i != slot ==> IsLive(t.difat, ints, i);
      assert j != slot ==> IsLive(t.difat, ints, j);
    }
  }

  lemma SlotForRecord(t: Tables, ints: nat)
    requires Consistent(t, ints) && DifatHasFree(t.difat)
    ensures var slot := FirstFreeSlot(t.difat, ints);
            && 1 <= slot < |t.difat| && !IsLastInSector(ints, slot)
            && (forall i :: slot <= i < |t.difat| ==> !IsLive(t.difat, ints, i))
  {
    FirstFreeSlotIsFree(t.difat, ints, |t.difatSectors|);
    hide IsLastInSector;
  }

  lemma RecordConsistent(t: Tables, ints: nat, f: nat)
    requires Consistent(t, ints) && DifatHasFree(t.difat)
    requires f < |t.fat| && t.fat[f] == FATSECT && f !in Live(t.difat, ints)
    ensures Consistent(RecordFatSector(t, ints, f), ints)
    ensures Live(RecordFatSector(t, ints, f).difat, ints) == Live(t.difat, ints) + [f]
  {
    var slot := FirstFreeSlot(t.difat, ints);
    hide DifatShape, DifatLinked, SlotsNameFatSectors, DifatSectorsMarked, Live, FirstFreeSlot;
    SlotForRecord(t, ints);
    hide IsLastInSector, IsLive;
    AssignKeepsShape(t, ints, slot, f);
    AssignKeepsSlots(t, ints, slot, f);
    LiveAssign(t.difat, ints, slot, f);
    assert DifatSectorsMarked(RecordFatSector(t, ints, f)) by { MarkedSame(t, RecordFatSector(t, ints, f)); }
  }

  lemma MarkedSame(t: Tables, t': Tables)
    requires DifatSectorsMarked(t) && t.fat == t'.fat && t.difatSectors == t'.difatSectors
    ensures DifatSectorsMarked(t')
  {
  }

  lemma NewSlotsFree(difat: seq<nat>, ints: nat, sectors: nat)
    requires ints >= 128 && |difat| == HEADER_SLOTS + Entries(ints, sectors)
    ensures var d := ExtendDifat(difat, ints);
            && (forall i :: |difat| <= i < |d| - 1 ==> !IsLastInSector(ints, i) && d[i] == FREESECT)
            && IsLastInSector(ints, |d| - 1)
            && (sectors > 0 ==> IsLastInSector(ints, |difat| - 1))
  {
    var d := ExtendDifat(difat, ints);
    assert Entries(ints, sectors + 1) == Entries(ints, sectors) + ints;
    LastIsChain(ints, sectors, 0);
    LastIsChain(ints, sectors + 1, 0);
    forall i | |difat| <= i < |d| - 1
      ensures !IsLastInSector(ints, i) && d[i] == FREESECT
    {
      LastIsChain(ints, sectors, i);
    }
  }

  /** The DIFAT after a new sector is appended and, with `link`, the old last slot points to it. */
  function LinkedDifat(difat: seq<nat>, ints: nat, link: bool, tail: nat): (d: seq<nat>)
    requires ints > 0 && |difat| > 0
    ensures |d| == |difat| + ints
  {
    var d := ExtendDifat(difat, ints);
    if link then d[|difat| - 1 := tail] else d
  }

  /** A new DIFAT sector, once linked, holds no live entry. */
  lemma LinkedDifatLive(difat: seq<nat>, ints: nat, sectors: nat, link: bool, tail: nat)
    requires ints >= 128 && |difat| == HEADER_SLOTS + Entries(ints, sectors) && (link ==> sectors > 0)
    ensures Live(LinkedDifat(difat, ints, link, tail), ints) == Live(difat, ints)
  {
    var d := LinkedDifat(difat, ints, link, tail);
    NewSlotsFree(difat, ints, sectors);
    hide IsLastInSector;
    LiveSame(difat, d, ints, |difat|);
    LiveDeadTail(d, ints, |difat|, |d|);
  }

  lemma LinkedDifatShape(difat: seq<nat>, ints: nat, sectors: nat, link: bool, tail: nat)
    requires DifatShape(difat, ints, sectors) && tail != FREESECT
    ensures var d := LinkedDifat(difat, ints, link, tail);
            DifatShape(d, ints, sectors + 1) && DifatHasFree(d)
  {
    NewSlotsFree(difat, ints, sectors);
    assert Entries(ints, sectors + 1) == Entries(ints, sectors) + ints;
    hide IsLastInSector;
  }

  lemma LinkKeepsChain(t: Tables, ints: nat, sector: nat)
    requires DifatShape(t.difat, ints, |t.difatSectors|) && DifatLinked(t, ints)
    requires sector < |t.fat|
    ensures var t' := AddDifatSector(t, ints, sector);
            |t'.difat| == HEADER_SLOTS + Entries(ints, |t'.difatSectors|) && DifatLinked(t', ints)
  {
    var n := |t.difatSectors|;
    var t' := AddDifatSector(t, ints, sector);
    assert Entries(ints, n + 1) == Entries(ints, n) + ints;
    forall k | 0 <= k < n
      ensures ChainSlot(ints, k) < |t'.difat| && t'.difat[ChainSlot(ints, k)] == t'.difatSectors[k + 1]
    {
      MulLe(k + 1, n, ints);
      assert Entries(ints, k + 1) == Entries(ints, k) + ints;
      if k == n - 1 {
        assert ChainSlot(ints, k) == |t.difat| - 1;
      } else {
        assert t.difat[ChainSlot(ints, k)] == t.difatSectors[k + 1];
        MulLe(k + 2, n, ints);
        assert Entries(ints, k + 2) == Entries(ints, k) + ints + ints;
        assert ChainSlot(ints, k) < |t.difat| - 1;
      }
    }
  }

  lemma AddDifatSectorSlots(t: Tables, ints: nat, sector: nat)
    requires Consistent(t, ints) && sector < |t.fat| && t.fat[sector] == FREESECT
    ensures SlotsNameFatSectors(AddDifatSector(t, ints, sector), ints)
    ensures DifatSectorsMarked(AddDifatSector(t, ints, sector))
  {
    NewSlotsFree(t.difat, ints, |t.difatSectors|);
    LinkKeepsSlots(t, AddDifatSector(t, ints, sector), ints);
  }

  lemma AddDifatSectorShape(t: Tables, ints: nat, sector: nat)
    requires DifatShape(t.difat, ints, |t.difatSectors|) && sector < |t.fat| <= MAX_SECTORS
    requires t.header.numDifatSectors == |t.difatSectors|
    ensures var t' := AddDifatSector(t, ints, sector);
            && DifatShape(t'.difat, ints, |t'.difatSectors|)
            && DifatHasFree(t'.difat) && Live(t'.difat, ints) == Live(t.difat, ints)
  {
    LinkedDifatShape(t.difat, ints, |t.difatSectors|, t.difatSectors != [], sector);
    LinkedDifatLive(t.difat, ints, |t.difatSectors|, t.difatSectors != [], sector);
    hide Live, DifatShape;
  }

  lemma MakeRoomConsistent(t: Tables, ints: nat, sector: nat)
    requires Consistent(t, ints) && sector < |t.fat| && t.fat[sector] == FREESECT
    ensures var t' := MakeRoom(t, ints, sector);
            Consistent(t', ints) && DifatHasFree(t'.difat) && Live(t'.difat, ints) == Live(t.difat, ints)
  {
    if !DifatHasFree(t.difat) {
      AddDifatSectorSlots(t, ints, sector);
      AddDifatSectorShape(t, ints, sector);
      LinkKeepsChain(t, ints, sector);
      hide SlotsNameFatSectors, DifatSectorsMarked, DifatShape, DifatLinked;
    }
  }

  /** Slots keep naming FAT sectors when no FATSECT mark goes and live entries stay put. */
  lemma LinkKeepsSlots(t: Tables, t': Tables, ints: nat)
    requires ints >= 128 && SlotsNameFatSectors(t, ints)
    requires |t.difat| <= |t'.difat| && |t.fat| <= |t'.fat|
    requires forall s :: 0 <= s < |t.fat| && t.fat[s] == FATSECT ==> t'.fat[s] == FATSECT
    requires forall i :: 0 <= i < |t.difat| && !IsLastInSector(ints, i) ==> t'.difat[i] == t.difat[i]
    requires forall i :: |t.difat| <= i < |t'.difat| && !IsLastInSector(ints, i) ==> t'.difat[i] == FREESECT
    ensures SlotsNameFatSectors(t', ints)
  {
    forall i | 0 <= i < |t'.difat| && IsLive(t'.difat, ints, i)
      ensures i < |t.difat| && IsLive(t.difat, ints, i)
    {
    }
  }

  /** Sectors below the old free run keep their entries; the ones taken from it are FAT or DIFAT sectors. */
  ghost predicate FatGrewFrom(fat: seq<nat>, fat': seq<nat>) {
    && |fat| <= |fat'| && FirstFree(fat) <= FirstFree(fat')
    && fat'[..FirstFree(fat)] == fat[..FirstFree(fat)]
    && (forall s :: FirstFree(fat) <= s < FirstFree(fat') ==> fat'[s] == FATSECT || fat'[s] == DIFSECT)
  }

  lemma RoundGrew(t: Tables, ints: nat)
    requires ints >= 128 && |t.difat| >= HEADER_SLOTS
    ensures FatGrewFrom(t.fat, Round(t, ints).fat)
  {
    RoundFree(t, ints);
  }

  lemma ConsistentBasics(t: Tables, ints: nat)
    requires Consistent(t, ints)
    ensures ints >= 128 && |t.difat| >= HEADER_SLOTS && |t.fat| <= MAX_SECTORS
  {
  }

  lemma RoundConsistent(t: Tables, ints: nat)
    requires Consistent(t, ints) && |t.fat| + ints <= MAX_SECTORS
    ensures ints >= 128 && |t.difat| >= HEADER_SLOTS
    ensures Consistent(Round(t, ints), ints)
    ensures Live(Round(t, ints).difat, ints) == Live(t.difat, ints) + [FirstFree(t.fat)]
  {
    hide Consistent, Live, FirstFree, DifatHasFree;
    ConsistentBasics(t, ints);
    AddFatSectorConsistent(t, ints);
    var f, t1 := FirstFree(t.fat), AddFatSector(t, ints);
    hide AddFatSector;
    MakeRoomConsistent(t1, ints, f + 1);
    var t2 := MakeRoom(t1, ints, f + 1);
    assert t2.fat[f] == t1.fat[f];
    hide MakeRoom;
    RecordConsistent(t2, ints, f);
  }

  lemma RoundCounts(t: Tables, ints: nat)
    requires ints >= 128 && |t.difat| >= HEADER_SLOTS
    ensures Round(t, ints).header.numFatSectors == t.header.numFatSectors + 1
  {
    hide FirstFreeSlot, DifatHasFree, FirstFree;
  }

  /** The invariant survives one round, which records the new FAT sector behind all the others. */
  lemma RoundKeepsInv(t: Tables, ints: nat)
    requires TablesInv(t, ints) && |t.fat| + ints <= MAX_SECTORS
    ensures TablesInv(Round(t, ints), ints)
    ensures Live(Round(t, ints).difat, ints) == Live(t.difat, ints) + [FirstFree(t.fat)]
  {
    hide Consistent, Live, FirstFree;
    RoundConsistent(t, ints);
    hide Round;
    RoundCounts(t, ints);
    assert Entries(ints, |Live(t.difat, ints)| + 1) == Entries(ints, |Live(t.difat, ints)|) + ints;
  }

  lemma NotLive(t: Tables, ints: nat, s: nat)
    requires Consistent(t, ints) && (s < |t.fat| ==> t.fat[s] != FATSECT)
    ensures s !in Live(t.difat, ints)
  {
    LiveMembers(t.difat, ints, |t.difat|);
  }

  /** The invariant, the FAT's old part and the order of the FAT's sectors survive any amount of growth. */
  lemma {:induction false} GrowKeepsInv(t: Tables, ints: nat, n: nat)
    requires TablesInv(t, ints) && |Grow(t, ints, n).fat| <= MAX_SECTORS
    ensures TablesInv(Grow(t, ints, n), ints)
    ensures Live(t.difat, ints) <= Live(Grow(t, ints, n).difat, ints)
    ensures FatGrewFrom(t.fat, Grow(t, ints, n).fat)
    decreases n - FreeAtEnd(t.fat)
  {
    hide TablesInv, FatGrewFrom, Round, Live, FirstFree;
    InvBasics(t, ints);
    if FreeAtEnd(t.fat) >= n {
      FatGrewReflexive(t.fat);
    } else {
      RoundFree(t, ints);
      RoundGrew(t, ints);
      RoundKeepsInv(t, ints);
      GrowKeepsInv(Round(t, ints), ints, n);
      FatGrewTransitive(t.fat, Round(t, ints).fat, Grow(t, ints, n).fat);
    }
  }

  lemma InvBasics(t: Tables, ints: nat)
    requires TablesInv(t, ints)
    ensures ints >= 128 && |t.difat| >= HEADER_SLOTS && |t.fat| <= MAX_SECTORS
  {
  }

  lemma FatGrewReflexive(fat: seq<nat>)
    ensures FatGrewFrom(fat, fat)
  {
  }

  lemma FatGrewTransitive(a: seq<nat>, b: seq<nat>, c: seq<nat>)
    requires FatGrewFrom(a, b) && FatGrewFrom(b, c)
    ensures FatGrewFrom(a, c)
  {
    var f, g := FirstFree(a), FirstFree(b);
    assert c[..f] == c[..g][..f] == b[..g][..f] == b[..f];
    forall s | f <= s < FirstFree(c)
      ensures c[s] == FATSECT || c[s] == DIFSECT
    {
      if s < g {
        assert c[s] == c[..g][s] == b[..g][s] == b[s];
      }
    }
  }

  /** `k` rounds suffice whenever `k * (ints - 2)` covers the shortage of free entries. */
  lemma {:induction false} GrowBound(t: Tables, ints: nat, n: nat, k: nat)
    requires ints >= 128 && |t.difat| >= HEADER_SLOTS
    requires n <= FreeAtEnd(t.fat) + k * (ints - 2)
    ensures |Grow(t, ints, n).fat| <= |t.fat| + k * ints
    decreases k
  {
    hide Round, FirstFree;
    if FreeAtEnd(t.fat) < n {
      RoundFree(t, ints);
      hide FreeAtEnd;
      assert k * (ints - 2) == (k - 1) * (ints - 2) + ints - 2;
      assert k * ints == (k - 1) * ints + ints;
      GrowBound(Round(t, ints), ints, n, k - 1);
    }
  }

  lemma GrowIdempotent(t: Tables, ints: nat, n: nat)
    requires ints >= 128 && |t.difat| >= HEADER_SLOTS
    ensures Grow(Grow(t, ints, n), ints, n) == Grow(t, ints, n)
  {
  }

  // ---------------------------------------------------------------- the recursive steps

  /** What the allocator's loops need; it also holds while a new DIFAT sector is not yet linked. */
  ghost predicate Ready(t: Tables, ints: nat) {
    && FirstFree(t.fat) > 0
    && exists sectors: nat :: DifatShape(t.difat, ints, sectors)
  }

  lemma ReadyBasics(t: Tables, ints: nat)
    requires Ready(t, ints)
    ensures ints >= 128 && |t.difat| >= HEADER_SLOTS && FirstFree(t.fat) > 0
  {
  }

  /** A free DIFAT slot, allocating a DIFAT sector (and, for it, perhaps a FAT sector) when there is none. */
  function EnsureDifat(t: Tables, ints: nat): (r: Tables)
    requires ints >= 128 && |t.difat| >= HEADER_SLOTS
    ensures |r.difat| >= HEADER_SLOTS
  {
    if DifatHasFree(t.difat) then t
    else
      var t1 := Grow(t.(difat := ExtendDifat(t.difat, ints)), ints, 1);
      LinkDifat(t1, |t.difat| - 1, FirstFree(t1.fat))
  }

  lemma EnsureDifatCases(t: Tables, ints: nat)
    requires ints >= 128 && |t.difat| >= HEADER_SLOTS
    ensures DifatHasFree(t.difat) ==> EnsureDifat(t, ints) == t
    ensures !DifatHasFree(t.difat) ==>
              var g := Grow(t.(difat := ExtendDifat(t.difat, ints)), ints, 1);
              EnsureDifat(t, ints) == LinkDifat(g, |t.difat| - 1, FirstFree(g.fat))
  {
  }

  function AssignDifat(t: Tables, ints: nat, sector: nat): (r: Tables)
    requires ints >= 128 && |t.difat| >= HEADER_SLOTS
  {
    RecordFatSector(EnsureDifat(t, ints), ints, sector)
  }

  /** Called for a new FAT sector, the nested allocation finds its sector in the new entries: it never recurses. */
  lemma RoundIsAssign(t: Tables, ints: nat)
    requires ints >= 128 && |t.difat| >= HEADER_SLOTS
    ensures var t1 := FatAppended(t, ints);
            var t2 := AssignDifat(t1, ints, FirstFree(t.fat));
            && FreeAtEnd(t1.fat) >= ints - 1
            && Grow(t1.(difat := ExtendDifat(t.difat, ints)), ints, 1) == t1.(difat := ExtendDifat(t.difat, ints))
            && Round(t, ints) == Counted(t2)
  {
    hide Grow, MakeRoom, EnsureDifat, RecordFatSector, FatAppended, Counted, ExtendDifat, FirstFree;
    NestedGrow(t, ints);
    RoomIsEnsured(t, ints);
    var t1 := FatAppended(t, ints);
    RecordCounted(EnsureDifat(t1, ints), ints, FirstFree(t.fat));
  }

  /** The request for one entry made from inside: the new FAT entries serve it. */
  lemma NestedGrow(t: Tables, ints: nat)
    requires ints >= 128 && |t.difat| >= HEADER_SLOTS
    ensures var t1 := FatAppended(t, ints);
            var e := t1.(difat := ExtendDifat(t.difat, ints));
            FreeAtEnd(t1.fat) >= ints - 1 && FirstFree(t1.fat) == FirstFree(t.fat) + 1 && Grow(e, ints, 1) == e
  {
    hide ExtendDifat;
    FirstFreeIs(FatAppended(t, ints).fat, FirstFree(t.fat) + 1);
    hide FirstFree;
  }

  /** Room made before and after the new FAT sector is counted. */
  lemma RoomIsEnsured(t: Tables, ints: nat)
    requires ints >= 128 && |t.difat| >= HEADER_SLOTS
    ensures var t1 := FatAppended(t, ints);
            MakeRoom(AddFatSector(t, ints), ints, FirstFree(t.fat) + 1) == Counted(EnsureDifat(t1, ints))
  {
    var f, t1 := FirstFree(t.fat), FatAppended(t, ints);
    var e := t1.(difat := ExtendDifat(t.difat, ints));
    NestedGrow(t, ints);
    hide FatAppended, Grow, ExtendDifat, FirstFree, DifatHasFree;
    EnsureDifatCases(t1, ints);
    LinkCounted(e, |t.difat| - 1, f + 1);
    hide EnsureDifat, LinkDifat;
  }

  lemma LinkCounted(t: Tables, oldTail: nat, sector: nat)
    requires oldTail < |t.difat| && sector < |t.fat|
    ensures LinkDifat(Counted(t), oldTail, sector) == Counted(LinkDifat(t, oldTail, sector))
  {
  }

  lemma RecordCounted(t: Tables, ints: nat, sector: nat)
    requires ints > 0 && |t.difat| > 0
    ensures RecordFatSector(Counted(t), ints, sector) == Counted(RecordFatSector(t, ints, sector))
  {
  }

  lemma RoundReady(t: Tables, ints: nat)
    requires Ready(t, ints) && |t.fat| + ints <= MAX_SECTORS
    ensures Ready(Round(t, ints), ints)
  {
    var sectors: nat :| DifatShape(t.difat, ints, sectors);
    RoundFree(t, ints);
    var f := FirstFree(t.fat);
    var t2 := MakeRoom(AddFatSector(t, ints), ints, f + 1);
    MakeRoomShape(AddFatSector(t, ints), ints, sectors, f + 1);
    var sectors': nat :| DifatShape(t2.difat, ints, sectors');
    RecordShape(t2, ints, sectors', f);
    hide MakeRoom, AddFatSector, RecordFatSector, FirstFree, DifatShape, DifatHasFree;
  }

  lemma MakeRoomShape(t: Tables, ints: nat, sectors: nat, sector: nat)
    requires DifatShape(t.difat, ints, sectors) && sector < |t.fat| <= MAX_SECTORS
    ensures var d := MakeRoom(t, ints, sector).difat;
            DifatHasFree(d) && exists sectors': nat :: DifatShape(d, ints, sectors')
  {
    if DifatHasFree(t.difat) {
      assert DifatShape(MakeRoom(t, ints, sector).difat, ints, sectors);
    } else {
      LinkedDifatShape(t.difat, ints, sectors, t.header.numDifatSectors != 0, sector);
      assert DifatShape(MakeRoom(t, ints, sector).difat, ints, sectors + 1);
    }
  }

  lemma RecordShape(t: Tables, ints: nat, sectors: nat, sector: nat)
    requires DifatShape(t.difat, ints, sectors) && DifatHasFree(t.difat) && sector < MAX_SECTORS
    ensures DifatShape(RecordFatSector(t, ints, sector).difat, ints, sectors)
  {
    FirstFreeSlotIsFree(t.difat, ints, sectors);
    LastIsChain(ints, sectors, 0);
  }

  /** The state in which a new FAT sector is handed to the DIFAT: its counter is not updated yet. */
  lemma FatAppendedReady(t: Tables, ints: nat)
    requires Ready(t, ints)
    ensures Ready(FatAppended(t, ints), ints) && FreeAtEnd(FatAppended(t, ints).fat) > 0
    ensures |EnsureDifat(FatAppended(t, ints), ints).fat| == |t.fat| + ints
  {
    RoundIsAssign(t, ints);
    assert FatAppended(t, ints).fat[FirstFree(t.fat)] == FATSECT;
  }

  lemma RoundFromAppended(t: Tables, ints: nat)
    requires ints >= 128 && |t.difat| >= HEADER_SLOTS
    ensures Round(t, ints) == Counted(AssignDifat(FatAppended(t, ints), ints, FirstFree(t.fat)))
  {
    RoundIsAssign(t, ints);
  }

  /** One pass through the allocator: everything its recursive calls rely on. */
  lemma GrowStep(t: Tables, ints: nat, n: nat)
    requires Ready(t, ints) && FreeAtEnd(t.fat) < n && |Grow(t, ints, n).fat| <= MAX_SECTORS
    ensures Grow(t, ints, n) == Grow(Round(t, ints), ints, n)
    ensures Ready(Round(t, ints), ints) && FreeAtEnd(Round(t, ints).fat) > FreeAtEnd(t.fat)
    ensures |t.fat| + ints <= MAX_SECTORS
  {
    hide Ready, Round, FreeAtEnd, FirstFree, DifatHasFree;
    ReadyBasics(t, ints);
    RoundFree(t, ints);
    RoundReady(t, ints);
  }

  lemma GrowByOne(t: Tables, ints: nat)
    requires ints >= 128 && |t.difat| >= HEADER_SLOTS
    ensures Grow(t, ints, 1) == if FreeAtEnd(t.fat) >= 1 then t else Round(t, ints)
  {
    if FreeAtEnd(t.fat) < 1 {
      RoundFree(t, ints);
    }
  }

  /** A freshly appended DIFAT sector still has a free slot after one FAT sector is recorded. */
  lemma ExtendedAndGrown(t: Tables, ints: nat, sectors: nat)
    requires DifatShape(t.difat, ints, sectors)
    requires FirstFree(t.fat) > 0
    ensures var e := t.(difat := ExtendDifat(t.difat, ints));
            && DifatShape(e.difat, ints, sectors + 1) && Ready(e, ints) && DifatHasFree(e.difat)
            && (|Grow(e, ints, 1).fat| <= MAX_SECTORS ==>
                  var g := Grow(e, ints, 1);
                  DifatShape(g.difat, ints, sectors + 1) && DifatHasFree(g.difat) && FirstFree(g.fat) > 0)
  {
    var e := t.(difat := ExtendDifat(t.difat, ints));
    LinkedDifatShape(t.difat, ints, sectors, false, 0);
    GrowByOne(e, ints);
    if FreeAtEnd(e.fat) == 0 && |t.fat| + ints <= MAX_SECTORS {
      RoundFree(e, ints);
      FirstFreeSlotIsFree(e.difat, ints, sectors + 1);
      RecordShape(AddFatSector(e, ints), ints, sectors + 1, FirstFree(t.fat));
      SlotLeft(t.difat, ints, FirstFreeSlot(e.difat, ints), FirstFree(t.fat));
    }
    hide DifatShape, Grow, ExtendDifat, DifatHasFree, FirstFree, FirstFreeSlot;
  }

  lemma SlotLeft(difat: seq<nat>, ints: nat, slot: nat, sector: nat)
    requires ints >= 128 && |difat| >= HEADER_SLOTS && IsFirstFreeSlot(ExtendDifat(difat, ints), ints, slot)
    ensures DifatHasFree(ExtendDifat(difat, ints)[slot := sector])
  {
    var d := ExtendDifat(difat, ints);
    assert d[|d| - 2] == FREESECT && d[|d| - 3] == FREESECT && d[|d| - 1] == ENDOFCHAIN;
    assert slot != |d| - 2 && slot != |d| - 1;
  }

  lemma LinkReady(t: Tables, ints: nat, sectors: nat, oldTail: nat, sector: nat)
    requires DifatShape(t.difat, ints, sectors) && DifatHasFree(t.difat)
    requires 0 < oldTail < |t.difat| - 2 && FirstFree(t.fat) <= sector < |t.fat| <= MAX_SECTORS
    ensures var r := LinkDifat(t, oldTail, sector);
            Ready(r, ints) && DifatHasFree(r.difat)
  {
    var r := LinkDifat(t, oldTail, sector);
    assert r.fat[sector] == DIFSECT;
    assert DifatShape(r.difat, ints, sectors);
  }

  lemma ShapeLength(difat: seq<nat>, ints: nat, sectors: nat)
    requires DifatShape(difat, ints, sectors)
    ensures ints >= 128 && |difat| >= HEADER_SLOTS && |difat| == HEADER_SLOTS + Entries(ints, sectors)
    ensures Entries(ints, sectors + 1) == Entries(ints, sectors) + ints
  {
  }

  lemma EnsureDifatReadyAt(t: Tables, ints: nat, sectors: nat)
    requires DifatShape(t.difat, ints, sectors) && FirstFree(t.fat) > 0 && !DifatHasFree(t.difat)
    requires |EnsureDifat(t, ints).fat| <= MAX_SECTORS
    ensures Ready(EnsureDifat(t, ints), ints) && DifatHasFree(EnsureDifat(t, ints).difat)
    ensures var e := t.(difat := ExtendDifat(t.difat, ints));
            Ready(e, ints) && |Grow(e, ints, 1).fat| <= MAX_SECTORS
  {
    hide Ready, DifatHasFree, Round, ExtendDifat, DifatShape, FirstFree, EnsureDifat;
    ShapeLength(t.difat, ints, sectors);
    EnsureDifatCases(t, ints);
    ExtendedAndGrown(t, ints, sectors);
    var g := Grow(t.(difat := ExtendDifat(t.difat, ints)), ints, 1);
    ShapeLength(g.difat, ints, sectors + 1);
    hide Grow, LinkDifat;
    LinkReady(g, ints, sectors + 1, |t.difat| - 1, FirstFree(g.fat));
  }

  lemma EnsureDifatReady(t: Tables, ints: nat)
    requires Ready(t, ints) && |EnsureDifat(t, ints).fat| <= MAX_SECTORS
    ensures Ready(EnsureDifat(t, ints), ints) && DifatHasFree(EnsureDifat(t, ints).difat)
    ensures var e := t.(difat := ExtendDifat(t.difat, ints));
            !DifatHasFree(t.difat) ==> Ready(e, ints) && |Grow(e, ints, 1).fat| <= MAX_SECTORS
  {
    var sectors: nat :| DifatShape(t.difat, ints, sectors);
    if !DifatHasFree(t.difat) {
      hide *;
      EnsureDifatReadyAt(t, ints, sectors);
    }
  }

  lemma AssignReady(t: Tables, ints: nat, sector: nat)
    requires Ready(t, ints) && DifatHasFree(t.difat) && sector < MAX_SECTORS
    ensures Ready(RecordFatSector(t, ints, sector), ints)
    ensures IsFirstFreeSlot(t.difat, ints, FirstFreeSlot(t.difat, ints))
  {
    var sectors: nat :| DifatShape(t.difat, ints, sectors);
    FirstFreeSlotIsFree(t.difat, ints, sectors);
    RecordShape(t, ints, sectors, sector);
  }
}
