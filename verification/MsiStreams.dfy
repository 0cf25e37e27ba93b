/** Streams of a compound file: chains of sectors linked through a FAT, and the directory, itself such a chain. */
module MsiStreams {
  import opened Arith
  import opened Bytes
  import opened MsiFormat
  import opened MsiFile

  predicate EndsChain(s: nat) {
    s == ENDOFCHAIN || s == FREESECT
  }

  /** The sectors a stream of `size` bytes that starts at `start` runs through, as far as the chain goes. */
  function ChainOf(fat: seq<nat>, size: nat, start: nat, bytes: nat): (c: seq<nat>)
    requires size > 0
    ensures forall i :: 0 <= i < |c| ==> c[i] < |fat|
    decreases bytes
  {
    if bytes == 0 || EndsChain(start) || start >= |fat| then []
    else [start] + ChainOf(fat, size, fat[start], bytes - Min(bytes, size))
  }

  /** The chain does not end before the stream does. */
  predicate Covers(fat: seq<nat>, size: nat, start: nat, bytes: nat)
    requires size > 0
    decreases bytes
  {
    bytes == 0 || (!EndsChain(start) && start < |fat| && Covers(fat, size, fat[start], bytes - Min(bytes, size)))
  }

  /** Following the chain never leaves the FAT, nor its sectors' bytes the `len` bytes of contents. */
  predicate Readable(fat: seq<nat>, len: nat, size: nat, start: nat, bytes: nat)
    requires size > 0
    decreases bytes
  {
    || bytes == 0 || EndsChain(start)
    || (&& start < |fat| && Off(size, start) + Min(bytes, size) <= len
        && Readable(fat, len, size, fat[start], bytes - Min(bytes, size)))
  }

  /** At either end mark a stream that needs more bytes has run out of sectors, which can be told without leaving the FAT. */
  lemma RanOut(fat: seq<nat>, len: nat, size: nat, mark: nat, bytes: nat)
    requires size > 0 && bytes > 0 && (mark == 0xFFFF_FFFE || mark == 0xFFFF_FFFF)
    ensures !Covers(fat, size, mark, bytes) && ChainOf(fat, size, mark, bytes) == [] && Readable(fat, len, size, mark, bytes)
  {
  }

  /** The first `bytes` bytes of the sectors of `chain`, one after the other. */
  function Gather(contents: seq<byte>, size: nat, chain: seq<nat>, bytes: nat): seq<byte>
    requires size > 0
  {
    if bytes == 0 || chain == [] || Off(size, chain[0]) + Min(bytes, size) > |contents| then []
    else contents[Off(size, chain[0])..Off(size, chain[0]) + Min(bytes, size)]
         + Gather(contents, size, chain[1..], bytes - Min(bytes, size))
  }

  /** A chain that covers a stream and stays inside the contents delivers all of it. */
  lemma {:induction false} GatherWhole(contents: seq<byte>, fat: seq<nat>, size: nat, start: nat, bytes: nat)
    requires size > 0 && Covers(fat, size, start, bytes) && Readable(fat, |contents|, size, start, bytes)
    ensures |Gather(contents, size, ChainOf(fat, size, start, bytes), bytes)| == bytes
    decreases bytes
  {
    if bytes > 0 {
      var n, chain := Min(bytes, size), ChainOf(fat, size, start, bytes);
      assert chain[0] == start && chain[1..] == ChainOf(fat, size, fat[start], bytes - n);
      GatherWhole(contents, fat, size, fat[start], bytes - n);
    }
  }

  /** Byte `p` is one of the first `bytes` bytes of the sectors of `chain`. */
  predicate Covered(size: nat, chain: seq<nat>, bytes: nat, p: nat)
    requires size > 0
  {
    && bytes > 0 && chain != []
    && (Off(size, chain[0]) <= p < Off(size, chain[0]) + Min(bytes, size)
        || Covered(size, chain[1..], bytes - Min(bytes, size), p))
  }

  function ZeroOut(contents: seq<byte>, size: nat, chain: seq<nat>, bytes: nat): (r: seq<byte>)
    requires size > 0
    ensures |r| == |contents|
  {
    seq(|contents|, p requires 0 <= p < |contents| => if Covered(size, chain, bytes, p) then 0 else contents[p])
  }

  function FreeAll(fat: seq<nat>, chain: seq<nat>): (r: seq<nat>)
    ensures |r| == |fat|
  {
    seq(|fat|, s requires 0 <= s < |fat| => if s in chain then FREESECT else fat[s])
  }

  ghost predicate NoDuplicates(s: seq<nat>) {
    forall i, j :: 0 <= i < j < |s| ==> s[i] != s[j]
  }

  lemma {:induction false} ChainOfFreed(fat: seq<nat>, size: nat, start: nat, bytes: nat, s: nat)
    requires size > 0 && s < |fat| && s !in ChainOf(fat, size, start, bytes)
    ensures ChainOf(fat[s := FREESECT], size, start, bytes) == ChainOf(fat, size, start, bytes)
    ensures Covers(fat[s := FREESECT], size, start, bytes) == Covers(fat, size, start, bytes)
    ensures forall len :: Readable(fat, len, size, start, bytes) ==> Readable(fat[s := FREESECT], len, size, start, bytes)
    decreases bytes
  {
    if bytes > 0 && !EndsChain(start) && start < |fat| {
      var c := ChainOf(fat, size, start, bytes);
      assert start == c[0];
      assert ChainOf(fat, size, fat[start], bytes - Min(bytes, size)) == c[1..];
      ChainOfFreed(fat, size, fat[start], bytes - Min(bytes, size), s);
    }
  }

  lemma {:induction false} CoveredInSector(size: nat, chain: seq<nat>, bytes: nat, p: nat)
    requires size > 0 && Covered(size, chain, bytes, p)
    ensures exists i :: 0 <= i < |chain| && InSector(size, chain[i], p)
  {
    if Off(size, chain[0]) <= p < Off(size, chain[0]) + Min(bytes, size) {
      assert InSector(size, chain[0], p);
    } else {
      CoveredInSector(size, chain[1..], bytes - Min(bytes, size), p);
      var i :| 0 <= i < |chain[1..]| && InSector(size, chain[1..][i], p);
      assert InSector(size, chain[i + 1], p);
    }
  }

  /** `c` is a whole chain: it starts at `start`, follows the FAT and stops at the end-of-chain mark. */
  ghost predicate IsChain(fat: seq<nat>, start: nat, c: seq<nat>) {
    && c != [] && c[0] == start
    && (forall i :: 0 <= i < |c| ==> c[i] < |fat|)
    && (forall i :: 0 <= i < |c| - 1 ==> fat[c[i]] == c[i + 1])
    && fat[c[|c| - 1]] == ENDOFCHAIN
  }

  // ---------------------------------------------------------------- the directory

  function EntriesPerSector(ints: nat): nat {
    SectorSize(ints) / DIR_ENTRY_BYTES
  }

  function EntryOff(ints: nat, sector: nat, e: nat): nat {
    Off(SectorSize(ints), sector) + e * DIR_ENTRY_BYTES
  }

  function EntryAt(contents: seq<byte>, off: nat): (d: DirEntry)
    requires off + DIR_ENTRY_BYTES <= |contents|
    ensures |d.name| == 64
  {
    DecodeDirEntry(contents[off..off + DIR_ENTRY_BYTES])
  }

  /** Entry `e` of directory sector `sector` exists and has a name that fits its field. */
  predicate EntryReadable(contents: seq<byte>, ints: nat, sector: nat, e: nat) {
    && EntryOff(ints, sector, e) + DIR_ENTRY_BYTES <= |contents|
    && EntryAt(contents, EntryOff(ints, sector, e)).numNameBytes <= 64
  }

  predicate IsSignatureAt(contents: seq<byte>, ints: nat, sector: nat, e: nat) {
    && EntryReadable(contents, ints, sector, e)
    && IsSignatureEntry(EntryAt(contents, EntryOff(ints, sector, e)))
  }

  /** The first `n` entries of the sector can be read and none is the signature's. */
  ghost predicate NoSignatureIn(contents: seq<byte>, ints: nat, sector: nat, n: nat) {
    forall e :: 0 <= e < n ==>
      EntryReadable(contents, ints, sector, e) && !IsSignatureAt(contents, ints, sector, e)
  }

  /** `path` runs along the FAT from the first directory sector. */
  ghost predicate DirPath(fat: seq<nat>, first: nat, path: seq<nat>) {
    && path != [] && path[0] == first
    && (forall i :: 0 < i < |path| ==> path[i] != ENDOFCHAIN)
    && (forall i :: 0 <= i < |path| - 1 ==> path[i] < |fat| && fat[path[i]] == path[i + 1])
  }

  /** The signature's entry is entry `e` of the last sector of `path`, and no earlier one. */
  ghost predicate FoundAt(contents: seq<byte>, ints: nat, fat: seq<nat>, first: nat, path: seq<nat>, e: nat) {
    && DirPath(fat, first, path)
    && e < EntriesPerSector(ints)
    && (forall i :: 0 <= i < |path| - 1 ==> NoSignatureIn(contents, ints, path[i], EntriesPerSector(ints)))
    && NoSignatureIn(contents, ints, path[|path| - 1], e)
    && IsSignatureAt(contents, ints, path[|path| - 1], e)
  }

  /** Every entry of every sector of the directory chain `dir` can be read. */
  ghost predicate DirReadable(contents: seq<byte>, ints: nat, dir: seq<nat>) {
    forall i, e :: 0 <= i < |dir| && 0 <= e < EntriesPerSector(ints) ==> EntryReadable(contents, ints, dir[i], e)
  }

  lemma {:induction false} DirPathUnique(fat: seq<nat>, first: nat, a: seq<nat>, b: seq<nat>, i: nat)
    requires DirPath(fat, first, a) && DirPath(fat, first, b) && i < |a| && i < |b|
    ensures a[i] == b[i]
  {
    if i > 0 {
      DirPathUnique(fat, first, a, b, i - 1);
    }
  }

  lemma FoundNotLater(contents: seq<byte>, ints: nat, fat: seq<nat>, first: nat, a: seq<nat>, e: nat, b: seq<nat>, e': nat)
    requires FoundAt(contents, ints, fat, first, a, e) && FoundAt(contents, ints, fat, first, b, e')
    ensures |b| <= |a| && (|a| == |b| ==> e' <= e)
  {
    if |a| <= |b| {
      var i := |a| - 1;
      DirPathUnique(fat, first, a, b, i);
      assert IsSignatureAt(contents, ints, b[i], e);
    }
  }

  /** A file has at most one first signature entry. */
  lemma FoundUnique(contents: seq<byte>, ints: nat, fat: seq<nat>, first: nat, a: seq<nat>, e: nat, b: seq<nat>, e': nat)
    requires FoundAt(contents, ints, fat, first, a, e) && FoundAt(contents, ints, fat, first, b, e')
    ensures a == b && e == e'
  {
    FoundNotLater(contents, ints, fat, first, a, e, b, e');
    FoundNotLater(contents, ints, fat, first, b, e', a, e);
    forall i | 0 <= i < |a|
      ensures a[i] == b[i]
    {
      DirPathUnique(fat, first, a, b, i);
    }
  }
}
