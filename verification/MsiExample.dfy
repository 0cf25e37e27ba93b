/** A small MSI: one FAT sector and one directory sector.  It satisfies all that the laws ask of an MSI. */
module MsiExample {
  import opened Bytes
  import opened MsiFormat
  import opened MsiTables
  import opened MsiFile
  import opened MsiStreams
  import opened MsiRoundTrip
  import opened MsiLaws
  import opened MsiRuns
  import MsiEditor

  const INTS: nat := 128

  function SmallHeader(): Header {
    Header(MAGIC, Zeros(16), 0x3e, 3, 0xfffe, 9, 6, Zeros(6), 0, 1, 1, 0, 4096, ENDOFCHAIN, 0, ENDOFCHAIN, 0)
  }

  function SmallEntry(): DirEntry {
    DirEntry(SIGNATURE_NAME + Zeros(28), 36, 2, 1, 0, 0, 0, Zeros(16), 0, 0, 0, 0, 0)
  }

  /** Sector 0 holds the FAT, sector 1 the directory, and the signature has its first entry. */
  function SmallMsi(): Msi {
    var fat := [FATSECT, ENDOFCHAIN] + Repeat(FREESECT, 126);
    var difat := [0] + Repeat(FREESECT, 108);
    var contents := Zeros(512) + EncodeDirEntry(SmallEntry()) + Zeros(384);
    Msi(INTS, Tables(SmallHeader(), fat, difat, []), contents, 512, SmallEntry(), [])
  }

  lemma SmallTables()
    ensures TablesInv(SmallMsi().tables, INTS) && Words(SmallMsi().tables.fat) && Words(SmallMsi().tables.difat)
  {
    hide TablesInv, SmallEntry, EncodeDirEntry;
    OneSectorTables(SmallMsi().tables);
  }

  lemma OneSectorTables(t: Tables)
    requires |t.difat| == HEADER_SLOTS && t.difat[0] == 0 && forall i :: 0 < i < |t.difat| ==> t.difat[i] == FREESECT
    requires |t.fat| == INTS && t.fat[0] == FATSECT && t.difatSectors == []
    requires t.header.numDifatSectors == 0 && t.header.numFatSectors == 1
    ensures TablesInv(t, INTS)
  {
    OneLiveEntry(t.difat, INTS);
    hide Live;
    assert DifatShape(t.difat, INTS, 0) && DifatLinked(t, INTS) && DifatSectorsMarked(t);
    assert SlotsNameFatSectors(t, INTS);
    hide DifatShape, DifatLinked, SlotsNameFatSectors, DifatSectorsMarked;
  }

  lemma SmallEntryAt()
    ensures var c := SmallMsi().contents;
            && EntryAt(c, 512) == SmallEntry()
            && forall e :: 0 <= e < 4 ==> EntryReadable(c, INTS, 1, e)
  {
    var c := SmallMsi().contents;
    assert c[512..512 + DIR_ENTRY_BYTES] == EncodeDirEntry(SmallEntry());
    DecodeEncodeDirEntry(SmallEntry());
    forall e | 0 < e < 4
      ensures EntryReadable(c, INTS, 1, e)
    {
      var b := c[EntryOff(INTS, 1, e)..EntryOff(INTS, 1, e) + DIR_ENTRY_BYTES];
      assert b[64] == 0 && b[65] == 0;
    }
  }

  /** The laws are about something: this MSI can be edited. */
  lemma SmallMsiInv()
    ensures MsiInv(SmallMsi(), Place([1], 0)) && DirInv(SmallMsi(), [1])
  {
    SmallTables();
    SmallEntryAt();
    var m := SmallMsi();
    hide EncodeDirEntry, DecodeDirEntry, TablesInv, EntryAt;
    assert SIGNATURE_NAME == (SIGNATURE_NAME + Zeros(28))[..36];
    assert DirPath(m.tables.fat, 1, [1]);
  }

  /** SignedData of up to 126 sectors needs no new FAT sector. */
  lemma SmallGrown(sd: seq<byte>)
    requires MINI_CUTOFF <= |sd| <= 126 * 512
    ensures Grown(SmallMsi(), sd) == SmallMsi()
  {
    hide SmallEntry, EncodeDirEntry;
    var m := SmallMsi();
    FirstFreeIs(m.tables.fat, 2);
    assert NumSectors(m, sd) <= 126;
  }

  lemma SmallSizes()
    ensures var m := SmallMsi();
            && m.ints == INTS && |m.tables.difat| == HEADER_SLOTS && |m.tables.fat| == INTS && |m.contents| == 1024
            && m.tables.header.dllVersion == 3
  {
  }

  /** The editor's object for the small MSI; the header sector is empty, as the editor writes it anew. */
  method SmallObject() returns (msi: MsiEditor.MsiBinary)
    ensures fresh(msi) && msi.file.Length == 1536 && msi.ints == INTS && msi.Value() == SmallMsi()
  {
    SmallSizes();
    hide SmallMsi;
    var m := SmallMsi();
    var bytes := Zeros(512) + m.contents;
    var file := new byte[|bytes|](i requires 0 <= i < |bytes| => bytes[i]);
    assert file[..] == bytes;
    assert Contents(file[..], INTS) == m.contents;
    msi := new MsiEditor.MsiBinary(file, INTS, m.tables.header);
    msi.fatEntries, msi.difatEntries, msi.difatSectors := m.tables.fat, m.tables.difat, m.tables.difatSectors;
    msi.sigDirOffset, msi.sigDirEntry, msi.signedDataBytes := m.sigDirOffset, m.sigDirEntry, m.signedData;
  }

  /**
   The editor writes a file for the small MSI that the parser accepts and finds well-formed, so that the laws about
   files are about something too.
   */
  method SmallMsiFile(sd: seq<byte>) returns (file: seq<byte>)
    requires MINI_CUTOFF <= |sd| <= 126 * 512
    ensures Edit(SmallMsi(), sd, file) && AfterEdit(SmallMsi(), sd, file).signedData == sd
    ensures ParsesTo(file, Place([1], 0), AfterEdit(SmallMsi(), sd, file)) && GoodFile(file, INTS, [1])
  {
    SmallMsiInv();
    SmallGrown(sd);
    SmallSizes();
    hide SmallMsi, MsiInv, DirInv, Laid, Grown, ParsesTo, GoodFile, AfterEdit;
    var msi := SmallObject();
    var r := msi.BuildBinary(sd, [], Place([1], 0));
    file := r.value;
    EditRoundTrip(SmallMsi(), Place([1], 0), [1], sd, file);
  }
}
