/**
 The PE half of the tag editor: finding the attribute certificate table of a PE file (the "Optional
 Header Data Directories" and "Attribute Certificate Table" parts of the Microsoft PE format), splitting
 it into SignedData and appended tag, and rebuilding the file.
 */
module Pe32 {
  import opened Bytes

  /** `Failed` is an error the source returns, `Panic` a slice out of range, which stops it. */
  datatype Outcome<+T> = Ok(value: T) | Failed | Panic

  const PE_HEADER_OFFSET_AT: nat := 0x3c
  const FILE_HEADER_SIZE: nat := 20
  const PE32_MAGIC: nat := 0x10b
  const PE32_PLUS_MAGIC: nat := 0x20b
  const MAX_DIRECTORY_ENTRIES: nat := 4096
  const CERTIFICATE_TABLE_INDEX: nat := 4
  const REVISION: nat := 0x200
  const TYPE_PKCS7: nat := 2

  // ---------------------------------------------------------------- reading the headers

  /** Where the optional header starts, behind the PE signature and the file header. */
  function OptionalHeaderAt(bin: seq<byte>): nat
    requires |bin| >= PE_HEADER_OFFSET_AT + 4
  {
    U32(bin, PE_HEADER_OFFSET_AT) + 4 + FILE_HEADER_SIZE
  }

  /** The first checks: a PE signature, and the file header of an executable that is no DLL. */
  predicate IsExecutable(bin: seq<byte>) {
    && |bin| >= PE_HEADER_OFFSET_AT + 4
    && var at := OptionalHeaderAt(bin);
       && at <= |bin|
       && bin[at - 24..at - 20] == [0x50, 0x45, 0, 0]
       && var characteristics := U16(bin, at - 2);
          characteristics / 2 % 2 == 1 && characteristics / 0x2000 % 2 == 0
  }

  function SizeOfOptionalHeader(bin: seq<byte>): nat
    requires IsExecutable(bin)
  {
    U16(bin, OptionalHeaderAt(bin) - 4)
  }

  /** How many bytes of the optional header the reader can deliver: its declared size or what the file has. */
  function Available(bin: seq<byte>): nat
    requires IsExecutable(bin)
  {
    var rest := |bin| - OptionalHeaderAt(bin);
    if SizeOfOptionalHeader(bin) < rest then SizeOfOptionalHeader(bin) else rest
  }

  /** Offset, inside the optional header, of the number of data directory entries. */
  function CountAt(magic: nat): nat {
    var address := if magic == PE32_PLUS_MAGIC then 8 else 4;
    var fixed := if magic == PE32_PLUS_MAGIC then 24 else 28;
    fixed + (address + 40 + address * 4 + 4)
  }

  datatype Directory = Directory(count: nat, at: nat)

  /** The data directory: its number of entries, and where it starts in the file. */
  function ReadDirectory(bin: seq<byte>): (r: Outcome<Directory>)
    ensures r.Ok? ==>
              && IsExecutable(bin)
              && 5 <= r.value.count <= MAX_DIRECTORY_ENTRIES
              && OptionalHeaderAt(bin) + 24 <= r.value.at
              && r.value.at + 8 * r.value.count <= OptionalHeaderAt(bin) + Available(bin)
    ensures r != Panic
  {
    if !IsExecutable(bin) then Failed
    else
      var at, available := OptionalHeaderAt(bin), Available(bin);
      if available < 24 then Failed
      else
        var magic := U16(bin, at);
        if magic != PE32_MAGIC && magic != PE32_PLUS_MAGIC then Failed
        else if available < CountAt(magic) + 4 then Failed
        else
          var count := U32(bin, at + CountAt(magic));
          if count > MAX_DIRECTORY_ENTRIES then Failed
          else if available < CountAt(magic) + 4 + 8 * count then Failed
          else if count <= CERTIFICATE_TABLE_INDEX then Failed
          else Ok(Directory(count, at + CountAt(magic) + 4))
  }

  /** Where the attribute certificate table is, and where its size is stored. */
  datatype Table = Table(offset: nat, size: nat, sizeOffset: nat)

  /** The file position of the certificate entry's Size field, from which it was read. */
  function SizeFieldAt(d: Directory): nat {
    d.at + 8 * CERTIFICATE_TABLE_INDEX + 4
  }

  /** The position the source computes for it, from the declared size of the optional header. */
  function ComputedSizeOffset(bin: seq<byte>, d: Directory): int
    requires IsExecutable(bin)
  {
    OptionalHeaderAt(bin) + SizeOfOptionalHeader(bin) - 8 * (d.count - CERTIFICATE_TABLE_INDEX) + 4
  }

  function GetAttributeCertificates(bin: seq<byte>): (r: Outcome<Table>)
  {
    var dir := ReadDirectory(bin);
    if !dir.Ok? then Failed
    else
      var d := dir.value;
      var address, size := U32(bin, SizeFieldAt(d) - 4), U32(bin, SizeFieldAt(d));
      if address == 0 then Failed
      else if (address + size) % TWO32 < address then Failed
      else if (address + size) % TWO32 != |bin| then Failed
      else if d.at + 8 * d.count < OptionalHeaderAt(bin) + Available(bin) then Failed
      else
        var sizeOffset := ComputedSizeOffset(bin, d);
        if sizeOffset < 0 || sizeOffset + 4 > |bin| then Panic
        else if U32(bin, sizeOffset) != size then Failed
        else Ok(Table(address, size, sizeOffset))
  }

  /** The declared optional header lies in the file as a whole. */
  predicate HeaderInFile(bin: seq<byte>)
    requires IsExecutable(bin)
  {
    OptionalHeaderAt(bin) + SizeOfOptionalHeader(bin) <= |bin|
  }

  /**
   The computed position is the one the size was read from exactly when the optional header is not cut
   off by the end of the file.
   */
  lemma SizeOffsetExact(bin: seq<byte>)
    requires GetAttributeCertificates(bin).Ok?
    ensures var t, d := GetAttributeCertificates(bin).value, ReadDirectory(bin).value;
            && t.sizeOffset == ComputedSizeOffset(bin, d)
            && (t.sizeOffset == SizeFieldAt(d) <==> HeaderInFile(bin))
            && t.offset + t.size == |bin| < TWO32
            && t.size == U32(bin, SizeFieldAt(d)) && t.offset == U32(bin, SizeFieldAt(d) - 4)
  {
    hide Word, ReadDirectory, IsExecutable, OptionalHeaderAt, U32, U16;
  }

  /**
   The data directory by its offsets from the PE header: in an executable image that is no DLL, PE32 or PE32+, with 5 to
   4096 entries inside the optional header and inside the file.
   */
  predicate HasDirectory(bin: seq<byte>, count: nat, at: nat) {
    && |bin| >= 0x40
    && var pe := U32(bin, 0x3c);
       && pe + 26 <= |bin| && bin[pe..pe + 4] == [0x50, 0x45, 0, 0]
       && U16(bin, pe + 22) % 4 >= 2 && U16(bin, pe + 22) % 0x4000 < 0x2000
       && (U16(bin, pe + 24) == 0x10b || U16(bin, pe + 24) == 0x20b)
       && at == pe + 24 + (if U16(bin, pe + 24) == 0x20b then 112 else 96)
       && at <= |bin| && count == U32(bin, at - 4) && 5 <= count <= 4096
       && at + 8 * count <= |bin| && at + 8 * count <= pe + 24 + U16(bin, pe + 20)
  }

  /**
   A certificate table: nothing follows the directory in the optional header or in the file, and the fifth entry names
   bytes that end the file.  The offset of the size is counted back from the declared end of the optional header, where
   the same size must stand.
   */
  predicate HasTable(bin: seq<byte>, count: nat, at: nat, t: Table) {
    && HasDirectory(bin, count, at)
    && var pe := U32(bin, 0x3c);
       var end := pe + 24 + U16(bin, pe + 20);
       && (at + 8 * count == end || at + 8 * count == |bin|)
       && t.offset == U32(bin, at + 32) && t.offset != 0 && t.size == U32(bin, at + 36)
       && t.offset + t.size == |bin| && |bin| < TWO32
       && t.sizeOffset == end - 8 * count + 36 && t.sizeOffset + 4 <= |bin| && U32(bin, t.sizeOffset) == t.size
  }

  lemma FlagsAre(flags: nat)
    ensures flags / 2 % 2 == 1 <==> flags % 4 >= 2
    ensures flags / 0x2000 % 2 == 0 <==> flags % 0x4000 < 0x2000
  {
  }

  lemma DirectoryExact(bin: seq<byte>)
    ensures forall count, at :: ReadDirectory(bin) == Ok(Directory(count, at)) <==> HasDirectory(bin, count, at)
  {
    if |bin| >= 0x40 && U32(bin, 0x3c) + 24 <= |bin| {
      FlagsAre(U16(bin, U32(bin, 0x3c) + 22));
    }
    hide U32, U16;
  }

  /** The table is found exactly in files with that layout. */
  lemma TableExact(bin: seq<byte>, t: Table)
    ensures GetAttributeCertificates(bin) == Ok(t) <==> exists count, at :: HasTable(bin, count, at, t)
  {
    DirectoryExact(bin);
    if GetAttributeCertificates(bin) == Ok(t) {
      var d := ReadDirectory(bin).value;
      TableOf(bin, d, t);
      assert HasTable(bin, d.count, d.at, t);
    }
    if count, at :| HasTable(bin, count, at, t) {
      TableOf(bin, Directory(count, at), t);
    }
  }

  lemma TableOf(bin: seq<byte>, d: Directory, t: Table)
    requires ReadDirectory(bin) == Ok(d) && HasDirectory(bin, d.count, d.at)
    ensures GetAttributeCertificates(bin) == Ok(t) <==> HasTable(bin, d.count, d.at, t)
  {
    hide U32, U16, ReadDirectory;
  }

  /** A file that ends with its data directory, 8 bytes short of the optional header it declares. */
  function CutFile(): seq<byte> {
    seq(312, i => if i == 60 then 64
                  else if i == 64 then 0x50 else if i == 65 then 0x45
                  else if i == 84 then 232 else if i == 86 then 2
                  else if i == 88 then 0x0b else if i == 89 then 1
                  else if i == 180 then 16
                  else if i == 216 then 0x30 else if i == 217 then 1
                  else if i == 220 || i == 228 then 8
                  else 0)
  }

  /** Such a file is accepted, and the position computed is that of the entry behind. */
  lemma CutFileMisplaced()
    ensures var r, d := GetAttributeCertificates(CutFile()), ReadDirectory(CutFile());
            r == Ok(Table(304, 8, 228)) && d.Ok? && SizeFieldAt(d.value) == 220
  {
    CutFileHeaders();
    CutFileDirectory();
    hide CutFile, U32, U16;
    assert ReadDirectory(CutFile()) == Ok(Directory(16, 184));
  }

  lemma CutFileHeaders()
    ensures var f := CutFile();
            && |f| == 312 && U32(f, 60) == 64 && f[64..68] == [0x50, 0x45, 0, 0]
            && U16(f, 84) == 232 && U16(f, 86) == 2 && U16(f, 88) == PE32_MAGIC
  {
  }

  lemma CutFileDirectory()
    ensures var f := CutFile();
            U32(f, 180) == 16 && U32(f, 216) == 304 && U32(f, 220) == 8 && U32(f, 228) == 8
  {
  }

  // ---------------------------------------------------------------- SignedData and appended tag

  /** Length of the ASN.1 object that starts `asn1`, its tag and length octets included. */
  function LengthAsn1(asn1: seq<byte>): (r: Outcome<nat>)
    requires |asn1| >= 2
    ensures r != Panic
  {
    if asn1[1] < 0x80 then Ok(asn1[1] as int + 2)
    else
      var numBytes := asn1[1] as int - 0x80;
      if numBytes == 0 || numBytes > 2 then Failed
      else if |asn1| < numBytes + 2 then Failed
      else if numBytes == 1 then Ok(asn1[2] as int + 3)
      else Ok(Word(asn1[3], asn1[2], 0, 0) + 4)
  }

  datatype Certificate = Certificate(asn1: seq<byte>, appendedTag: seq<byte>)

  function ProcessAttributeCertificates(certs: seq<byte>): (r: Outcome<Certificate>)
    ensures r.Ok? ==> |certs| >= 8 && certs == certs[..8] + r.value.asn1 + r.value.appendedTag
  {
    if |certs| < 8 then Failed
    else if U32(certs, 0) != |certs| then Failed
    else if U16(certs, 4) != REVISION then Failed
    else if U16(certs, 6) != TYPE_PKCS7 then Failed
    else
      var asn1 := certs[8..];
      if |asn1| < 2 then Failed
      else
        var n := LengthAsn1(asn1);
        if !n.Ok? then Failed
        else if n.value > |asn1| then Panic
        else Ok(Certificate(asn1[..n.value], asn1[n.value..]))
  }

  /** An object whose length octets say where it ends. */
  predicate SelfDelimiting(asn1: seq<byte>) {
    |asn1| >= 2 && LengthAsn1(asn1) == Ok(|asn1|)
  }

  /** The length octets of section 8.1.3 of ITU-T X.690, in the shortest form, for lengths below 2^16. */
  function LengthOctets(n: nat): seq<byte>
    requires n < TWO16
  {
    if n < 0x80 then [n] else if n < 0x100 then [0x81, n] else [0x82, n / 0x100, n % 0x100]
  }

  /** Anything encoded that way is self-delimiting, whatever follows it. */
  lemma EncodedSelfDelimiting(tag: byte, body: seq<byte>, rest: seq<byte>)
    requires |body| < TWO16
    ensures var item := [tag] + LengthOctets(|body|) + body;
            SelfDelimiting(item) && LengthAsn1(item + rest) == Ok(|item|)
  {
    var n := LengthOctets(|body|);
    var item := [tag] + n + body;
    assert forall i :: 0 <= i < |n| ==> (item + rest)[i + 1] == n[i] && item[i + 1] == n[i];
  }

  /** What follows a self-delimiting object does not matter. */
  lemma LengthIgnoresRest(asn1: seq<byte>, rest: seq<byte>)
    requires SelfDelimiting(asn1)
    ensures LengthAsn1(asn1 + rest) == Ok(|asn1|)
  {
  }

  // ---------------------------------------------------------------- the parsed binary

  datatype Pe = Pe(contents: seq<byte>, attrCertOffset: nat, certSizeOffset: nat, asn1: seq<byte>, appendedTag: seq<byte>)

  /** `accepts` stands for the ASN.1 parse of SignedData. */
  function NewPe(contents: seq<byte>, accepts: seq<byte> -> bool): (r: Outcome<Pe>)
  {
    var t := GetAttributeCertificates(contents);
    if t.Panic? then Panic
    else if t.Failed? then Failed
    else
      var c := ProcessAttributeCertificates(contents[t.value.offset..]);
      if c.Panic? then Panic
      else if c.Failed? then Failed
      else if !accepts(c.value.asn1) then Failed
      else Ok(Pe(contents, t.value.offset, t.value.sizeOffset, c.value.asn1, c.value.appendedTag))
  }

  /** The number of zero bytes that make `n` a multiple of 8. */
  function Padding(n: nat): (k: nat)
    ensures k < 8 && (n + k) % 8 == 0
  {
    if n % 8 == 0 then 0 else 8 - n % 8
  }

  /** `tag` with the padding the writer adds behind SignedData of `n` bytes. */
  function PaddedTag(n: nat, tag: seq<byte>): (t: seq<byte>)
    ensures |t| < |tag| + 8 && tag <= t && (n + |t|) % 8 == 0 && AllZero(t[|tag|..])
  {
    tag + Zeros(Padding(n + |tag|))
  }

  /** A WIN_CERTIFICATE record: the attribute certificate table the writer makes. */
  function CertificateTable(asn1: seq<byte>, tag: seq<byte>): (b: seq<byte>)
    ensures |b| == 8 + |asn1| + |tag|
  {
    Put32(8 + |asn1| + |tag|) + Put16(REVISION) + Put16(TYPE_PKCS7) + asn1 + tag
  }

  /** The rebuilt file: size field and certificate table are new, everything else is copied. */
  function Build(pe: Pe, asn1: seq<byte>, tag: seq<byte>): (out: seq<byte>)
    requires pe.certSizeOffset + 4 <= pe.attrCertOffset <= |pe.contents|
    ensures |out| == pe.attrCertOffset + 8 + |asn1| + |PaddedTag(|asn1|, tag)|
  {
    var padded := PaddedTag(|asn1|, tag);
    pe.contents[..pe.certSizeOffset] + Put32(8 + |asn1| + |padded|)
    + pe.contents[pe.certSizeOffset + 4..pe.attrCertOffset] + CertificateTable(asn1, padded)
  }

  method BuildBinary(pe: Pe, asn1: seq<byte>, tag: seq<byte>) returns (contents: seq<byte>)
    requires pe.certSizeOffset + 4 <= pe.attrCertOffset <= |pe.contents|
    ensures contents == Build(pe, asn1, tag)
  {
    contents := pe.contents[..pe.certSizeOffset];
    var padded := tag;
    while (|asn1| + |padded|) % 8 > 0
      invariant |tag| <= |padded| <= |PaddedTag(|asn1|, tag)|
      invariant padded == PaddedTag(|asn1|, tag)[..|padded|]
      decreases |PaddedTag(|asn1|, tag)| - |padded|
    {
      padded := padded + [0];
    }
    assert padded == PaddedTag(|asn1|, tag);
    hide PaddedTag, Put32, Put16;
    var length := 8 + |asn1| + |padded|;
    contents := contents + Put32(length) + pe.contents[pe.certSizeOffset + 4..pe.attrCertOffset];
    var table := Put32(length) + Put16(REVISION) + Put16(TYPE_PKCS7) + asn1 + padded;
    assert table == CertificateTable(asn1, padded);
    hide CertificateTable;
    contents := contents + table;
  }

  // ---------------------------------------------------------------- rebuilding and parsing again

  /** The bytes up to the data directory decide where the data directory is. */
  lemma DirectorySame(a: seq<byte>, b: seq<byte>, k: nat)
    requires ReadDirectory(a).Ok? && HeaderInFile(a) && ReadDirectory(a).value.at <= k <= |a| && k <= |b|
    requires OptionalHeaderAt(a) + SizeOfOptionalHeader(a) <= |b|
    requires forall i :: 0 <= i < k ==> a[i] == b[i]
    ensures IsExecutable(b) && OptionalHeaderAt(b) == OptionalHeaderAt(a)
    ensures SizeOfOptionalHeader(b) == SizeOfOptionalHeader(a) && HeaderInFile(b)
    ensures ReadDirectory(b) == ReadDirectory(a)
  {
    hide Word;
    var at := OptionalHeaderAt(a);
    assert at + 24 <= k;
    assert OptionalHeaderAt(b) == at;
    assert a[at - 24..at - 20] == b[at - 24..at - 20];
    assert IsExecutable(b);
  }
}
