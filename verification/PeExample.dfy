/** Small executables that satisfy what the laws about PE files and about embedded tags ask. */
module PeExample {
  import opened Bytes
  import Pe32
  import Pe32Laws
  import TagEmbedding

  /** Headers with 16 data directory entries, the certificate table of 16 bytes right behind them. */
  function SmallFile(): seq<byte> {
    seq(328, i => if i == 60 then 64
                  else if i == 64 then 0x50 else if i == 65 then 0x45
                  else if i == 84 then 224 else if i == 86 then 2
                  else if i == 88 then 0x0b else if i == 89 then 1
                  else if i == 180 then 16
                  else if i == 216 then 0x38 else if i == 217 then 1
                  else if i == 220 || i == 312 then 16
                  else if i == 317 || i == 318 then 2
                  else if i == 320 then 0x30
                  else 0)
  }

  lemma SmallHeaders()
    ensures var f := SmallFile();
            && |f| == 328 && U32(f, 60) == 64 && f[64..68] == [0x50, 0x45, 0, 0]
            && U16(f, 84) == 224 && U16(f, 86) == 2 && U16(f, 88) == Pe32.PE32_MAGIC
  {
  }

  lemma SmallDirectory()
    ensures var f := SmallFile();
            U32(f, 180) == 16 && U32(f, 216) == 312 && U32(f, 220) == 16
  {
  }

  lemma SmallTable()
    ensures var c := SmallFile()[312..];
            |c| == 16 && U32(c, 0) == 16 && U16(c, 4) == Pe32.REVISION && U16(c, 6) == Pe32.TYPE_PKCS7
            && c[8..10] == [0x30, 0] && c[10..] == Zeros(6)
  {
    var c := SmallFile()[312..];
    assert c[8] == 0x30 && c[9] == 0;
  }

  /** What the parser makes of the file: an empty sequence for SignedData, and six bytes of padding. */
  function SmallPe(): Pe32.Pe {
    Pe32.Pe(SmallFile(), 312, 220, [0x30, 0], Zeros(6))
  }

  /** The file is taken apart as said, wherever two bytes pass for SignedData. */
  lemma SmallShape(any: seq<byte> -> bool)
    requires any([0x30, 0])
    ensures Pe32Laws.IsParse(SmallPe(), any)
  {
    SmallHeaders();
    SmallDirectory();
    SmallTable();
    var f := SmallFile();
    hide SmallFile, U32, U16;
    assert Pe32.ReadDirectory(f) == Pe32.Ok(Pe32.Directory(16, 184));
    assert Pe32.GetAttributeCertificates(f) == Pe32.Ok(Pe32.Table(312, 16, 220));
    hide Pe32.ReadDirectory;
    var c := f[312..];
    assert c[8..][..2] == c[8..10] && c[8..][2..] == c[10..];
    assert Pe32.ProcessAttributeCertificates(c) == Pe32.Ok(Pe32.Certificate([0x30, 0], c[10..]));
  }

  /** The same as a PE32+ image, whose optional header is 16 bytes longer. */
  function PlusFile(): seq<byte> {
    seq(344, i => if i == 60 then 64
                  else if i == 64 then 0x50 else if i == 65 then 0x45
                  else if i == 84 then 240 else if i == 86 then 2
                  else if i == 88 then 0x0b else if i == 89 then 2
                  else if i == 196 then 16
                  else if i == 232 then 0x48 else if i == 233 then 1
                  else if i == 236 || i == 328 then 16
                  else if i == 333 || i == 334 then 2
                  else if i == 336 then 0x30
                  else 0)
  }

  function PlusPe(): Pe32.Pe {
    Pe32.Pe(PlusFile(), 328, 236, [0x30, 0], Zeros(6))
  }

  lemma PlusHeaders()
    ensures var f := PlusFile();
            && |f| == 344 && U32(f, 60) == 64 && f[64..68] == [0x50, 0x45, 0, 0]
            && U16(f, 84) == 240 && U16(f, 86) == 2 && U16(f, 88) == 0x20b
  {
  }

  lemma PlusDirectory()
    ensures var f := PlusFile();
            U32(f, 196) == 16 && U32(f, 232) == 328 && U32(f, 236) == 16
  {
  }

  lemma PlusTable()
    ensures var c := PlusFile()[328..];
            |c| == 16 && U32(c, 0) == 16 && U16(c, 4) == 0x200 && U16(c, 6) == 2
            && c[8..10] == [0x30, 0] && c[10..] == Zeros(6)
  {
    var c := PlusFile()[328..];
    assert c[8] == 0x30 && c[9] == 0;
  }

  lemma PlusShape(any: seq<byte> -> bool)
    requires any([0x30, 0])
    ensures Pe32Laws.IsParse(PlusPe(), any)
  {
    PlusHeaders();
    PlusDirectory();
    PlusTable();
    var f := PlusFile();
    hide PlusFile, U32, U16;
    assert Pe32.ReadDirectory(f) == Pe32.Ok(Pe32.Directory(16, 200));
    assert Pe32.GetAttributeCertificates(f) == Pe32.Ok(Pe32.Table(328, 16, 236));
    hide Pe32.ReadDirectory;
    var c := f[328..];
    assert c[8..][..2] == c[8..10] && c[8..][2..] == c[10..];
    assert Pe32.ProcessAttributeCertificates(c) == Pe32.Ok(Pe32.Certificate([0x30, 0], c[10..]));
  }

  /** Whatever SignedData is accepted, there is a PE32+ file with it, too. */
  lemma PlusFileParses(asn1: seq<byte>, accepts: seq<byte> -> bool)
    requires Pe32.SelfDelimiting(asn1) && accepts(asn1) && |asn1| + 343 < TWO32
    ensures var f := Pe32.Build(PlusPe(), asn1, []);
            && U16(PlusFile(), 88) == 0x20b && f[..236] == PlusFile()[..236]
            && Pe32.NewPe(f, accepts) == Pe32.Ok(Pe32.Pe(f, 328, 236, asn1, Pe32.PaddedTag(|asn1|, [])))
  {
    var any := (b: seq<byte>) => true;
    PlusShape(any);
    PlusHeaders();
    Pe32Laws.BuildBytes(PlusPe(), asn1, []);
    hide PlusFile, Pe32.SelfDelimiting, Pe32.NewPe, Pe32.PaddedTag, Pe32.Build, Pe32Laws.Placed, U16;
    var f := Pe32.Build(PlusPe(), asn1, []);
    Pe32Laws.RoundTrip(PlusPe(), asn1, [], any);
    Pe32Laws.AcceptsOnly(Pe32.Pe(f, 328, 236, asn1, Pe32.PaddedTag(|asn1|, [])), any, accepts);
    assert f[..236] == PlusFile()[..236];
  }

  /** The same headers in front of other SignedData, and what the parser makes of it. */
  function PeWith(asn1: seq<byte>): Pe32.Pe {
    Pe32.Pe(Pe32.Build(SmallPe(), asn1, []), 312, 220, asn1, Pe32.PaddedTag(|asn1|, []))
  }

  /** Whatever SignedData is accepted, there is a file with it that the PE laws speak of. */
  lemma SmallFileParses(asn1: seq<byte>, accepts: seq<byte> -> bool)
    requires Pe32.SelfDelimiting(asn1) && accepts(asn1) && |asn1| + 327 < TWO32
    ensures Pe32Laws.IsParse(PeWith(asn1), accepts) && |PeWith(asn1).contents| >= 312
  {
    var any := (b: seq<byte>) => true;
    SmallShape(any);
    SmallHeaders();
    hide SmallFile, Pe32.SelfDelimiting, Pe32Laws.IsParse, Pe32.NewPe, Pe32.PaddedTag, Pe32.Build;
    Pe32Laws.RoundTrip(SmallPe(), asn1, [], any);
    Pe32Laws.AcceptsOnly(PeWith(asn1), any, accepts);
  }

  /** The padding trap on these files, for any two accepted SignedData that end where it needs them to. */
  lemma PaddingReported(first: seq<byte>, second: seq<byte>, accepts: seq<byte> -> bool)
    requires Pe32.SelfDelimiting(first) && accepts(first) && |first| % 8 == 2 && |first| + 327 < TWO32
    requires Pe32.SelfDelimiting(second) && accepts(second) && |second| % 8 == 0 && |second| + 328 < TWO32
    ensures var pe := PeWith(first);
            var pe1 := pe.(contents := Pe32.Build(pe, first, []), appendedTag := Zeros(6));
            var pe2 := pe1.(contents := Pe32.Build(pe1, second, Zeros(6)), asn1 := second, appendedTag := Zeros(8));
            && Pe32.NewPe(pe.contents, accepts) == Pe32.Ok(pe)
            && Pe32Laws.RunEdits(pe, [Pe32Laws.SetTag([])], accepts) == Pe32.Ok(pe1) && Pe32Laws.AppendedTag(pe1).Failed?
            && Pe32Laws.RunEdits(pe1, [Pe32Laws.SetSuperfluousCert(second)], accepts) == Pe32.Ok(pe2)
            && Pe32Laws.AppendedTag(pe2) == Pe32.Ok(Zeros(8))
  {
    SmallFileParses(first, accepts);
    hide SmallFile, Pe32.SelfDelimiting, Pe32.NewPe, Pe32.PaddedTag, Pe32.Build, Pe32Laws.RunEdits, Pe32Laws.AppendedTag,
      Pe32Laws.Placed;
    Pe32Laws.PaddingTrap(PeWith(first), second, accepts);
  }

  // ---------------------------------------------------------------- a file with a marker

  /** A signed file whose certificate holds the marker at 330 and room for a tag of 56 bytes. */
  function MarkedFile(): seq<byte> {
    seq(400, i requires 0 <= i => if i == 0 then 0x4d else if i == 1 then 0x5a
                  else if i == 60 then 64
                  else if i == 64 then 0x50 else if i == 65 then 0x45
                  else if i == 216 then 0x38 else if i == 217 then 1
                  else if i == 220 then 88
                  else if i == 320 then 0x30 else if i == 321 then 0x82
                  else if 330 <= i < 342 then TagEmbedding.MAGIC[i - 330]
                  else 0)
  }

  lemma MarkedHeaders()
    ensures var f := MarkedFile();
            && |f| == 400 && U16(f, 0) == 0x5a4d && U32(f, 60) == 64 && U32(f, 64) == 0x4550 && U16(f, 68) == 0
            && U32(f, 216) == 312 && U32(f, 220) == 88
  {
  }

  /** A file that the laws about embedded tags speak of. */
  lemma MarkedFileSuitable()
    ensures TagEmbedding.Suitable(MarkedFile()) && TagEmbedding.Marker(MarkedFile()) <= 330
  {
    MarkedHeaders();
    var f := MarkedFile();
    assert f[320] == 0x30 && f[321] == 0x82;
    assert f[330..342] == TagEmbedding.MAGIC;
    hide MarkedFile, U32, U16;
    assert TagEmbedding.MagicAt(f, 330);
    assert TagEmbedding.ReadCertificate(f) == TagEmbedding.Ok(TagEmbedding.CertDir(312, 88));
  }
}
