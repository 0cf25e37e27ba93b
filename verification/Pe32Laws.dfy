/** What the PE tag editor promises: rebuilding and parsing undo each other, over any sequence of edits. */
module Pe32Laws {
  import opened Bytes
  import opened Pe32

  /** The parser accepts the headers, and the certificate table lies behind the optional header. */
  predicate Placed(bin: seq<byte>) {
    && GetAttributeCertificates(bin).Ok? && IsExecutable(bin)
    && OptionalHeaderAt(bin) + SizeOfOptionalHeader(bin) <= GetAttributeCertificates(bin).value.offset
  }

  /** `pe` is what the parser makes of its own contents. */
  ghost predicate IsParse(pe: Pe, accepts: seq<byte> -> bool) {
    Placed(pe.contents) && NewPe(pe.contents, accepts) == Ok(pe)
  }

  /** The size field lies between the data directory and the certificate table, where it was read. */
  lemma PlacedFacts(bin: seq<byte>)
    requires Placed(bin)
    ensures var t, d := GetAttributeCertificates(bin).value, ReadDirectory(bin);
            && d.Ok? && HeaderInFile(bin) && t.sizeOffset == SizeFieldAt(d.value)
            && d.value.at + 8 * d.value.count == OptionalHeaderAt(bin) + SizeOfOptionalHeader(bin)
            && t.sizeOffset + 4 <= OptionalHeaderAt(bin) + SizeOfOptionalHeader(bin) <= t.offset <= |bin| < TWO32
            && t.offset + t.size == |bin| && 0 < t.offset == U32(bin, t.sizeOffset - 4)
  {
    SizeOffsetExact(bin);
    hide ReadDirectory, IsExecutable, U32, U16, OptionalHeaderAt;
  }

  lemma ParseFacts(pe: Pe, accepts: seq<byte> -> bool)
    requires IsParse(pe, accepts)
    ensures var t := GetAttributeCertificates(pe.contents);
            t == Ok(Table(pe.attrCertOffset, |pe.contents| - pe.attrCertOffset, pe.certSizeOffset))
    ensures pe.certSizeOffset + 4 <= pe.attrCertOffset <= |pe.contents|
    ensures ProcessAttributeCertificates(pe.contents[pe.attrCertOffset..]) == Ok(Certificate(pe.asn1, pe.appendedTag))
    ensures accepts(pe.asn1)
  {
    PlacedFacts(pe.contents);
    hide ReadDirectory, IsExecutable, U32, U16, GetAttributeCertificates, ProcessAttributeCertificates, OptionalHeaderAt;
  }

  /** The records that are taken apart are those the writer makes; what is in them is SignedData and the tag behind it. */
  lemma ProcessedIs(certs: seq<byte>)
    requires ProcessAttributeCertificates(certs).Ok?
    ensures var c := ProcessAttributeCertificates(certs).value;
            SelfDelimiting(c.asn1) && certs == CertificateTable(c.asn1, c.appendedTag)
  {
    ProcessedSelfDelimiting(certs);
    Write32(certs, 0);
    Write16(certs, 4);
    Write16(certs, 6);
    hide U32, U16, Put32, Put16, LengthAsn1, SelfDelimiting;
    assert certs[..8] == certs[0..4] + certs[4..6] + certs[6..8];
  }

  /** The record by its bytes: its size, revision 2.0, PKCS #7 SignedData. */
  lemma CertificateTableIs(asn1: seq<byte>, tag: seq<byte>)
    requires 8 + |asn1| + |tag| < TWO32
    ensures var b := CertificateTable(asn1, tag);
            U32(b, 0) == |b| && b[4..8] == [0, 2, 2, 0] && b[8..] == asn1 + tag
  {
    var b := CertificateTable(asn1, tag);
    assert b[0..4] == Put32(|b|);
    Read32(b, 0, |b|);
    assert b[4..8] == Put16(REVISION) + Put16(TYPE_PKCS7);
  }

  /** Objects are measured by one to three length octets, and no others are. */
  lemma SelfDelimitingIs(asn1: seq<byte>)
    ensures SelfDelimiting(asn1) <==>
            && |asn1| >= 2
            && var first: int := asn1[1];
               || (first < 0x80 && |asn1| == 2 + first)
               || (first == 0x81 && |asn1| >= 3 && var n: int := asn1[2]; |asn1| == 3 + n)
               || (first == 0x82 && |asn1| >= 4 && var high: int, low: int := asn1[2], asn1[3]; |asn1| == 4 + 0x100 * high + low)
  {
  }

  lemma ProcessedSelfDelimiting(certs: seq<byte>)
    requires ProcessAttributeCertificates(certs).Ok?
    ensures SelfDelimiting(ProcessAttributeCertificates(certs).value.asn1)
  {
    hide Word, U32, U16;
  }

  /** Outside the size field, bytes before the certificate table are copied; the size field holds the new size. */
  lemma BuildBytes(pe: Pe, asn1: seq<byte>, tag: seq<byte>)
    requires pe.certSizeOffset + 4 <= pe.attrCertOffset <= |pe.contents|
    ensures var out, padded := Build(pe, asn1, tag), PaddedTag(|asn1|, tag);
            && (forall i :: 0 <= i < pe.attrCertOffset && !(pe.certSizeOffset <= i < pe.certSizeOffset + 4) ==> out[i] == pe.contents[i])
            && out[pe.certSizeOffset..pe.certSizeOffset + 4] == Put32(8 + |asn1| + |padded|)
            && out[pe.attrCertOffset..] == CertificateTable(asn1, padded)
  {
    hide PaddedTag, Put32, CertificateTable;
  }

  lemma TableProcessed(asn1: seq<byte>, tag: seq<byte>)
    requires SelfDelimiting(asn1) && 8 + |asn1| + |tag| < TWO32
    ensures ProcessAttributeCertificates(CertificateTable(asn1, tag)) == Ok(Certificate(asn1, tag))
  {
    var b := CertificateTable(asn1, tag);
    assert b[0..4] == Put32(|b|) && b[4..6] == Put16(REVISION) && b[6..8] == Put16(TYPE_PKCS7);
    assert b[8..] == asn1 + tag;
    Read32(b, 0, |b|);
    Read16(b, 4, REVISION);
    Read16(b, 6, TYPE_PKCS7);
    LengthIgnoresRest(asn1, tag);
    hide CertificateTable, Put32, Put16, U32, U16, LengthAsn1, SelfDelimiting;
    assert (asn1 + tag)[..|asn1|] == asn1 && (asn1 + tag)[|asn1|..] == tag;
  }

  /** A file of less than 4 GB that was rebuilt has its table where it was, with the new size. */
  lemma BuiltHeaders(pe: Pe, asn1: seq<byte>, tag: seq<byte>, accepts: seq<byte> -> bool)
    requires IsParse(pe, accepts)
    requires pe.certSizeOffset + 4 <= pe.attrCertOffset <= |pe.contents|
    requires |Build(pe, asn1, tag)| < TWO32
    ensures var out := Build(pe, asn1, tag);
            && GetAttributeCertificates(out) == Ok(Table(pe.attrCertOffset, |out| - pe.attrCertOffset, pe.certSizeOffset))
            && Placed(out)
  {
    hide Build, PaddedTag, CertificateTable, Put32, ReadDirectory, IsExecutable, OptionalHeaderAt, SizeOfOptionalHeader,
         U32, Placed, GetAttributeCertificates, HeaderInFile, IsParse;
    var bin, out, so := pe.contents, Build(pe, asn1, tag), pe.certSizeOffset;
    ParseFacts(pe, accepts);
    IsParsePlaced(pe, accepts);
    PlacedFacts(bin);
    BuildBytes(pe, asn1, tag);
    DirectorySame(bin, out, ReadDirectory(bin).value.at);
    Read32(out, so, |out| - pe.attrCertOffset);
    SameWord(bin, out, so - 4);
    HeadersFrom(out, ReadDirectory(out).value, pe.attrCertOffset, so);
  }

  lemma IsParsePlaced(pe: Pe, accepts: seq<byte> -> bool)
    requires IsParse(pe, accepts)
    ensures Placed(pe.contents)
  {
  }

  lemma SameWord(a: seq<byte>, b: seq<byte>, off: nat)
    requires off + 4 <= |a| && off + 4 <= |b| && forall i :: off <= i < off + 4 ==> a[i] == b[i]
    ensures U32(a, off) == U32(b, off)
  {
  }

  /** The headers parse when the size field agrees with the rest of the file. */
  lemma HeadersFrom(bin: seq<byte>, d: Directory, offset: nat, sizeOffset: nat)
    requires ReadDirectory(bin) == Ok(d) && HeaderInFile(bin) && 0 < offset <= |bin| < TWO32
    requires d.at + 8 * d.count == OptionalHeaderAt(bin) + SizeOfOptionalHeader(bin) <= offset
    requires sizeOffset == SizeFieldAt(d) && U32(bin, sizeOffset - 4) == offset && U32(bin, sizeOffset) == |bin| - offset
    ensures GetAttributeCertificates(bin) == Ok(Table(offset, |bin| - offset, sizeOffset)) && Placed(bin)
  {
    hide ReadDirectory, IsExecutable, OptionalHeaderAt, U32, U16;
  }

  /** Parsing the rebuilt file gives back the SignedData and the tag, padded with fewer than 8 zeros. */
  lemma RoundTrip(pe: Pe, asn1: seq<byte>, tag: seq<byte>, accepts: seq<byte> -> bool)
    requires IsParse(pe, accepts) && pe.certSizeOffset + 4 <= pe.attrCertOffset <= |pe.contents|
    requires SelfDelimiting(asn1) && accepts(asn1) && |Build(pe, asn1, tag)| < TWO32
    ensures var out := Build(pe, asn1, tag);
            var pe' := Pe(out, pe.attrCertOffset, pe.certSizeOffset, asn1, PaddedTag(|asn1|, tag));
            NewPe(out, accepts) == Ok(pe') && IsParse(pe', accepts)
  {
    BuiltHeaders(pe, asn1, tag, accepts);
    BuildBytes(pe, asn1, tag);
    TableProcessed(asn1, PaddedTag(|asn1|, tag));
    hide Build, PaddedTag, CertificateTable, GetAttributeCertificates, ProcessAttributeCertificates, IsExecutable, OptionalHeaderAt;
  }

  /** A rebuilt file of 4 GB or more is refused: its size does not fit the 32-bit fields. */
  lemma TooLarge(pe: Pe, asn1: seq<byte>, tag: seq<byte>, accepts: seq<byte> -> bool)
    requires pe.certSizeOffset + 4 <= pe.attrCertOffset <= |pe.contents| && |Build(pe, asn1, tag)| >= TWO32
    ensures NewPe(Build(pe, asn1, tag), accepts) == Failed
  {
    hide Build, ReadDirectory, IsExecutable, U32, OptionalHeaderAt;
  }

  // ---------------------------------------------------------------- appended tags

  /** The tag the tool reports: short all-zero data is taken for padding. */
  function AppendedTag(pe: Pe): Outcome<seq<byte>> {
    if AllZero(pe.appendedTag) && |pe.appendedTag| < 8 then Failed else Ok(pe.appendedTag)
  }

  method ReadAppendedTag(pe: Pe) returns (r: Outcome<seq<byte>>)
    ensures r == AppendedTag(pe)
  {
    var isAllZero := true;
    for i := 0 to |pe.appendedTag|
      invariant isAllZero <==> AllZero(pe.appendedTag[..i])
    {
      assert pe.appendedTag[..i + 1] == pe.appendedTag[..i] + [pe.appendedTag[i]];
      if pe.appendedTag[i] != 0 {
        isAllZero := false;
        assert !AllZero(pe.appendedTag) by { assert pe.appendedTag[i] != 0; }
        break;
      }
    }
    assert isAllZero ==> pe.appendedTag[..|pe.appendedTag|] == pe.appendedTag;
    r := if isAllZero && |pe.appendedTag| < 8 then Failed else Ok(pe.appendedTag);
  }

  // ---------------------------------------------------------------- edits

  datatype Edit = SetTag(tag: seq<byte>) | RemoveTag | SetSuperfluousCert(asn1: seq<byte>)

  function Apply(pe: Pe, e: Edit): (r: Outcome<seq<byte>>) {
    if !(pe.certSizeOffset + 4 <= pe.attrCertOffset <= |pe.contents|) then Panic
    else match e
      case SetTag(tag) => Ok(Build(pe, pe.asn1, tag))
      case RemoveTag => if AppendedTag(pe).Failed? then Failed else Ok(Build(pe, pe.asn1, []))
      case SetSuperfluousCert(asn1) => Ok(Build(pe, asn1, pe.appendedTag))
  }

  /** Each edit works on the parse of the file before. */
  function RunEdits(pe: Pe, edits: seq<Edit>, accepts: seq<byte> -> bool): Outcome<Pe>
    decreases |edits|
  {
    if edits == [] then Ok(pe)
    else
      var out := Apply(pe, edits[0]);
      if out.Panic? then Panic
      else if out.Failed? then Failed
      else
        var next := NewPe(out.value, accepts);
        if next.Ok? then RunEdits(next.value, edits[1..], accepts) else next
  }

  /** The SignedData after the edits: the last one set. */
  function SignedDataAfter(asn1: seq<byte>, edits: seq<Edit>): seq<byte>
    decreases |edits|
  {
    if edits == [] then asn1
    else SignedDataAfter(if edits[0].SetSuperfluousCert? then edits[0].asn1 else asn1, edits[1..])
  }

  predicate EditsMarshalled(edits: seq<Edit>) {
    forall i :: 0 <= i < |edits| && edits[i].SetSuperfluousCert? ==> SelfDelimiting(edits[i].asn1)
  }

  /** The files agree before the certificate table, but for the size field. */
  ghost predicate SameOutside(pe: Pe, pe': Pe) {
    && pe'.attrCertOffset == pe.attrCertOffset <= |pe.contents| && pe.attrCertOffset <= |pe'.contents|
    && pe'.certSizeOffset == pe.certSizeOffset
    && forall i :: 0 <= i < pe.attrCertOffset && !(pe.certSizeOffset <= i < pe.certSizeOffset + 4) ==>
         pe'.contents[i] == pe.contents[i]
  }

  lemma BuildSame(pe: Pe, pe': Pe, asn1: seq<byte>, tag: seq<byte>)
    requires SameOutside(pe, pe') && pe.certSizeOffset + 4 <= pe.attrCertOffset
    ensures Build(pe, asn1, tag) == Build(pe', asn1, tag)
  {
    var so, off := pe.certSizeOffset, pe.attrCertOffset;
    hide PaddedTag, CertificateTable, Put32;
    assert pe.contents[..so] == pe'.contents[..so];
    assert pe.contents[so + 4..off] == pe'.contents[so + 4..off];
  }

  /** The SignedData and tag an edit puts behind the headers. */
  function NewTable(pe: Pe, e: Edit): (seq<byte>, seq<byte>) {
    match e
    case SetTag(tag) => (pe.asn1, tag)
    case RemoveTag => (pe.asn1, [])
    case SetSuperfluousCert(asn1) => (asn1, pe.appendedTag)
  }

  lemma ApplyIsBuild(pe: Pe, e: Edit)
    requires Apply(pe, e).Ok?
    ensures pe.certSizeOffset + 4 <= pe.attrCertOffset <= |pe.contents|
    ensures Apply(pe, e).value == Build(pe, NewTable(pe, e).0, NewTable(pe, e).1)
  {
    hide Build;
  }

  lemma ParseFields(pe: Pe, accepts: seq<byte> -> bool)
    requires NewPe(pe.contents, accepts) == Ok(pe)
    ensures accepts(pe.asn1) && SelfDelimiting(pe.asn1)
  {
    ProcessedSelfDelimiting(pe.contents[pe.attrCertOffset..]);
    hide GetAttributeCertificates, ProcessAttributeCertificates;
  }

  lemma SizeOk(pe: Pe, asn1: seq<byte>, tag: seq<byte>, accepts: seq<byte> -> bool)
    requires pe.certSizeOffset + 4 <= pe.attrCertOffset <= |pe.contents| && NewPe(Build(pe, asn1, tag), accepts).Ok?
    ensures |Build(pe, asn1, tag)| < TWO32
  {
    if |Build(pe, asn1, tag)| >= TWO32 {
      TooLarge(pe, asn1, tag, accepts);
    }
  }

  /** The parse of a rebuilt file, when there is one and the SignedData is what was asked for. */
  lemma OneEdit(pe: Pe, e: Edit, accepts: seq<byte> -> bool)
    requires IsParse(pe, accepts) && Apply(pe, e).Ok? && NewPe(Apply(pe, e).value, accepts).Ok?
    requires e.SetSuperfluousCert? ==> SelfDelimiting(e.asn1)
    ensures var pe', (asn1, tag) := NewPe(Apply(pe, e).value, accepts).value, NewTable(pe, e);
            && IsParse(pe', accepts) && SameOutside(pe, pe') && pe.certSizeOffset + 4 <= pe.attrCertOffset
            && pe'.contents == Build(pe, asn1, tag)
            && pe'.asn1 == asn1 && pe'.appendedTag == PaddedTag(|asn1|, tag)
  {
    hide NewPe, Build, SelfDelimiting, PaddedTag, Apply, IsParse, Placed;
    ApplyIsBuild(pe, e);
    var (asn1, tag) := NewTable(pe, e);
    ParseOf(pe, accepts);
    ParseFields(pe, accepts);
    SizeOk(pe, asn1, tag, accepts);
    Accepted(pe, asn1, tag, accepts);
    RoundTrip(pe, asn1, tag, accepts);
    BuildBytes(pe, asn1, tag);
  }

  lemma ParseOf(pe: Pe, accepts: seq<byte> -> bool)
    requires IsParse(pe, accepts)
    ensures NewPe(pe.contents, accepts) == Ok(pe)
  {
  }

  /** If the parser takes the rebuilt file, it took the SignedData that was put in. */
  lemma Accepted(pe: Pe, asn1: seq<byte>, tag: seq<byte>, accepts: seq<byte> -> bool)
    requires IsParse(pe, accepts) && pe.certSizeOffset + 4 <= pe.attrCertOffset <= |pe.contents| && SelfDelimiting(asn1)
    requires |Build(pe, asn1, tag)| < TWO32 && NewPe(Build(pe, asn1, tag), accepts).Ok?
    ensures accepts(asn1)
  {
    var padded := PaddedTag(|asn1|, tag);
    BuiltHeaders(pe, asn1, tag, accepts);
    BuildBytes(pe, asn1, tag);
    TableProcessed(asn1, padded);
    hide Build, PaddedTag, CertificateTable, GetAttributeCertificates, ProcessAttributeCertificates, IsExecutable, OptionalHeaderAt;
  }

  lemma SameOutsideTransitive(a: Pe, b: Pe, c: Pe)
    requires SameOutside(a, b) && SameOutside(b, c)
    ensures SameOutside(a, c)
  {
  }

  /** Over any sequence of edits: offsets stay, no other byte changes, and the last SignedData set is there. */
  lemma {:induction false} EditLaws(pe: Pe, edits: seq<Edit>, pe': Pe, accepts: seq<byte> -> bool)
    requires IsParse(pe, accepts) && pe.attrCertOffset <= |pe.contents| && EditsMarshalled(edits)
    requires RunEdits(pe, edits, accepts) == Ok(pe')
    ensures IsParse(pe', accepts) && SameOutside(pe, pe')
    ensures pe'.asn1 == SignedDataAfter(pe.asn1, edits)
    decreases |edits|
  {
    hide IsParse, NewPe, Apply, SelfDelimiting;
    if edits != [] {
      OneEdit(pe, edits[0], accepts);
      var next := NewPe(Apply(pe, edits[0]).value, accepts).value;
      EditLaws(next, edits[1..], pe', accepts);
      SameOutsideTransitive(pe, next, pe');
    }
  }

  lemma {:induction false} RunAppend(pe: Pe, edits: seq<Edit>, last: Edit, accepts: seq<byte> -> bool)
    requires RunEdits(pe, edits + [last], accepts).Ok?
    ensures RunEdits(pe, edits, accepts).Ok?
    ensures RunEdits(pe, edits + [last], accepts) == RunEdits(RunEdits(pe, edits, accepts).value, [last], accepts)
    decreases |edits|
  {
    hide NewPe, Apply;
    if edits == [] {
      assert edits + [last] == [last];
    } else {
      var next := NewPe(Apply(pe, edits[0]).value, accepts);
      assert (edits + [last])[0] == edits[0] && (edits + [last])[1..] == edits[1..] + [last];
      RunAppend(next.value, edits[1..], last, accepts);
    }
  }

  lemma RunOne(pe: Pe, e: Edit, accepts: seq<byte> -> bool)
    ensures RunEdits(pe, [e], accepts).Ok? ==> Apply(pe, e).Ok?
    ensures Apply(pe, e).Ok? ==> NewPe(Apply(pe, e).value, accepts) == RunEdits(pe, [e], accepts)
  {
    hide NewPe, Apply;
    assert [e][1..] == [];
  }

  /** Setting a tag forgets every tag before it: the file depends on the SignedData and the last tag only. */
  lemma SetForgets(pe: Pe, edits: seq<Edit>, tag: seq<byte>, pe': Pe, accepts: seq<byte> -> bool)
    requires IsParse(pe, accepts) && pe.certSizeOffset + 4 <= pe.attrCertOffset <= |pe.contents| && EditsMarshalled(edits)
    requires RunEdits(pe, edits + [SetTag(tag)], accepts) == Ok(pe')
    ensures pe'.contents == Build(pe, SignedDataAfter(pe.asn1, edits), tag)
    ensures pe'.appendedTag == PaddedTag(|SignedDataAfter(pe.asn1, edits)|, tag)
  {
    hide IsParse, NewPe, Apply, RunEdits, Build, SignedDataAfter, PaddedTag, SameOutside;
    RunAppend(pe, edits, SetTag(tag), accepts);
    var mid := RunEdits(pe, edits, accepts).value;
    EditLaws(pe, edits, mid, accepts);
    RunOne(mid, SetTag(tag), accepts);
    OneEdit(mid, SetTag(tag), accepts);
    BuildSame(pe, mid, mid.asn1, tag);
  }

  /** A tag that is set is reported, with its padding, unless it cannot be told from padding. */
  lemma SetReported(pe: Pe, tag: seq<byte>, pe': Pe, accepts: seq<byte> -> bool)
    requires IsParse(pe, accepts) && RunEdits(pe, [SetTag(tag)], accepts) == Ok(pe')
    ensures AppendedTag(pe') ==
            if AllZero(tag) && |tag| + Padding(|pe.asn1| + |tag|) < 8 then Failed else Ok(PaddedTag(|pe.asn1|, tag))
  {
    hide IsParse, NewPe, Apply, RunEdits, Build;
    RunOne(pe, SetTag(tag), accepts);
    OneEdit(pe, SetTag(tag), accepts);
    var z := Zeros(Padding(|pe.asn1| + |tag|));
    assert AllZero(tag + z) <==> AllZero(tag) by { ConcatZero(tag, z); }
  }

  lemma ConcatZero(a: seq<byte>, b: seq<byte>)
    requires AllZero(b)
    ensures AllZero(a + b) <==> AllZero(a)
  {
    if AllZero(a + b) {
      forall i | 0 <= i < |a|
        ensures a[i] == 0
      {
        assert (a + b)[i] == 0;
      }
    }
  }

  /** After a reported tag is removed, none is reported. */
  lemma RemovedNotReported(pe: Pe, pe': Pe, accepts: seq<byte> -> bool)
    requires IsParse(pe, accepts) && RunEdits(pe, [RemoveTag], accepts) == Ok(pe')
    ensures AppendedTag(pe').Failed? && pe'.asn1 == pe.asn1
  {
    hide IsParse, NewPe, Apply, RunEdits, Build;
    RunOne(pe, RemoveTag, accepts);
    OneEdit(pe, RemoveTag, accepts);
    ConcatZero([], Zeros(Padding(|pe.asn1|)));
  }

  /**
   Setting the superfluous certificate hands the old padding on as a tag.  A file that reports no tag goes on
   reporting none exactly when old and new padding together stay below 8 bytes.
   */
  lemma SuperfluousKeepsUntagged(pe: Pe, asn1: seq<byte>, pe': Pe, accepts: seq<byte> -> bool)
    requires IsParse(pe, accepts) && SelfDelimiting(asn1) && AppendedTag(pe).Failed?
    requires RunEdits(pe, [SetSuperfluousCert(asn1)], accepts) == Ok(pe')
    ensures AppendedTag(pe').Failed? <==> |pe.appendedTag| + Padding(|asn1| + |pe.appendedTag|) < 8
    ensures AppendedTag(pe').Ok? ==> AllZero(AppendedTag(pe').value)
  {
    hide IsParse, NewPe, Apply, RunEdits, Build, SelfDelimiting;
    RunOne(pe, SetSuperfluousCert(asn1), accepts);
    OneEdit(pe, SetSuperfluousCert(asn1), accepts);
    ConcatZero(pe.appendedTag, Zeros(Padding(|asn1| + |pe.appendedTag|)));
  }

  /** Setting a superfluous certificate succeeds as long as the file stays below 4 GB. */
  lemma SuperfluousSucceeds(pe: Pe, asn1: seq<byte>, accepts: seq<byte> -> bool)
    requires IsParse(pe, accepts) && pe.certSizeOffset + 4 <= pe.attrCertOffset <= |pe.contents|
    requires SelfDelimiting(asn1) && accepts(asn1) && |Build(pe, asn1, pe.appendedTag)| < TWO32
    ensures var pe' := Pe(Build(pe, asn1, pe.appendedTag), pe.attrCertOffset, pe.certSizeOffset, asn1,
                          PaddedTag(|asn1|, pe.appendedTag));
            RunEdits(pe, [SetSuperfluousCert(asn1)], accepts) == Ok(pe')
  {
    hide IsParse, SelfDelimiting, Build, NewPe, PaddedTag, RunEdits;
    assert Apply(pe, SetSuperfluousCert(asn1)) == Ok(Build(pe, asn1, pe.appendedTag));
    RoundTrip(pe, asn1, pe.appendedTag, accepts);
    RunOne(pe, SetSuperfluousCert(asn1), accepts);
  }

  /** Six zero bytes behind SignedData become more than seven when the new SignedData fills whole blocks of 8. */
  lemma PaddingAccumulates(pe: Pe, asn1: seq<byte>, pe': Pe, accepts: seq<byte> -> bool)
    requires IsParse(pe, accepts) && AllZero(pe.appendedTag) && |pe.appendedTag| == 6
    requires SelfDelimiting(asn1) && |asn1| % 8 == 0
    requires RunEdits(pe, [SetSuperfluousCert(asn1)], accepts) == Ok(pe')
    ensures AppendedTag(pe).Failed? && AppendedTag(pe').Ok? && AllZero(AppendedTag(pe').value)
  {
    hide IsParse, RunEdits, SelfDelimiting;
    SuperfluousKeepsUntagged(pe, asn1, pe', accepts);
  }

  /** Setting a tag succeeds as long as the file stays below 4 GB. */
  lemma SetTagSucceeds(pe: Pe, tag: seq<byte>, accepts: seq<byte> -> bool)
    requires IsParse(pe, accepts) && pe.certSizeOffset + 4 <= pe.attrCertOffset <= |pe.contents|
    requires |Build(pe, pe.asn1, tag)| < TWO32
    ensures var pe' := Pe(Build(pe, pe.asn1, tag), pe.attrCertOffset, pe.certSizeOffset, pe.asn1,
                          PaddedTag(|pe.asn1|, tag));
            RunEdits(pe, [SetTag(tag)], accepts) == Ok(pe') && IsParse(pe', accepts)
  {
    hide IsParse, SelfDelimiting, Build, NewPe, PaddedTag, RunEdits;
    ParseOf(pe, accepts);
    ParseFields(pe, accepts);
    assert Apply(pe, SetTag(tag)) == Ok(Build(pe, pe.asn1, tag));
    RoundTrip(pe, pe.asn1, tag, accepts);
    RunOne(pe, SetTag(tag), accepts);
  }

  /** Removing a tag succeeds exactly when one is reported. */
  lemma RemoveTagExact(pe: Pe, accepts: seq<byte> -> bool)
    requires IsParse(pe, accepts) && pe.certSizeOffset + 4 <= pe.attrCertOffset <= |pe.contents|
    requires |Build(pe, pe.asn1, [])| < TWO32
    ensures var pe' := Pe(Build(pe, pe.asn1, []), pe.attrCertOffset, pe.certSizeOffset, pe.asn1, PaddedTag(|pe.asn1|, []));
            RunEdits(pe, [RemoveTag], accepts) == if AppendedTag(pe).Ok? then Ok(pe') else Failed
  {
    hide IsParse, SelfDelimiting, Build, NewPe, PaddedTag;
    ParseOf(pe, accepts);
    ParseFields(pe, accepts);
    RoundTrip(pe, pe.asn1, [], accepts);
    if AppendedTag(pe).Ok? {
      hide RunEdits;
      assert Apply(pe, RemoveTag) == Ok(Build(pe, pe.asn1, []));
      RunOne(pe, RemoveTag, accepts);
    }
  }

  lemma SixThenEight(n: nat, m: nat)
    requires n % 8 == 2 && m % 8 == 0
    ensures PaddedTag(n, []) == Zeros(6) && PaddedTag(m, Zeros(6)) == Zeros(8)
  {
    assert Padding(n) == 6 && Padding(m + 6) == 2;
    assert [] + Zeros(6) == Zeros(6) && Zeros(6) + Zeros(2) == Zeros(8);
  }

  lemma ZeroTag(pe: Pe, n: nat)
    requires pe.appendedTag == Zeros(n)
    ensures AppendedTag(pe) == if n < 8 then Failed else Ok(Zeros(n))
  {
  }

  /**
   The padding trap, on every file whose SignedData ends two bytes into a block of 8: with an empty tag set it reports
   none; then SignedData that fills whole blocks is set, and eight zero bytes are reported.
   */
  lemma PaddingTrap(pe: Pe, asn1: seq<byte>, accepts: seq<byte> -> bool)
    requires IsParse(pe, accepts) && pe.certSizeOffset + 4 <= pe.attrCertOffset <= |pe.contents| && |pe.asn1| % 8 == 2
    requires SelfDelimiting(asn1) && accepts(asn1) && |asn1| % 8 == 0
    requires |Build(pe, pe.asn1, [])| < TWO32 && pe.attrCertOffset + 16 + |asn1| < TWO32
    ensures var pe1 := Pe(Build(pe, pe.asn1, []), pe.attrCertOffset, pe.certSizeOffset, pe.asn1, Zeros(6));
            var pe2 := Pe(Build(pe1, asn1, Zeros(6)), pe.attrCertOffset, pe.certSizeOffset, asn1, Zeros(8));
            && RunEdits(pe, [SetTag([])], accepts) == Ok(pe1) && AppendedTag(pe1).Failed?
            && RunEdits(pe1, [SetSuperfluousCert(asn1)], accepts) == Ok(pe2) && AppendedTag(pe2) == Ok(Zeros(8))
  {
    hide IsParse, SelfDelimiting, Build, NewPe, PaddedTag, RunEdits, AppendedTag;
    SixThenEight(|pe.asn1|, |asn1|);
    SetTagSucceeds(pe, [], accepts);
    var pe1 := Pe(Build(pe, pe.asn1, []), pe.attrCertOffset, pe.certSizeOffset, pe.asn1, Zeros(6));
    SuperfluousSucceeds(pe1, asn1, accepts);
    ZeroTag(pe1, 6);
    ZeroTag(Pe(Build(pe1, asn1, Zeros(6)), pe.attrCertOffset, pe.certSizeOffset, asn1, Zeros(8)), 8);
  }

  /** A file is taken apart in the same way whatever SignedData is accepted. */
  lemma AcceptsOnly(pe: Pe, any: seq<byte> -> bool, accepts: seq<byte> -> bool)
    requires IsParse(pe, any) && accepts(pe.asn1)
    ensures IsParse(pe, accepts)
  {
    hide GetAttributeCertificates, ProcessAttributeCertificates, Placed;
  }
}
