/**
 The tag that Omaha's own code embeds in a signed PE file: `TagExtractor` reads it, `ApplyTag` writes it over a
 marker that the certificate was padded with.  The layout is the one of 32-bit images, which the code is built for.
 */
module TagEmbedding {
  import opened Bytes

  /** `Failed` is a `false` or an error code; `Overrun` is an access past the buffer, which C++ leaves undefined. */
  datatype Outcome<+T> = Ok(value: T) | Failed | Overrun

  /** "Gact2.0Omaha". */
  const MAGIC: seq<byte> := [0x47, 0x61, 0x63, 0x74, 0x32, 0x2e, 0x30, 0x4f, 0x6d, 0x61, 0x68, 0x61]
  const MAGIC_LEN: nat := 12
  const TAG_HEADER_LEN: nat := 14
  const PE_HEADER_AT: nat := 60
  const DOS_HEADER_SIZE: nat := 64
  const NT_HEADERS_SIZE: nat := 248
  const CERT_DIR_AT: nat := 152
  const WIN_CERTIFICATE_SIZE: nat := 12
  const MACHINE_AMD64: nat := 0x8664

  // ---------------------------------------------------------------- finding the marker

  predicate MagicAt(bin: seq<byte>, p: nat) {
    p + MAGIC_LEN <= |bin| && bin[p..p + MAGIC_LEN] == MAGIC
  }

  /** The first marker that lies in `p .. hi`, or `hi`. */
  function FindMagic(bin: seq<byte>, p: nat, hi: nat): (r: nat)
    requires p <= hi <= |bin|
    ensures p <= r <= hi
    ensures r < hi ==> r + MAGIC_LEN <= hi && MagicAt(bin, r)
    ensures forall q :: p <= q < r && q + MAGIC_LEN <= hi ==> !MagicAt(bin, q)
    decreases hi - p
  {
    if p + MAGIC_LEN > hi then hi else if MagicAt(bin, p) then p else FindMagic(bin, p + 1, hi)
  }

  lemma FindMagicIs(bin: seq<byte>, p: nat, hi: nat, r: nat)
    requires p <= r < hi <= |bin| && r + MAGIC_LEN <= hi && MagicAt(bin, r)
    requires forall q :: p <= q < r ==> !MagicAt(bin, q)
    ensures FindMagic(bin, p, hi) == r
  {
    var f := FindMagic(bin, p, hi);
  }

  /** std::search over `lo .. hi`. */
  method Search(bin: seq<byte>, lo: nat, hi: nat) returns (r: nat)
    requires lo <= hi <= |bin|
    ensures r == FindMagic(bin, lo, hi)
  {
    r := lo;
    while r + MAGIC_LEN <= hi
      invariant lo <= r <= hi && FindMagic(bin, lo, hi) == FindMagic(bin, r, hi)
    {
      if bin[r..r + MAGIC_LEN] == MAGIC {
        return;
      }
      r := r + 1;
    }
    r := hi;
  }

  // ---------------------------------------------------------------- TagExtractor

  datatype CertDir = CertDir(base: nat, length: nat)

  function GetCertificateDirectory(bin: seq<byte>): (r: Outcome<CertDir>)
    ensures r.Ok? ==> |bin| >= DOS_HEADER_SIZE && U32(bin, PE_HEADER_AT) + NT_HEADERS_SIZE <= |bin|
  {
    if |bin| < DOS_HEADER_SIZE || U16(bin, 0) != 0x5a4d then Failed
    else
      var pe := U32(bin, PE_HEADER_AT);
      if |bin| < pe + NT_HEADERS_SIZE then Failed
      else if U32(bin, pe) != 0x4550 || U16(bin, pe + 4) == MACHINE_AMD64 then Failed
      else
        var base, length := U32(bin, pe + CERT_DIR_AT), U32(bin, pe + CERT_DIR_AT + 4);
        if base == 0 || |bin| < base + WIN_CERTIFICATE_SIZE then Failed
        else Ok(CertDir(base, length))
  }

  /** The certificate directory, when it holds an ASN.1 sequence with two length bytes. */
  function ReadCertificate(bin: seq<byte>): (r: Outcome<CertDir>)
  {
    var d := GetCertificateDirectory(bin);
    if !d.Ok? then Failed
    else if d.value.base + 8 + 4 >= |bin| then Failed
    else if bin[d.value.base + 8] != 0x30 || bin[d.value.base + 9] != 0x82 then Failed
    else d
  }

  /** The length that the tag at the first marker announces. */
  function TagLength(bin: seq<byte>, d: CertDir): (r: Outcome<nat>)
    requires d.base + d.length <= |bin|
  {
    var m := FindMagic(bin, d.base, d.base + d.length);
    if m == d.base + d.length then Failed
    else if m + TAG_HEADER_LEN > |bin| then Overrun
    else
      var n := Word(bin[m + 13], bin[m + 12], 0, 0);
      if n == 0 then Failed else Ok(n)
  }

  function ReadTag(bin: seq<byte>, d: CertDir): (r: Outcome<seq<byte>>)
    requires d.base + d.length <= |bin|
  {
    var at := FindMagic(bin, d.base, d.base + d.length) + TAG_HEADER_LEN;
    match TagLength(bin, d)
    case Failed => Failed
    case Overrun => Overrun
    case Ok(n) => if at + n > |bin| then Overrun else Ok(bin[at..at + n])
  }

  function ExtractTag(bin: seq<byte>): (r: Outcome<seq<byte>>)
  {
    var d := ReadCertificate(bin);
    if !d.Ok? then Failed
    else if d.value.base + d.value.length > |bin| then Failed
    else ReadTag(bin, d.value)
  }

  // ---------------------------------------------------------------- ApplyTag

  /** The characters of kValidTagStringRegEx. */
  predicate IsValidTagChar(c: byte) {
    || 0x61 <= c <= 0x7a || 0x41 <= c <= 0x5a || 0x30 <= c <= 0x39
    || c in {0x2d, 0x25, 0x7b, 0x7d, 0x2f, 0x26, 0x3d, 0x2e, 0x2c, 0x5f}
  }

  predicate IsValidTagString(tag: seq<byte>) {
    forall i :: 0 <= i < |tag| ==> IsValidTagChar(tag[i])
  }

  /** Magic, 16-bit big-endian length, string. */
  function TagBuffer(tag: seq<byte>): (b: seq<byte>)
    ensures |b| == TAG_HEADER_LEN + |tag|
  {
    MAGIC + [|tag| / 0x100 % 0x100, |tag| % 0x100] + tag
  }

  /** The certificate directory as the writer reads it: without the reader's checks. */
  function WriterCertDir(bin: seq<byte>): (r: Outcome<CertDir>)
    ensures r.Ok? ==> r.value.base + r.value.length <= |bin|
  {
    if |bin| < PE_HEADER_AT + 4 then Overrun
    else
      var pe := U32(bin, PE_HEADER_AT);
      if |bin| < pe + CERT_DIR_AT + 8 then Overrun
      else
        var base, length := U32(bin, pe + CERT_DIR_AT), U32(bin, pe + CERT_DIR_AT + 4);
        if base == 0 then Failed else if base + length > |bin| then Overrun else Ok(CertDir(base, length))
  }

  function ApplyTagToBuffer(bin: seq<byte>, buffer: seq<byte>): (r: Outcome<seq<byte>>)
  {
    var d := WriterCertDir(bin);
    if d.Overrun? then Overrun
    else if d.Failed? then Failed
    else
      var m := FindMagic(bin, d.value.base, d.value.base + d.value.length);
      if m == d.value.base + d.value.length then Failed
      else if m + |buffer| > |bin| then Overrun
      else Ok(Overlay(bin, m, buffer))
  }

  /** The tag already in the file, empty when there is none. */
  function ExistingTag(bin: seq<byte>): Outcome<seq<byte>> {
    var t := ExtractTag(bin);
    if t.Failed? then Ok([]) else t
  }

  /** The file with `tag` behind the tag it has. */
  function Embed(bin: seq<byte>, tag: seq<byte>, append: bool): Outcome<seq<byte>> {
    var prev := ExistingTag(bin);
    if !prev.Ok? then prev
    else if !append && prev.value != [] then Failed
    else ApplyTagToBuffer(bin, TagBuffer(prev.value + tag))
  }

  // ---------------------------------------------------------------- the bytes behind it

  /** The codes of the characters of a text. */
  function Codes(s: string): (b: seq<int>)
    ensures |b| == |s|
  {
    seq(|s|, i requires 0 <= i < |s| => s[i] as int)
  }

  /**
   A certificate is read exactly from a file with the two signatures of an image that is not 64-bit, whose fifth data
   directory entry names a certificate inside the file that starts as an ASN.1 sequence with two length bytes.
   */
  lemma ReadCertificateExact(bin: seq<byte>, base: nat, length: nat)
    ensures ReadCertificate(bin) == Ok(CertDir(base, length)) <==>
            && |bin| >= 64 && bin[0..2] == [0x4d, 0x5a]
            && var pe := U32(bin, 60);
               && pe + 248 <= |bin| && bin[pe..pe + 4] == [0x50, 0x45, 0, 0] && bin[pe + 4..pe + 6] != [0x64, 0x86]
               && U32(bin, pe + 120 + 32) == base != 0 && U32(bin, pe + 120 + 36) == length
               && base + 12 < |bin| && bin[base + 8..base + 10] == [0x30, 0x82]
  {
    if |bin| >= 64 {
      TwoBytes(bin, 0, 0x4d, 0x5a);
      var pe := U32(bin, 60);
      if pe + 248 <= |bin| {
        FourBytes(bin, pe);
        TwoBytes(bin, pe + 4, 0x64, 0x86);
        hide U32, U16;
        if U32(bin, pe + 152) + 12 < |bin| {
          var at := U32(bin, pe + 152) + 8;
          assert bin[at..at + 2] == [bin[at], bin[at + 1]];
        }
      }
    }
  }

  /** The writer only asks that the fifth data directory entry is there and names bytes of the file. */
  lemma WriterCertDirExact(bin: seq<byte>, base: nat, length: nat)
    ensures WriterCertDir(bin) == Ok(CertDir(base, length)) <==>
            && |bin| >= 64 && U32(bin, 60) + 160 <= |bin|
            && U32(bin, U32(bin, 60) + 152) == base != 0 && U32(bin, U32(bin, 60) + 156) == length && base + length <= |bin|
    ensures WriterCertDir(bin) == Failed <==>
            |bin| >= 64 && U32(bin, 60) + 160 <= |bin| && U32(bin, U32(bin, 60) + 152) == 0
  {
    hide U32;
  }

  /** A marker is the text of it, with anything before and behind. */
  lemma MagicAtIs(before: seq<byte>, behind: seq<byte>)
    ensures MagicAt(before + MAGIC + behind, |before|) && MAGIC == Codes("Gact2.0Omaha")
  {
    var bin := before + MAGIC + behind;
    assert bin[|before|..|before| + 12] == MAGIC;
  }

  /** Without a marker in the certificate directory no tag is read, and none is written. */
  lemma NoMarker(bin: seq<byte>, d: CertDir, buffer: seq<byte>)
    requires d.base + d.length <= |bin| && forall q :: d.base <= q && q + 12 <= d.base + d.length ==> !MagicAt(bin, q)
    ensures ReadTag(bin, d) == Failed
    ensures WriterCertDir(bin) == Ok(d) ==> ApplyTagToBuffer(bin, buffer) == Failed
  {
    var m := FindMagic(bin, d.base, d.base + d.length);
    assert m == d.base + d.length;
  }

  /** The tag at the first marker: two bytes announce its length, which must not be zero, and the tag follows. */
  lemma ReadTagExact(bin: seq<byte>, d: CertDir, m: nat)
    requires d.base + d.length <= |bin| && d.base <= m && m + 12 <= d.base + d.length && MagicAt(bin, m)
    requires forall q :: d.base <= q < m ==> !MagicAt(bin, q)
    ensures ReadTag(bin, d) ==
            if m + 14 > |bin| then Overrun
            else
              var high: int, low: int := bin[m + 12], bin[m + 13];
              var n := 0x100 * high + low;
              if n == 0 then Failed else if m + 14 + n > |bin| then Overrun else Ok(bin[m + 14..m + 14 + n])
  {
    FindMagicIs(bin, d.base, d.base + d.length, m);
    hide FindMagic, MagicAt;
  }

  lemma TwoBytes(b: seq<byte>, at: nat, low: byte, high: byte)
    requires at + 2 <= |b|
    ensures b[at..at + 2] == [low, high] <==> U16(b, at) == high * 0x100 + low
  {
    assert b[at..at + 2] == [b[at], b[at + 1]];
  }

  lemma FourBytes(b: seq<byte>, at: nat)
    requires at + 4 <= |b|
    ensures b[at..at + 4] == [0x50, 0x45, 0, 0] <==> U32(b, at) == 0x4550
  {
    assert b[at..at + 4] == [b[at], b[at + 1], b[at + 2], b[at + 3]];
  }

  /** No tag is read from a 64-bit image. */
  lemma WideImageRefused(bin: seq<byte>)
    requires |bin| >= 64 && U32(bin, 60) + 6 <= |bin|
    requires bin[U32(bin, 60) + 4..U32(bin, 60) + 6] == [0x64, 0x86]
    ensures ExtractTag(bin) == Failed
  {
    TwoBytes(bin, U32(bin, 60) + 4, 0x64, 0x86);
    hide U32, U16;
  }

  /** The character class of the regular expression. */
  predicate TagCharacter(c: char) {
    c in "-%{}/&=.,_" || 'a' <= c <= 'z' || 'A' <= c <= 'Z' || '0' <= c <= '9'
  }

  /** The texts that can be embedded are those the regular expression matches. */
  lemma TagStringIs(text: string)
    requires forall i :: 0 <= i < |text| ==> text[i] as int < 0x100
    ensures IsValidTagString(Codes(text)) <==> forall i :: 0 <= i < |text| ==> TagCharacter(text[i])
  {
    hide TagCharacter, IsValidTagChar;
    forall i | 0 <= i < |text|
      ensures IsValidTagChar(Codes(text)[i]) <==> TagCharacter(text[i])
    {
      TagCharIs(text[i]);
    }
  }

  lemma TagCharIs(c: char)
    requires c as int < 0x100
    ensures IsValidTagChar(c as int) <==> TagCharacter(c)
  {
    var marks := "-%{}/&=.,_";
    assert marks[0] == '-' && marks[1] == '%' && marks[2] == '{' && marks[3] == '}' && marks[4] == '/';
    assert marks[5] == '&' && marks[6] == '=' && marks[7] == '.' && marks[8] == ',' && marks[9] == '_';
  }

  /** What is written: the text of the marker, the length with its high byte first, the tag. */
  lemma TagBufferIs(tag: seq<byte>)
    requires |tag| < 0x1_0000
    ensures var b := TagBuffer(tag);
            var high: int, low: int := b[12], b[13];
            b[..12] == Codes("Gact2.0Omaha") && high * 0x100 + low == |tag| && b[14..] == tag
  {
    assert TagBuffer(tag)[..12] == MAGIC;
  }

  // ---------------------------------------------------------------- reading back what was written

  /** A signed file padded with a marker: its certificate directory lies behind the headers and ends the file. */
  ghost predicate Suitable(bin: seq<byte>) {
    && ReadCertificate(bin).Ok? && GetCertificateDirectory(bin).Ok?
    && var d := ReadCertificate(bin).value;
       && d.base + d.length == |bin|
       && U32(bin, PE_HEADER_AT) + NT_HEADERS_SIZE <= d.base && DOS_HEADER_SIZE <= d.base
       && FindMagic(bin, d.base, |bin|) < |bin|
  }

  ghost function Marker(bin: seq<byte>): nat
    requires Suitable(bin)
  {
    FindMagic(bin, ReadCertificate(bin).value.base, |bin|)
  }

  /** Headers that agree are read alike. */
  lemma HeadersSame(a: seq<byte>, b: seq<byte>, k: nat)
    requires GetCertificateDirectory(a).Ok? && U32(a, PE_HEADER_AT) + NT_HEADERS_SIZE <= k <= |a| && DOS_HEADER_SIZE <= k
    requires |a| == |b| && forall i :: 0 <= i < k ==> a[i] == b[i]
    ensures GetCertificateDirectory(b) == GetCertificateDirectory(a)
  {
    hide Word;
    assert U32(b, PE_HEADER_AT) == U32(a, PE_HEADER_AT);
  }

  /** Writing at the first marker leaves it the first marker: no byte before its end changes. */
  lemma MarkerStays(a: seq<byte>, b: seq<byte>, lo: nat, m: nat)
    requires lo <= m && |a| == |b| && m < |a| && FindMagic(a, lo, |a|) == m
    requires forall i :: 0 <= i < m + MAGIC_LEN ==> i < |a| && a[i] == b[i]
    ensures FindMagic(b, lo, |b|) == m
  {
    assert a[m..m + MAGIC_LEN] == b[m..m + MAGIC_LEN];
    forall q | lo <= q < m
      ensures !MagicAt(b, q)
    {
      assert !MagicAt(a, q);
      assert a[q..q + MAGIC_LEN] == b[q..q + MAGIC_LEN];
    }
    FindMagicIs(b, lo, |b|, m);
  }

  /** The string the length field, which has 16 bits, announces. */
  function Announced(tag: seq<byte>): Outcome<seq<byte>> {
    if |tag| % TWO16 == 0 then Failed else Ok(tag[..|tag| % TWO16])
  }

  lemma ReadBack(bin: seq<byte>, d: CertDir, m: nat, tag: seq<byte>)
    requires d.base + d.length == |bin| && m < |bin| && FindMagic(bin, d.base, |bin|) == m
    requires m + TAG_HEADER_LEN + |tag| <= |bin| && bin[m..m + TAG_HEADER_LEN + |tag|] == TagBuffer(tag)
    ensures ReadTag(bin, d) == Announced(tag)
  {
    hide Word, MagicAt, FindMagic;
    var n := |tag| % TWO16;
    LengthBytes(|tag|);
    BufferParts(tag);
    hide TagBuffer;
    var w := bin[m..m + TAG_HEADER_LEN + |tag|];
    assert bin[m + 12] == w[12] && bin[m + 13] == w[13];
    assert bin[m + TAG_HEADER_LEN..m + TAG_HEADER_LEN + n] == w[TAG_HEADER_LEN..][..n];
  }

  lemma BufferParts(tag: seq<byte>)
    ensures var b := TagBuffer(tag);
            b[..MAGIC_LEN] == MAGIC && b[12] == |tag| / 0x100 % 0x100 && b[13] == |tag| % 0x100 && b[TAG_HEADER_LEN..] == tag
  {
  }

  lemma LengthBytes(n: nat)
    ensures Word(n % 0x100, n / 0x100 % 0x100, 0, 0) == n % TWO16
  {
    var low, rest := n % 0x100, n / 0x100;
    var high, above := rest % 0x100, rest / 0x100;
    assert n == low + 0x100 * high + TWO16 * above;
    assert 0 <= low + 0x100 * high < TWO16;
  }

  /** The files before and after one embedding. */
  lemma Written(bin: seq<byte>, tag: seq<byte>)
    requires Suitable(bin) && Marker(bin) + TAG_HEADER_LEN + |tag| <= |bin|
    ensures var out := Overlay(bin, Marker(bin), TagBuffer(tag));
            && ApplyTagToBuffer(bin, TagBuffer(tag)) == Ok(out)
            && Suitable(out) && Marker(out) == Marker(bin) && ReadCertificate(out) == ReadCertificate(bin)
            && ExtractTag(out) == Announced(tag)
  {
    hide Overlay, TagBuffer, U32, U16, FindMagic;
    var d, m, b := ReadCertificate(bin).value, Marker(bin), TagBuffer(tag);
    var out := Overlay(bin, m, b);
    WriterAgrees(bin);
    PrefixKept(bin, m, tag);
    hide WriterCertDir;
    MarkerStays(bin, out, d.base, m);
    CertificateSame(bin, out);
    hide GetCertificateDirectory, ReadCertificate;
    ReadBack(out, d, m, tag);
  }

  lemma CertificateSame(a: seq<byte>, b: seq<byte>)
    requires Suitable(a) && |a| == |b|
    requires forall i :: 0 <= i < Marker(a) + MAGIC_LEN ==> i < |a| && a[i] == b[i]
    ensures GetCertificateDirectory(b) == GetCertificateDirectory(a) && ReadCertificate(b) == ReadCertificate(a)
    ensures U32(b, PE_HEADER_AT) == U32(a, PE_HEADER_AT)
  {
    hide Word;
    var d := ReadCertificate(a).value;
    HeadersSame(a, b, d.base);
  }

  lemma WriterAgrees(bin: seq<byte>)
    requires Suitable(bin)
    ensures WriterCertDir(bin) == ReadCertificate(bin)
  {
    hide Word, FindMagic;
  }

  lemma PrefixKept(bin: seq<byte>, m: nat, tag: seq<byte>)
    requires MagicAt(bin, m) && m + TAG_HEADER_LEN + |tag| <= |bin|
    ensures forall i :: 0 <= i < m + MAGIC_LEN ==> Overlay(bin, m, TagBuffer(tag))[i] == bin[i]
  {
    var b := TagBuffer(tag);
    var out := Overlay(bin, m, b);
    forall i | m <= i < m + MAGIC_LEN
      ensures out[i] == bin[i]
    {
      assert out[i] == out[m..m + |b|][i - m] == MAGIC[i - m];
      assert bin[i] == bin[m..m + MAGIC_LEN][i - m];
    }
  }

  /**
   What is read back after embedding: the old tag followed by the new one exactly when together they fit the
   16-bit length field.
   */
  lemma EmbedExact(bin: seq<byte>, tag: seq<byte>, prev: seq<byte>)
    requires Suitable(bin) && ExistingTag(bin) == Ok(prev) && tag != []
    requires Marker(bin) + TAG_HEADER_LEN + |prev| + |tag| <= |bin|
    ensures var r := Embed(bin, tag, true);
            && r.Ok? && Suitable(r.value) && Marker(r.value) == Marker(bin) && |r.value| == |bin|
            && (ExtractTag(r.value) == Ok(prev + tag) <==> |prev| + |tag| < TWO16)
            && (forall i :: 0 <= i < |bin| && !(Marker(bin) + MAGIC_LEN <= i < Marker(bin) + TAG_HEADER_LEN + |prev| + |tag|) ==>
                  r.value[i] == bin[i])
  {
    hide Suitable, ExtractTag, Overlay, TagBuffer, ApplyTagToBuffer;
    Written(bin, prev + tag);
    SuitableMarker(bin);
    PrefixKept(bin, Marker(bin), prev + tag);
    var n := |prev + tag|;
    if n < TWO16 {
      assert (prev + tag)[..n % TWO16] == prev + tag;
    }
  }

  lemma SuitableMarker(bin: seq<byte>)
    requires Suitable(bin)
    ensures MagicAt(bin, Marker(bin))
  {
  }

  function EmbedAll(bin: seq<byte>, tags: seq<seq<byte>>): Outcome<seq<byte>>
    decreases |tags|
  {
    if tags == [] then Ok(bin)
    else
      var r := Embed(bin, tags[0], true);
      if r.Ok? then EmbedAll(r.value, tags[1..]) else r
  }

  function Concat(tags: seq<seq<byte>>): seq<byte> {
    if tags == [] then [] else tags[0] + Concat(tags[1..])
  }

  /** Tags applied one after the other are read back as their concatenation behind the tag the file had. */
  lemma {:induction false} EmbedSequence(bin: seq<byte>, tags: seq<seq<byte>>, prev: seq<byte>)
    requires Suitable(bin) && ExistingTag(bin) == Ok(prev)
    requires forall i :: 0 <= i < |tags| ==> tags[i] != []
    requires |prev| + |Concat(tags)| < TWO16
    requires Marker(bin) + TAG_HEADER_LEN + |prev| + |Concat(tags)| <= |bin|
    ensures var r := EmbedAll(bin, tags);
            && r.Ok? && Suitable(r.value) && Marker(r.value) == Marker(bin) && |r.value| == |bin|
            && ExistingTag(r.value) == Ok(prev + Concat(tags))
            && (forall i :: 0 <= i < Marker(bin) + MAGIC_LEN ==> r.value[i] == bin[i])
    decreases |tags|
  {
    hide Suitable, ExtractTag, Embed;
    SuitableMarker(bin);
    if tags == [] {
      assert prev + Concat(tags) == prev;
    } else {
      EmbedExact(bin, tags[0], prev);
      var next := Embed(bin, tags[0], true).value;
      EmbedSequence(next, tags[1..], prev + tags[0]);
      assert prev + Concat(tags) == prev + tags[0] + Concat(tags[1..]);
    }
  }

  /** Without the append flag only an untagged file is tagged. */
  lemma NoOverwrite(bin: seq<byte>, tag: seq<byte>, prev: seq<byte>)
    requires Suitable(bin) && ExistingTag(bin) == Ok(prev) && Marker(bin) + TAG_HEADER_LEN + |tag| <= |bin|
    ensures Embed(bin, tag, false).Ok? <==> prev == []
  {
    hide Suitable, ExtractTag, ApplyTagToBuffer;
    if prev == [] {
      assert prev + tag == tag;
      Written(bin, tag);
    }
  }
}
