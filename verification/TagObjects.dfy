/** The objects that read and write tags. */
module TagObjects {
  import opened Bytes
  import opened TagEmbedding

  /** A string and its terminating zero. */
  method CopyTag(a: array<byte>, tag: seq<byte>)
    requires |tag| < a.Length
    modifies a
    ensures a[..|tag| + 1] == tag + [0]
  {
    PutBytes(a, 0, tag);
    assert a[..|tag|] == a[..][0..|tag|] == tag;
    a[|tag|] := 0;
  }

  // ---------------------------------------------------------------- the reader

  class TagExtractor {
    var certDirBase: nat
    var certDirLength: nat

    constructor ()
      ensures certDirBase == 0 && certDirLength == 0
    {
      certDirBase, certDirLength := 0, 0;
    }

    method InternalReadCertificate(bin: seq<byte>) returns (ok: bool)
      modifies this
      ensures ok <==> ReadCertificate(bin).Ok?
      ensures ok ==> CertDir(certDirBase, certDirLength) == ReadCertificate(bin).value
      ensures !ok ==> certDirBase == old(certDirBase) && certDirLength == old(certDirLength)
    {
      hide GetCertificateDirectory;
      var d := GetCertificateDirectory(bin);
      if !d.Ok? {
        return false;
      }
      var signature := d.value.base + 8;
      if signature + 4 >= |bin| {
        return false;
      }
      if bin[signature] != 0x30 || bin[signature + 1] != 0x82 {
        return false;
      }
      certDirLength, certDirBase := d.value.length, d.value.base;
      ok := true;
    }

    /** Without a buffer, the size that is needed; with one that is large enough, the tag and a terminating zero. */
    method ReadTag(bin: seq<byte>, buffer: array?<byte>, len: nat) returns (r: Outcome<nat>)
      requires certDirBase + certDirLength <= |bin| && (buffer != null ==> len <= buffer.Length)
      modifies if buffer == null then {} else {buffer}
      ensures r == TagSize(bin, CertDir(certDirBase, certDirLength), buffer != null, len)
      ensures buffer != null && r.Ok? ==>
                buffer[..r.value] == TagEmbedding.ReadTag(bin, CertDir(certDirBase, certDirLength)).value + [0]
    {
      hide Word, FindMagic, MagicAt;
      var end := certDirBase + certDirLength;
      var m := Search(bin, certDirBase, end);
      if m >= end {
        return Failed;
      }
      if m + TAG_HEADER_LEN > |bin| {
        return Overrun;
      }
      var n := Word(bin[m + 13], bin[m + 12], 0, 0);
      if n == 0 {
        return Failed;
      }
      var needed := n + 1;
      if buffer == null {
        return Ok(needed);
      }
      if len < needed {
        return Failed;
      }
      var at := m + TAG_HEADER_LEN;
      if at + n > |bin| {
        return Overrun;
      }
      CopyTag(buffer, bin[at..at + n]);
      r := Ok(needed);
    }

    method ExtractTag(bin: seq<byte>, buffer: array?<byte>, len: nat) returns (r: Outcome<nat>)
      requires buffer != null ==> len <= buffer.Length
      modifies this, if buffer == null then {} else {buffer}
      ensures r == ExtractedSize(bin, buffer != null, len)
      ensures buffer != null && r.Ok? ==> TagEmbedding.ExtractTag(bin).Ok?
                                          && buffer[..r.value] == TagEmbedding.ExtractTag(bin).value + [0]
    {
      hide ReadCertificate, TagLength, TagEmbedding.ReadTag, FindMagic;
      var ok := InternalReadCertificate(bin);
      if !ok {
        return Failed;
      }
      if certDirBase + certDirLength > |bin| {
        return Failed;
      }
      r := ReadTag(bin, buffer, len);
      TagSizeOk(bin, CertDir(certDirBase, certDirLength), buffer != null, len);
    }
  }

  /** What reading a tag into a buffer of `len` bytes, or into none, reports. */
  function TagSize(bin: seq<byte>, d: CertDir, copy: bool, len: nat): (r: Outcome<nat>)
    requires d.base + d.length <= |bin|
    ensures copy && r.Ok? ==> TagEmbedding.ReadTag(bin, d).Ok? && r.value <= len
  {
    match TagLength(bin, d)
    case Failed => Failed
    case Overrun => Overrun
    case Ok(n) =>
      if !copy then Ok(n + 1)
      else if len < n + 1 then Failed
      else if TagEmbedding.ReadTag(bin, d).Overrun? then Overrun
      else Ok(n + 1)
  }

  lemma TagSizeOk(bin: seq<byte>, d: CertDir, copy: bool, len: nat)
    requires d.base + d.length <= |bin|
    ensures copy && TagSize(bin, d, copy, len).Ok? ==> TagEmbedding.ReadTag(bin, d).Ok?
  {
  }

  function ExtractedSize(bin: seq<byte>, copy: bool, len: nat): (r: Outcome<nat>)
    ensures copy && r.Ok? ==> r.value <= len
  {
    var d := ReadCertificate(bin);
    if !d.Ok? || d.value.base + d.value.length > |bin| then Failed else TagSize(bin, d.value, copy, len)
  }

  /** Asking for the size first and reading into a buffer of that size gives the tag of the file. */
  lemma SizeThenRead(bin: seq<byte>)
    ensures ExtractedSize(bin, false, 0).Failed? <==> TagEmbedding.ExtractTag(bin).Failed?
    ensures var size := ExtractedSize(bin, false, 0);
            size.Ok? ==>
              match TagEmbedding.ExtractTag(bin)
              case Ok(tag) => ExtractedSize(bin, true, size.value) == size && size.value == |tag| + 1 && tag != []
              case Overrun => ExtractedSize(bin, true, size.value) == Overrun
              case Failed => false
    ensures ExtractedSize(bin, false, 0).Overrun? ==> TagEmbedding.ExtractTag(bin).Overrun?
  {
    hide FindMagic, ReadCertificate, Word;
  }

  // ---------------------------------------------------------------- the writer

  class ApplyTag {
    var append: bool
    var tagString: seq<byte>
    var prevTagString: seq<byte>
    var prevTagStringLength: nat
    var tagBuffer: seq<byte>
    var bufferData: array<byte>

    constructor ()
      ensures tagString == [] && prevTagString == [] && prevTagStringLength == 0 && !append
      ensures fresh(bufferData)
    {
      append, tagString, prevTagString, prevTagStringLength, tagBuffer := false, [], [], 0, [];
      bufferData := new byte[0];
    }

    /** Takes the tag, character by character, if all its characters are allowed. */
    method Init(tag: seq<byte>, append: bool) returns (ok: bool)
      modifies this`append, this`tagString
      ensures ok == IsValidTagString(tag) && this.append == append
      ensures tagString == if ok then old(tagString) + tag else old(tagString)
    {
      this.append := append;
      ok := IsValidTagString(tag);
      if ok {
        for i := 0 to |tag|
          invariant this.append == append && tagString == old(tagString) + tag[..i]
        {
          tagString := tagString + [tag[i]];
        }
      }
    }

    /** Keeps the tag of the file with its terminating zero; without a tag, or on an overrun, nothing. */
    method ReadExistingTag(bin: seq<byte>) returns (r: Outcome<()>)
      requires prevTagString == [] && prevTagStringLength == 0
      modifies this`prevTagString, this`prevTagStringLength
      ensures r.Ok? <==> ExistingTag(bin).Ok?
      ensures r.Ok? ==> prevTagStringLength == |ExistingTag(bin).value|
      ensures r.Ok? ==> prevTagString == if ExistingTag(bin).value == [] then [] else ExistingTag(bin).value + [0]
      ensures !r.Ok? ==> r.Overrun?
    {
      hide ExtractedSize, TagEmbedding.ExtractTag;
      SizeThenRead(bin);
      var tag := new TagExtractor();
      var size := tag.ExtractTag(bin, null, 0);
      if size.Overrun? {
        return Overrun;
      }
      if size.Failed? {
        return Ok(());
      }
      var buffer := new byte[size.value];
      var read := tag.ExtractTag(bin, buffer, size.value);
      if !read.Ok? {
        return Overrun;
      }
      prevTagString := buffer[..];
      prevTagStringLength := size.value - 1;
      assert buffer[..size.value] == buffer[..];
      r := Ok(());
    }

    /** Header, old tag and new tag: the old tag's terminating zero is overwritten by the new tag. */
    method CreateBufferToWrite()
      requires tagString != []
      requires prevTagStringLength == 0 || |prevTagString| == prevTagStringLength + 1
      modifies this`tagBuffer
      ensures tagBuffer == TagBuffer(prevTagString[..prevTagStringLength] + tagString)
    {
      var stringLen := |tagString| + prevTagStringLength;
      var b: seq<byte> := seq(TAG_HEADER_LEN + stringLen, _ => 0);
      b := Overlay(b, 0, MAGIC);
      b := b[MAGIC_LEN := stringLen / 0x100 % 0x100];
      b := b[MAGIC_LEN + 1 := stringLen % 0x100];
      ghost var head := b;
      if prevTagStringLength > 0 {
        b := Overlay(b, TAG_HEADER_LEN, prevTagString);
      }
      ghost var mid := b;
      b := Overlay(b, TAG_HEADER_LEN + prevTagStringLength, tagString);
      tagBuffer := b;
      BufferFromParts(b, head, mid, prevTagString[..prevTagStringLength], tagString);
    }

    /** Writes the tag buffer over the first marker, in place. */
    method ApplyTagToBufferData() returns (r: Outcome<()>)
      modifies bufferData
      ensures match ApplyTagToBuffer(old(bufferData[..]), tagBuffer)
              case Ok(out) => r == Ok(()) && bufferData[..] == out
              case Failed => r == Failed && bufferData[..] == old(bufferData[..])
              case Overrun => r == Overrun && bufferData[..] == old(bufferData[..])
    {
      hide FindMagic, WriterCertDir, Overlay;
      var d := WriterCertDir(bufferData[..]);
      if d.Overrun? {
        return Overrun;
      }
      if d.Failed? {
        return Failed;
      }
      var end := d.value.base + d.value.length;
      var m := Search(bufferData[..], d.value.base, end);
      if m >= end {
        return Failed;
      }
      if m + |tagBuffer| > bufferData.Length {
        return Overrun;
      }
      PutBytes(bufferData, m, tagBuffer);
      r := Ok(());
    }

    /** Reads the file, builds the new tag and leaves the tagged file in `bufferData`. */
    method EmbedTagString(input: seq<byte>) returns (r: Outcome<()>)
      requires tagString != [] && prevTagString == [] && prevTagStringLength == 0
      modifies this
      ensures match Embed(input, old(tagString), old(append))
              case Ok(out) => r == Ok(()) && fresh(bufferData) && bufferData[..] == out
              case Failed => r == Failed
              case Overrun => r == Overrun
    {
      hide ExtractTag, ApplyTagToBuffer, TagBuffer;
      var read := ReadExistingTag(input);
      if read.Overrun? {
        return Overrun;
      }
      if !append && prevTagStringLength > 0 {
        return Failed;
      }
      CreateBufferToWrite();
      assert prevTagString[..prevTagStringLength] == ExistingTag(input).value;
      bufferData := new byte[|input|](i requires 0 <= i < |input| => input[i]);
      assert bufferData[..] == input;
      r := ApplyTagToBufferData();
    }
  }

  lemma BufferFromParts(b: seq<byte>, head: seq<byte>, mid: seq<byte>, prev: seq<byte>, tag: seq<byte>)
    requires |head| == TAG_HEADER_LEN + |prev| + |tag| == |mid| && tag != []
    requires head[..MAGIC_LEN] == MAGIC
    requires head[12] == (|prev| + |tag|) / 0x100 % 0x100 && head[13] == (|prev| + |tag|) % 0x100
    requires mid[..TAG_HEADER_LEN] == head[..TAG_HEADER_LEN] && mid[TAG_HEADER_LEN..TAG_HEADER_LEN + |prev|] == prev
    requires b == Overlay(mid, TAG_HEADER_LEN + |prev|, tag)
    ensures b == TagBuffer(prev + tag)
  {
    var k := TAG_HEADER_LEN + |prev|;
    assert b[..k] == mid[..k] && b[k..k + |tag|] == tag;
    assert mid[..k] == mid[..TAG_HEADER_LEN] + mid[TAG_HEADER_LEN..k];
    assert head[..TAG_HEADER_LEN] == head[..MAGIC_LEN] + [head[12], head[13]];
    assert b == b[..k] + b[k..k + |tag|];
  }
}
