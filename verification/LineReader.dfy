/** Reading a file line by line through a small buffer. */
module LineReader {
  import opened Arith
  import opened Bytes
  import opened Wrappers

  const CR: nat := 13
  const LF: nat := 10

  // ---------------------------------------------------------------- the file without a buffer

  /** A signed byte as a 16-bit character. */
  function Widen(b: byte): nat {
    if b < 0x80 then b else 0xFF00 + b
  }

  /** Two bytes as one character: widened, shifted, put together and cut to 16 bits. */
  function Combine(low: byte, high: byte): (c: nat)
    ensures c < 0x1_0000
  {
    Or(Widen(high) * 0x100, Widen(low)) % 0x1_0000
  }

  lemma WidenSplit(b: byte)
    ensures Widen(b) == (if b < 0x80 then 0 else 0xFF) * 0x100 + b
  {
  }

  /** The upper byte of a widened low byte from 0x80 on fills the high byte. */
  lemma OrFilled(high: byte)
    ensures Or(Widen(high), 0xFF) == (if high < 0x80 then 0 else 0xFF) * 0x100 + 0xFF
  {
    hide Or, Widen, Pow2;
    Pow2Eight();
    WidenSplit(high);
    var top := if high < 0x80 then 0 else 0xFF;
    OrSplit(8, top, 0, high, 0xFF);
    OrOnes(8, high);
    OrZero(top);
  }

  /** The low byte overwrites the high one from 0x80 on. */
  lemma CombineIs(low: byte, high: byte)
    ensures Combine(low, high) == if low < 0x80 then CodeUnit(low, high) else 0xFF00 + low
  {
    hide Or, Widen, Pow2;
    Pow2Eight();
    WidenSplit(high);
    WidenSplit(low);
    OrZero(Widen(high));
    OrZero(low);
    if low < 0x80 {
      OrSplit(8, Widen(high), 0, 0, low);
    } else {
      OrSplit(8, Widen(high), 0xFF, 0, low);
      OrFilled(high);
    }
  }

  /** The character that two bytes encode. */
  function CodeUnit(low: byte, high: byte): nat {
    high * 0x100 + low
  }

  /** The character is the intended one exactly when the sign extension adds nothing. */
  lemma CombineExact(low: byte, high: byte)
    ensures Combine(low, high) == CodeUnit(low, high) <==> low < 0x80 || high == 0xFF
  {
    CombineIs(low, high);
    hide Combine;
  }

  /** The characters of a file, or of what is left of it. */
  function Units(bytes: seq<byte>, unicode: bool): seq<nat> {
    if !unicode then (if bytes == [] then [] else [bytes[0] as nat] + Units(bytes[1..], unicode))
    else if |bytes| < 2 then []
    else [Combine(bytes[0], bytes[1])] + Units(bytes[2..], unicode)
  }

  /** The characters that the bytes encode, low byte first. */
  function Encoded(bytes: seq<byte>): seq<nat> {
    if |bytes| < 2 then [] else [CodeUnit(bytes[0], bytes[1])] + Encoded(bytes[2..])
  }

  predicate UnitExact(bytes: seq<byte>, i: nat)
    requires 2 * i + 1 < |bytes|
  {
    bytes[2 * i] < 0x80 || bytes[2 * i + 1] == 0xFF
  }

  /** A file is read as it is encoded exactly when the sign extension adds nothing to any of its characters. */
  lemma {:induction false} UnitsExact(bytes: seq<byte>)
    ensures Units(bytes, true) == Encoded(bytes) <==> forall i: nat :: i < |bytes| / 2 ==> UnitExact(bytes, i)
  {
    if |bytes| >= 2 {
      var rest := bytes[2..];
      UnitsExact(rest);
      CombineExact(bytes[0], bytes[1]);
      assert UnitExact(bytes, 0) <==> Combine(bytes[0], bytes[1]) == CodeUnit(bytes[0], bytes[1]);
      hide Combine;
      assert forall i: nat :: i < |rest| / 2 ==> UnitExact(rest, i) == UnitExact(bytes, i + 1);
      assert forall i: nat :: 0 < i < |bytes| / 2 ==> UnitExact(bytes, i) == UnitExact(rest, i - 1);
      assert Units(bytes, true)[0] == Combine(bytes[0], bytes[1]) && Units(bytes, true)[1..] == Units(rest, true);
      assert Encoded(bytes)[0] == CodeUnit(bytes[0], bytes[1]) && Encoded(bytes)[1..] == Encoded(rest);
    }
  }

  /** A string as it holds a character: at most one, and an end of line only for an end of line. */
  ghost predicate Shows(show: nat -> seq<nat>) {
    forall c :: (show(c) == [CR] <==> c == CR) && (show(c) == [LF] <==> c == LF)
  }

  /** The text up to the end of the line. */
  function LineText(units: seq<nat>, show: nat -> seq<nat>): seq<nat> {
    if units == [] || units[0] == CR || units[0] == LF then []
    else show(units[0]) + LineText(units[1..], show)
  }

  predicate HasEnd(units: seq<nat>) {
    units != [] && (units[0] == CR || units[0] == LF || HasEnd(units[1..]))
  }

  /** What is behind the line and its end, which may be CR, LF or both. */
  function AfterLine(units: seq<nat>): (r: seq<nat>)
    ensures |r| <= |units| && (units != [] ==> |r| < |units|)
  {
    if units == [] then []
    else if units[0] == LF then units[1..]
    else if units[0] == CR then (if |units| > 1 && units[1] == LF then units[2..] else units[1..])
    else AfterLine(units[1..])
  }

  /** A line, unless nothing but an empty rest is left. */
  predicate IsLine(units: seq<nat>, show: nat -> seq<nat>) {
    HasEnd(units) || LineText(units, show) != []
  }

  /** All lines. */
  function Lines(units: seq<nat>, show: nat -> seq<nat>): seq<seq<nat>>
    decreases |units|
  {
    if !IsLine(units, show) then [] else [LineText(units, show)] + Lines(AfterLine(units), show)
  }

  // ---------------------------------------------------------------- lines put together and split again

  datatype Ended = Ended(text: seq<nat>, end: seq<nat>)

  predicate IsEnd(end: seq<nat>) {
    end == [CR] || end == [LF] || end == [CR, LF]
  }

  function Joined(lines: seq<Ended>): seq<nat> {
    if lines == [] then [] else lines[0].text + lines[0].end + Joined(lines[1..])
  }

  function Shown(text: seq<nat>, show: nat -> seq<nat>): seq<nat> {
    if text == [] then [] else show(text[0]) + Shown(text[1..], show)
  }

  /** Lines that do not run into each other: no CR right before an LF that ends an empty line. */
  ghost predicate Separate(lines: seq<Ended>) {
    && (forall i :: 0 <= i < |lines| ==> IsEnd(lines[i].end) && CR !in lines[i].text && LF !in lines[i].text)
    && (forall i :: 0 <= i < |lines| - 1 ==> !(lines[i].end == [CR] && lines[i + 1] == Ended([], [LF])))
  }

  function Texts(lines: seq<Ended>, show: nat -> seq<nat>): seq<seq<nat>> {
    if lines == [] then [] else [Shown(lines[0].text, show)] + Texts(lines[1..], show)
  }

  lemma {:induction false} OneLine(text: seq<nat>, end: seq<nat>, rest: seq<nat>, show: nat -> seq<nat>)
    requires IsEnd(end) && CR !in text && LF !in text && !(end == [CR] && rest != [] && rest[0] == LF)
    ensures LineText(text + end + rest, show) == Shown(text, show)
    ensures HasEnd(text + end + rest) && AfterLine(text + end + rest) == rest
  {
    hide LineText, HasEnd, AfterLine;
    var all := text + end + rest;
    if text == [] {
      assert all == end + rest;
      NoText(end, rest, show);
    } else {
      assert text[0] in text;
      OneLine(text[1..], end, rest, show);
      assert all[1..] == text[1..] + end + rest;
      LineStep(all, show);
    }
  }

  lemma NoText(end: seq<nat>, rest: seq<nat>, show: nat -> seq<nat>)
    requires IsEnd(end) && !(end == [CR] && rest != [] && rest[0] == LF)
    ensures LineText(end + rest, show) == [] && HasEnd(end + rest) && AfterLine(end + rest) == rest
  {
    var all := end + rest;
    assert end == [CR, LF] ==> all[2..] == rest;
    assert |end| == 1 ==> all[1..] == rest;
  }

  /** Whatever ends the lines have, they are split where they were joined. */
  lemma {:induction false} SplitJoined(lines: seq<Ended>, show: nat -> seq<nat>)
    requires Separate(lines)
    ensures Lines(Joined(lines), show) == Texts(lines, show)
  {
    if lines != [] {
      var rest := Joined(lines[1..]);
      SplitJoined(lines[1..], show);
      NotMerged(lines);
      OneLine(lines[0].text, lines[0].end, rest, show);
    }
  }

  /** The ends of lines are those of the platforms, by their codes. */
  lemma EndsAre(end: seq<nat>)
    ensures IsEnd(end) <==> end == [13] || end == [10] || end == [13, 10]
  {
  }

  lemma NotMerged(lines: seq<Ended>)
    requires Separate(lines) && lines != []
    ensures var rest := Joined(lines[1..]); !(lines[0].end == [CR] && rest != [] && rest[0] == LF)
  {
    if |lines| > 1 {
      var next := lines[1];
      var rest := Joined(lines[1..]);
      assert lines[1..][0] == next;
      if next.text != [] {
        assert rest[0] == next.text[0] && next.text[0] in next.text;
      } else {
        assert rest[0] == next.end[0];
      }
    }
  }

  // ---------------------------------------------------------------- the reader

  /** What one more character does to the rest of the file. */
  function Dropped(rest: seq<byte>, unicode: bool): seq<byte> {
    if |rest| < 2 || !unicode then (if rest == [] then [] else rest[1..]) else rest[2..]
  }

  /** The next character; a single byte left over makes one with the byte `stale`. */
  function First(rest: seq<byte>, unicode: bool, stale: byte): nat
    requires rest != []
  {
    if !unicode then rest[0] as nat else Combine(rest[0], if |rest| >= 2 then rest[1] else stale)
  }

  /** All characters that are delivered before the end of the file. */
  function Delivered(rest: seq<byte>, unicode: bool, stale: byte): seq<nat>
    decreases |rest|
  {
    if rest == [] then [] else [First(rest, unicode, stale)] + Delivered(Dropped(rest, unicode), unicode, stale)
  }

  /** No byte is left over. */
  predicate Whole(rest: seq<byte>, unicode: bool) {
    !unicode || |rest| % 2 == 0
  }

  /** What is delivered: the characters of the file, and one more for a byte that is left over. */
  lemma {:induction false} DeliveredIs(rest: seq<byte>, unicode: bool, stale: byte)
    ensures Delivered(rest, unicode, stale) ==
            Units(rest, unicode) + if Whole(rest, unicode) then [] else [Combine(rest[|rest| - 1], stale)]
    decreases |rest|
  {
    hide Combine;
    if !unicode && rest != [] {
      DeliveredIs(rest[1..], unicode, stale);
    } else if |rest| >= 2 {
      DeliveredIs(rest[2..], unicode, stale);
      var c, end := [Combine(rest[0], rest[1])], if Whole(rest, unicode) then [] else [Combine(rest[|rest| - 1], stale)];
      assert c + (Units(rest[2..], unicode) + end) == c + Units(rest[2..], unicode) + end;
    }
  }

  /** Exactly the characters of the file are delivered if and only if no byte is left over. */
  lemma DeliveredExact(rest: seq<byte>, unicode: bool, stale: byte)
    ensures Delivered(rest, unicode, stale) == Units(rest, unicode) <==> Whole(rest, unicode)
  {
    DeliveredIs(rest, unicode, stale);
  }

  lemma {:induction false} UnitsLength(bytes: seq<byte>)
    ensures |Units(bytes, true)| == |Encoded(bytes)| == |bytes| / 2
  {
    hide Combine, CodeUnit;
    if |bytes| >= 2 {
      UnitsLength(bytes[2..]);
    }
  }

  /** A UTF-16 file is delivered as it is encoded exactly when no byte is left over and no sign extension adds anything. */
  lemma DeliveredEncoded(rest: seq<byte>, stale: byte)
    ensures Delivered(rest, true, stale) == Encoded(rest)
            <==> |rest| % 2 == 0 && forall i: nat :: i < |rest| / 2 ==> UnitExact(rest, i)
  {
    DeliveredIs(rest, true, stale);
    UnitsExact(rest);
    UnitsLength(rest);
    hide Delivered, Units, Encoded, Combine, UnitExact;
    assert |rest| % 2 == 0 ==> Units(rest, true) + [] == Units(rest, true);
  }

  /**
   The second byte of a buffer of `n` bytes once the whole file has gone through it.  `odd` says that the buffered
   bytes end within a character, so that the last of them is moved to the front and the next read starts behind it.
   */
  function Stale(second: byte, odd: bool, unread: seq<byte>, n: nat): byte
    requires n >= 2
    decreases |unread|
  {
    if unread == [] then second
    else if odd then
      var k := Min(|unread|, n - 1);
      Stale(unread[0], k % 2 == 0, unread[k..], n)
    else
      var k := Min(|unread|, n);
      Stale(if k >= 2 then unread[1] else second, k % 2 == 1, unread[k..], n)
  }

  /** A read behind a byte that was moved to the front. */
  lemma StaleMoved(second: byte, unread: seq<byte>, n: nat)
    requires n >= 2
    ensures var k := Min(|unread|, n - 1);
            Stale(second, true, unread, n) == Stale(if k >= 1 then unread[0] else second, k % 2 == 0, unread[k..], n)
  {
    assert unread == [] ==> unread[0..] == [];
  }

  /** In a file that fits the buffer, a byte left over is put together with the second one. */
  lemma StaleSmall(second: byte, file: seq<byte>, n: nat)
    requires 2 <= |file| <= n
    ensures Stale(second, false, file, n) == file[1]
  {
    assert file[|file|..] == [];
  }

  lemma SliceIs(a: seq<byte>, b: seq<byte>, i: nat, j: nat, n: nat)
    requires i + n <= |a| && j + n <= |b| && forall k :: i <= k < i + n ==> a[k] == b[j + k - i]
    ensures a[i..i + n] == b[j..j + n]
  {
  }

  lemma SplitAt(s: seq<byte>, i: nat, j: nat)
    requires i <= j <= |s|
    ensures s[i..] == s[i..j] + s[j..]
  {
  }

  lemma Skipped(buffered: seq<byte>, unread: seq<byte>, n: nat)
    ensures n <= |buffered| ==> (buffered + unread)[n..] == buffered[n..] + unread
    ensures n > |buffered| && unread == [] ==> n > |buffered + unread|
  {
  }

  /** The file starts with the mark of UTF-16. */
  predicate HasMark(file: seq<byte>) {
    |file| >= 2 && file[0] == 0xFF && file[1] == 0xFE
  }

  /** Opens a file for reading; a buffer for UTF-16 must hold a character. */
  method Open(file: seq<byte>, bufferSize: nat) returns (r: Option<FileReader>)
    requires bufferSize > 0
    ensures r.None? <==> [0xFF, 0xFE] <= file && bufferSize < 2
    ensures r.Some? ==> fresh(r.value) && r.value.Valid() && r.value.unicode == ([0xFF, 0xFE] <= file)
                        && r.value.Rest() == (if [0xFF, 0xFE] <= file then file[2..] else file)
                        && r.value.fileBuffer.Length == bufferSize
    ensures r.Some? && [0xFF, 0xFE] <= file ==> r.value.LeftOver() == Stale(r.value.fileBuffer[1], false, file[2..], bufferSize)
  {
    assert HasMark(file) <==> [0xFF, 0xFE] <= file;
    if HasMark(file) && bufferSize < 2 {
      return None;
    }
    var reader := new FileReader(file, bufferSize);
    r := Some(reader);
  }

  class FileReader {
    const content: seq<byte>
    const unicode: bool
    const fileBuffer: array<byte>
    var filePosition: nat
    var bufferedByteCount: nat
    var currentPosition: nat

    ghost predicate Valid()
      reads this, fileBuffer
    {
      && filePosition <= |content| && bufferedByteCount <= fileBuffer.Length
      && fileBuffer.Length >= (if unicode then 2 else 1)
    }

    /** The bytes that have not been consumed: what is buffered, then what is still in the file. */
    ghost function Rest(): seq<byte>
      requires Valid()
      reads this, fileBuffer
    {
      (if currentPosition < bufferedByteCount then fileBuffer[currentPosition..bufferedByteCount] else [])
      + content[filePosition..]
    }

    /** The second byte of the buffer at the end of the file. */
    ghost function LeftOver(): byte
      requires Valid()
      reads this, fileBuffer
    {
      if unicode
      then Stale(fileBuffer[1], currentPosition < bufferedByteCount && (bufferedByteCount - currentPosition) % 2 == 1,
                 content[filePosition..], fileBuffer.Length)
      else 0
    }

    /** Opens a file; it holds UTF-16 if it starts with the mark for that, which is skipped. */
    constructor (file: seq<byte>, bufferSize: nat)
      requires bufferSize >= if HasMark(file) then 2 else 1
      ensures Valid() && fresh(fileBuffer) && fileBuffer.Length == bufferSize
      ensures unicode == HasMark(file) && Rest() == if unicode then file[2..] else file
      ensures unicode ==> LeftOver() == Stale(fileBuffer[1], false, file[2..], bufferSize)
    {
      content := file;
      unicode := HasMark(file);
      filePosition := if HasMark(file) then 2 else 0;
      fileBuffer := new byte[bufferSize];
      bufferedByteCount, currentPosition := 0, 0;
    }

    /** Reads up to `n` bytes of the file to `at` in the buffer. */
    method Read(at: nat, n: nat) returns (count: nat)
      requires Valid() && at + n <= fileBuffer.Length
      modifies this`filePosition, fileBuffer
      ensures count == Min(|content| - old(filePosition), n)
      ensures filePosition == old(filePosition) + count
      ensures fileBuffer[at..at + count] == content[old(filePosition)..filePosition]
      ensures fileBuffer[..at] == old(fileBuffer[..at]) && fileBuffer[at + count..] == old(fileBuffer[at + count..])
    {
      count := Min(|content| - filePosition, n);
      ghost var was := fileBuffer[..];
      for k := 0 to count
        modifies fileBuffer
        invariant forall i :: 0 <= i < fileBuffer.Length ==>
                                fileBuffer[i] == if at <= i < at + k then content[filePosition + i - at] else was[i]
      {
        fileBuffer[at + k] := content[filePosition + k];
      }
      SliceIs(fileBuffer[..], content, at, filePosition, count);
      filePosition := filePosition + count;
    }

    /** Makes sure that a byte is buffered if one is left. */
    method Refill()
      requires Valid()
      modifies this, fileBuffer
      ensures Valid() && Rest() == old(Rest()) && LeftOver() == old(LeftOver())
      ensures Rest() != [] ==> currentPosition < bufferedByteCount
      ensures Rest() == [] ==> currentPosition >= bufferedByteCount
    {
      if currentPosition >= bufferedByteCount {
        ghost var was := filePosition;
        currentPosition := 0;
        bufferedByteCount := Read(0, fileBuffer.Length);
        SplitAt(content, was, filePosition);
      }
    }

    /** What is left when one byte is buffered. */
    lemma OneBuffered()
      requires Valid() && unicode && currentPosition + 1 == bufferedByteCount
      ensures Rest() == [fileBuffer[currentPosition]] + content[filePosition..]
      ensures LeftOver() == Stale(fileBuffer[1], true, content[filePosition..], fileBuffer.Length)
    {
    }

    /** What is left when the bytes from `was` on have been read behind the first byte of the buffer. */
    lemma ReadBehind(was: nat)
      requires Valid() && unicode && currentPosition == 0 && bufferedByteCount > 0
      requires was + bufferedByteCount - 1 == filePosition
      requires fileBuffer[1..bufferedByteCount] == content[was..filePosition]
      ensures Rest() == [fileBuffer[0]] + content[was..]
      ensures LeftOver() == Stale(fileBuffer[1], bufferedByteCount % 2 == 1, content[was..][bufferedByteCount - 1..],
                                  fileBuffer.Length)
    {
      hide Stale;
      SplitAt(content, was, filePosition);
      assert fileBuffer[0..bufferedByteCount] == [fileBuffer[0]] + fileBuffer[1..bufferedByteCount];
      assert content[was..][bufferedByteCount - 1..] == content[filePosition..];
    }

    /** Moves the last buffered byte to the front and reads on, so that the two bytes of a character are together. */
    method KeepLastByte()
      requires Valid() && unicode && currentPosition + 1 == bufferedByteCount
      modifies this, fileBuffer
      ensures Valid() && Rest() == old(Rest()) && LeftOver() == old(LeftOver())
      ensures currentPosition == 0 && bufferedByteCount > 0
      ensures |Rest()| >= 2 ==> bufferedByteCount >= 2
      ensures |Rest()| < 2 ==> filePosition == |content|
    {
      hide Stale, Rest, LeftOver;
      ghost var was := filePosition;
      OneBuffered();
      StaleMoved(fileBuffer[1], content[was..], fileBuffer.Length);
      fileBuffer[0] := fileBuffer[currentPosition];
      currentPosition := 0;
      assert fileBuffer[0] == fileBuffer[..1][0] && fileBuffer[1] == old(fileBuffer[1]);
      var count := Read(1, fileBuffer.Length - 1);
      bufferedByteCount := count + 1;
      assert fileBuffer[0] == fileBuffer[..1][0];
      assert fileBuffer[1] == if count >= 1 then fileBuffer[1..1 + count][0] else fileBuffer[1 + count..][0];
      ReadBehind(was);
    }

    /** The next bytes of the file are those in the buffer. */
    lemma Buffered()
      requires Valid() && currentPosition < bufferedByteCount
      ensures Rest() != [] && Rest()[0] == fileBuffer[currentPosition]
      ensures currentPosition + 1 < bufferedByteCount ==> |Rest()| >= 2 && Rest()[1] == fileBuffer[currentPosition + 1]
    {
    }

    /** At the end of the file the second byte of the buffer does not change any more. */
    lemma LeftOverNow()
      requires Valid()
      ensures unicode && filePosition == |content| ==> LeftOver() == fileBuffer[1]
    {
    }

    /** Consumes `n` bytes of the buffer, or all that is buffered. */
    method Advance(n: nat)
      requires Valid() && currentPosition < bufferedByteCount && n > 0
      requires currentPosition + n <= bufferedByteCount || filePosition == |content|
      requires unicode ==> n == 2
      modifies this`currentPosition
      ensures Valid() && LeftOver() == old(LeftOver()) && Rest() == if n <= |old(Rest())| then old(Rest())[n..] else []
    {
      Skipped(fileBuffer[currentPosition..bufferedByteCount], content[filePosition..], n);
      currentPosition := currentPosition + n;
    }

    /**
     The next character, or none at the end of the file.  A single byte left over in a UTF-16 file makes a character
     with whatever the second byte of the buffer is then.
     */
    method GetNextChar(peek: bool) returns (c: Option<nat>)
      requires Valid()
      modifies this, fileBuffer
      ensures Valid() && LeftOver() == old(LeftOver()) && (c.None? <==> old(Rest()) == [])
      ensures Rest() == if peek then old(Rest()) else Dropped(old(Rest()), unicode)
      ensures c.Some? ==> c.value == First(old(Rest()), unicode, LeftOver())
    {
      hide Combine, Rest, LeftOver;
      Refill();
      if currentPosition >= bufferedByteCount {
        return None;
      }
      if unicode {
        if currentPosition + 1 >= bufferedByteCount {
          KeepLastByte();
        }
        Buffered();
        LeftOverNow();
        var c1 := fileBuffer[currentPosition];
        var c2 := fileBuffer[currentPosition + 1];
        c := Some(Combine(c1, c2));
        if !peek {
          Advance(2);
        }
      } else {
        Buffered();
        c := Some(fileBuffer[currentPosition] as nat);
        if !peek {
          Advance(1);
        }
      }
    }

    /** The characters that are still to come. */
    ghost function Ahead(): seq<nat>
      requires Valid()
      reads this, fileBuffer
    {
      Delivered(Rest(), unicode, LeftOver())
    }

    /** Behind a CR, an LF belongs to the same end of line. */
    method SkipLineFeed(show: nat -> seq<nat>)
      requires Valid() && Shows(show)
      modifies this, fileBuffer
      ensures Valid()
      ensures var u := old(Ahead()); Ahead() == if u != [] && u[0] == LF then u[1..] else u
    {
      hide Dropped, First, Rest, LeftOver;
      var next := GetNextChar(true);
      if next.Some? && show(next.value) == [LF] {
        next := GetNextChar(false);
      }
    }

    /** The next line of the file, or the end of it. */
    method ReadLineString(show: nat -> seq<nat>) returns (ok: bool, line: seq<nat>)
      requires Valid() && Shows(show)
      modifies this, fileBuffer
      ensures Valid()
      ensures var u := old(Ahead());
              && Ahead() == AfterLine(u)
              && (ok <==> IsLine(u, show))
              && (ok ==> line == LineText(u, show))
    {
      hide HasEnd, AfterLine, LineText, Dropped, First, Rest, LeftOver;
      line := [];
      ghost var u := Ahead();
      assert [] + LineText(u, show) == LineText(u, show);
      while true
        invariant Valid()
        invariant line + LineText(Ahead(), show) == LineText(u, show)
        invariant HasEnd(Ahead()) == HasEnd(u)
        invariant AfterLine(Ahead()) == AfterLine(u)
        decreases |Ahead()|
      {
        ghost var ahead := Ahead();
        var c := GetNextChar(false);
        if c.None? {
          NoneAhead(unicode);
          LineAtEnd(show);
          assert line + [] == line;
          return line != [], line;
        }
        LineStep(ahead, show);
        if show(c.value) == [CR] {
          SkipLineFeed(show);
          assert line + [] == line;
          return true, line;
        } else if show(c.value) == [LF] {
          assert line + [] == line;
          return true, line;
        }
        assert line + show(c.value) + LineText(Ahead(), show) == line + (show(c.value) + LineText(Ahead(), show));
        line := line + show(c.value);
      }
    }
  }

  lemma NoneAhead(unicode: bool)
    ensures Dropped([], unicode) == []
  {
  }

  lemma LineAtEnd(show: nat -> seq<nat>)
    ensures LineText([], show) == [] && !HasEnd([]) && AfterLine([]) == []
  {
  }

  /** A line, seen from its first character. */
  lemma LineStep(units: seq<nat>, show: nat -> seq<nat>)
    requires units != []
    ensures var c, rest := units[0], units[1..];
            && (c == CR || c == LF ==> LineText(units, show) == [] && HasEnd(units))
            && (c == LF ==> AfterLine(units) == rest)
            && (c == CR ==> AfterLine(units) == if rest != [] && rest[0] == LF then rest[1..] else rest)
            && (c != CR && c != LF ==>
                  && LineText(units, show) == show(c) + LineText(rest, show)
                  && HasEnd(units) == HasEnd(rest) && AfterLine(units) == AfterLine(rest))
  {
    assert |units| > 1 ==> units[1..][1..] == units[2..];
  }

  /** Reading until the end of the file returns its lines, for every size of the buffer. */
  method ReadLines(reader: FileReader, show: nat -> seq<nat>) returns (lines: seq<seq<nat>>)
    requires reader.Valid() && Shows(show)
    modifies reader, reader.fileBuffer
    ensures lines == Lines(old(reader.Ahead()), show)
  {
    hide AfterLine, LineText, IsLine, FileReader.Ahead;
    lines := [];
    ghost var u := reader.Ahead();
    while true
      invariant reader.Valid()
      invariant lines + Lines(reader.Ahead(), show) == Lines(u, show)
      decreases |reader.Ahead()|
    {
      ghost var before := reader.Ahead();
      LineShrinks(before, show);
      var ok, line := reader.ReadLineString(show);
      if !ok {
        assert lines + [] == lines;
        return;
      }
      assert lines + ([line] + Lines(AfterLine(before), show)) == lines + [line] + Lines(AfterLine(before), show);
      lines := lines + [line];
    }
  }

  lemma LineShrinks(units: seq<nat>, show: nat -> seq<nat>)
    ensures IsLine(units, show) ==> |AfterLine(units)| < |units|
  {
    if units == [] {
      LineAtEnd(show);
    }
  }
}
