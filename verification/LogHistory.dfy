/** The log history: a circular buffer that keeps the most recent characters until it is drained. */
module LogHistory {
  import opened Sequences

  // ---------------------------------------------------------------- what the history is meant to hold

  /** The last `n` characters. */
  function Last(s: string, n: nat): (r: string)
    ensures |r| <= n
  {
    if |s| <= n then s else s[|s| - n..]
  }

  /** The history after one more message: a message that fills the buffer leaves its first `n` characters alone. */
  function Push(history: string, msg: string, n: nat): (r: string)
    ensures |history| <= n ==> |r| <= n
  {
    if msg == "" then history else if |msg| >= n then msg[..n] else Last(history + msg, n)
  }

  /** The most recent characters are kept exactly when the message fits, or its two ends are the same. */
  lemma PushExact(history: string, msg: string, n: nat)
    requires |history| <= n && n > 0
    ensures Push(history, msg, n) == Last(history + msg, n) <==> |msg| <= n || msg[..n] == msg[|msg| - n..]
  {
    assert history + "" == history;
    if |msg| >= n {
      assert (history + msg)[|history| + |msg| - n..] == msg[|msg| - n..];
    }
  }

  /** A message that is too long keeps the wrong end. */
  lemma FirstNotLast()
    ensures Push("", "abc", 2) == "ab" && Last("abc", 2) == "bc"
  {
  }

  function PushAll(history: string, msgs: seq<string>, n: nat): string
    decreases |msgs|
  {
    if msgs == [] then history else Push(PushAll(history, msgs[..|msgs| - 1], n), msgs[|msgs| - 1], n)
  }

  function Concat(msgs: seq<string>): string {
    if msgs == [] then "" else Concat(msgs[..|msgs| - 1]) + msgs[|msgs| - 1]
  }

  lemma LastOfLast(a: string, b: string, n: nat)
    ensures Last(Last(a, n) + b, n) == Last(a + b, n)
  {
    if |a| > n {
      var c := a[|a| - n..];
      assert |b| <= n ==> (c + b)[|b|..] == (a + b)[|a| + |b| - n..];
      assert |b| > n ==> (c + b)[|b|..] == b[|b| - n..] == (a + b)[|a| + |b| - n..];
    }
  }

  /** Messages that fit: the history holds the last characters of all of them. */
  lemma {:induction false} PushAllShort(history: string, msgs: seq<string>, n: nat)
    requires n > 0 && |history| <= n && forall i :: 0 <= i < |msgs| ==> |msgs[i]| <= n
    ensures PushAll(history, msgs, n) == Last(history + Concat(msgs), n)
    decreases |msgs|
  {
    if msgs == [] {
      assert history + "" == history;
    } else {
      var init, m := msgs[..|msgs| - 1], msgs[|msgs| - 1];
      PushAllShort(history, init, n);
      PushExact(PushAll(history, init, n), m, n);
      LastOfLast(history + Concat(init), m, n);
      assert history + Concat(init) + m == history + (Concat(init) + m);
    }
  }

  /** Any messages: everything up to the last one that fills the buffer is forgotten but for its first characters. */
  lemma {:induction false} PushAllAny(history: string, msgs: seq<string>, k: nat, n: nat)
    requires n > 0 && k < |msgs| && |msgs[k]| >= n && forall i :: k < i < |msgs| ==> |msgs[i]| <= n
    ensures PushAll(history, msgs, n) == Last(msgs[k][..n] + Concat(msgs[k + 1..]), n)
    decreases |msgs|
  {
    hide Push, Concat, Last;
    var l := |msgs| - 1;
    var init, m := msgs[..l], msgs[l];
    if k == l {
      assert msgs[k + 1..] == [];
      PushFull(PushAll(history, init, n), m, n);
    } else {
      var rest := msgs[k + 1..];
      PushAllAny(history, init, k, n);
      assert rest == init[k + 1..] + [m];
      PushExact(PushAll(history, init, n), m, n);
      PushLater(msgs[k][..n], init[k + 1..], m, n);
    }
  }

  lemma PushFull(history: string, msg: string, n: nat)
    requires n > 0 && |msg| >= n
    ensures Push(history, msg, n) == Last(msg[..n] + Concat([]), n)
  {
    assert msg[..n] + "" == msg[..n];
  }

  lemma PushLater(kept: string, rest: seq<string>, msg: string, n: nat)
    ensures Last(Last(kept + Concat(rest), n) + msg, n) == Last(kept + Concat(rest + [msg]), n)
  {
    hide Last;
    LastOfLast(kept + Concat(rest), msg, n);
    assert (rest + [msg])[..|rest|] == rest;
    assert kept + Concat(rest) + msg == kept + (Concat(rest) + msg);
  }

  // ---------------------------------------------------------------- runs of appends and drains

  datatype Call = Append(msg: string) | Drain

  /** The history after a run of calls on an empty buffer. */
  function After(calls: seq<Call>, n: nat): string
    decreases |calls|
  {
    if calls == [] then ""
    else match calls[|calls| - 1]
      case Append(msg) => Push(After(calls[..|calls| - 1], n), msg, n)
      case Drain => ""
  }

  /** The messages since the last drain. */
  function Since(calls: seq<Call>): seq<string>
    decreases |calls|
  {
    if calls == [] then []
    else match calls[|calls| - 1]
      case Append(msg) => Since(calls[..|calls| - 1]) + [msg]
      case Drain => []
  }

  /** At any time in a run, a drain returns the last characters appended since the one before, in their order. */
  lemma {:induction false} RunHistory(calls: seq<Call>, n: nat)
    requires n > 0
    ensures After(calls, n) == PushAll("", Since(calls), n)
    ensures (forall i :: 0 <= i < |Since(calls)| ==> |Since(calls)[i]| <= n) ==>
              After(calls, n) == Last(Concat(Since(calls)), n)
    decreases |calls|
  {
    if calls != [] {
      var init := calls[..|calls| - 1];
      RunHistory(init, n);
      if calls[|calls| - 1].Append? {
        var msgs := Since(calls);
        assert msgs[..|msgs| - 1] == Since(init);
      }
    }
    if forall i :: 0 <= i < |Since(calls)| ==> |Since(calls)[i]| <= n {
      PushAllShort("", Since(calls), n);
      assert "" + Concat(Since(calls)) == Concat(Since(calls));
    }
  }

  // ---------------------------------------------------------------- the buffer

  class Logging {
    const historyBuffer: array<char>
    var nextIdx: nat
    var full: bool

    ghost predicate Valid()
      reads this
    {
      nextIdx < historyBuffer.Length
    }

    ghost function Contents(): string
      requires Valid()
      reads this, historyBuffer
    {
      Held(historyBuffer[..], nextIdx, full)
    }

    constructor (size: nat)
      requires size > 0
      ensures Valid() && fresh(historyBuffer) && historyBuffer.Length == size && Contents() == ""
    {
      historyBuffer := new char[size](_ => '\0');
      nextIdx, full := 0, false;
    }

    method AppendToHistory(msg: string)
      requires Valid()
      modifies this, historyBuffer
      ensures Valid() && Contents() == Push(old(Contents()), msg, historyBuffer.Length)
    {
      hide Last, Overwritten, Held;
      var n := historyBuffer.Length;
      ghost var before, at, was := historyBuffer[..], nextIdx, full;
      if |msg| == 0 {
        return;
      }
      if |msg| >= n {
        CopyTo(historyBuffer, 0, msg[..n]);
        nextIdx, full := 0, true;
        AllNew(before, msg[..n]);
        return;
      }
      if |msg| + nextIdx < n {
        CopyTo(historyBuffer, nextIdx, msg);
        nextIdx := nextIdx + |msg|;
        FitsBehind(before, at, was, msg);
        return;
      }
      var first := n - nextIdx;
      var second := |msg| - first;
      WrapsAround(before, at, was, msg);
      CopyTo(historyBuffer, nextIdx, msg[..first]);
      full, nextIdx := true, second;
      if second != 0 {
        CopyTo(historyBuffer, 0, msg[first..]);
      }
    }

    /** Returns the history and empties it. */
    method GetHistory() returns (history: string)
      requires Valid()
      modifies this, historyBuffer
      ensures Valid() && history == old(Contents()) && Contents() == ""
      ensures forall i :: 0 <= i < historyBuffer.Length ==> historyBuffer[i] == '\0'
    {
      history := "";
      if full {
        history := history + historyBuffer[nextIdx..];
      }
      history := history + historyBuffer[..nextIdx];
      nextIdx, full := 0, false;
      for i := 0 to historyBuffer.Length
        modifies historyBuffer
        invariant forall j :: 0 <= j < i ==> historyBuffer[j] == '\0'
      {
        historyBuffer[i] := '\0';
      }
    }

    /** One log message with its prefix and end of line. */
    method StoreInHistory(msg1: string, msg2: string)
      requires Valid()
      modifies this, historyBuffer
      ensures Valid() && Contents() == PushAll(old(Contents()), [msg1, msg2, "\r\n"], historyBuffer.Length)
    {
      AppendToHistory(msg1);
      AppendToHistory(msg2);
      AppendToHistory("\r\n");
      PushThree(old(Contents()), msg1, msg2, "\r\n", historyBuffer.Length);
    }
  }

  lemma PushThree(history: string, a: string, b: string, c: string, n: nat)
    ensures PushAll(history, [a, b, c], n) == Push(Push(Push(history, a, n), b, n), c, n)
  {
    hide Push;
    assert [a, b, c][..2] == [a, b] && [a, b][..1] == [a] && [a][..0] == [];
    assert PushAll(history, [a, b], n) == Push(PushAll(history, [a], n), b, n);
    assert PushAll(history, [a], n) == Push(PushAll(history, [], n), a, n);
  }

  /** The contents of a buffer. */
  ghost function Held(buffer: string, nextIdx: nat, full: bool): string
    requires nextIdx <= |buffer|
  {
    (if full then buffer[nextIdx..] else "") + buffer[..nextIdx]
  }

  function Overwritten(buffer: string, at: nat, s: string): (r: string)
    requires at + |s| <= |buffer|
    ensures |r| == |buffer|
  {
    buffer[..at] + s + buffer[at + |s|..]
  }

  lemma AllNew(a: string, msg: string)
    requires |msg| == |a|
    ensures Held(Overwritten(a, 0, msg), 0, true) == msg
  {
  }

  lemma FitsBehind(a: string, at: nat, full: bool, msg: string)
    requires at + |msg| < |a|
    ensures Held(Overwritten(a, at, msg), at + |msg|, full) == Last(Held(a, at, full) + msg, |a|)
  {
    var b := Overwritten(a, at, msg);
    OverwrittenParts(a, at, msg);
    if full {
      OldestGone(a, at, msg);
      Associate(a[at + |msg|..], a[..at], msg);
      hide *;
      HeldFull(b, at + |msg|);
      HeldFull(a, at);
    } else {
      assert "" + b[..at + |msg|] == b[..at + |msg|] && "" + a[..at] == a[..at];
    }
  }

  lemma OverwrittenParts(a: string, at: nat, msg: string)
    requires at + |msg| <= |a|
    ensures var b := Overwritten(a, at, msg);
            b[..at + |msg|] == a[..at] + msg && b[at + |msg|..] == a[at + |msg|..]
  {
  }

  lemma HeldFull(a: string, at: nat)
    requires at <= |a|
    ensures Held(a, at, true) == a[at..] + a[..at]
  {
  }

  /** A message behind a full buffer pushes as many of the oldest characters out. */
  lemma OldestGone(a: string, at: nat, msg: string)
    requires at + |msg| < |a|
    ensures Last(a[at..] + a[..at] + msg, |a|) == a[at + |msg|..] + a[..at] + msg
  {
    var h := a[at..] + a[..at] + msg;
    assert h[|msg|..] == a[at + |msg|..] + a[..at] + msg;
  }

  lemma WrapsAround(a: string, at: nat, full: bool, msg: string)
    requires |msg| < |a| && at < |a| <= at + |msg|
    ensures var first := |a| - at;
            var b := Overwritten(Overwritten(a, at, msg[..first]), 0, msg[first..]);
            && (|msg| == first ==> b == Overwritten(a, at, msg[..first]))
            && Held(b, |msg| - first, true) == Last(Held(a, at, full) + msg, |a|)
  {
    var first := |a| - at;
    var second := |msg| - first;
    var c := Overwritten(a, at, msg[..first]);
    assert c == a[..at] + msg[..first];
    var b := Overwritten(c, 0, msg[first..]);
    assert b == msg[first..] + (a[second..at] + msg[..first]);
    hide Overwritten;
    assert b[second..] == a[second..at] + msg[..first] && b[..second] == msg[first..];
    Rejoined(a[second..at], msg, first);
    Tail(a, at, full, msg, second);
    hide Last;
  }

  lemma Rejoined(a: string, msg: string, k: nat)
    requires k <= |msg|
    ensures a + msg[..k] + msg[k..] == a + msg
  {
  }

  lemma Tail(a: string, at: nat, full: bool, msg: string, second: nat)
    requires |msg| < |a| && at < |a| <= at + |msg| && second == at + |msg| - |a|
    ensures Last(Held(a, at, full) + msg, |a|) == a[second..at] + msg
  {
    var h := Held(a, at, full) + msg;
    assert h[|h| - |a|..] == a[second..at] + msg;
  }

  method CopyTo(buffer: array<char>, at: nat, s: string)
    requires at + |s| <= buffer.Length
    modifies buffer
    ensures buffer[..] == Overwritten(old(buffer[..]), at, s)
  {
    ghost var was := buffer[..];
    for i := 0 to |s|
      invariant forall p :: 0 <= p < buffer.Length ==> buffer[p] == if at <= p < at + i then s[p - at] else was[p]
    {
      buffer[at + i] := s[i];
    }
  }
}
