/**
 The pending file renames of the session manager: a MULTI_SZ value that lists pairs of strings, compacted in place
 to drop the pairs of one directory.
 */
module PendingRenames {
  import opened Sequences

  const NUL: char := '\0'

  /** A rename; an empty `to` is a deletion. */
  datatype Rename = Rename(from: seq<char>, to: seq<char>)

  datatype Result = BadKey | Ok(found: bool, size: nat)

  /** What is searched for: a directory as the system stores it, matched as a prefix or as a whole. */
  datatype Query = Query(dir: seq<char>, prefix: bool)

  // ---------------------------------------------------------------- the text of a value

  predicate Terminated(s: seq<char>) {
    |s| >= 2 && s[|s| - 1] == NUL && s[|s| - 2] == NUL
  }

  /** The position of the first zero at or behind `p`. */
  function StrEnd(s: seq<char>, p: nat): (e: nat)
    requires p < |s| && s[|s| - 1] == NUL
    ensures p <= e < |s| && s[e] == NUL
    ensures forall i :: p <= i < e ==> s[i] != NUL
    decreases |s| - p
  {
    if s[p] == NUL then p else StrEnd(s, p + 1)
  }

  datatype Listing = Listing(renames: seq<Rename>, end: nat)

  /** The renames listed from `p` on, and where the listing stops. */
  function Walk(s: seq<char>, p: nat): (l: Listing)
    requires Terminated(s) && p <= |s|
    ensures p <= l.end <= |s|
    decreases |s| - p
  {
    if p == |s| || s[p] == NUL then Listing([], p)
    else
      var e := StrEnd(s, p);
      var f := StrEnd(s, e + 1);
      var rest := Walk(s, f + 1);
      Listing([Rename(s[p..e], s[e + 1..f])] + rest.renames, rest.end)
  }

  predicate ValidRename(r: Rename) {
    r.from != [] && NUL !in r.from && NUL !in r.to
  }

  predicate AllValid(renames: seq<Rename>) {
    forall i :: 0 <= i < |renames| ==> ValidRename(renames[i])
  }

  function Text(r: Rename): (t: seq<char>)
    ensures |t| == |r.from| + |r.to| + 2
  {
    r.from + [NUL] + r.to + [NUL]
  }

  function Encode(renames: seq<Rename>): seq<char> {
    if renames == [] then [] else Text(renames[0]) + Encode(renames[1..])
  }

  lemma EncodeCons(r: Rename, rest: seq<Rename>)
    ensures Encode([r] + rest) == Text(r) + Encode(rest)
  {
    hide Text;
    assert ([r] + rest)[1..] == rest;
  }

  lemma {:induction false} EncodeAppend(a: seq<Rename>, b: seq<Rename>)
    ensures Encode(a + b) == Encode(a) + Encode(b)
  {
    hide Text;
    if a == [] {
      assert a + b == b;
    } else {
      EncodeAppend(a[1..], b);
      assert a + b == [a[0]] + (a[1..] + b);
      EncodeCons(a[0], a[1..] + b);
      Associate(Text(a[0]), Encode(a[1..]), Encode(b));
    }
  }

  lemma EncodeOne(r: Rename)
    ensures Encode([r]) == Text(r)
  {
    assert [r][1..] == [];
  }

  lemma StrEndIs(s: seq<char>, p: nat, e: nat)
    requires p <= e < |s| && s[|s| - 1] == NUL && s[e] == NUL && forall i :: p <= i < e ==> s[i] != NUL
    ensures StrEnd(s, p) == e
  {
  }

  /** A value that lists renames is read back as exactly these renames, whatever follows their terminator. */
  lemma {:induction false} WalkEncoded(s: seq<char>, p: nat, renames: seq<Rename>)
    requires Terminated(s) && AllValid(renames)
    requires p + |Encode(renames)| < |s| && s[p..p + |Encode(renames)|] == Encode(renames)
    requires s[p + |Encode(renames)|] == NUL
    ensures Walk(s, p) == Listing(renames, p + |Encode(renames)|)
    decreases |renames|
  {
    hide Text, StrEnd, Walk;
    if renames == [] {
      WalkStop(s, p);
    } else {
      var r, rest := renames[0], renames[1..];
      assert renames == [r] + rest;
      EncodeCons(r, rest);
      assert ValidRename(r);
      hide Encode, ValidRename;
      SliceSplit(s, p, Text(r), Encode(rest));
      WalkText(s, p, r);
      WalkEncoded(s, p + |Text(r)|, rest);
    }
  }

  lemma SliceSplit(s: seq<char>, p: nat, a: seq<char>, b: seq<char>)
    requires p + |a| + |b| <= |s| && s[p..p + |a| + |b|] == a + b
    ensures s[p..p + |a|] == a && s[p + |a|..p + |a| + |b|] == b
  {
    var t := s[p..p + |a| + |b|];
    assert s[p..p + |a|] == t[..|a|] && s[p + |a|..p + |a| + |b|] == t[|a|..];
  }

  /** The listing from a rename on. */
  lemma WalkText(s: seq<char>, p: nat, r: Rename)
    requires Terminated(s) && ValidRename(r) && p + |Text(r)| <= |s| && s[p..p + |Text(r)|] == Text(r)
    ensures var rest := Walk(s, p + |Text(r)|); Walk(s, p) == Listing([r] + rest.renames, rest.end)
  {
    hide Text, StrEnd, Walk;
    TextAt(s, p, r);
    WalkStep(s, p, p + |r.from|, p + |Text(r)| - 1);
  }

  lemma TextAt(s: seq<char>, p: nat, r: Rename)
    requires ValidRename(r) && p + |Text(r)| <= |s| && s[|s| - 1] == NUL && s[p..p + |Text(r)|] == Text(r)
    ensures s[p] != NUL
    ensures var e := p + |r.from|; var f := e + 1 + |r.to|;
            StrEnd(s, p) == e && StrEnd(s, e + 1) == f && s[p..e] == r.from && s[e + 1..f] == r.to
  {
    hide StrEnd;
    var e := p + |r.from|;
    var f := e + 1 + |r.to|;
    var t := s[p..p + |Text(r)|];
    assert s[p..e] == t[..|r.from|] == r.from;
    assert s[e] == t[|r.from|] == NUL;
    assert s[e + 1..f] == t[|r.from| + 1..][..|r.to|] == r.to;
    assert s[f] == t[|r.from| + 1 + |r.to|] == NUL;
    StringFrom(s, p, e);
    StringFrom(s, e + 1, f);
    assert s[p] == s[p..e][0];
  }

  lemma StringFrom(s: seq<char>, p: nat, e: nat)
    requires p <= e < |s| && s[|s| - 1] == NUL && s[e] == NUL && NUL !in s[p..e]
    ensures StrEnd(s, p) == e
  {
    forall i | p <= i < e
      ensures s[i] != NUL
    {
      assert s[i] == s[p..e][i - p];
    }
    StrEndIs(s, p, e);
  }

  lemma WalkStep(s: seq<char>, p: nat, e: nat, f: nat)
    requires Terminated(s) && p < |s| && s[p] != NUL && e == StrEnd(s, p) && e + 1 < |s| && f == StrEnd(s, e + 1)
    ensures Walk(s, p) == Listing([Rename(s[p..e], s[e + 1..f])] + Walk(s, f + 1).renames, Walk(s, f + 1).end)
  {
    hide StrEnd, Terminated;
  }

  lemma WalkStop(s: seq<char>, p: nat)
    requires Terminated(s) && p <= |s| && (p == |s| || s[p] == NUL)
    ensures Walk(s, p) == Listing([], p)
  {
  }

  /** Everything read is a rename, and the part read is their encoding. */
  lemma {:induction false} WalkReads(s: seq<char>, p: nat)
    requires Terminated(s) && p <= |s|
    ensures AllValid(Walk(s, p).renames)
    ensures s[p..Walk(s, p).end] == Encode(Walk(s, p).renames)
    ensures Walk(s, p).end < |s| ==> s[Walk(s, p).end] == NUL
    decreases |s| - p
  {
    hide Walk, Text, StrEnd;
    if p < |s| && s[p] != NUL {
      var e := StrEnd(s, p);
      var f := StrEnd(s, e + 1);
      var r := Rename(s[p..e], s[e + 1..f]);
      var rest := Walk(s, f + 1);
      WalkReads(s, f + 1);
      WalkStep(s, p, e, f);
      TextOf(s, p, e, f);
      EncodeCons(r, rest.renames);
      assert s[p..rest.end] == s[p..f + 1] + s[f + 1..rest.end];
    } else {
      WalkStop(s, p);
    }
  }

  lemma TextOf(s: seq<char>, p: nat, e: nat, f: nat)
    requires p < |s| && s[|s| - 1] == NUL && s[p] != NUL
    requires e == StrEnd(s, p) && e + 1 < |s| && f == StrEnd(s, e + 1)
    ensures ValidRename(Rename(s[p..e], s[e + 1..f])) && s[p..f + 1] == Text(Rename(s[p..e], s[e + 1..f]))
  {
    hide StrEnd;
    assert s[p..f + 1] == s[p..e] + [s[e]] + s[e + 1..f] + [s[f]];
    assert s[p..e][0] == s[p];
  }

  // ---------------------------------------------------------------- matching

  /** Comparison ignores case by way of `fold`, which only takes zero to zero. */
  ghost predicate Folds(fold: char -> char) {
    forall c :: fold(c) == NUL <==> c == NUL
  }

  predicate SameFolded(a: seq<char>, b: seq<char>, fold: char -> char)
    requires |a| == |b|
  {
    forall i :: 0 <= i < |a| ==> fold(a[i]) == fold(b[i])
  }

  predicate Matches(q: Query, name: seq<char>, fold: char -> char) {
    && |q.dir| <= |name| && SameFolded(name[..|q.dir|], q.dir, fold)
    && (q.prefix || |name| == |q.dir|)
  }

  /** The renames whose source does not match. */
  function Keep(renames: seq<Rename>, q: Query, fold: char -> char): seq<Rename> {
    if renames == [] then []
    else (if Matches(q, renames[0].from, fold) then [] else [renames[0]]) + Keep(renames[1..], q, fold)
  }

  predicate Found(renames: seq<Rename>, q: Query, fold: char -> char) {
    exists i :: 0 <= i < |renames| && Matches(q, renames[i].from, fold)
  }

  lemma {:induction false} KeepAppend(a: seq<Rename>, b: seq<Rename>, q: Query, fold: char -> char)
    ensures Keep(a + b, q, fold) == Keep(a, q, fold) + Keep(b, q, fold)
  {
    hide Matches;
    if a == [] {
      assert a + b == b;
    } else {
      KeepAppend(a[1..], b, q, fold);
      assert a + b == [a[0]] + (a[1..] + b) && a == [a[0]] + a[1..];
      KeepCons(a[0], a[1..] + b, q, fold);
      KeepCons(a[0], a[1..], q, fold);
      hide Keep;
      Associate(if Matches(q, a[0].from, fold) then [] else [a[0]], Keep(a[1..], q, fold), Keep(b, q, fold));
    }
  }

  lemma KeepCons(r: Rename, rest: seq<Rename>, q: Query, fold: char -> char)
    ensures Keep([r] + rest, q, fold) == (if Matches(q, r.from, fold) then [] else [r]) + Keep(rest, q, fold)
  {
    hide Matches;
    assert ([r] + rest)[1..] == rest;
  }

  /** What is kept: only listed renames, none that matches; and all of them exactly when none matched. */
  lemma KeepFacts(renames: seq<Rename>, q: Query, fold: char -> char)
    ensures !Found(Keep(renames, q, fold), q, fold)
    ensures forall r :: r in Keep(renames, q, fold) <==> r in renames && !Matches(q, r.from, fold)
    ensures AllValid(renames) ==> AllValid(Keep(renames, q, fold))
    ensures |Encode(Keep(renames, q, fold))| <= |Encode(renames)|
    ensures Found(renames, q, fold) <==> |Encode(Keep(renames, q, fold))| != |Encode(renames)|
    ensures !Found(renames, q, fold) ==> Keep(renames, q, fold) == renames
  {
    KeepMembers(renames, q, fold);
    KeepSizes(renames, q, fold);
    hide Matches, Found, Keep, Encode;
  }

  lemma {:induction false} KeepMembers(renames: seq<Rename>, q: Query, fold: char -> char)
    ensures !Found(Keep(renames, q, fold), q, fold)
    ensures forall r :: r in Keep(renames, q, fold) <==> r in renames && !Matches(q, r.from, fold)
  {
    hide Matches;
    if renames != [] {
      var r, rest := renames[0], renames[1..];
      KeepMembers(rest, q, fold);
      assert renames == [r] + rest;
      FoundStep(r, Keep(rest, q, fold), q, fold);
    }
  }

  /** A dropped rename shows in the size of the text. */
  lemma {:induction false} KeepSizes(renames: seq<Rename>, q: Query, fold: char -> char)
    ensures |Encode(Keep(renames, q, fold))| <= |Encode(renames)|
    ensures Found(renames, q, fold) <==> |Encode(Keep(renames, q, fold))| != |Encode(renames)|
    ensures !Found(renames, q, fold) ==> Keep(renames, q, fold) == renames
  {
    hide Matches, Text;
    if renames != [] {
      var r, rest := renames[0], renames[1..];
      KeepSizes(rest, q, fold);
      assert renames == [r] + rest;
      EncodeAppend(if Matches(q, r.from, fold) then [] else [r], Keep(rest, q, fold));
      EncodeOne(r);
      FoundStep(r, rest, q, fold);
    }
  }

  lemma FoundStep(r: Rename, rest: seq<Rename>, q: Query, fold: char -> char)
    ensures Found([r] + rest, q, fold) <==> Matches(q, r.from, fold) || Found(rest, q, fold)
  {
    hide Matches;
    var all := [r] + rest;
    if Found(rest, q, fold) {
      var i :| 0 <= i < |rest| && Matches(q, rest[i].from, fold);
      assert Matches(q, all[i + 1].from, fold);
    }
    if Matches(q, r.from, fold) {
      assert Matches(q, all[0].from, fold);
    }
    if i :| 0 <= i < |all| && Matches(q, all[i].from, fold) {
      assert i > 0 ==> Matches(q, rest[i - 1].from, fold);
    }
  }

  // ---------------------------------------------------------------- the C string routines

  method StrLen(a: array<char>, p: nat) returns (n: nat)
    requires p < a.Length && a[a.Length - 1] == NUL
    ensures p + n == StrEnd(a[..], p)
  {
    n := 0;
    while a[p + n] != NUL
      invariant p + n < a.Length && forall i :: p <= i < p + n ==> a[i] != NUL
      decreases a.Length - n
    {
      n := n + 1;
    }
    StrEndIs(a[..], p, p + n);
  }

  /** The first `len` characters of the string at `p` and of `d` with its terminator agree. */
  ghost predicate Agree(s: seq<char>, p: nat, d: seq<char>, len: nat, fold: char -> char)
    requires len <= |d| + 1
  {
    p + len <= |s| && forall k :: p <= k < p + len ==> fold(s[k]) == fold((d + [NUL])[k - p])
  }

  method StrNCmp(a: array<char>, p: nat, d: seq<char>, len: nat, fold: char -> char) returns (r: int)
    requires p < a.Length && a[a.Length - 1] == NUL && len <= |d| + 1 && NUL !in d && Folds(fold)
    ensures r == 0 <==> Agree(a[..], p, d, len, fold)
  {
    if len == 0 {
      return 0;
    }
    var i, left := 0, len;
    while true
      invariant i + left == len && left > 0 && p + i < a.Length
      invariant forall k :: p <= k < p + i ==> a[k] != NUL && fold(a[k]) == fold((d + [NUL])[k - p])
      decreases left
    {
      var c1, c2 := fold(a[p + i]), fold((d + [NUL])[i]);
      left := left - 1;
      if left == 0 || c1 == NUL || c1 != c2 {
        assert i < |d| ==> d[i] in d;
        return c1 as int - c2 as int;
      }
      i := i + 1;
    }
  }

  /** `n` characters moved down from `src` to `dst`. */
  function CopyDown(s: seq<char>, dst: nat, src: nat, n: nat): (t: seq<char>)
    requires dst <= src && src + n <= |s|
    ensures |t| == |s|
  {
    s[..dst] + s[src..src + n] + s[dst + n..]
  }

  lemma CopyFacts(s: seq<char>, dst: nat, src: nat, n: nat)
    requires dst <= src && src + n <= |s|
    ensures var t := CopyDown(s, dst, src, n);
            t[..dst] == s[..dst] && t[dst..dst + n] == s[src..src + n] && t[src + n..] == s[src + n..]
  {
  }

  lemma CopyTwo(s: seq<char>, dst: nat, src: nat, n: nat, m: nat)
    requires dst <= src && src + n + m <= |s|
    ensures CopyDown(CopyDown(s, dst, src, n), dst + n, src + n, m) == CopyDown(s, dst, src, n + m)
  {
    var t := CopyDown(s, dst, src, n);
    CopyFacts(s, dst, src, n);
    assert t[src + n..src + n + m] == t[src + n..][..m] == s[src + n..][..m] == s[src + n..src + n + m];
    assert t[..dst + n] == s[..dst] + s[src..src + n];
    assert t[dst + n + m..] == s[dst + n + m..];
    assert s[src..src + n] + s[src + n..src + n + m] == s[src..src + n + m];
  }

  /** Copies a string down over the same buffer; the source is read before it is overwritten. */
  method StrNCpy(a: array<char>, dst: nat, src: nat, ghost n: nat)
    requires dst < src && src + n < a.Length && a[src + n] == NUL
    requires NUL !in a[src..src + n]
    modifies a
    ensures a[..] == CopyDown(old(a[..]), dst, src, n + 1)
  {
    hide CopyDown;
    var i := 0;
    ghost var s := a[..];
    assert a[src..src + n] == s[src..src + n];
    while a[src + i] != NUL
      invariant i <= n
      invariant forall k :: dst <= k < dst + i ==> a[k] == s[k - dst + src]
      invariant forall k :: 0 <= k < a.Length && !(dst <= k < dst + i) ==> a[k] == s[k]
      decreases n - i
    {
      a[dst + i] := a[src + i];
      i := i + 1;
    }
    a[dst + i] := NUL;
    CopyDownIs(s, a[..], dst, src, n + 1);
  }

  lemma CopyDownIs(s: seq<char>, t: seq<char>, dst: nat, src: nat, n: nat)
    requires dst <= src && src + n <= |s| == |t|
    requires forall k :: dst <= k < dst + n ==> t[k] == s[k - dst + src]
    requires forall k :: 0 <= k < |s| && !(dst <= k < dst + n) ==> t[k] == s[k]
    ensures t == CopyDown(s, dst, src, n)
  {
    assert t[..dst] == s[..dst] && t[dst..dst + n] == s[src..src + n] && t[dst + n..] == s[dst + n..];
    SplitThree(t, dst, dst + n);
  }

  lemma MatchIs(s: seq<char>, p: nat, q: Query, fold: char -> char)
    requires p < |s| && s[|s| - 1] == NUL && NUL !in q.dir && Folds(fold)
    ensures Agree(s, p, q.dir, |q.dir| + (if q.prefix then 0 else 1), fold)
            <==> Matches(q, s[p..StrEnd(s, p)], fold)
  {
    hide StrEnd;
    var e := StrEnd(s, p);
    var name, len := s[p..e], |q.dir| + (if q.prefix then 0 else 1);
    var t := q.dir + [NUL];
    assert forall i :: 0 <= i < |q.dir| ==> t[i] == q.dir[i] && q.dir[i] in q.dir;
    if Agree(s, p, q.dir, len, fold) {
      assert e - p >= |q.dir|;
      forall i | 0 <= i < |q.dir|
        ensures fold(name[i]) == fold(q.dir[i])
      {
        assert fold(s[p + i]) == fold(t[i]);
      }
      if !q.prefix {
        assert fold(s[p + |q.dir|]) == fold(t[|q.dir|]);
      }
    }
    if Matches(q, name, fold) {
      forall k | p <= k < p + len
        ensures fold(s[k]) == fold(t[k - p])
      {
        if k - p < |q.dir| {
          assert fold(name[..|q.dir|][k - p]) == fold(q.dir[k - p]);
        }
      }
    }
  }

  // ---------------------------------------------------------------- compaction in place

  /** What a caller gets: an error, or whether renames were dropped and the size of the new text. */
  function Minus(s: seq<char>, q: Query, fold: char -> char): Result {
    if s == [] then Ok(false, 0)
    else if !Terminated(s) || Walk(s, 0).end == |s| then BadKey
    else
      var renames := Walk(s, 0).renames;
      var kept := Keep(renames, q, fold);
      if !Found(renames, q, fold) then Ok(false, 0) else Ok(true, if kept == [] then 0 else |Encode(kept)| + 1)
  }

  /** The state of the two positions: `seen` was read, and what is kept of it stands in front. */
  ghost predicate Compacted(s: seq<char>, t: seq<char>, read: nat, write: nat, seen: seq<Rename>, q: Query,
                            fold: char -> char)
    requires Terminated(s)
  {
    && |t| == |s| && write <= read <= |s| && t[read..] == s[read..]
    && Walk(s, 0) == Listing(seen + Walk(s, read).renames, Walk(s, read).end)
    && read == |Encode(seen)| && t[..write] == Encode(Keep(seen, q, fold))
  }

  /** The value has `sizeBytes` bytes, of which the array holds the whole characters. */
  method MinusDir(a: array<char>, sizeBytes: nat, q: Query, fold: char -> char) returns (r: Result)
    requires a.Length == sizeBytes / 2 && NUL !in q.dir && Folds(fold)
    modifies a
    ensures r == if sizeBytes % 2 != 0 then BadKey else Minus(old(a[..]), q, fold)
    ensures r.Ok? && r.size > 0 ==>
              && r.size <= a.Length
              && a[..r.size] == Encode(Keep(Walk(old(a[..]), 0).renames, q, fold)) + [NUL]
  {
    hide Walk, Keep, Found, Encode;
    if sizeBytes == 0 {
      return Ok(false, 0);
    }
    if sizeBytes % 2 != 0 {
      return BadKey;
    }
    if a.Length < 2 || a[a.Length - 1] != NUL || a[a.Length - 2] != NUL {
      return BadKey;
    }
    ghost var s := a[..];
    var read: nat, write: nat := 0, 0;
    ghost var seen: seq<Rename> := [];
    Started(s, q, fold);
    while read < a.Length && a[read] != NUL
      invariant Compacted(s, a[..], read, write, seen, q, fold)
      decreases a.Length - read
    {
      assert a[read] == a[..][read..][0];
      read, write, seen := Advance(a, read, write, q, fold, s, seen);
    }
    assert read < a.Length ==> a[read] == a[..][read..][0];
    Finished(s, a[..], read, write, seen, q, fold);
    if read == a.Length {
      return BadKey;
    }
    if read == write {
      return Ok(false, 0);
    }
    if write == 0 {
      return Ok(true, 0);
    }
    a[write] := NUL;
    r := Ok(true, write + 1);
  }

  lemma Started(s: seq<char>, q: Query, fold: char -> char)
    requires Terminated(s)
    ensures Compacted(s, s, 0, 0, [], q, fold)
  {
    hide Walk;
  }

  lemma Finished(s: seq<char>, t: seq<char>, read: nat, write: nat, seen: seq<Rename>, q: Query, fold: char -> char)
    requires Terminated(s) && Compacted(s, t, read, write, seen, q, fold) && (read == |s| || s[read] == NUL)
    ensures Walk(s, 0) == Listing(seen, read)
    ensures read == write <==> !Found(seen, q, fold)
    ensures write == 0 <==> Keep(seen, q, fold) == []
    ensures write == |Encode(Keep(seen, q, fold))|
  {
    hide Found, Keep, Encode, Walk;
    WalkStop(s, read);
    assert seen + [] == seen;
    KeepFacts(seen, q, fold);
    EncodeEmpty(Keep(seen, q, fold));
  }

  lemma EncodeEmpty(renames: seq<Rename>)
    ensures |Encode(renames)| == 0 <==> renames == []
  {
  }

  lemma StrEndSame(s: seq<char>, t: seq<char>, p: nat)
    requires p < |s| == |t| && s[|s| - 1] == NUL && s[p..] == t[p..]
    ensures t[|t| - 1] == NUL && StrEnd(t, p) == StrEnd(s, p)
  {
    hide StrEnd;
    forall i | p <= i < |s|
      ensures s[i] == t[i]
    {
      assert s[i] == s[p..][i - p] && t[i] == t[p..][i - p];
    }
    StrEndIs(t, p, StrEnd(s, p));
  }

  /** Reading one more rename. */
  lemma SeenStep(s: seq<char>, read: nat, seen: seq<Rename>, e: nat, f: nat, q: Query, fold: char -> char)
    requires Terminated(s) && read < |s| && s[read] != NUL
    requires e == StrEnd(s, read) && e + 1 < |s| && f == StrEnd(s, e + 1) && read == |Encode(seen)|
    requires Walk(s, 0) == Listing(seen + Walk(s, read).renames, Walk(s, read).end)
    ensures var r := Rename(s[read..e], s[e + 1..f]);
            && Walk(s, 0) == Listing(seen + [r] + Walk(s, f + 1).renames, Walk(s, f + 1).end)
            && f + 1 == |Encode(seen + [r])| && s[read..f + 1] == Text(r)
            && Keep(seen + [r], q, fold) == Keep(seen, q, fold) + (if Matches(q, r.from, fold) then [] else [r])
            && Encode(Keep(seen, q, fold) + [r]) == Encode(Keep(seen, q, fold)) + Text(r)
  {
    hide Walk, StrEnd, Text, Matches;
    var r := Rename(s[read..e], s[e + 1..f]);
    WalkStep(s, read, e, f);
    Associate(seen, [r], Walk(s, f + 1).renames);
    TextOf(s, read, e, f);
    EncodeOne(r);
    EncodeAppend(seen, [r]);
    EncodeAppend(Keep(seen, q, fold), [r]);
    KeepAppend(seen, [r], q, fold);
    KeepOne(r, q, fold);
  }

  lemma KeepOne(r: Rename, q: Query, fold: char -> char)
    ensures Keep([r], q, fold) == if Matches(q, r.from, fold) then [] else [r]
  {
    assert [r][1..] == [];
  }

  /** What is still to be read has not been overwritten. */
  lemma Ahead(s: seq<char>, t: seq<char>, read: nat)
    requires Terminated(s) && read < |s| == |t| && s[read] != NUL && t[read..] == s[read..]
    ensures t[|t| - 1] == NUL && StrEnd(s, read) + 1 < |s|
    ensures var e := StrEnd(t, read);
            && e == StrEnd(s, read) && e + 1 < |t|
            && var f := StrEnd(t, e + 1);
               && f == StrEnd(s, e + 1)
               && t[read..e] == s[read..e] && t[read..f + 1] == s[read..f + 1] && t[f + 1..] == s[f + 1..]
  {
    hide StrEnd;
    StrEndSame(s, t, read);
    var e := StrEnd(s, read);
    Suffix(s, t, read, e + 1);
    StrEndSame(s, t, e + 1);
    var f := StrEnd(s, e + 1);
    Suffix(s, t, read, f + 1);
    assert t[read..f + 1] == t[read..][..f + 1 - read] && s[read..f + 1] == s[read..][..f + 1 - read];
    assert t[read..e] == t[read..][..e - read] && s[read..e] == s[read..][..e - read];
  }

  /** The rename at `read`. */
  ghost function NextRename(s: seq<char>, read: nat): Rename
    requires Terminated(s) && read < |s| && s[read] != NUL
  {
    var e := StrEnd(s, read);
    Rename(s[read..e], s[e + 1..StrEnd(s, e + 1)])
  }

  /** The comparison at `read`, made on the buffer as it is by then. */
  lemma MatchHere(s: seq<char>, t: seq<char>, read: nat, q: Query, fold: char -> char)
    requires Terminated(s) && read < |s| == |t| && s[read] != NUL && t[read..] == s[read..]
    requires NUL !in q.dir && Folds(fold)
    ensures t[|t| - 1] == NUL && StrEnd(s, read) + 1 < |s| && StrEnd(t, read) == StrEnd(s, read)
    ensures StrEnd(t, StrEnd(s, read) + 1) == StrEnd(s, StrEnd(s, read) + 1)
    ensures Agree(t, read, q.dir, |q.dir| + (if q.prefix then 0 else 1), fold)
            <==> Matches(q, NextRename(s, read).from, fold)
  {
    hide Agree, Matches, StrEnd;
    Ahead(s, t, read);
    MatchIs(t, read, q, fold);
  }

  lemma Dropped(s: seq<char>, t: seq<char>, read: nat, write: nat, seen: seq<Rename>, q: Query, fold: char -> char)
    requires Terminated(s) && read < |s| && s[read] != NUL && Compacted(s, t, read, write, seen, q, fold)
    requires Matches(q, NextRename(s, read).from, fold)
    ensures StrEnd(s, read) + 1 < |s|
    ensures Compacted(s, t, StrEnd(s, StrEnd(s, read) + 1) + 1, write, seen + [NextRename(s, read)], q, fold)
  {
    hide Walk, StrEnd, Text, Matches, Keep, Encode;
    Ahead(s, t, read);
    var e := StrEnd(s, read);
    SeenStep(s, read, seen, e, StrEnd(s, e + 1), q, fold);
    assert Keep(seen, q, fold) + [] == Keep(seen, q, fold);
  }

  lemma Moved(s: seq<char>, t: seq<char>, read: nat, write: nat, seen: seq<Rename>, q: Query, fold: char -> char)
    requires Terminated(s) && read < |s| && s[read] != NUL && Compacted(s, t, read, write, seen, q, fold)
    requires !Matches(q, NextRename(s, read).from, fold)
    ensures StrEnd(s, read) + 1 < |s|
    ensures var f := StrEnd(s, StrEnd(s, read) + 1);
            Compacted(s, CopyDown(t, write, read, f + 1 - read), f + 1, write + f + 1 - read,
                      seen + [NextRename(s, read)], q, fold)
  {
    hide Walk, StrEnd, Text, Matches, Keep, Encode, CopyDown;
    var e := StrEnd(s, read);
    Ahead(s, t, read);
    var f := StrEnd(s, e + 1);
    SeenStep(s, read, seen, e, f, q, fold);
    MovedText(s, t, read, write, f + 1 - read);
    assert NextRename(s, read) == Rename(s[read..e], s[e + 1..f]);
    hide NextRename;
  }

  /** The text of a rename behind what was kept before it. */
  lemma MovedText(s: seq<char>, t: seq<char>, read: nat, write: nat, n: nat)
    requires |t| == |s| && write <= read && read + n <= |s| && t[read..read + n] == s[read..read + n]
    requires t[read + n..] == s[read + n..]
    ensures var u := CopyDown(t, write, read, n);
            u[..write + n] == t[..write] + s[read..read + n] && u[read + n..] == s[read + n..]
  {
    hide CopyDown;
    CopyFacts(t, write, read, n);
    Joined(CopyDown(t, write, read, n), write, n);
  }

  lemma Joined(u: seq<char>, k: nat, n: nat)
    requires k + n <= |u|
    ensures u[..k + n] == u[..k] + u[k..k + n]
  {
  }

  lemma InSync(t: seq<char>, p: nat, n: nat)
    requires p + n <= |t|
    ensures CopyDown(t, p, p, n) == t
  {
  }

  /** One round of the loop: one rename is read, and dropped, moved down or left where it is. */
  method Advance(a: array<char>, read0: nat, write0: nat, q: Query, fold: char -> char, ghost s: seq<char>,
                 ghost seen0: seq<Rename>) returns (read: nat, write: nat, ghost seen: seq<Rename>)
    requires Terminated(s) && NUL !in q.dir && Folds(fold)
    requires Compacted(s, a[..], read0, write0, seen0, q, fold) && read0 < |s| && s[read0] != NUL
    modifies a
    ensures read0 < read && seen == seen0 + [NextRename(s, read0)] && Compacted(s, a[..], read, write, seen, q, fold)
  {
    hide Compacted, StrEnd, Matches, Walk, Keep, Encode, Agree, CopyDown, NextRename;
    ghost var t := a[..];
    CompactedFrame(s, t, read0, write0, seen0, q, fold);
    MatchHere(s, t, read0, q, fold);
    ghost var f := StrEnd(s, StrEnd(s, read0) + 1);
    seen := seen0 + [NextRename(s, read0)];
    read, write := read0, write0;
    var len := StrLen(a, read);
    var cmp := StrNCmp(a, read, q.dir, |q.dir| + (if q.prefix then 0 else 1), fold);
    if cmp == 0 {
      Dropped(s, t, read0, write0, seen0, q, fold);
      read := read + len + 1;
      var to := StrLen(a, read);
      read := read + to + 1;
    } else if read != write {
      Moved(s, t, read0, write0, seen0, q, fold);
      read, write := MoveDown(a, read, write, len, f);
    } else {
      Moved(s, t, read0, write0, seen0, q, fold);
      InSync(t, read0, f + 1 - read0);
      read := read + len + 1;
      var to := StrLen(a, read);
      read := read + to + 1;
      write := read;
    }
  }

  lemma Suffix(s: seq<char>, t: seq<char>, p: nat, k: nat)
    requires p <= k <= |s| == |t| && s[p..] == t[p..]
    ensures s[k..] == t[k..]
  {
    assert s[k..] == s[p..][k - p..] && t[k..] == t[p..][k - p..];
  }

  lemma CompactedFrame(s: seq<char>, t: seq<char>, read: nat, write: nat, seen: seq<Rename>, q: Query,
                       fold: char -> char)
    requires Terminated(s) && Compacted(s, t, read, write, seen, q, fold)
    ensures |t| == |s| && write <= read <= |s| && t[read..] == s[read..]
  {
  }

  /** Both strings of a rename copied down. */
  method MoveDown(a: array<char>, read0: nat, write0: nat, len: nat, ghost f: nat) returns (read: nat, write: nat)
    requires write0 < read0 && read0 + len + 1 < a.Length && a[a.Length - 1] == NUL
    requires read0 + len == StrEnd(a[..], read0) && f == StrEnd(a[..], read0 + len + 1)
    modifies a
    ensures read == f + 1 && write == write0 + f + 1 - read0
    ensures a[..] == CopyDown(old(a[..]), write0, read0, f + 1 - read0)
  {
    hide StrEnd, CopyDown;
    ghost var t := a[..];
    CopyFacts(t, write0, read0, len + 1);
    read, write := read0, write0;
    StrNCpy(a, write, read, len);
    read, write := read + len + 1, write + len + 1;
    StrEndSame(t, a[..], read);
    var to := StrLen(a, read);
    StrNCpy(a, write, read, to);
    CopyTwo(t, write0, read0, len + 1, to + 1);
    read, write := read + to + 1, write + to + 1;
  }

  // ---------------------------------------------------------------- the registry value over many removals

  /** A value that the code accepts; the empty text is a missing value. */
  predicate Readable(value: seq<char>) {
    value == [] || (Terminated(value) && Walk(value, 0).end < |value|)
  }

  function Renames(value: seq<char>): seq<Rename>
    requires Readable(value)
  {
    if value == [] then [] else Walk(value, 0).renames
  }

  /** RemoveFromMovesPendingReboot: an emptied value is deleted, an unaffected one is not written. */
  function Remove(value: seq<char>, q: Query, fold: char -> char): seq<char> {
    match Minus(value, q, fold)
    case BadKey => value
    case Ok(found, size) =>
      if !found then value
      else if size == 0 then []
      else if Readable(value) then Encode(Keep(Renames(value), q, fold)) + [NUL] else value
  }

  predicate AreMovesPending(value: seq<char>, q: Query, fold: char -> char) {
    var r := Minus(value, q, fold);
    r.Ok? && r.found
  }

  function RemoveAll(value: seq<char>, qs: seq<Query>, fold: char -> char): seq<char>
    decreases |qs|
  {
    if qs == [] then value else RemoveAll(Remove(value, qs[0], fold), qs[1..], fold)
  }

  lemma PendingIs(value: seq<char>, q: Query, fold: char -> char)
    requires Readable(value)
    ensures AreMovesPending(value, q, fold) <==> Found(Renames(value), q, fold)
  {
  }

  /** The text of a list of renames lists them. */
  lemma ListReadable(renames: seq<Rename>)
    requires renames != [] && AllValid(renames)
    ensures Readable(Encode(renames) + [NUL]) && Renames(Encode(renames) + [NUL]) == renames
  {
    hide Walk;
    var t := Encode(renames) + [NUL];
    EncodeEnds(renames);
    assert t[..|Encode(renames)|] == Encode(renames);
    assert Terminated(t);
    WalkEncoded(t, 0, renames);
  }

  lemma {:induction false} EncodeEnds(renames: seq<Rename>)
    requires renames != []
    ensures Encode(renames) != [] && Encode(renames)[|Encode(renames)| - 1] == NUL
  {
    if renames[1..] != [] {
      EncodeEnds(renames[1..]);
    }
  }

  /** One removal drops the matching renames and nothing else, and leaves a value the code accepts. */
  lemma RemoveOne(value: seq<char>, q: Query, fold: char -> char)
    requires Readable(value)
    ensures Readable(Remove(value, q, fold))
    ensures Renames(Remove(value, q, fold)) == Keep(Renames(value), q, fold)
    ensures !AreMovesPending(Remove(value, q, fold), q, fold)
  {
    hide Walk, Found, Keep, Encode;
    if value == [] {
      KeepFacts([], q, fold);
      NothingKept(q, fold);
    } else {
      var renames := Walk(value, 0).renames;
      WalkReads(value, 0);
      KeepFacts(renames, q, fold);
      EncodeEmpty(Keep(renames, q, fold));
      if Found(renames, q, fold) && Keep(renames, q, fold) != [] {
        ListReadable(Keep(renames, q, fold));
      }
    }
    PendingIs(Remove(value, q, fold), q, fold);
  }

  lemma NothingKept(q: Query, fold: char -> char)
    ensures Keep([], q, fold) == [] && !Found([], q, fold)
  {
  }

  function KeepAll(renames: seq<Rename>, qs: seq<Query>, fold: char -> char): seq<Rename>
    decreases |qs|
  {
    if qs == [] then renames else KeepAll(Keep(renames, qs[0], fold), qs[1..], fold)
  }

  lemma {:induction false} KeepAllMembers(renames: seq<Rename>, qs: seq<Query>, fold: char -> char)
    ensures forall r :: r in KeepAll(renames, qs, fold) <==>
                          r in renames && forall i :: 0 <= i < |qs| ==> !Matches(qs[i], r.from, fold)
    decreases |qs|
  {
    hide Matches, Keep, Found;
    if qs != [] {
      KeepFacts(renames, qs[0], fold);
      KeepAllMembers(Keep(renames, qs[0], fold), qs[1..], fold);
    }
  }

  /**
   Any sequence of removals leaves the renames that none of them matches, in their order, and no removed directory
   is pending afterwards.
   */
  lemma {:induction false} RemovalRun(value: seq<char>, qs: seq<Query>, fold: char -> char)
    requires Readable(value)
    ensures Readable(RemoveAll(value, qs, fold))
    ensures Renames(RemoveAll(value, qs, fold)) == KeepAll(Renames(value), qs, fold)
    ensures forall i :: 0 <= i < |qs| ==> !AreMovesPending(RemoveAll(value, qs, fold), qs[i], fold)
    decreases |qs|
  {
    hide Readable, Renames, Remove, AreMovesPending, Keep, Matches;
    if qs != [] {
      RemoveOne(value, qs[0], fold);
      RemovalRun(Remove(value, qs[0], fold), qs[1..], fold);
    }
    var last := RemoveAll(value, qs, fold);
    KeepAllMembers(Renames(value), qs, fold);
    forall i | 0 <= i < |qs|
      ensures !AreMovesPending(last, qs[i], fold)
    {
      PendingIs(last, qs[i], fold);
    }
  }

  lemma {:induction false} KeepCommutes(renames: seq<Rename>, p: Query, q: Query, fold: char -> char)
    ensures Keep(Keep(renames, p, fold), q, fold) == Keep(Keep(renames, q, fold), p, fold)
  {
    hide Matches;
    if renames != [] {
      var r, rest := renames[0], renames[1..];
      KeepCommutes(rest, p, q, fold);
      KeepAppend(if Matches(p, r.from, fold) then [] else [r], Keep(rest, p, fold), q, fold);
      KeepAppend(if Matches(q, r.from, fold) then [] else [r], Keep(rest, q, fold), p, fold);
      KeepOne(r, p, fold);
      KeepOne(r, q, fold);
    }
  }

  /** The text that lists `renames` and nothing more. */
  function Canonical(renames: seq<Rename>): seq<char> {
    if renames == [] then [] else Encode(renames) + [NUL]
  }

  lemma RemoveIs(value: seq<char>, q: Query, fold: char -> char)
    requires Readable(value)
    ensures Remove(value, q, fold)
            == if Found(Renames(value), q, fold) then Canonical(Keep(Renames(value), q, fold)) else value
  {
    hide Walk, Found, Keep, Encode;
    if value == [] {
      NothingKept(q, fold);
    } else {
      EncodeEmpty(Keep(Walk(value, 0).renames, q, fold));
    }
  }

  lemma RemoveFromCanonical(value: seq<char>, q: Query, fold: char -> char)
    requires Readable(value) && value == Canonical(Renames(value))
    ensures Remove(value, q, fold) == Canonical(Keep(Renames(value), q, fold))
  {
    hide Readable, Renames, Remove, Found, Keep, Canonical;
    RemoveIs(value, q, fold);
    KeepFacts(Renames(value), q, fold);
  }

  /** The order in which two directories are removed does not show in the value. */
  lemma RemovalsCommute(value: seq<char>, p: Query, q: Query, fold: char -> char)
    requires Readable(value)
    ensures Remove(Remove(value, p, fold), q, fold) == Remove(Remove(value, q, fold), p, fold)
  {
    hide Readable, Renames, Remove, Keep, Canonical, Encode, Found;
    var renames := Renames(value);
    RemoveHalf(value, p, q, fold);
    RemoveHalf(value, q, p, fold);
    KeepCommutes(renames, p, q, fold);
  }

  lemma RemoveHalf(value: seq<char>, p: Query, q: Query, fold: char -> char)
    requires Readable(value)
    ensures Remove(Remove(value, p, fold), q, fold)
            == if Found(Renames(value), p, fold) || Found(Renames(value), q, fold)
               then Canonical(Keep(Keep(Renames(value), p, fold), q, fold)) else value
  {
    hide Readable, Renames, Remove, Keep, Canonical, Encode, Found;
    RemoveIs(value, p, fold);
    RemoveOne(value, p, fold);
    if Found(Renames(value), p, fold) {
      RemoveFromCanonical(Remove(value, p, fold), q, fold);
    } else {
      KeepFacts(Renames(value), p, fold);
      RemoveIs(value, q, fold);
    }
  }

  // ---------------------------------------------------------------- an example

  /** What a caller gets, by the renames of the value: their directory found or not, and the length of the new text. */
  lemma MinusIs(value: seq<char>, q: Query, fold: char -> char)
    ensures Minus(value, q, fold) ==
            if !Readable(value) then BadKey
            else if Found(Renames(value), q, fold) then Ok(true, |Canonical(Keep(Renames(value), q, fold))|) else Ok(false, 0)
  {
    hide Walk, Encode, Keep;
    if value == [] {
      NothingKept(q, fold);
    }
  }

  /** Two zeros are an empty list. */
  lemma EmptyList()
    ensures Readable("\0\0") && Renames("\0\0") == [] && !Readable("\0") && !Readable("a\0")
  {
    WalkStop("\0\0", 0);
  }

  /** The text of a list: each rename is its two names, each with a zero behind it. */
  lemma EncodeExample()
    ensures Encode([Rename("D", "x"), Rename("E", "")]) == "D\0x\0E\0\0"
    ensures Encode([Rename("E", "")]) == "E\0\0"
  {
    var l := [Rename("D", "x"), Rename("E", "")];
    assert l[1..] == [Rename("E", "")] && l[1..][1..] == [];
    assert Encode(l[1..]) == Text(l[1]) + [];
  }

  /** The directory of one rename is removed from a value of two; the case of its letters does not matter. */
  lemma RemoveExample(fold: char -> char)
    requires fold('D') == fold('d') && fold('E') != fold('d')
    ensures Remove("D\0x\0E\0\0\0", Query("d", false), fold) == "E\0\0\0"
  {
    var l, q := [Rename("D", "x"), Rename("E", "")], Query("d", false);
    EncodeExample();
    ListReadable(l);
    assert Matches(q, l[0].from, fold) && !Matches(q, l[1].from, fold);
    hide Encode, Walk, Readable, Renames, Matches, Remove;
    assert l[1..] == [l[1]] && l[1..][1..] == [];
    assert Keep(l[1..], q, fold) == [l[1]];
    assert Keep(l, q, fold) == [l[1]];
    assert Encode(l) + [NUL] == "D\0x\0E\0\0\0";
    assert Found(l, q, fold);
    RemoveIs(Encode(l) + [NUL], q, fold);
    assert Encode([l[1]]) + [NUL] == "E\0\0\0";
  }
}
