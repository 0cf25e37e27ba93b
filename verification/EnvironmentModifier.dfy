/** The object that collects overrides and merges them into the text of a block. */
module EnvironmentModifier {
  import opened NameOrder
  import opened Sequences
  import opened EnvironmentBlock

  // ---------------------------------------------------------------- the map of overrides

  /** std::map::erase. */
  function Erase(vars: seq<Var>, name: string, fold: char -> char): seq<Var> {
    if vars == [] then []
    else (if Same(vars[0].name, name, fold) then [] else [vars[0]]) + Erase(vars[1..], name, fold)
  }

  /** std::map::operator[] and assignment: an existing key is kept as it is spelled. */
  function Assign(vars: seq<Var>, name: string, value: string, fold: char -> char): seq<Var> {
    if vars == [] || Below(name, vars[0].name, fold) then [Var(name, value)] + vars
    else if Same(vars[0].name, name, fold) then [Var(vars[0].name, value)] + vars[1..]
    else [vars[0]] + Assign(vars[1..], name, value, fold)
  }

  function Set(vars: seq<Var>, v: Var, fold: char -> char): seq<Var> {
    Assign(Erase(vars, v.name, fold), v.name, v.value, fold)
  }

  /** The overrides of `name`. */
  function Named(vars: seq<Var>, name: string, fold: char -> char): seq<Var> {
    if vars == [] then []
    else (if Same(vars[0].name, name, fold) then [vars[0]] else []) + Named(vars[1..], name, fold)
  }

  lemma {:induction false} EraseOrdered(vars: seq<Var>, name: string, fold: char -> char)
    requires Increasing(vars, fold)
    ensures Increasing(Erase(vars, name, fold), fold)
    ensures forall v :: v in Erase(vars, name, fold) <==> v in vars && !Same(v.name, name, fold)
  {
    hide Compare;
    if vars != [] {
      EraseOrdered(vars[1..], name, fold);
      assert vars == [vars[0]] + vars[1..];
      if !Same(vars[0].name, name, fold) {
        IncreasingCons(vars[0], Erase(vars[1..], name, fold), fold);
      }
    }
  }

  lemma {:induction false} EraseNamed(vars: seq<Var>, name: string, other: string, fold: char -> char)
    ensures Named(Erase(vars, name, fold), other, fold)
            == if Same(name, other, fold) then [] else Named(vars, other, fold)
  {
    hide Compare, Same;
    if vars != [] {
      EraseNamed(vars[1..], name, other, fold);
      SameTransfers(vars[0].name, name, other, fold);
      if !Same(vars[0].name, name, fold) {
        NamedCons(vars[0], Erase(vars[1..], name, fold), other, fold);
      } else {
        assert [] + Erase(vars[1..], name, fold) == Erase(vars[1..], name, fold);
      }
    }
  }

  lemma NamedCons(v: Var, rest: seq<Var>, name: string, fold: char -> char)
    ensures Named([v] + rest, name, fold) == (if Same(v.name, name, fold) then [v] else []) + Named(rest, name, fold)
  {
    hide Compare, Same;
    assert ([v] + rest)[1..] == rest;
  }

  lemma SameTransfers(a: string, b: string, c: string, fold: char -> char)
    ensures Same(a, b, fold) ==> (Same(a, c, fold) <==> Same(b, c, fold))
    ensures Same(b, c, fold) ==> (Same(a, c, fold) <==> Same(a, b, fold))
  {
    SameIs(a, b, fold);
    SameIs(a, c, fold);
    SameIs(b, c, fold);
  }

  /** Assignment of a name that is not there. */
  lemma {:induction false} AssignNew(vars: seq<Var>, v: Var, fold: char -> char)
    requires Increasing(vars, fold) && forall w :: w in vars ==> !Same(w.name, v.name, fold)
    ensures Increasing(Assign(vars, v.name, v.value, fold), fold)
    ensures forall w :: w in Assign(vars, v.name, v.value, fold) <==> w == v || w in vars
  {
    hide Compare, Same;
    if vars == [] {
    } else if Below(v.name, vars[0].name, fold) {
      forall w | w in vars
        ensures Below(v.name, w.name, fold)
      {
        FirstBelow(v.name, vars, w, fold);
      }
      IncreasingCons(v, vars, fold);
    } else {
      var w, rest := vars[0], vars[1..];
      assert vars == [w] + rest;
      AssignNew(rest, v, fold);
      NotSameBelow(w.name, v.name, fold);
      forall u | u in rest
        ensures Below(w.name, u.name, fold)
      {
        var j :| 0 <= j < |rest| && rest[j] == u;
        assert vars[j + 1] == u;
      }
      IncreasingCons(w, Assign(rest, v.name, v.value, fold), fold);
    }
  }

  lemma {:induction false} AssignNamed(vars: seq<Var>, v: Var, other: string, fold: char -> char)
    requires forall w :: w in vars ==> !Same(w.name, v.name, fold)
    ensures Named(Assign(vars, v.name, v.value, fold), other, fold)
            == if Same(v.name, other, fold) then [v] else Named(vars, other, fold)
  {
    hide Compare, Same;
    if vars == [] {
    } else if Below(v.name, vars[0].name, fold) {
      NamedCons(v, vars, other, fold);
      NoneNamed(vars, v, other, fold);
    } else {
      var w, rest := vars[0], vars[1..];
      AssignNamed(rest, v, other, fold);
      NamedCons(w, Assign(rest, v.name, v.value, fold), other, fold);
      SameTransfers(w.name, v.name, other, fold);
    }
  }

  lemma {:induction false} NoneNamed(vars: seq<Var>, v: Var, other: string, fold: char -> char)
    requires forall w :: w in vars ==> !Same(w.name, v.name, fold)
    ensures Same(v.name, other, fold) ==> Named(vars, other, fold) == []
  {
    hide Compare, Same;
    if vars != [] {
      NoneNamed(vars[1..], v, other, fold);
      SameTransfers(vars[0].name, v.name, other, fold);
    }
  }

  lemma FirstBelow(name: string, vars: seq<Var>, w: Var, fold: char -> char)
    requires Increasing(vars, fold) && w in vars && Below(name, vars[0].name, fold)
    ensures Below(name, w.name, fold)
  {
    hide Compare;
    if w != vars[0] {
      CompareChain(name, vars[0].name, w.name, fold);
    }
  }

  lemma NotSameBelow(a: string, b: string, fold: char -> char)
    requires !Same(a, b, fold) && !Below(b, a, fold)
    ensures Below(a, b, fold)
  {
    CompareFlip(a, b, fold);
  }

  /** Setting a variable: it is the only override of its name, under the new spelling; other names are untouched. */
  lemma SetLookup(vars: seq<Var>, v: Var, other: string, fold: char -> char)
    requires Increasing(vars, fold)
    ensures Increasing(Set(vars, v, fold), fold)
    ensures forall w :: w in Set(vars, v, fold) <==> w == v || (w in vars && !Same(w.name, v.name, fold))
    ensures Named(Set(vars, v, fold), other, fold)
            == if Same(v.name, other, fold) then [v] else Named(vars, other, fold)
  {
    hide Compare, Same, Assign, Erase, Named;
    EraseOrdered(vars, v.name, fold);
    EraseNamed(vars, v.name, other, fold);
    AssignNew(Erase(vars, v.name, fold), v, fold);
    AssignNamed(Erase(vars, v.name, fold), v, other, fold);
  }

  // ---------------------------------------------------------------- a run of calls

  function SetAll(vars: seq<Var>, calls: seq<Var>, fold: char -> char): seq<Var>
    decreases |calls|
  {
    if calls == [] then vars else Set(SetAll(vars, calls[..|calls| - 1], fold), calls[|calls| - 1], fold)
  }

  /** The last call that names `name`. */
  function LastSet(calls: seq<Var>, name: string, fold: char -> char): seq<Var>
    decreases |calls|
  {
    if calls == [] then []
    else if Same(calls[|calls| - 1].name, name, fold) then [calls[|calls| - 1]]
    else LastSet(calls[..|calls| - 1], name, fold)
  }

  lemma {:induction false} SetAllLookup(calls: seq<Var>, name: string, fold: char -> char)
    requires forall i :: 0 <= i < |calls| ==> ValidVar(calls[i])
    ensures Ordered(SetAll([], calls, fold), fold)
    ensures Named(SetAll([], calls, fold), name, fold) == LastSet(calls, name, fold)
    decreases |calls|
  {
    hide Compare, Same, Set, Named, ValidVar;
    if calls == [] {
      NamedNothing(name, fold);
    } else {
      var before := calls[..|calls| - 1];
      SetAllLookup(before, name, fold);
      SetLookup(SetAll([], before, fold), calls[|calls| - 1], name, fold);
    }
  }

  lemma NamedNothing(name: string, fold: char -> char)
    ensures Named([], name, fold) == []
  {
  }

  lemma {:induction false} NamedOverride(vars: seq<Var>, name: string, fold: char -> char)
    ensures Named(vars, name, fold) == [] ==> !Overridden(vars, name, fold)
    ensures Named(vars, name, fold) != [] ==>
              exists k: nat :: Overrides(vars, k, name, fold) && vars[k] == Named(vars, name, fold)[0]
  {
    hide Compare, Same;
    if vars != [] {
      NamedOverride(vars[1..], name, fold);
      OverriddenStep(vars, name, fold);
      if Same(vars[0].name, name, fold) {
        assert Overrides(vars, 0, name, fold);
      } else if Named(vars[1..], name, fold) != [] {
        var k: nat :| Overrides(vars[1..], k, name, fold) && vars[1..][k] == Named(vars[1..], name, fold)[0];
        assert Overrides(vars, k + 1, name, fold);
      }
    }
  }

  /**
   After any calls of SetVar, the block that is created holds for every name what the last call for that name says,
   and for all other names what the original block holds.
   */
  lemma CallsThenCreate(entries: seq<string>, calls: seq<Var>, name: string, fold: char -> char)
    requires Sorted(entries, fold) && forall i :: 0 <= i < |calls| ==> ValidVar(calls[i])
    ensures var out := Merge(entries, SetAll([], calls, fold), fold);
            && Sorted(out, fold)
            && Entries(out, name, fold) == if LastSet(calls, name, fold) == [] then Entries(entries, name, fold)
                                           else Written(LastSet(calls, name, fold)[0])
  {
    hide Compare, Same, Merge, Entries, Sorted, Named, LastSet, Ordered, Overridden;
    var vars := SetAll([], calls, fold);
    SetAllLookup(calls, name, fold);
    MergeSorted(entries, vars, fold);
    MergeLookup(entries, vars, name, fold);
    NamedOverride(vars, name, fold);
  }

  lemma IncreasingCons(v: Var, rest: seq<Var>, fold: char -> char)
    requires Increasing(rest, fold) && forall w :: w in rest ==> Below(v.name, w.name, fold)
    ensures Increasing([v] + rest, fold)
  {
    hide Compare;
  }

  // ---------------------------------------------------------------- reading the text of a block

  /** Memory that starts with the text of a block. */
  ghost predicate HoldsBlock(block: seq<char>, entries: seq<string>) {
    ValidEntries(entries) && Text(entries) <= block
  }

  ghost function Offset(entries: seq<string>, i: nat): nat
    requires i <= |entries|
  {
    |Encode(entries[..i])|
  }

  /** The `i`th string of a block, in place. */
  lemma StringAt(block: seq<char>, entries: seq<string>, i: nat)
    requires HoldsBlock(block, entries) && i < |entries|
    ensures var p := Offset(entries, i); var n := |entries[i]|;
            && p + n < |block| && block[p..p + n] == entries[i] && block[p] != NUL && block[p + n] == NUL
            && NUL !in entries[i] && Offset(entries, i + 1) == p + n + 1
  {
    hide Encode;
    var e, p, n := entries[i], Offset(entries, i), |entries[i]|;
    assert entries == entries[..i] + ([e] + entries[i + 1..]);
    EncodeAppend(entries[..i], [e] + entries[i + 1..]);
    EncodeCons(e, entries[i + 1..]);
    assert entries[..i + 1] == entries[..i] + ([e] + []);
    EncodeAppend(entries[..i], [e] + []);
    EncodeCons(e, []);
    EncodeNothing();
    assert ValidEntry(e);
    var t := Text(entries);
    assert t[p..p + n] == e && t[p + n] == NUL;
    assert block[p..p + n] == t[p..p + n] && block[p] == t[p] == t[p..p + n][0] && block[p + n] == t[p + n];
  }

  lemma EncodeNothing()
    ensures Encode([]) == []
  {
  }

  lemma BlockEnd(block: seq<char>, entries: seq<string>)
    requires HoldsBlock(block, entries)
    ensures Offset(entries, |entries|) + 1 == |Text(entries)| <= |block| && block[Offset(entries, |entries|)] == NUL
  {
    assert entries[..|entries|] == entries;
  }

  method StrLen(block: seq<char>, p: nat, ghost e: string) returns (n: nat)
    requires p + |e| < |block| && block[p..p + |e|] == e && block[p + |e|] == NUL && NUL !in e
    ensures n == |e|
  {
    n := 0;
    assert forall k :: p <= k < p + |e| ==> block[k] == block[p..p + |e|][k - p];
    while block[p + n] != NUL
      invariant n <= |e|
      decreases |e| - n
    {
      n := n + 1;
    }
  }

  method GetEnvironmentBlockLength(block: seq<char>, ghost entries: seq<string>) returns (n: nat)
    requires HoldsBlock(block, entries)
    ensures n == |Text(entries)|
  {
    hide HoldsBlock, Offset;
    var cur := 0;
    ghost var i := 0;
    OffsetZero(entries);
    BlockEnd(block, entries);
    while block[cur] != NUL
      invariant i <= |entries| && cur == Offset(entries, i) && cur < |block|
      decreases |entries| - i
    {
      assert i < |entries|;
      StringAt(block, entries, i);
      var len := StrLen(block, cur, entries[i]);
      cur, i := cur + len + 1, i + 1;
      if i < |entries| {
        StringAt(block, entries, i);
      }
    }
    if i < |entries| {
      StringAt(block, entries, i);
    }
    n := cur + 1;
  }

  lemma OffsetZero(entries: seq<string>)
    ensures Offset(entries, 0) == 0
  {
  }

  // ---------------------------------------------------------------- writing the result

  /** `text` has been written to the front of `out`, and nothing behind it. */
  ghost predicate Holds(out: seq<char>, write: nat, text: seq<char>) {
    write == |text| <= |out| && out[..write] == text && forall p :: write <= p < |out| ==> out[p] == NUL
  }

  /** memcpy to the write position. */
  method Append(out: array<char>, write0: nat, ghost text: seq<char>, s: seq<char>) returns (write: nat)
    requires Holds(out[..], write0, text) && write0 + |s| <= out.Length
    modifies out
    ensures Holds(out[..], write, text + s)
  {
    ghost var before := out[..];
    for i := 0 to |s|
      invariant forall p :: 0 <= p < write0 ==> out[p] == before[p]
      invariant forall k :: 0 <= k < i ==> out[write0 + k] == s[k]
      invariant forall p :: write0 + i <= p < out.Length ==> out[p] == NUL
    {
      out[write0 + i] := s[i];
    }
    write := write0 + |s|;
    assert out[..write0] == before[..write0] && out[write0..write] == s;
    assert out[..write] == out[..write0] + out[write0..write];
  }

  /** The string at `read`, and its name compared with `name`. */
  method CompareNameAt(block: seq<char>, read: nat, name: string, fold: char -> char, ghost entries: seq<string>,
                       ghost i: nat) returns (cmp: int, len: nat)
    requires HoldsBlock(block, entries) && i < |entries| && read == Offset(entries, i)
    ensures len == |entries[i]| && cmp == Compare(Name(entries[i]), name, fold)
  {
    hide HoldsBlock, Offset, Compare;
    StringAt(block, entries, i);
    len := StrLen(block, read, entries[i]);
    cmp := Compare(Name(block[read..read + len]), name, fold);
  }

  /** Skips the strings with names below `name`. */
  method SkipBelow(block: seq<char>, read0: nat, name: string, fold: char -> char, ghost entries: seq<string>,
                   ghost i0: nat) returns (read: nat, ghost i: nat)
    requires HoldsBlock(block, entries) && i0 <= |entries| && read0 == Offset(entries, i0)
    ensures read == Offset(entries, i0 + CountBelow(entries[i0..], name, fold))
    ensures i == i0 + CountBelow(entries[i0..], name, fold)
  {
    hide HoldsBlock, Offset, Compare, Name, CountBelow;
    read, i := read0, i0;
    BlockEnd(block, entries);
    AtString(block, entries, i);
    while block[read] != NUL
      invariant i0 <= i <= |entries| && read == Offset(entries, i) && read < |block|
      invariant block[read] == NUL <==> i == |entries|
      invariant forall j :: i0 <= j < i ==> Below(Name(entries[j]), name, fold)
      decreases |entries| - i
    {
      var cmp, len := CompareNameAt(block, read, name, fold, entries, i);
      if cmp >= 0 {
        break;
      }
      StringAt(block, entries, i);
      read, i := read + len + 1, i + 1;
      AtString(block, entries, i);
    }
    CountBelowIs(entries[i0..], name, fold, i - i0);
  }

  /** Skips the strings with the name `name`. */
  method SkipSame(block: seq<char>, read0: nat, name: string, fold: char -> char, ghost entries: seq<string>,
                  ghost i0: nat) returns (read: nat, ghost i: nat)
    requires HoldsBlock(block, entries) && i0 <= |entries| && read0 == Offset(entries, i0)
    ensures read == Offset(entries, i0 + CountSame(entries[i0..], name, fold))
    ensures i == i0 + CountSame(entries[i0..], name, fold)
  {
    hide HoldsBlock, Offset, Compare, Name, CountSame;
    read, i := read0, i0;
    BlockEnd(block, entries);
    AtString(block, entries, i);
    while block[read] != NUL
      invariant i0 <= i <= |entries| && read == Offset(entries, i) && read < |block|
      invariant block[read] == NUL <==> i == |entries|
      invariant forall j :: i0 <= j < i ==> Same(Name(entries[j]), name, fold)
      decreases |entries| - i
    {
      var cmp, len := CompareNameAt(block, read, name, fold, entries, i);
      if cmp != 0 {
        break;
      }
      StringAt(block, entries, i);
      read, i := read + len + 1, i + 1;
      AtString(block, entries, i);
    }
    CountSameIs(entries[i0..], name, fold, i - i0);
  }

  lemma AtString(block: seq<char>, entries: seq<string>, i: nat)
    requires HoldsBlock(block, entries) && i <= |entries|
    ensures Offset(entries, i) < |block| && (block[Offset(entries, i)] == NUL <==> i == |entries|)
  {
    hide HoldsBlock, Offset;
    if i < |entries| {
      StringAt(block, entries, i);
    } else {
      BlockEnd(block, entries);
    }
  }

  /** A stretch of the block between two strings is the text of the strings in between. */
  lemma Stretch(block: seq<char>, entries: seq<string>, i: nat, j: nat)
    requires HoldsBlock(block, entries) && i <= j <= |entries|
    ensures Offset(entries, i) <= Offset(entries, j) < |block|
    ensures block[Offset(entries, i)..Offset(entries, j)] == Encode(entries[i..j])
  {
    hide Encode;
    assert entries[..j] == entries[..i] + entries[i..j] && entries == entries[..j] + entries[j..];
    EncodeAppend(entries[..i], entries[i..j]);
    EncodeAppend(entries[..j], entries[j..]);
    var p, q := Offset(entries, i), Offset(entries, j);
    assert block[..|Text(entries)|] == Text(entries);
    assert block[p..q] == Text(entries)[p..q] == Encode(entries[..j])[p..q];
  }

  /** The last stretch, with the terminator. */
  lemma LastStretch(block: seq<char>, entries: seq<string>, i: nat)
    requires HoldsBlock(block, entries) && i <= |entries|
    ensures Offset(entries, i) <= |Text(entries)| <= |block|
    ensures block[Offset(entries, i)..|Text(entries)|] == Encode(entries[i..]) + [NUL]
  {
    hide HoldsBlock, Offset, Encode;
    Stretch(block, entries, i, |entries|);
    BlockEnd(block, entries);
    assert entries[i..|entries|] == entries[i..];
    var p, q := Offset(entries, i), Offset(entries, |entries|);
    assert block[p..q + 1] == block[p..q] + [block[q]];
  }

  method IncreasedSize(vars: seq<Var>) returns (n: nat)
    ensures n == Increase(vars)
  {
    n := 0;
    for k := 0 to |vars|
      invariant n + Increase(vars[k..]) == Increase(vars)
    {
      assert vars[k..][1..] == vars[k + 1..];
      if vars[k].value != "" {
        n := n + |vars[k].name| + 1 + |vars[k].value| + 1;
      }
    }
  }

  method WriteVar(out: array<char>, write0: nat, ghost text: seq<char>, v: Var) returns (write: nat)
    requires Holds(out[..], write0, text) && write0 + |Encode(Written(v))| <= out.Length
    modifies out
    ensures Holds(out[..], write, text + Encode(Written(v)))
  {
    hide Encode, Holds;
    HoldsLength(out[..], write0, text);
    EncodeWritten(v);
    write := write0;
    if v.value == "" {
      assert text + [] == text;
    } else {
      write := Append(out, write, text, v.name);
      HoldsLength(out[..], write, text + v.name);
      write := Append(out, write, text + v.name, "=");
      HoldsLength(out[..], write, text + v.name + "=");
      write := Append(out, write, text + v.name + "=", v.value);
      HoldsLength(out[..], write, text + v.name + "=" + v.value);
      write := Append(out, write, text + v.name + "=" + v.value, [NUL]);
      assert text + (v.name + "=" + v.value + [NUL]) == text + v.name + "=" + v.value + [NUL];
    }
  }

  lemma HoldsLength(out: seq<char>, write: nat, text: seq<char>)
    requires Holds(out, write, text)
    ensures write == |text| <= |out|
  {
  }

  lemma HoldsNothing(out: seq<char>)
    requires forall p :: 0 <= p < |out| ==> out[p] == NUL
    ensures Holds(out, 0, Encode([]))
  {
  }

  /** One round of the merge, in the result and in its text. */
  lemma Round(entries: seq<string>, i: nat, done: seq<string>, vars: seq<Var>, fold: char -> char)
    requires i <= |entries| && vars != []
    ensures var v := vars[0];
            var i1 := i + CountBelow(entries[i..], v.name, fold);
            var i2 := i1 + CountSame(entries[i1..], v.name, fold);
            var result := done + Merge(entries[i..], vars, fold);
            var next := done + entries[i..i1] + Written(v);
            && i2 <= |entries| && result == next + Merge(entries[i2..], vars[1..], fold)
            && Encode(next) == Encode(done) + Encode(entries[i..i1]) + Encode(Written(v))
            && |Encode(next)| <= |Encode(result)|
  {
    hide Encode, CountBelow, CountSame, Written, Merge;
    var v := vars[0];
    var i1 := i + CountBelow(entries[i..], v.name, fold);
    var i2 := i1 + CountSame(entries[i1..], v.name, fold);
    MergeStep(entries, i, i1, i2, vars, fold);
    var rest := Merge(entries[i2..], vars[1..], fold);
    Associate4(done, entries[i..i1], Written(v), rest);
    EncodeAppend(done + entries[i..i1] + Written(v), rest);
    EncodeAppend(done + entries[i..i1], Written(v));
    EncodeAppend(done, entries[i..i1]);
  }

  lemma MergeStep(entries: seq<string>, i: nat, i1: nat, i2: nat, vars: seq<Var>, fold: char -> char)
    requires i <= i1 <= i2 <= |entries| && vars != []
    requires i1 == i + CountBelow(entries[i..], vars[0].name, fold)
    requires i2 == i1 + CountSame(entries[i1..], vars[0].name, fold)
    ensures Merge(entries[i..], vars, fold) == entries[i..i1] + Written(vars[0]) + Merge(entries[i2..], vars[1..], fold)
  {
    hide *;
    Slices(entries, i, i1, i2);
    MergeParts(entries[i..], i1 - i, i2 - i, entries[i..i1], entries[i1..], entries[i2..], vars, fold);
  }

  lemma MergeParts(tail: seq<string>, n: nat, k: nat, front: seq<string>, mid: seq<string>, rest: seq<string>,
                   vars: seq<Var>, fold: char -> char)
    requires vars != [] && Cut(tail, n, k, front, mid, rest)
    requires n == CountBelow(tail, vars[0].name, fold) && k == n + CountSame(mid, vars[0].name, fold)
    ensures Merge(tail, vars, fold) == front + Written(vars[0]) + Merge(rest, vars[1..], fold)
  {
    hide CountBelow, CountSame, Written;
  }

  class EnvironmentBlockModifier {
    var envVar: seq<Var>
    const fold: char -> char

    ghost predicate Valid()
      reads this
    {
      Increasing(envVar, fold)
    }

    constructor (fold: char -> char)
      ensures Valid() && envVar == [] && this.fold == fold
    {
      this.fold := fold;
      envVar := [];
    }

    method SetVar(name: string, value: string)
      requires Valid() && name != ""
      modifies this
      ensures Valid() && envVar == Set(old(envVar), Var(name, value), fold)
    {
      SetLookup(envVar, Var(name, value), name, fold);
      envVar := Erase(envVar, name, fold);
      envVar := Assign(envVar, name, value, fold);
    }

    /** The new block: the merge of the old one with the overrides, in a buffer that is large enough for it. */
    method Create(block: seq<char>, ghost entries: seq<string>) returns (out: array<char>)
      requires HoldsBlock(block, entries)
      ensures fresh(out) && out.Length == |Text(entries)| + Increase(envVar)
      ensures Holds(out[..], |Text(Merge(entries, envVar, fold))|, Text(Merge(entries, envVar, fold)))
    {
      hide HoldsBlock, Offset, Encode, Merge, Holds, CountBelow, CountSame, Compare, Increase;
      var origSize := GetEnvironmentBlockLength(block, entries);
      var incSize := IncreasedSize(envVar);
      out := new char[origSize + incSize](_ => NUL);
      ghost var result := Merge(entries, envVar, fold);
      MergeFits(entries, envVar, fold);
      var read: nat, prevRead: nat, write: nat := 0, 0, 0;
      ghost var i: nat, done: seq<string> := 0, [];
      OffsetZero(entries);
      HoldsNothing(out[..]);
      assert entries[0..] == entries && envVar[0..] == envVar;
      for k := 0 to |envVar|
        invariant i <= |entries| && read == prevRead == Offset(entries, i)
        invariant result == done + Merge(entries[i..], envVar[k..], fold)
        invariant Holds(out[..], write, Encode(done))
      {
        var v := envVar[k];
        Round(entries, i, done, envVar[k..], fold);
        assert envVar[k..][0] == v && envVar[k..][1..] == envVar[k + 1..];
        ghost var i1, i2;
        HoldsLength(out[..], write, Encode(done));
        read, i1 := SkipBelow(block, read, v.name, fold, entries, i);
        Stretch(block, entries, i, i1);
        write := Append(out, write, Encode(done), block[prevRead..read]);
        HoldsLength(out[..], write, Encode(done) + Encode(entries[i..i1]));
        write := WriteVar(out, write, Encode(done) + Encode(entries[i..i1]), v);
        read, i2 := SkipSame(block, read, v.name, fold, entries, i1);
        done := done + entries[i..i1] + Written(v);
        prevRead, i := read, i2;
        hide Written;
      }
      assert envVar[|envVar|..] == [];
      MergeNothing(entries[i..], fold);
      assert result == done + entries[i..];
      LastStretch(block, entries, i);
      EncodeAppend(done, entries[i..]);
      HoldsLength(out[..], write, Encode(done));
      write := Append(out, write, Encode(done), block[prevRead..origSize]);
      assert Encode(done) + (Encode(entries[i..]) + [NUL]) == Text(result);
      HoldsLength(out[..], write, Text(result));
    }
  }

  /** What was written is a block again. */
  lemma WrittenBlock(out: seq<char>, entries: seq<string>)
    requires Holds(out, |Text(entries)|, Text(entries)) && ValidEntries(entries)
    ensures HoldsBlock(out, entries)
  {
    hide Text, ValidEntries;
    assert out[..|Text(entries)|] == Text(entries);
  }

  /** A block that was created can be modified again; with the same overrides it keeps its text. */
  method CreateTwice(modifier: EnvironmentBlockModifier, block: seq<char>, ghost entries: seq<string>)
    returns (first: array<char>, second: array<char>)
    requires HoldsBlock(block, entries) && Sorted(entries, modifier.fold) && Ordered(modifier.envVar, modifier.fold)
    ensures var merged := Merge(entries, modifier.envVar, modifier.fold);
            && HoldsBlock(first[..], merged) && Holds(first[..], |Text(merged)|, Text(merged))
            && Holds(second[..], |Text(merged)|, Text(merged))
  {
    hide Merge, Holds, Text, Sorted;
    ghost var merged := Merge(entries, modifier.envVar, modifier.fold);
    MergeValid(entries, modifier.envVar, modifier.fold);
    MergeTwice(entries, modifier.envVar, modifier.fold);
    hide Ordered, HoldsBlock;
    first := modifier.Create(block, entries);
    WrittenBlock(first[..], merged);
    second := modifier.Create(first[..], merged);
  }
}
