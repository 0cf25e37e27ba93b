/**
 Environment blocks and their modification: a block is a list of `name=value` strings, sorted by name without regard
 to case; a modifier holds overrides and merges them into a block.
 */
module EnvironmentBlock {
  import opened NameOrder
  import opened Sequences

  const NUL: char := '\0'

  /** An override; an empty value unsets the variable. */
  datatype Var = Var(name: string, value: string)

  // ---------------------------------------------------------------- strings of a block

  function IndexOf(s: string, c: char): (i: nat)
    ensures i <= |s| && (i < |s| ==> s[i] == c)
    ensures forall j :: 0 <= j < i ==> s[j] != c
  {
    if s == "" || s[0] == c then 0 else 1 + IndexOf(s[1..], c)
  }

  /** The name of an environment string; a string without one, or one that starts with '=', has the empty name. */
  function Name(entry: string): string {
    var i := IndexOf(entry, '=');
    if i == |entry| then "" else entry[..i]
  }

  /** An override is read back under its own name exactly when that name holds no '='. */
  lemma NameOfOverride(v: Var)
    ensures Name(v.name + "=" + v.value) == v.name <==> '=' !in v.name
  {
    var s := v.name + "=" + v.value;
    var i := IndexOf(s, '=');
    assert s[|v.name|] == '=' && s[..|v.name|] == v.name;
    if i < |v.name| {
      assert v.name[i] == '=';
    }
  }

  function Written(v: Var): seq<string> {
    if v.value == "" then [] else [v.name + "=" + v.value]
  }

  ghost predicate Sorted(entries: seq<string>, fold: char -> char) {
    forall i, j :: 0 <= i < j < |entries| ==> Compare(Name(entries[i]), Name(entries[j]), fold) <= 0
  }

  predicate ValidVar(v: Var) {
    v.name != "" && '=' !in v.name && NUL !in v.name && NUL !in v.value
  }

  /** The overrides as the map holds them: strictly ordered by name. */
  ghost predicate Increasing(vars: seq<Var>, fold: char -> char) {
    forall i, j :: 0 <= i < j < |vars| ==> Below(vars[i].name, vars[j].name, fold)
  }

  ghost predicate Ordered(vars: seq<Var>, fold: char -> char) {
    (forall i :: 0 <= i < |vars| ==> ValidVar(vars[i])) && Increasing(vars, fold)
  }

  // ---------------------------------------------------------------- the merge

  /** How many entries come before `name`. */
  function CountBelow(entries: seq<string>, name: string, fold: char -> char): (n: nat)
    ensures n <= |entries| && (n < |entries| ==> !Below(Name(entries[n]), name, fold))
    ensures forall i :: 0 <= i < n ==> Below(Name(entries[i]), name, fold)
  {
    if entries == [] || !Below(Name(entries[0]), name, fold) then 0 else 1 + CountBelow(entries[1..], name, fold)
  }

  /** How many entries at the front have the name `name`. */
  function CountSame(entries: seq<string>, name: string, fold: char -> char): (n: nat)
    ensures n <= |entries| && (n < |entries| ==> !Same(Name(entries[n]), name, fold))
    ensures forall i :: 0 <= i < n ==> Same(Name(entries[i]), name, fold)
  {
    if entries == [] || !Same(Name(entries[0]), name, fold) then 0 else 1 + CountSame(entries[1..], name, fold)
  }

  function Merge(entries: seq<string>, vars: seq<Var>, fold: char -> char): seq<string>
    decreases |vars|
  {
    if vars == [] then entries
    else
      var i := CountBelow(entries, vars[0].name, fold);
      var m := CountSame(entries[i..], vars[0].name, fold);
      entries[..i] + Written(vars[0]) + Merge(entries[i + m..], vars[1..], fold)
  }

  lemma MergeNothing(entries: seq<string>, fold: char -> char)
    ensures Merge(entries, [], fold) == entries
  {
  }

  /** The merge, seen from the first override. */
  lemma MergeIs(entries: seq<string>, vars: seq<Var>, fold: char -> char)
    requires vars != []
    ensures var i := CountBelow(entries, vars[0].name, fold);
            var m := CountSame(entries[i..], vars[0].name, fold);
            Merge(entries, vars, fold) == entries[..i] + Written(vars[0]) + Merge(entries[i + m..], vars[1..], fold)
  {
    hide Name, Compare, Written;
    var i := CountBelow(entries, vars[0].name, fold);
    var m := CountSame(entries[i..], vars[0].name, fold);
  }

  // ---------------------------------------------------------------- what a block says about a name

  /** The entries with the name `name`, in their order. */
  function Entries(entries: seq<string>, name: string, fold: char -> char): seq<string> {
    if entries == [] then []
    else (if Same(Name(entries[0]), name, fold) then [entries[0]] else []) + Entries(entries[1..], name, fold)
  }

  lemma EntriesCons(e: string, rest: seq<string>, name: string, fold: char -> char)
    ensures Entries([e] + rest, name, fold)
            == (if Same(Name(e), name, fold) then [e] else []) + Entries(rest, name, fold)
  {
    hide Same, Name;
    assert ([e] + rest)[1..] == rest;
  }

  lemma {:induction false} EntriesAppend(a: seq<string>, b: seq<string>, name: string, fold: char -> char)
    ensures Entries(a + b, name, fold) == Entries(a, name, fold) + Entries(b, name, fold)
  {
    hide Same, Name;
    if a == [] {
      assert a + b == b;
    } else {
      var rest := a[1..];
      EntriesAppend(rest, b, name, fold);
      assert a + b == [a[0]] + (rest + b);
      EntriesCons(a[0], rest + b, name, fold);
      assert a == [a[0]] + rest;
      EntriesCons(a[0], rest, name, fold);
      hide Entries;
      Associate(if Same(Name(a[0]), name, fold) then [a[0]] else [],
                Entries(rest, name, fold), Entries(b, name, fold));
    }
  }

  lemma {:induction false} NoEntries(entries: seq<string>, name: string, fold: char -> char)
    requires forall i :: 0 <= i < |entries| ==> !Same(Name(entries[i]), name, fold)
    ensures Entries(entries, name, fold) == []
  {
    hide Same, Name;
    if entries != [] {
      NoEntries(entries[1..], name, fold);
    }
  }

  /** The override of `name`, if there is one. */
  ghost predicate Overrides(vars: seq<Var>, k: nat, name: string, fold: char -> char) {
    k < |vars| && Same(vars[k].name, name, fold)
  }

  ghost predicate Overridden(vars: seq<Var>, name: string, fold: char -> char) {
    exists k: nat :: Overrides(vars, k, name, fold)
  }

  /** The three parts of a sorted block around `name`. */
  lemma Around(entries: seq<string>, name: string, fold: char -> char)
    requires Sorted(entries, fold)
    ensures var i := CountBelow(entries, name, fold);
            var m := CountSame(entries[i..], name, fold);
            && (forall j :: 0 <= j < i ==> Below(Name(entries[j]), name, fold))
            && (forall j :: i <= j < i + m ==> Same(Name(entries[j]), name, fold))
            && (forall j :: i + m <= j < |entries| ==> Below(name, Name(entries[j]), fold))
  {
    hide Name, Compare, CountBelow, CountSame;
    var i := CountBelow(entries, name, fold);
    var m := CountSame(entries[i..], name, fold);
    forall j | i <= j < i + m
      ensures Same(Name(entries[j]), name, fold)
    {
      assert entries[j] == entries[i..][j - i];
    }
    if i + m < |entries| {
      var first := Name(entries[i + m]);
      assert entries[i + m] == entries[i..][m];
      NotBefore(entries, name, fold);
      CompareFlip(first, name, fold);
      forall j | i + m <= j < |entries|
        ensures Below(name, Name(entries[j]), fold)
      {
        if j > i + m {
          CompareChain(name, first, Name(entries[j]), fold);
        }
      }
    }
  }

  lemma NotBefore(entries: seq<string>, name: string, fold: char -> char)
    requires Sorted(entries, fold)
    ensures forall j :: CountBelow(entries, name, fold) <= j < |entries| ==> !Below(Name(entries[j]), name, fold)
  {
    hide Name, Compare, CountBelow;
    var i := CountBelow(entries, name, fold);
    forall j | i <= j < |entries|
      ensures !Below(Name(entries[j]), name, fold)
    {
      if Below(Name(entries[j]), name, fold) && j > i {
        CompareChain(Name(entries[i]), Name(entries[j]), name, fold);
      }
    }
  }

  // ---------------------------------------------------------------- lookups after the merge

  lemma OrderedRest(vars: seq<Var>, fold: char -> char)
    requires vars != [] && Ordered(vars, fold)
    ensures Ordered(vars[1..], fold) && ValidVar(vars[0])
    ensures forall k :: 0 <= k < |vars| - 1 ==> Below(vars[0].name, vars[1..][k].name, fold)
  {
  }

  lemma SortedRest(entries: seq<string>, k: nat, fold: char -> char)
    requires Sorted(entries, fold) && k <= |entries|
    ensures Sorted(entries[k..], fold)
  {
  }

  lemma OverriddenStep(vars: seq<Var>, name: string, fold: char -> char)
    requires vars != []
    ensures Overridden(vars, name, fold) <==> Same(vars[0].name, name, fold) || Overridden(vars[1..], name, fold)
  {
    hide Same;
    if Same(vars[0].name, name, fold) {
      assert Overrides(vars, 0, name, fold);
    }
    if k: nat :| Overrides(vars[1..], k, name, fold) {
      assert Overrides(vars, k + 1, name, fold);
    }
    if k: nat :| Overrides(vars, k, name, fold) {
      assert k > 0 ==> Overrides(vars[1..], k - 1, name, fold);
    }
  }

  /** The entries around the first override, seen from a name. */
  lemma Parts(entries: seq<string>, v: Var, name: string, fold: char -> char)
    requires Sorted(entries, fold) && ValidVar(v)
    ensures var i := CountBelow(entries, v.name, fold);
            var m := CountSame(entries[i..], v.name, fold);
            && (Compare(v.name, name, fold) <= 0 ==> Entries(entries[..i], name, fold) == [])
            && (!Same(v.name, name, fold) ==> Entries(entries[i..i + m], name, fold) == [])
            && (Same(v.name, name, fold) ==> Entries(entries[i + m..], name, fold) == [])
            && Entries(entries, name, fold) == Entries(entries[..i], name, fold)
                                               + Entries(entries[i..i + m], name, fold)
                                               + Entries(entries[i + m..], name, fold)
            && Entries(Written(v), name, fold) == if Same(v.name, name, fold) then Written(v) else []
  {
    hide Name, Compare, Entries;
    Around(entries, v.name, fold);
    var i := CountBelow(entries, v.name, fold);
    var m := CountSame(entries[i..], v.name, fold);
    SplitThree(entries, i, i + m);
    EntriesAppend(entries[..i] + entries[i..i + m], entries[i + m..], name, fold);
    EntriesAppend(entries[..i], entries[i..i + m], name, fold);
    if Compare(v.name, name, fold) <= 0 {
      AllBelow(entries[..i], v.name, name, fold);
    }
    if !Same(v.name, name, fold) {
      AllSame(entries[i..i + m], v.name, name, fold);
    } else {
      AllAbove(entries[i + m..], v.name, name, fold);
    }
    WrittenEntries(v, name, fold);
  }

  lemma WrittenEntries(v: Var, name: string, fold: char -> char)
    requires ValidVar(v)
    ensures Entries(Written(v), name, fold) == if Same(v.name, name, fold) then Written(v) else []
  {
    hide Same, Name;
    NameOfOverride(v);
    if v.value != "" {
      EntriesCons(v.name + "=" + v.value, [], name, fold);
      assert Written(v) == [v.name + "=" + v.value] + [];
    }
  }

  lemma AllBelow(entries: seq<string>, at: string, name: string, fold: char -> char)
    requires forall i :: 0 <= i < |entries| ==> Below(Name(entries[i]), at, fold)
    requires Compare(at, name, fold) <= 0
    ensures Entries(entries, name, fold) == []
  {
    hide Name, Compare, Entries;
    forall i | 0 <= i < |entries|
      ensures !Same(Name(entries[i]), name, fold)
    {
      CompareChain(Name(entries[i]), at, name, fold);
    }
    NoEntries(entries, name, fold);
  }

  lemma AllAbove(entries: seq<string>, at: string, name: string, fold: char -> char)
    requires forall i :: 0 <= i < |entries| ==> Below(at, Name(entries[i]), fold)
    requires Compare(name, at, fold) <= 0 || Compare(at, name, fold) == 0
    ensures Entries(entries, name, fold) == []
  {
    hide Name, Compare, Entries;
    CompareFlip(name, at, fold);
    forall i | 0 <= i < |entries|
      ensures !Same(Name(entries[i]), name, fold)
    {
      CompareChain(name, at, Name(entries[i]), fold);
      CompareFlip(name, Name(entries[i]), fold);
    }
    NoEntries(entries, name, fold);
  }

  lemma AllSame(entries: seq<string>, at: string, name: string, fold: char -> char)
    requires forall i :: 0 <= i < |entries| ==> Same(Name(entries[i]), at, fold)
    requires !Same(at, name, fold)
    ensures Entries(entries, name, fold) == []
  {
    hide Name, Compare, Entries;
    forall i | 0 <= i < |entries|
      ensures !Same(Name(entries[i]), name, fold)
    {
      if Same(Name(entries[i]), name, fold) {
        CompareFlip(Name(entries[i]), at, fold);
        CompareChain(at, Name(entries[i]), name, fold);
      }
    }
    NoEntries(entries, name, fold);
  }

  /** A name that is overridden by a later variable lies above an earlier one. */
  lemma OverriddenAbove(at: string, vars: seq<Var>, name: string, fold: char -> char)
    requires Overridden(vars, name, fold)
    requires forall k :: 0 <= k < |vars| ==> Below(at, vars[k].name, fold)
    ensures Below(at, name, fold)
  {
    hide Compare;
    var k: nat :| Overrides(vars, k, name, fold);
    CompareChain(at, vars[k].name, name, fold);
  }

  lemma MergeEntries(entries: seq<string>, vars: seq<Var>, name: string, fold: char -> char)
    requires Sorted(entries, fold) && vars != [] && ValidVar(vars[0])
    ensures var v := vars[0];
            var i := CountBelow(entries, v.name, fold);
            var m := CountSame(entries[i..], v.name, fold);
            Entries(Merge(entries, vars, fold), name, fold)
            == Entries(entries[..i], name, fold) + (if Same(v.name, name, fold) then Written(v) else [])
               + Entries(Merge(entries[i + m..], vars[1..], fold), name, fold)
  {
    hide Name, Compare, Entries, Sorted, Written;
    var v := vars[0];
    var i := CountBelow(entries, v.name, fold);
    var m := CountSame(entries[i..], v.name, fold);
    WrittenEntries(v, name, fold);
    EntriesAppend(entries[..i] + Written(v), Merge(entries[i + m..], vars[1..], fold), name, fold);
    EntriesAppend(entries[..i], Written(v), name, fold);
  }

  /** An unset variable is gone, a set one has the overriding entry alone, and every other name keeps its entries. */
  lemma {:induction false} MergeLookup(entries: seq<string>, vars: seq<Var>, name: string, fold: char -> char)
    requires Sorted(entries, fold) && Ordered(vars, fold)
    ensures !Overridden(vars, name, fold) ==>
              Entries(Merge(entries, vars, fold), name, fold) == Entries(entries, name, fold)
    ensures forall k: nat :: Overrides(vars, k, name, fold) ==>
                               Entries(Merge(entries, vars, fold), name, fold) == Written(vars[k])
    decreases |vars|
  {
    hide Name, Compare, Entries, Sorted, Ordered, Written, Overridden, Merge;
    if vars == [] {
      NotOverridden(name, fold);
      MergeNothing(entries, fold);
    } else {
      var v, vs := vars[0], vars[1..];
      var i := CountBelow(entries, v.name, fold);
      var m := CountSame(entries[i..], v.name, fold);
      OrderedRest(vars, fold);
      SortedRest(entries, i + m, fold);
      MergeLookup(entries[i + m..], vs, name, fold);
      Parts(entries, v, name, fold);
      OverriddenStep(vars, name, fold);
      MergeEntries(entries, vars, name, fold);
      LookupStep(v, vs, name, fold);
      forall k: nat | Overrides(vars, k, name, fold)
        ensures Entries(Merge(entries, vars, fold), name, fold) == Written(vars[k])
      {
        if k > 0 {
          IsOverridden(vs, k - 1, name, fold);
        }
      }
    }
  }

  lemma IsOverridden(vars: seq<Var>, k: nat, name: string, fold: char -> char)
    requires Overrides(vars, k, name, fold)
    ensures Overridden(vars, name, fold)
  {
  }

  lemma NotOverridden(name: string, fold: char -> char)
    ensures !Overridden([], name, fold)
  {
  }

  lemma LookupStep(v: Var, vars: seq<Var>, name: string, fold: char -> char)
    requires forall k :: 0 <= k < |vars| ==> Below(v.name, vars[k].name, fold)
    ensures Overridden(vars, name, fold) ==> Below(v.name, name, fold)
  {
    hide Compare;
    if Overridden(vars, name, fold) {
      OverriddenAbove(v.name, vars, name, fold);
    }
  }

  /** Strings without a name stay. */
  lemma NamelessKept(entries: seq<string>, vars: seq<Var>, fold: char -> char)
    requires Sorted(entries, fold) && Ordered(vars, fold)
    ensures Entries(Merge(entries, vars, fold), "", fold) == Entries(entries, "", fold)
  {
    hide Entries, Merge, Name;
    forall k: nat
      ensures !Overrides(vars, k, "", fold)
    {
      if k < |vars| {
        assert ValidVar(vars[k]);
      }
    }
    MergeLookup(entries, vars, "", fold);
  }

  // ---------------------------------------------------------------- the merge keeps the order

  ghost predicate AllFrom(at: string, entries: seq<string>, fold: char -> char) {
    forall i :: 0 <= i < |entries| ==> Below(at, Name(entries[i]), fold)
  }

  lemma FromJoin(at: string, a: seq<string>, b: seq<string>, fold: char -> char)
    requires AllFrom(at, a, fold) && AllFrom(at, b, fold)
    ensures AllFrom(at, a + b, fold)
  {
    hide Name, Compare;
  }

  lemma FromParts(at: string, entries: seq<string>, i: nat, j: nat, fold: char -> char)
    requires AllFrom(at, entries, fold) && i <= |entries| && j <= |entries|
    ensures AllFrom(at, entries[..i], fold) && AllFrom(at, entries[j..], fold)
  {
    hide Name, Compare;
  }

  lemma FromWritten(at: string, v: Var, fold: char -> char)
    requires ValidVar(v) && Below(at, v.name, fold)
    ensures AllFrom(at, Written(v), fold)
  {
    NameOfOverride(v);
  }

  lemma {:induction false} MergeAbove(entries: seq<string>, vars: seq<Var>, at: string, fold: char -> char)
    requires AllFrom(at, entries, fold)
    requires forall k :: 0 <= k < |vars| ==> ValidVar(vars[k]) && Below(at, vars[k].name, fold)
    ensures AllFrom(at, Merge(entries, vars, fold), fold)
    decreases |vars|
  {
    hide Compare, Written, ValidVar, AllFrom, CountBelow, CountSame;
    if vars != [] {
      var v, vs := vars[0], vars[1..];
      var i := CountBelow(entries, v.name, fold);
      var m := CountSame(entries[i..], v.name, fold);
      FromParts(at, entries, i, i + m, fold);
      MergeAbove(entries[i + m..], vs, at, fold);
      FromWritten(at, v, fold);
      FromJoin(at, entries[..i], Written(v), fold);
      FromJoin(at, entries[..i] + Written(v), Merge(entries[i + m..], vs, fold), fold);
    }
  }

  lemma SortedJoin(a: seq<string>, b: seq<string>, at: string, fold: char -> char)
    requires Sorted(a, fold) && Sorted(b, fold)
    requires forall i :: 0 <= i < |a| ==> Compare(Name(a[i]), at, fold) <= 0
    requires forall j :: 0 <= j < |b| ==> Compare(at, Name(b[j]), fold) <= 0
    ensures Sorted(a + b, fold)
  {
    hide Name, Compare;
    var c := a + b;
    forall i, j | 0 <= i < j < |c|
      ensures Compare(Name(c[i]), Name(c[j]), fold) <= 0
    {
      if i < |a| <= j {
        CompareChain(Name(a[i]), at, Name(b[j - |a|]), fold);
      }
    }
  }

  lemma SortedWritten(low: seq<string>, v: Var, fold: char -> char)
    requires Sorted(low, fold) && ValidVar(v)
    requires forall i :: 0 <= i < |low| ==> Below(Name(low[i]), v.name, fold)
    ensures Sorted(low + Written(v), fold)
    ensures forall i :: 0 <= i < |low + Written(v)| ==> Compare(Name((low + Written(v))[i]), v.name, fold) <= 0
  {
    hide Name, Compare;
    NameOfOverride(v);
    CompareSelf(v.name, fold);
    SortedJoin(low, Written(v), v.name, fold);
  }

  /** The result is sorted by name, so it is a block that can be modified again. */
  lemma {:induction false} MergeSorted(entries: seq<string>, vars: seq<Var>, fold: char -> char)
    requires Sorted(entries, fold) && Ordered(vars, fold)
    ensures Sorted(Merge(entries, vars, fold), fold)
    decreases |vars|
  {
    hide Name, Compare, Written, Sorted, Merge, CountBelow, CountSame, ValidVar;
    if vars == [] {
      MergeNothing(entries, fold);
    } else {
      var v, vs := vars[0], vars[1..];
      var i := CountBelow(entries, v.name, fold);
      var m := CountSame(entries[i..], v.name, fold);
      MergeIs(entries, vars, fold);
      Around(entries, v.name, fold);
      OrderedRest(vars, fold);
      SortedPrefix(entries, i, fold);
      SortedRest(entries, i + m, fold);
      MergeSorted(entries[i + m..], vs, fold);
      MergeAbove(entries[i + m..], vs, v.name, fold);
      SortedWritten(entries[..i], v, fold);
      SortedJoin(entries[..i] + Written(v), Merge(entries[i + m..], vs, fold), v.name, fold);
    }
  }

  lemma SortedPrefix(entries: seq<string>, k: nat, fold: char -> char)
    requires Sorted(entries, fold) && k <= |entries|
    ensures Sorted(entries[..k], fold)
  {
  }

  lemma CountBelowIs(entries: seq<string>, name: string, fold: char -> char, n: nat)
    requires n <= |entries| && (n < |entries| ==> !Below(Name(entries[n]), name, fold))
    requires forall i :: 0 <= i < n ==> Below(Name(entries[i]), name, fold)
    ensures CountBelow(entries, name, fold) == n
  {
  }

  lemma CountSameIs(entries: seq<string>, name: string, fold: char -> char, n: nat)
    requires n <= |entries| && (n < |entries| ==> !Same(Name(entries[n]), name, fold))
    requires forall i :: 0 <= i < n ==> Same(Name(entries[i]), name, fold)
    ensures CountSame(entries, name, fold) == n
  {
  }

  /** Merging stops at the same places in `low`, the override, and what lies above it. */
  lemma CountsAgain(low: seq<string>, v: Var, high: seq<string>, fold: char -> char)
    requires ValidVar(v) && AllFrom(v.name, high, fold)
    requires forall i :: 0 <= i < |low| ==> Below(Name(low[i]), v.name, fold)
    ensures var out := low + Written(v) + high;
            && CountBelow(out, v.name, fold) == |low|
            && CountSame(out[|low|..], v.name, fold) == |Written(v)|
            && out[..|low|] == low && out[|low| + |Written(v)|..] == high
  {
    hide Name, Compare, CountBelow, CountSame;
    var out := low + Written(v) + high;
    NameOfOverride(v);
    CompareSelf(v.name, fold);
    forall i | 0 <= i < |high|
      ensures !Below(Name(high[i]), v.name, fold) && !Same(Name(high[i]), v.name, fold)
    {
      CompareFlip(v.name, Name(high[i]), fold);
    }
    CountBelowIs(out, v.name, fold, |low|);
    assert out[|low|..] == Written(v) + high;
    CountSameIs(out[|low|..], v.name, fold, |Written(v)|);
  }

  /** Applying the same overrides again changes nothing. */
  lemma {:induction false} MergeTwice(entries: seq<string>, vars: seq<Var>, fold: char -> char)
    requires Sorted(entries, fold) && Ordered(vars, fold)
    ensures Merge(Merge(entries, vars, fold), vars, fold) == Merge(entries, vars, fold)
    decreases |vars|
  {
    hide Name, Compare, Written, Sorted, Merge, CountBelow, CountSame, ValidVar;
    if vars == [] {
      MergeNothing(entries, fold);
    } else {
      var v, vs := vars[0], vars[1..];
      var i := CountBelow(entries, v.name, fold);
      var m := CountSame(entries[i..], v.name, fold);
      Around(entries, v.name, fold);
      OrderedRest(vars, fold);
      SortedRest(entries, i + m, fold);
      MergeAbove(entries[i + m..], vs, v.name, fold);
      MergeTwice(entries[i + m..], vs, fold);
      MergeIs(entries, vars, fold);
      MergeIs(Merge(entries, vars, fold), vars, fold);
      CountsAgain(entries[..i], v, Merge(entries[i + m..], vs, fold), fold);
    }
  }

  // ---------------------------------------------------------------- the text of a block

  predicate ValidEntry(entry: string) {
    entry != "" && NUL !in entry
  }

  ghost predicate ValidEntries(entries: seq<string>) {
    forall i :: 0 <= i < |entries| ==> ValidEntry(entries[i])
  }

  /** A merge of valid strings and valid overrides is again a list of valid strings. */
  lemma {:induction false} MergeValid(entries: seq<string>, vars: seq<Var>, fold: char -> char)
    requires ValidEntries(entries) && forall i :: 0 <= i < |vars| ==> ValidVar(vars[i])
    ensures ValidEntries(Merge(entries, vars, fold))
    decreases |vars|
  {
    hide Merge, CountBelow, CountSame, ValidEntry;
    if vars == [] {
      MergeNothing(entries, fold);
    } else {
      var i := CountBelow(entries, vars[0].name, fold);
      var m := CountSame(entries[i..], vars[0].name, fold);
      MergeIs(entries, vars, fold);
      MergeValid(entries[i + m..], vars[1..], fold);
      WrittenValid(vars[0]);
      hide ValidVar, Written;
    }
  }

  lemma WrittenValid(v: Var)
    requires ValidVar(v)
    ensures ValidEntries(Written(v))
  {
  }

  function Encode(entries: seq<string>): seq<char> {
    if entries == [] then [] else entries[0] + [NUL] + Encode(entries[1..])
  }

  function Text(entries: seq<string>): seq<char> {
    Encode(entries) + [NUL]
  }

  lemma EncodeCons(e: string, rest: seq<string>)
    ensures Encode([e] + rest) == e + [NUL] + Encode(rest)
  {
    assert ([e] + rest)[1..] == rest;
  }

  lemma {:induction false} EncodeAppend(a: seq<string>, b: seq<string>)
    ensures Encode(a + b) == Encode(a) + Encode(b)
  {
    if a == [] {
      assert a + b == b;
    } else {
      EncodeAppend(a[1..], b);
      assert a + b == [a[0]] + (a[1..] + b);
      EncodeCons(a[0], a[1..] + b);
      Associate(a[0] + [NUL], Encode(a[1..]), Encode(b));
    }
  }

  /** The room that is made for the overrides. */
  function Increase(vars: seq<Var>): nat {
    if vars == [] then 0
    else (if vars[0].value == "" then 0 else |vars[0].name| + 1 + |vars[0].value| + 1) + Increase(vars[1..])
  }

  lemma EncodeWritten(v: Var)
    ensures Encode(Written(v)) == if v.value == "" then [] else v.name + "=" + v.value + [NUL]
  {
    if v.value != "" {
      assert Written(v)[1..] == [];
    }
  }

  /** The result fits into the room made for it. */
  lemma {:induction false} MergeFits(entries: seq<string>, vars: seq<Var>, fold: char -> char)
    ensures |Encode(Merge(entries, vars, fold))| <= |Encode(entries)| + Increase(vars)
    decreases |vars|
  {
    hide Encode, CountBelow, CountSame, Merge, Written;
    if vars == [] {
      MergeNothing(entries, fold);
    } else {
      var v, vs := vars[0], vars[1..];
      var i := CountBelow(entries, v.name, fold);
      var m := CountSame(entries[i..], v.name, fold);
      MergeFits(entries[i + m..], vs, fold);
      MergeIs(entries, vars, fold);
      EncodeWritten(v);
      EncodeAppend(entries[..i] + Written(v), Merge(entries[i + m..], vs, fold));
      EncodeAppend(entries[..i], Written(v));
      EncodeSplit(entries, i, i + m);
    }
  }

  lemma EncodeSplit(entries: seq<string>, i: nat, j: nat)
    requires i <= j <= |entries|
    ensures |Encode(entries)| == |Encode(entries[..i])| + |Encode(entries[i..j])| + |Encode(entries[j..])|
  {
    hide Encode;
    SplitThree(entries, i, j);
    EncodeAppend(entries[..i] + entries[i..j], entries[j..]);
    EncodeAppend(entries[..i], entries[i..j]);
  }

  // ---------------------------------------------------------------- an example

  lemma ExampleNames(fold: char -> char)
    ensures Name("A=1") == "A" && Name("C=3") == "C"
  {
    NameAt("A=1", 1);
    NameAt("C=3", 1);
    assert "A=1"[..1] == "A" && "C=3"[..1] == "C";
  }

  /** A new variable goes between its neighbours. */
  lemma SetExample(fold: char -> char)
    requires fold('A') < fold('B') < fold('C')
    ensures Merge(["A=1", "C=3"], [Var("B", "2")], fold) == ["A=1", "B=2", "C=3"]
  {
    ExampleNames(fold);
    OneCharacter('A', 'B', fold);
    OneCharacter('C', 'B', fold);
    hide Name, Compare, Merge;
    var entries := ["A=1", "C=3"];
    assert entries[1..] == ["C=3"] && entries[..1] == ["A=1"];
    assert CountBelow(entries[1..], "B", fold) == 0;
    MergeOne(entries, Var("B", "2"), 1, 0, fold);
    assert "B" + "=" + "2" == "B=2";
  }

  /** One without a value takes its name out, whatever the case of its letters. */
  lemma UnsetExample(fold: char -> char)
    requires fold('A') < fold('C') && fold('a') == fold('A')
    ensures Merge(["A=1", "C=3"], [Var("a", "")], fold) == ["C=3"]
  {
    ExampleNames(fold);
    OneCharacter('A', 'a', fold);
    OneCharacter('C', 'a', fold);
    hide Name, Compare, Merge;
    var entries := ["A=1", "C=3"];
    assert entries[1..] == ["C=3"] && entries[0..] == entries && entries[..0] == [];
    assert CountSame(entries[1..], "a", fold) == 0;
    MergeOne(entries, Var("a", ""), 0, 1, fold);
  }

  /** Each string ends with a zero, and so does the block. */
  lemma TextExample()
    ensures Text(["A=1", "C=3"]) == "A=1\0C=3\0\0" && Text([]) == "\0"
  {
    assert ["A=1", "C=3"][1..] == ["C=3"] && ["C=3"][1..] == [];
    assert Encode(["C=3"]) == "C=3\0";
  }

  lemma NameAt(entry: string, i: nat)
    requires i < |entry| && entry[i] == '=' && forall j :: 0 <= j < i ==> entry[j] != '='
    ensures Name(entry) == entry[..i]
  {
  }

  lemma OneCharacter(a: char, b: char, fold: char -> char)
    ensures Compare([a], [b], fold) == fold(a) as int - fold(b) as int
  {
    assert [a][1..] == "" && [b][1..] == "";
  }

  lemma MergeOne(entries: seq<string>, v: Var, i: nat, m: nat, fold: char -> char)
    requires i + m <= |entries| && i == CountBelow(entries, v.name, fold) && m == CountSame(entries[i..], v.name, fold)
    ensures Merge(entries, [v], fold) == entries[..i] + Written(v) + entries[i + m..]
  {
    assert [v][1..] == [];
    MergeNothing(entries[i + m..], fold);
  }
}
