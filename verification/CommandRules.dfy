/**
 Matching a command line against a rule: required and optional switches with argument counts, decided by counting
 switches rather than by looking at each of them.
 */
module CommandRules {

  datatype Param = Param(name: string, count: nat)

  datatype Rule = Rule(required: seq<Param>, optional: seq<Param>)

  /** The switches of a command line and how many arguments each has. */
  type Switches = map<string, nat>

  predicate Has(s: Switches, p: Param) {
    p.name in s && s[p.name] == p.count
  }

  ghost predicate RequiredPresent(s: Switches, required: seq<Param>) {
    forall i :: 0 <= i < |required| ==> Has(s, required[i])
  }

  function Names(params: seq<Param>): set<string> {
    set i | 0 <= i < |params| :: params[i].name
  }

  // ---------------------------------------------------------------- what a rule means

  ghost predicate Allowed(s: Switches, name: string, optional: seq<Param>)
    requires name in s
  {
    exists i :: 0 <= i < |optional| && optional[i] == Param(name, s[name])
  }

  /** All required switches are there, and every other switch is optional, each with the right number of arguments. */
  ghost predicate Accepts(s: Switches, rule: Rule) {
    && RequiredPresent(s, rule.required)
    && forall name :: name in s && name !in Names(rule.required) ==> Allowed(s, name, rule.optional)
  }

  // ---------------------------------------------------------------- what the code decides

  /** The loop over the optional parameters, with `left` switches not accounted for. */
  predicate Scan(s: Switches, optional: seq<Param>, left: nat) {
    if left == 0 then true
    else if optional == [] then false
    else if optional[0].name !in s then Scan(s, optional[1..], left)
    else Has(s, optional[0]) && Scan(s, optional[1..], left - 1)
  }

  ghost predicate Matches(s: Switches, rule: Rule) {
    && |rule.required| <= |s| <= |rule.required| + |rule.optional|
    && RequiredPresent(s, rule.required)
    && Scan(s, rule.optional, |s| - |rule.required|)
  }

  // ---------------------------------------------------------------- when the two agree

  predicate Distinct(params: seq<Param>) {
    forall i, j :: 0 <= i < j < |params| ==> params[i].name != params[j].name
  }

  /** No command line can have all these switches: one of them is listed with two counts. */
  predicate Conflicting(params: seq<Param>) {
    exists i, j :: 0 <= i < j < |params| && params[i].name == params[j].name && params[i].count != params[j].count
  }

  /** How many optional parameters come before the first that is also required. */
  function Free(rule: Rule): (t: nat)
    ensures t <= |rule.optional|
    ensures forall i :: 0 <= i < t ==> rule.optional[i].name !in Names(rule.required)
    ensures t < |rule.optional| ==> rule.optional[t].name in Names(rule.required)
  {
    FreeFrom(rule.optional, Names(rule.required))
  }

  function FreeFrom(optional: seq<Param>, taken: set<string>): (t: nat)
    ensures t <= |optional|
    ensures forall i :: 0 <= i < t ==> optional[i].name !in taken
    ensures t < |optional| ==> optional[t].name in taken
  {
    if optional == [] || optional[0].name in taken then 0 else 1 + FreeFrom(optional[1..], taken)
  }

  /**
   The rules that counting decides correctly.  An optional parameter that repeats a required one must contradict it,
   and nothing behind it may matter.
   */
  predicate Exact(rule: Rule) {
    var t := Free(rule);
    || Conflicting(rule.required)
    || (&& Distinct(rule.required) && Distinct(rule.optional[..t])
        && (t < |rule.optional| ==> rule.optional[t] !in rule.required)
        && forall i :: t < i < |rule.optional| ==>
                         rule.optional[i].name in Names(rule.required) || rule.optional[i] in rule.optional[..t])
  }

  // ---------------------------------------------------------------- counting names

  lemma {:induction false} NamesSize(params: seq<Param>)
    ensures |Names(params)| <= |params|
    ensures |Names(params)| == |params| <==> Distinct(params)
  {
    if params == [] {
      assert Names(params) == {};
    } else {
      var n := |params| - 1;
      var init := params[..n];
      NamesSize(init);
      assert Names(params) == Names(init) + {params[n].name} by {
        assert params == init + [params[n]];
        assert forall i :: 0 <= i < n ==> params[i] == init[i];
      }
      if params[n].name in Names(init) {
        assert Names(params) == Names(init);
        var i :| 0 <= i < |init| && init[i].name == params[n].name;
        assert params[i].name == params[n].name;
      } else {
        DistinctStep(params);
      }
    }
  }

  lemma DistinctStep(params: seq<Param>)
    requires params != [] && params[|params| - 1].name !in Names(params[..|params| - 1])
    ensures Distinct(params) <==> Distinct(params[..|params| - 1])
  {
    var n := |params| - 1;
    var init := params[..n];
    assert forall i :: 0 <= i < n ==> params[i] == init[i] && init[i].name in Names(init);
  }

  lemma SubsetSize<T>(a: set<T>, b: set<T>)
    requires a <= b
    ensures |a| <= |b| && |b - a| == |b| - |a|
  {
    assert b == a + (b - a);
  }

  // ---------------------------------------------------------------- the scan accounts for the extra switches

  /** Every switch in `extras` is one of the parameters, with the right count. */
  ghost predicate Covered(s: Switches, extras: set<string>, params: seq<Param>) {
    forall name :: name in extras ==> name in s && Param(name, s[name]) in params
  }

  lemma {:induction false} ScanExact(s: Switches, pre: seq<Param>, post: seq<Param>, extras: set<string>)
    requires extras <= s.Keys && Distinct(pre)
    requires forall i :: 0 <= i < |pre| ==> (pre[i].name in s <==> pre[i].name in extras)
    requires post != [] ==> post[0].name in s && !Has(s, post[0])
    ensures Scan(s, pre + post, |extras|) <==> Covered(s, extras, pre)
    decreases |pre|
  {
    hide Covered, Has;
    if extras == {} {
      NothingToCover(s, pre);
    } else if pre == [] {
      NothingCovers(s, extras);
      assert pre + post == post;
    } else {
      var p, rest := pre[0], pre[1..];
      assert pre == [p] + rest;
      assert (pre + post)[1..] == rest + post;
      CoveredStep(s, extras, p, rest);
      if p.name !in s {
        ScanExact(s, rest, post, extras);
        assert extras - {p.name} == extras;
      } else if Has(s, p) {
        ScanExact(s, rest, post, extras - {p.name});
      } else {
        NotCovered(s, extras, pre);
      }
    }
  }

  lemma NothingToCover(s: Switches, params: seq<Param>)
    ensures Covered(s, {}, params)
  {
  }

  lemma NothingCovers(s: Switches, extras: set<string>)
    requires extras != {}
    ensures !Covered(s, extras, []) && |extras| > 0
  {
    var e :| e in extras;
  }

  lemma CoveredStep(s: Switches, extras: set<string>, p: Param, rest: seq<Param>)
    ensures p.name !in extras || Has(s, p) ==>
              (Covered(s, extras, [p] + rest) <==> Covered(s, extras - {p.name}, rest))
  {
  }

  lemma NotCovered(s: Switches, extras: set<string>, pre: seq<Param>)
    requires pre != [] && Distinct(pre) && pre[0].name in extras && !Has(s, pre[0])
    ensures !Covered(s, extras, pre)
  {
  }

  lemma PresentNames(s: Switches, required: seq<Param>)
    requires RequiredPresent(s, required)
    ensures Names(required) <= s.Keys
    ensures forall p: Param :: p.name in Names(required) ==> (Has(s, p) <==> p in required)
  {
    forall p: Param | p.name in Names(required)
      ensures p.name in s && (Has(s, p) <==> p in required)
    {
      var i :| 0 <= i < |required| && required[i].name == p.name;
      assert Has(s, required[i]);
    }
  }

  /** The switches besides the required ones, and the parameters that may allow them. */
  lemma ExtrasAllowed(s: Switches, rule: Rule)
    requires Exact(rule) && !Conflicting(rule.required)
    ensures var extras, pre := s.Keys - Names(rule.required), rule.optional[..Free(rule)];
            (forall name :: name in extras ==> Allowed(s, name, rule.optional)) <==> Covered(s, extras, pre)
  {
    var extras, pre := s.Keys - Names(rule.required), rule.optional[..Free(rule)];
    forall name | name in extras
      ensures Allowed(s, name, rule.optional) <==> Param(name, s[name]) in pre
    {
      var p := Param(name, s[name]);
      if Allowed(s, name, rule.optional) {
        var i :| 0 <= i < |rule.optional| && rule.optional[i] == p;
        assert p.name !in Names(rule.required);
      }
      if p in pre {
        var i :| 0 <= i < |pre| && pre[i] == p;
        assert rule.optional[i] == p;
      }
    }
  }

  lemma CoveredSize(s: Switches, extras: set<string>, params: seq<Param>)
    requires Covered(s, extras, params)
    ensures |extras| <= |params|
  {
    assert extras <= Names(params) by {
      forall name | name in extras
        ensures name in Names(params)
      {
        var i :| 0 <= i < |params| && params[i] == Param(name, s[name]);
      }
    }
    SubsetSize(extras, Names(params));
    NamesSize(params);
  }

  /** For an exact rule, counting decides what the rule means. */
  lemma MatchesExact(s: Switches, rule: Rule)
    requires Exact(rule)
    ensures Matches(s, rule) <==> Accepts(s, rule)
  {
    hide Scan, Exact, Names, Covered, Allowed, Has, Free, Distinct;
    if RequiredPresent(s, rule.required) {
      NotConflicting(s, rule.required);
      var names, t := Names(rule.required), Free(rule);
      var extras, pre, post := s.Keys - names, rule.optional[..t], rule.optional[t..];
      ExactParts(rule);
      PresentNames(s, rule.required);
      NamesSize(rule.required);
      SubsetSize(names, s.Keys);
      ExtrasAllowed(s, rule);
      assert rule.optional == pre + post;
      assert |extras| == |s| - |rule.required|;
      ScanExact(s, pre, post, extras);
      if Covered(s, extras, pre) {
        CoveredSize(s, extras, pre);
      }
    }
  }

  lemma NotConflicting(s: Switches, required: seq<Param>)
    requires RequiredPresent(s, required)
    ensures !Conflicting(required)
  {
    forall i, j | 0 <= i < j < |required| && required[i].name == required[j].name
      ensures required[i].count == required[j].count
    {
      assert Has(s, required[i]) && Has(s, required[j]);
    }
  }

  lemma ExactParts(rule: Rule)
    requires Exact(rule) && !Conflicting(rule.required)
    ensures Distinct(rule.required) && Distinct(rule.optional[..Free(rule)])
    ensures Free(rule) < |rule.optional| ==> rule.optional[Free(rule)] !in rule.required
  {
  }

  // ---------------------------------------------------------------- every other rule is decided wrongly somewhere

  /** The command line that has just these switches. */
  function Table(params: seq<Param>): Switches {
    if params == [] then map[]
    else Table(params[..|params| - 1])[params[|params| - 1].name := params[|params| - 1].count]
  }

  lemma {:induction false} TableFacts(params: seq<Param>)
    ensures Table(params).Keys == Names(params)
    ensures !Conflicting(params) ==> RequiredPresent(Table(params), params)
  {
    if params != [] {
      var n := |params| - 1;
      var init := params[..n];
      TableFacts(init);
      assert forall i :: 0 <= i < n ==> params[i] == init[i];
      assert Names(params) == Names(init) + {params[n].name};
      if !Conflicting(params) {
        assert !Conflicting(init);
        forall i | 0 <= i < |params|
          ensures Has(Table(params), params[i])
        {
          if i < n {
            assert Has(Table(init), init[i]);
          }
        }
      }
    }
  }

  /** A name of a given character only that is not in use. */
  lemma FreshName(names: set<string>, c: char) returns (x: string)
    ensures x != "" && x !in names && (forall i :: 0 <= i < |x| ==> x[i] == c) && forall n :: n in names ==> |n| < |x|
    decreases |names|
  {
    if names == {} {
      x := [c];
    } else {
      var y :| y in names;
      var z := FreshName(names - {y}, c);
      x := z + seq(|y|, _ => c);
    }
  }

  function AllNames(rule: Rule): set<string> {
    Names(rule.required) + Names(rule.optional)
  }

  /** Parameters that are not on the command line are passed over. */
  lemma {:induction false} ScanSkips(s: Switches, params: seq<Param>, k: nat, left: nat)
    requires k <= |params| && left > 0 && forall i :: 0 <= i < k ==> params[i].name !in s
    ensures Scan(s, params, left) == Scan(s, params[k..], left)
  {
    if k > 0 {
      ScanSkips(s, params[1..], k - 1, left);
      assert params[1..][k - 1..] == params[k..];
    } else {
      assert params[0..] == params;
    }
  }

  lemma ScanAt(s: Switches, params: seq<Param>, k: nat, left: nat)
    requires k < |params| && left > 0 && params[k].name in s && forall i :: 0 <= i < k ==> params[i].name !in s
    ensures Scan(s, params, left) <==> Has(s, params[k]) && Scan(s, params[k + 1..], left - 1)
  {
    ScanSkips(s, params, k, left);
    assert params[k..][1..] == params[k + 1..];
  }

  lemma {:induction false} FirstRepeat(params: seq<Param>) returns (i: nat, j: nat)
    requires !Distinct(params)
    ensures i < j < |params| && params[i].name == params[j].name && Distinct(params[..j])
  {
    var n := |params| - 1;
    var init := params[..n];
    if Distinct(init) {
      var a, b :| 0 <= a < b < |params| && params[a].name == params[b].name;
      assert forall k :: 0 <= k < n ==> init[k] == params[k];
      i, j := a, b;
    } else {
      i, j := FirstRepeat(init);
      assert params[..j] == init[..j];
    }
  }

  /** One more switch besides the required ones. */
  lemma OneMore(rule: Rule, name: string, count: nat) returns (s: Switches)
    requires Distinct(rule.required) && !Conflicting(rule.required) && name !in Names(rule.required)
    ensures s == Table(rule.required)[name := count] && s.Keys == Names(rule.required) + {name}
    ensures RequiredPresent(s, rule.required) && |s| == |rule.required| + 1
    ensures Accepts(s, rule) <==> Param(name, count) in rule.optional
  {
    TableFacts(rule.required);
    NamesSize(rule.required);
    var base := Table(rule.required);
    s := base[name := count];
    forall i | 0 <= i < |rule.required|
      ensures Has(s, rule.required[i])
    {
      assert Has(base, rule.required[i]) && rule.required[i].name in Names(rule.required);
    }
    assert s.Keys == base.Keys + {name};
    assert |s| == |s.Keys|;
    if Param(name, count) in rule.optional {
      var i :| 0 <= i < |rule.optional| && rule.optional[i] == Param(name, count);
      assert Allowed(s, name, rule.optional);
    }
    if Accepts(s, rule) {
      assert Allowed(s, name, rule.optional);
    }
  }

  /** The two uses of a repeated optional switch. */
  lemma RepeatedOptional(rule: Rule, x: string) returns (s: Switches)
    requires Distinct(rule.required) && !Conflicting(rule.required) && !Distinct(rule.optional[..Free(rule)])
    requires x !in AllNames(rule)
    ensures s.Keys <= AllNames(rule) + {x}
    ensures Matches(s, rule) <==> !Accepts(s, rule)
  {
    hide Scan, Accepts, Free;
    var opt, t := rule.optional, Free(rule);
    var i, j := FirstRepeat(opt[..t]);
    var p, q := opt[i], opt[j];
    assert opt[..t][..j] == opt[..j];
    OnlyOne(opt, j, i);
    FreeNames(rule, i);
    assert p.name in Names(opt);
    if p.count != q.count {
      s := OneMore(rule, p.name, q.count);
      forall k | 0 <= k < i
        ensures opt[k].name !in s
      {
        FreeNames(rule, k);
      }
      hide Names, Distinct, Conflicting;
      ScanAt(s, opt, i, 1);
    } else {
      s := TwoUnknown(rule, i, j, x);
    }
  }

  lemma TwoUnknown(rule: Rule, i: nat, j: nat, x: string) returns (s: Switches)
    requires Distinct(rule.required) && !Conflicting(rule.required) && i < j < Free(rule)
    requires rule.optional[i] == rule.optional[j] && Distinct(rule.optional[..j]) && x !in AllNames(rule)
    ensures s.Keys <= AllNames(rule) + {x}
    ensures Matches(s, rule) && !Accepts(s, rule)
  {
    hide Scan, Free, Distinct, Conflicting, Allowed;
    var opt := rule.optional;
    OnlyOne(opt, j, i);
    assert opt[i].name !in Names(rule.required) by {
      FreeNames(rule, i);
    }
    var one := OneMore(rule, opt[i].name, opt[i].count);
    s := one[x := 0];
    AddUnknown(one, x, rule);
    forall k | 0 <= k < j && k != i
      ensures opt[k].name !in s
    {
      FreeNames(rule, k);
      assert opt[k].name in Names(opt);
    }
    assert opt[i].name in Names(opt);
    hide Names;
    ScanTwice(s, opt, i, j);
    NotAllowed(s, x, opt);
  }

  lemma FreeNames(rule: Rule, k: nat)
    requires k < Free(rule)
    ensures k < |rule.optional| && rule.optional[k].name !in Names(rule.required)
  {
  }

  lemma OnlyOne(params: seq<Param>, j: nat, i: nat)
    requires i < j <= |params| && Distinct(params[..j])
    ensures forall k :: 0 <= k < j && k != i ==> params[k].name != params[i].name
  {
    var front := params[..j];
    assert forall k :: 0 <= k < j ==> front[k] == params[k];
  }

  lemma ScanTwice(s: Switches, params: seq<Param>, i: nat, j: nat)
    requires i < j < |params| && params[i] == params[j] && Has(s, params[i])
    requires forall k :: 0 <= k < j && k != i ==> params[k].name !in s
    ensures Scan(s, params, 2)
  {
    hide Scan;
    ScanAt(s, params, i, 2);
    var rest := params[i + 1..];
    assert forall k :: 0 <= k < j - i - 1 ==> rest[k] == params[i + 1 + k];
    ScanAt(s, rest, j - i - 1, 1);
    ScanDone(s, rest[j - i..]);
  }

  lemma AddUnknown(s: Switches, x: string, rule: Rule)
    requires RequiredPresent(s, rule.required) && x !in s && x !in Names(rule.required)
    ensures RequiredPresent(s[x := 0], rule.required) && |s[x := 0]| == |s| + 1
  {
    var t := s[x := 0];
    assert t.Keys == s.Keys + {x};
    assert |t| == |t.Keys| && |s| == |s.Keys|;
    forall k | 0 <= k < |rule.required|
      ensures Has(t, rule.required[k])
    {
      assert Has(s, rule.required[k]) && rule.required[k].name in Names(rule.required);
    }
  }

  lemma ScanDone(s: Switches, params: seq<Param>)
    ensures Scan(s, params, 0)
  {
  }

  lemma NotAllowed(s: Switches, name: string, optional: seq<Param>)
    requires name in s && name !in Names(optional)
    ensures !Allowed(s, name, optional)
  {
    assert forall i :: 0 <= i < |optional| ==> optional[i].name in Names(optional);
  }

  lemma UnknownParam(rule: Rule, x: string)
    requires x !in AllNames(rule)
    ensures x !in Names(rule.required) && Param(x, 0) !in rule.optional
  {
    assert forall k :: 0 <= k < |rule.optional| ==> rule.optional[k].name in Names(rule.optional);
  }

  /** With one unknown switch, the scan passes to the first optional parameter that is also required, and stops there. */
  lemma ScanStops(s: Switches, rule: Rule, x: string)
    requires Free(rule) < |rule.optional| && rule.optional[Free(rule)] in rule.required && x !in AllNames(rule)
    requires s.Keys == Names(rule.required) + {x} && RequiredPresent(s, rule.required)
    ensures Scan(s, rule.optional, 1)
  {
    hide Scan, Free;
    var opt, t := rule.optional, Free(rule);
    var i :| 0 <= i < |rule.required| && rule.required[i] == opt[t];
    assert Has(s, opt[t]);
    forall k | 0 <= k < t
      ensures opt[k].name !in s
    {
      FreeNames(rule, k);
      assert opt[k].name in Names(opt);
    }
    hide Names, RequiredPresent;
    ScanAt(s, opt, t, 1);
    ScanDone(s, opt[t + 1..]);
  }

  /** An optional parameter that repeats a required one lets an unknown switch through. */
  lemma RepeatedRequired(rule: Rule, x: string) returns (s: Switches)
    requires Distinct(rule.required) && !Conflicting(rule.required)
    requires Free(rule) < |rule.optional| && rule.optional[Free(rule)] in rule.required && x !in AllNames(rule)
    ensures s.Keys <= AllNames(rule) + {x}
    ensures Matches(s, rule) && !Accepts(s, rule)
  {
    hide Scan, Free, Distinct, Conflicting, Accepts, Names, RequiredPresent;
    UnknownParam(rule, x);
    s := OneMore(rule, x, 0);
    ScanStops(s, rule, x);
  }

  /** An optional switch behind one that contradicts a required one is never accepted. */
  lemma Shadowed(rule: Rule, i: nat) returns (s: Switches)
    requires Distinct(rule.required) && !Conflicting(rule.required)
    requires Free(rule) < i < |rule.optional| && rule.optional[Free(rule)] !in rule.required
    requires rule.optional[i].name !in Names(rule.required) && rule.optional[i] !in rule.optional[..Free(rule)]
    ensures s.Keys <= AllNames(rule)
    ensures !Matches(s, rule) && Accepts(s, rule)
  {
    hide Scan, Free, Distinct, Conflicting, Allowed;
    var opt, t, p := rule.optional, Free(rule), rule.optional[i];
    assert p.name in Names(opt);
    s := OneMore(rule, p.name, p.count);
    PresentNames(s, rule.required);
    var k := FirstNamed(opt, t, p.name);
    forall j | 0 <= j < k
      ensures opt[j].name !in s
    {
      FreeNames(rule, j);
    }
    if k < t {
      assert opt[k] == opt[..t][k];
    }
    ScanAt(s, opt, k, 1);
  }

  lemma FirstNamed(params: seq<Param>, t: nat, name: string) returns (k: nat)
    requires t <= |params|
    ensures k <= t && (k < t ==> params[k].name == name) && forall j :: 0 <= j < k ==> params[j].name != name
  {
    k := 0;
    while k < t && params[k].name != name
      invariant k <= t && forall j :: 0 <= j < k ==> params[j].name != name
    {
      k := k + 1;
    }
  }

  /** A rule that is not exact is decided wrongly for some command line of its own switches and one unknown switch. */
  lemma Counterexample(rule: Rule, x: string) returns (s: Switches)
    requires !Exact(rule) && x !in AllNames(rule)
    ensures s.Keys <= AllNames(rule) + {x}
    ensures Matches(s, rule) <==> !Accepts(s, rule)
  {
    hide Scan, Accepts, Matches, Free, Distinct, Conflicting;
    if !Distinct(rule.required) {
      s := RepeatedName(rule);
    } else if !Distinct(rule.optional[..Free(rule)]) {
      s := RepeatedOptional(rule, x);
    } else if Free(rule) < |rule.optional| && rule.optional[Free(rule)] in rule.required {
      s := RepeatedRequired(rule, x);
    } else {
      var i :| Free(rule) < i < |rule.optional| && rule.optional[i].name !in Names(rule.required)
               && rule.optional[i] !in rule.optional[..Free(rule)];
      s := Shadowed(rule, i);
    }
  }

  lemma RepeatedName(rule: Rule) returns (s: Switches)
    requires !Distinct(rule.required) && !Conflicting(rule.required)
    ensures s.Keys == Names(rule.required)
    ensures !Matches(s, rule) && Accepts(s, rule)
  {
    s := Table(rule.required);
    TableFacts(rule.required);
    NamesSize(rule.required);
    assert |s| == |s.Keys|;
  }

  /** Counting decides a rule correctly for every command line if and only if the rule is exact. */
  lemma MatchesIff(rule: Rule)
    ensures Exact(rule) <==> forall s :: Matches(s, rule) <==> Accepts(s, rule)
  {
    hide Matches, Accepts, Exact;
    if Exact(rule) {
      forall s
        ensures Matches(s, rule) <==> Accepts(s, rule)
      {
        MatchesExact(s, rule);
      }
    } else {
      var x := FreshName(AllNames(rule), 'a');
      var s := Counterexample(rule, x);
    }
  }

  /** In particular when no name is listed twice. */
  lemma DisjointExact(rule: Rule)
    requires Distinct(rule.required) && Distinct(rule.optional) && Names(rule.required) !! Names(rule.optional)
    ensures Exact(rule)
  {
    var t := Free(rule);
    assert forall k :: 0 <= k < |rule.optional| ==> rule.optional[k].name in Names(rule.optional);
    assert rule.optional[..t] == rule.optional;
  }
}
