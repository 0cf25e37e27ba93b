/** Parsing a command line, or a rule for command lines, into switches with arguments. */
module CommandLine {
  import opened OrderedMap
  import opened CommandRules
  import opened Wrappers

  // ---------------------------------------------------------------- tokens

  datatype Token = Required(name: string) | Optional(name: string) | Argument(text: string)

  function Lower(s: string, fold: char -> char): (r: string)
    ensures |r| == |s|
  {
    seq(|s|, i requires 0 <= i < |s| => fold(s[i]))
  }

  function TrimLeft(s: string): string {
    if s != "" && s[0] == ' ' then TrimLeft(s[1..]) else s
  }

  function TrimRight(s: string): string {
    if s != "" && s[|s| - 1] == ' ' then TrimRight(s[..|s| - 1]) else s
  }

  function Trim(s: string): string {
    TrimRight(TrimLeft(s))
  }

  predicate PartAt(s: string, i: nat, part: string) {
    i + |part| <= |s| && s[i..i + |part|] == part
  }

  predicate Contains(s: string, part: string) {
    exists i: nat :: i <= |s| && PartAt(s, i, part)
  }

  predicate IsSwitch(s: string) {
    |s| >= 2 && (s[0] == '/' || s[0] == '-') && !Contains(s, " ") && !Contains(s, "%20")
  }

  predicate IsOptionalSwitch(s: string) {
    s != "" && s[0] == '[' && IsSwitch(s[1..])
  }

  function SwitchName(s: string, fold: char -> char): string
    requires IsSwitch(s)
  {
    Lower(Trim(s[1..]), fold)
  }

  function Classify(arg: string, fold: char -> char): Token {
    var s := Trim(arg);
    if IsSwitch(s) then Required(SwitchName(s, fold))
    else if IsOptionalSwitch(s) then Optional(SwitchName(s[1..], fold))
    else Argument(s)
  }

  // ---------------------------------------------------------------- which texts are switches

  function Spaces(n: nat): (r: string)
    ensures |r| == n && forall i :: 0 <= i < n ==> r[i] == ' '
  {
    seq(n, _ => ' ')
  }

  predicate NoOuterSpace(s: string) {
    s != "" ==> s[0] != ' ' && s[|s| - 1] != ' '
  }

  lemma {:induction false} TrimLeftIs(n: nat, s: string)
    requires s != "" ==> s[0] != ' '
    ensures TrimLeft(Spaces(n) + s) == s
  {
    if n == 0 {
      assert Spaces(n) + s == s;
    } else {
      TrimLeftIs(n - 1, s);
      assert (Spaces(n) + s)[1..] == Spaces(n - 1) + s;
    }
  }

  lemma {:induction false} TrimRightIs(s: string, n: nat)
    requires s != "" ==> s[|s| - 1] != ' '
    ensures TrimRight(s + Spaces(n)) == s
  {
    if n == 0 {
      assert s + Spaces(n) == s;
    } else {
      TrimRightIs(s, n - 1);
      assert (s + Spaces(n))[..|s| + n - 1] == s + Spaces(n - 1);
    }
  }

  /** Trimming takes away the outer spaces and nothing else. */
  lemma TrimIs(before: nat, s: string, after: nat)
    requires NoOuterSpace(s)
    ensures Trim(Spaces(before) + s + Spaces(after)) == s
  {
    hide TrimLeft, TrimRight;
    if s == "" {
      assert Spaces(before) + s + Spaces(after) == Spaces(before + after) + "";
      TrimLeftIs(before + after, "");
      TrimRightIs("", 0);
      assert "" + Spaces(0) == "";
    } else {
      assert Spaces(before) + s + Spaces(after) == Spaces(before) + (s + Spaces(after));
      TrimLeftIs(before, s + Spaces(after));
      TrimRightIs(s, after);
    }
  }

  predicate EncodedSpaceAt(s: string, i: nat) {
    i + 2 < |s| && s[i] == '%' && s[i + 1] == '2' && s[i + 2] == '0'
  }

  /** A slash or a dash, and at least one more character; no space, plain or encoded. */
  predicate LooksLikeSwitch(s: string) {
    && |s| >= 2 && (s[0] == '/' || s[0] == '-') && ' ' !in s
    && forall i: nat :: i < |s| ==> !EncodedSpaceAt(s, i)
  }

  lemma IsSwitchIs(s: string)
    ensures IsSwitch(s) <==> LooksLikeSwitch(s)
  {
    forall i: nat | i < |s|
      ensures PartAt(s, i, " ") <==> s[i] == ' '
      ensures PartAt(s, i, "%20") <==> EncodedSpaceAt(s, i)
    {
      assert s[i..i + 1] == [s[i]];
      if i + 2 < |s| {
        assert s[i..i + 3] == [s[i], s[i + 1], s[i + 2]];
      }
    }
  }

  /**
   What an argument is, whatever spaces surround it: a required switch, an optional one behind an opening bracket, or an
   argument as it stands.
   */
  lemma ClassifyIs(before: nat, s: string, after: nat, fold: char -> char)
    requires NoOuterSpace(s)
    ensures Classify(Spaces(before) + s + Spaces(after), fold) ==
            if LooksLikeSwitch(s) then Required(Lower(s[1..], fold))
            else if s != "" && s[0] == '[' && LooksLikeSwitch(s[1..]) then Optional(Lower(s[2..], fold))
            else Argument(s)
  {
    TrimIs(before, s, after);
    IsSwitchIs(s);
    if LooksLikeSwitch(s) {
      NamePart(s);
    } else if s != "" {
      IsSwitchIs(s[1..]);
      if LooksLikeSwitch(s[1..]) {
        NamePart(s[1..]);
        assert s[1..][1..] == s[2..];
      }
    }
    hide Trim, IsSwitch, LooksLikeSwitch;
  }

  lemma NamePart(s: string)
    requires LooksLikeSwitch(s)
    ensures Trim(s[1..]) == s[1..]
  {
    assert forall i :: 0 <= i < |s[1..]| ==> s[1..][i] == s[i + 1] && s[i + 1] in s;
    TrimNothing(s[1..]);
  }

  /** Every argument is such a text between spaces. */
  lemma OuterSpaces(arg: string) returns (before: nat, s: string, after: nat)
    ensures arg == Spaces(before) + s + Spaces(after) && NoOuterSpace(s)
  {
    before, s, after := 0, arg, 0;
    while s != "" && s[0] == ' '
      invariant arg == Spaces(before) + s + Spaces(after) && after == 0
      decreases |s|
    {
      assert Spaces(before) + s == Spaces(before + 1) + s[1..];
      before, s := before + 1, s[1..];
    }
    while s != "" && s[|s| - 1] == ' '
      invariant arg == Spaces(before) + s + Spaces(after) && (s != "" ==> s[0] != ' ')
      decreases |s|
    {
      var n := |s| - 1;
      assert s + Spaces(after) == s[..n] + Spaces(after + 1);
      assert Spaces(before) + (s + Spaces(after)) == Spaces(before) + s + Spaces(after);
      assert Spaces(before) + (s[..n] + Spaces(after + 1)) == Spaces(before) + s[..n] + Spaces(after + 1);
      s, after := s[..n], after + 1;
    }
  }

  // ---------------------------------------------------------------- the map of switches

  /** A switch with its arguments. */
  type Switch = Entry<seq<string>>

  function AddArg(switches: seq<Switch>, k: nat, arg: string): seq<Switch>
    requires k < |switches|
  {
    switches[k := Entry(switches[k].name, switches[k].value + [arg])]
  }

  // ---------------------------------------------------------------- one token after another

  datatype Parsed = Parsed(required: seq<Switch>, optional: seq<Switch>, current: string, isOptional: bool)

  const START := Parsed([], [], "", false)

  function Step(p: Parsed, t: Token): Option<Parsed> {
    match t
    case Required(name) =>
      if Find(p.required, name) < |p.required| then None
      else Some(Parsed(Insert(p.required, Entry(name, [])), p.optional, name, false))
    case Optional(name) =>
      if Find(p.optional, name) < |p.optional| then None
      else Some(Parsed(p.required, Insert(p.optional, Entry(name, [])), name, true))
    case Argument(text) =>
      var k := Find(if p.isOptional then p.optional else p.required, p.current);
      if p.current == "" then None
      else if p.isOptional then (if k < |p.optional| then Some(p.(optional := AddArg(p.optional, k, text))) else None)
      else if k < |p.required| then Some(p.(required := AddArg(p.required, k, text)))
      else None
  }

  function Steps(p: Parsed, tokens: seq<Token>): Option<Parsed>
    decreases |tokens|
  {
    if tokens == [] then Some(p)
    else
      var q := Step(p, tokens[0]);
      if q.None? then None else Steps(q.value, tokens[1..])
  }

  lemma {:induction false} StepsAppend(p: Parsed, a: seq<Token>, b: seq<Token>)
    ensures Steps(p, a + b) == if Steps(p, a).None? then None else Steps(Steps(p, a).value, b)
    decreases |a|
  {
    hide Step;
    if a == [] {
      assert a + b == b;
    } else {
      assert (a + b)[0] == a[0] && (a + b)[1..] == a[1..] + b;
      if Step(p, a[0]).Some? {
        StepsAppend(Step(p, a[0]).value, a[1..], b);
      }
    }
  }

  // ---------------------------------------------------------------- what a line says

  /** A switch and the arguments behind it, as they stand on a line. */
  datatype Group = Group(optional: bool, name: string, args: seq<string>)

  function Arguments(args: seq<string>): (r: seq<Token>)
    ensures |r| == |args|
  {
    seq(|args|, i requires 0 <= i < |args| => Argument(args[i]))
  }

  function GroupTokens(g: Group): seq<Token> {
    [if g.optional then Optional(g.name) else Required(g.name)] + Arguments(g.args)
  }

  function Line(groups: seq<Group>): seq<Token> {
    if groups == [] then [] else Line(groups[..|groups| - 1]) + GroupTokens(groups[|groups| - 1])
  }

  /** No switch is given twice, as a required or as an optional one. */
  ghost predicate NoRepeat(groups: seq<Group>) {
    forall i, j :: 0 <= i < j < |groups| ==>
                     groups[i].name != groups[j].name || groups[i].optional != groups[j].optional
  }

  ghost predicate Named(groups: seq<Group>) {
    forall i :: 0 <= i < |groups| ==> groups[i].name != ""
  }

  function Side(p: Parsed, optional: bool): seq<Switch> {
    if optional then p.optional else p.required
  }

  /** The parsed switches are those of the groups. */
  ghost predicate Holds(p: Parsed, groups: seq<Group>) {
    && Increasing(p.required) && Increasing(p.optional)
    && (forall o: bool, w: Switch :: w in Side(p, o) <==> Group(o, w.name, w.value) in groups)
    && (groups != [] ==> p.current == groups[|groups| - 1].name && p.isOptional == groups[|groups| - 1].optional)
  }

  function PutSide(p: Parsed, switches: seq<Switch>): Parsed {
    if p.isOptional then p.(optional := switches) else p.(required := switches)
  }

  function WithArgs(switches: seq<Switch>, k: nat, args: seq<string>): seq<Switch>
    requires k < |switches|
  {
    switches[k := Entry(switches[k].name, switches[k].value + args)]
  }

  lemma AddArgThen(switches: seq<Switch>, k: nat, args: seq<string>)
    requires k < |switches| && args != []
    ensures WithArgs(AddArg(switches, k, args[0]), k, args[1..]) == WithArgs(switches, k, args)
  {
    assert switches[k].value + [args[0]] + args[1..] == switches[k].value + args;
  }

  lemma ArgumentStep(p: Parsed, k: nat, arg: string)
    requires Increasing(Side(p, p.isOptional)) && p.current != ""
    requires k < |Side(p, p.isOptional)| && Side(p, p.isOptional)[k].name == p.current
    ensures Step(p, Argument(arg)) == Some(PutSide(p, AddArg(Side(p, p.isOptional), k, arg)))
  {
    IncreasingDistinct(Side(p, p.isOptional));
  }

  lemma {:induction false} ArgumentsStep(p: Parsed, k: nat, args: seq<string>)
    requires Increasing(Side(p, p.isOptional)) && p.current != ""
    requires k < |Side(p, p.isOptional)| && Side(p, p.isOptional)[k].name == p.current
    ensures Steps(p, Arguments(args)) == Some(PutSide(p, WithArgs(Side(p, p.isOptional), k, args)))
    decreases |args|
  {
    hide Increasing, Step;
    var side := Side(p, p.isOptional);
    if args == [] {
      assert side[k].value + [] == side[k].value;
      assert WithArgs(side, k, args) == side;
    } else {
      ArgumentStep(p, k, args[0]);
      UpdateIncreasing(side, k, side[k].value + [args[0]]);
      assert Arguments(args)[1..] == Arguments(args[1..]);
      AddArgThen(side, k, args);
      ArgumentsStep(PutSide(p, AddArg(side, k, args[0])), k, args[1..]);
    }
  }

  ghost predicate Repeats(groups: seq<Group>, g: Group) {
    exists i :: 0 <= i < |groups| && groups[i].name == g.name && groups[i].optional == g.optional
  }

  lemma NotYet(p: Parsed, groups: seq<Group>, g: Group)
    requires Holds(p, groups)
    ensures Repeats(groups, g) <==> exists w :: w in Side(p, g.optional) && w.name == g.name
  {
    hide Increasing;
    if i :| 0 <= i < |groups| && groups[i].name == g.name && groups[i].optional == g.optional {
      assert Entry(groups[i].name, groups[i].args) in Side(p, g.optional);
    }
    if w :| w in Side(p, g.optional) && w.name == g.name {
      var i :| 0 <= i < |groups| && groups[i] == Group(g.optional, w.name, w.value);
    }
  }

  /** The switches of one side after a new one and its arguments. */
  lemma WithGroup(side: seq<Switch>, name: string, args: seq<string>) returns (at: nat)
    requires Increasing(side) && forall w :: w in side ==> w.name != name
    ensures var ins := Insert(side, Entry(name, []));
            && Increasing(ins) && at < |ins| && ins[at] == Entry(name, [])
            && Increasing(WithArgs(ins, at, args))
            && forall w :: w in WithArgs(ins, at, args) <==> w == Entry(name, args) || w in side
  {
    InsertFacts(side, Entry(name, []));
    var ins := Insert(side, Entry(name, []));
    assert Entry(name, []) in ins;
    at :| at < |ins| && ins[at] == Entry(name, []);
    hide Insert;
    IncreasingDistinct(ins);
    hide Increasing;
    Replaced(side, ins, at, name, args);
  }

  lemma Replaced(side: seq<Switch>, ins: seq<Switch>, at: nat, name: string, args: seq<string>)
    requires at < |ins| && ins[at] == Entry(name, []) && Increasing(ins)
    requires forall i, j :: 0 <= i < j < |ins| ==> ins[i].name != ins[j].name
    requires forall w :: w in ins <==> w == Entry(name, []) || w in side
    requires forall w :: w in side ==> w.name != name
    ensures Increasing(WithArgs(ins, at, args))
    ensures forall w :: w in WithArgs(ins, at, args) <==> w == Entry(name, args) || w in side
  {
    var last := WithArgs(ins, at, args);
    assert [] + args == args;
    assert forall j :: 0 <= j < |last| ==> last[j].name == ins[j].name;
    forall w
      ensures w in last <==> w == Entry(name, args) || w in side
    {
      if w in last {
        var j :| 0 <= j < |last| && last[j] == w;
        assert j != at ==> ins[j] in ins;
      }
      if w in side {
        var j :| 0 <= j < |ins| && ins[j] == w;
        assert last[j] == w;
      }
      assert last[at] == Entry(name, args);
    }
  }

  lemma HoldsStep(p: Parsed, groups: seq<Group>, g: Group, r: Parsed)
    requires Holds(p, groups) && Increasing(r.required) && Increasing(r.optional)
    requires r.current == g.name && r.isOptional == g.optional && Side(r, !g.optional) == Side(p, !g.optional)
    requires forall w :: w in Side(r, g.optional) <==> w == Entry(g.name, g.args) || w in Side(p, g.optional)
    ensures Holds(r, groups + [g])
  {
    hide Increasing;
    forall o: bool, w: Switch
      ensures w in Side(r, o) <==> Group(o, w.name, w.value) in groups + [g]
    {
      assert w in Side(p, o) <==> Group(o, w.name, w.value) in groups;
      if o != g.optional {
        assert Side(r, o) == Side(p, o);
      }
    }
  }

  lemma HeadStep(p: Parsed, g: Group)
    requires forall w :: w in Side(p, g.optional) ==> w.name != g.name
    ensures Step(p, GroupTokens(g)[0]).Some?
    ensures var q := Step(p, GroupTokens(g)[0]).value;
            && Side(q, g.optional) == Insert(Side(p, g.optional), Entry(g.name, [])) && Side(q, !g.optional) == Side(p, !g.optional)
            && q.current == g.name && q.isOptional == g.optional
  {
    hide Insert;
  }

  /** One more group on the line: refused if its switch was there, and held otherwise. */
  lemma GroupStep(p: Parsed, groups: seq<Group>, g: Group)
    requires Holds(p, groups) && g.name != ""
    ensures Repeats(groups, g) ==> Steps(p, GroupTokens(g)) == None
    ensures !Repeats(groups, g) ==>
              Steps(p, GroupTokens(g)).Some? && Holds(Steps(p, GroupTokens(g)).value, groups + [g])
  {
    hide Increasing, Repeats, Insert, WithArgs;
    var side := Side(p, g.optional);
    assert GroupTokens(g)[1..] == Arguments(g.args);
    NotYet(p, groups, g);
    if Repeats(groups, g) {
      var w :| w in side && w.name == g.name;
      assert Find(side, g.name) < |side|;
    } else {
      var at := WithGroup(side, g.name, g.args);
      HeadStep(p, g);
      hide Step;
      var q := Step(p, GroupTokens(g)[0]).value;
      ArgumentsStep(q, at, g.args);
      HoldsStep(p, groups, g, PutSide(q, WithArgs(Insert(side, Entry(g.name, [])), at, g.args)));
    }
  }

  /** A line is parsed exactly when no switch is repeated, and then into the switches that stand on it. */
  lemma {:induction false} ParseLine(groups: seq<Group>)
    requires Named(groups)
    ensures Steps(START, Line(groups)).Some? <==> NoRepeat(groups)
    ensures NoRepeat(groups) ==> Holds(Steps(START, Line(groups)).value, groups)
    decreases |groups|
  {
    hide Steps, Holds, GroupTokens;
    if groups == [] {
      ParseNothing();
    } else {
      var n := |groups| - 1;
      var init, g := groups[..n], groups[n];
      assert groups == init + [g];
      ParseLine(init);
      StepsAppend(START, Line(init), GroupTokens(g));
      RepeatStep(init, g);
      if NoRepeat(init) {
        GroupStep(Steps(START, Line(init)).value, init, g);
      }
    }
  }

  lemma ParseNothing()
    ensures Steps(START, []) == Some(START) && Holds(START, [])
  {
  }

  lemma RepeatStep(groups: seq<Group>, g: Group)
    ensures NoRepeat(groups + [g]) <==> NoRepeat(groups) && !Repeats(groups, g)
  {
    var all := groups + [g];
    assert forall i :: 0 <= i < |groups| ==> all[i] == groups[i];
    if NoRepeat(all) {
      assert forall i :: 0 <= i < |groups| ==> all[i].name != all[|groups|].name || all[i].optional != all[|groups|].optional;
    }
  }

  /** Every list of tokens that starts with a switch is a line; any other is refused. */
  lemma {:induction false} EveryLine(tokens: seq<Token>) returns (groups: seq<Group>)
    ensures tokens == [] || !tokens[0].Argument? ==> Line(groups) == tokens
    ensures tokens != [] && tokens[0].Argument? ==> Steps(START, tokens) == None
    decreases |tokens|
  {
    if tokens == [] {
      groups := [];
    } else if tokens[0].Argument? {
      groups := [];
    } else {
      var n := |tokens| - 1;
      var init, t := tokens[..n], tokens[n];
      assert tokens == init + [t];
      var before := EveryLine(init);
      hide Line, Steps;
      LineNothing();
      groups := Longer(before, t);
    }
  }

  lemma Longer(before: seq<Group>, t: Token) returns (groups: seq<Group>)
    requires t.Argument? ==> before != []
    ensures Line(groups) == Line(before) + [t]
  {
    hide Line;
    if t.Argument? {
      var rest, g := before[..|before| - 1], before[|before| - 1];
      var h := g.(args := g.args + [t.text]);
      groups := rest + [h];
      assert before == rest + [g];
      LineAppend(rest, g);
      LineAppend(rest, h);
      assert GroupTokens(h) == GroupTokens(g) + [t];
      assert Line(rest) + (GroupTokens(g) + [t]) == Line(rest) + GroupTokens(g) + [t];
    } else {
      var g := Group(t.Optional?, t.name, []);
      groups := before + [g];
      LineAppend(before, g);
      assert GroupTokens(g) == [t];
    }
  }

  lemma LineNothing()
    ensures Line([]) == []
  {
  }

  lemma LineAppend(groups: seq<Group>, g: Group)
    ensures Line(groups + [g]) == Line(groups) + GroupTokens(g)
  {
    assert (groups + [g])[..|groups|] == groups;
  }

  /** The switch of every group stands on the line. */
  lemma {:induction false} SwitchOnLine(groups: seq<Group>, i: nat)
    requires i < |groups|
    ensures GroupTokens(groups[i])[0] in Line(groups)
  {
    hide Arguments;
    var n := |groups| - 1;
    if i < n {
      SwitchOnLine(groups[..n], i);
    } else {
      var g := groups[n];
      assert (Line(groups[..n]) + GroupTokens(g))[|Line(groups[..n])|] == GroupTokens(g)[0];
    }
  }

  /** Folding a second time changes nothing. */
  ghost predicate Idempotent(fold: char -> char) {
    forall c :: fold(fold(c)) == fold(c)
  }

  lemma TrimNothing(s: string)
    requires ' ' !in s
    ensures Trim(s) == s
  {
    assert s != "" ==> s[0] in s && s[|s| - 1] in s;
  }

  lemma NoSpace(s: string)
    requires IsSwitch(s)
    ensures ' ' !in s
  {
    forall i: nat | i < |s|
      ensures s[i] != ' '
    {
      assert s[i..i + 1] == [s[i]];
      assert !PartAt(s, i, " ");
    }
  }

  /** The name of a switch is not empty and is folded. */
  lemma SwitchNamed(s: string, fold: char -> char)
    requires IsSwitch(s)
    ensures SwitchName(s, fold) != ""
    ensures Idempotent(fold) ==> Lower(SwitchName(s, fold), fold) == SwitchName(s, fold)
  {
    hide Trim;
    NoSpace(s);
    TrimNothing(s[1..]);
  }
}
