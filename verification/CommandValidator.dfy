/** The objects that hold a parsed command line and the scenarios it is validated against. */
module CommandValidator {
  import opened OrderedMap
  import opened Sequences
  import opened CommandRules
  import opened CommandLine

  datatype Status = Ok | InvalidArg | Unexpected | NoMatch

  // ---------------------------------------------------------------- the parser

  class CommandLineParserArgs {
    var switches: seq<Switch>

    constructor ()
      ensures switches == []
    {
      switches := [];
    }

    method Reset()
      modifies this
      ensures switches == []
    {
      switches := [];
    }

    ghost function Map(): map<string, seq<string>>
      reads this
    {
      AsMap(switches)
    }

    /** A new switch has no arguments yet; its place in the list is that of its name. */
    method AddSwitch(name: string) returns (r: Status)
      modifies this
      ensures r == if name in old(Map()) then InvalidArg else Ok
      ensures Map() == if r.Ok? then old(Map())[name := []] else old(Map())
      ensures switches == if r.Ok? then Insert(old(switches), Entry(name, [])) else old(switches)
    {
      FindIsLookup(switches, name);
      if Find(switches, name) < |switches| {
        return InvalidArg;
      }
      InsertMap(switches, Entry(name, []));
      switches := Insert(switches, Entry(name, []));
      r := Ok;
    }

    method AddSwitchArgument(name: string, value: string) returns (r: Status)
      modifies this
      ensures r == if name == "" then InvalidArg else if name in old(Map()) then Ok else Unexpected
      ensures Map() == if r.Ok? then old(Map())[name := old(Map())[name] + [value]] else old(Map())
      ensures r.Ok? ==> Find(old(switches), name) < |old(switches)|
      ensures switches == if r.Ok? then AddArg(old(switches), Find(old(switches), name), value) else old(switches)
    {
      FindIsLookup(switches, name);
      if name == "" {
        return InvalidArg;
      }
      var k := Find(switches, name);
      if k == |switches| {
        return Unexpected;
      }
      UpdateMap(switches, name, switches[k].value + [value]);
      switches := AddArg(switches, k, value);
      r := Ok;
    }
  }

  function Tokens(argv: seq<string>, fold: char -> char): (r: seq<Token>)
    ensures |r| == |argv|
  {
    seq(|argv|, i requires 0 <= i < |argv| => Classify(argv[i], fold))
  }

  class CommandLineParser {
    const requiredArgs: CommandLineParserArgs
    const optionalArgs: CommandLineParserArgs
    const fold: char -> char

    constructor (fold: char -> char)
      ensures this.fold == fold && fresh(requiredArgs) && fresh(optionalArgs) && requiredArgs != optionalArgs
      ensures requiredArgs.switches == [] && optionalArgs.switches == []
    {
      requiredArgs := new CommandLineParserArgs();
      optionalArgs := new CommandLineParserArgs();
      this.fold := fold;
    }

    /** The switches of the two maps, with the switch that arguments go to. */
    ghost function State(current: string, isOptional: bool): Parsed
      reads requiredArgs, optionalArgs
    {
      Parsed(requiredArgs.switches, optionalArgs.switches, current, isOptional)
    }

    /** Takes one token. */
    method Take(arg: string, current0: string, isOptional0: bool)
      returns (r: Status, current: string, isOptional: bool)
      requires requiredArgs != optionalArgs
      modifies requiredArgs, optionalArgs
      ensures var next := Step(old(State(current0, isOptional0)), Classify(arg, fold));
              && (r.Ok? <==> next.Some?)
              && (r.Ok? ==> State(current, isOptional) == next.value)
    {
      current, isOptional := current0, isOptional0;
      FindIsLookup(requiredArgs.switches, current);
      FindIsLookup(optionalArgs.switches, current);
      var token := Trim(arg);
      if IsSwitch(token) {
        current := SwitchName(token, fold);
        FindIsLookup(requiredArgs.switches, current);
        r := requiredArgs.AddSwitch(current);
        isOptional := false;
      } else if IsOptionalSwitch(token) {
        current := SwitchName(token[1..], fold);
        FindIsLookup(optionalArgs.switches, current);
        r := optionalArgs.AddSwitch(current);
        isOptional := true;
      } else if isOptional {
        r := optionalArgs.AddSwitchArgument(current, token);
      } else {
        r := requiredArgs.AddSwitchArgument(current, token);
      }
    }

    /** Parses the arguments behind the program name. */
    method ParseFromArgv(argv: seq<string>) returns (r: Status)
      requires requiredArgs != optionalArgs
      modifies requiredArgs, optionalArgs
      ensures r.Ok? <==> argv != [] && Steps(START, Tokens(argv[1..], fold)).Some?
      ensures r.Ok? ==> var p := Steps(START, Tokens(argv[1..], fold)).value;
                        requiredArgs.switches == p.required && optionalArgs.switches == p.optional
    {
      if |argv| == 0 {
        return InvalidArg;
      }
      requiredArgs.Reset();
      optionalArgs.Reset();
      var current, isOptional := "", false;
      ghost var tokens := Tokens(argv[1..], fold);
      assert tokens[0..] == tokens;
      for i := 1 to |argv|
        invariant Steps(START, tokens) == Steps(State(current, isOptional), tokens[i - 1..])
      {
        assert tokens[i - 1..][1..] == tokens[i..] && tokens[i - 1] == Classify(argv[i], fold);
        r, current, isOptional := Take(argv[i], current, isOptional);
        if !r.Ok? {
          return;
        }
      }
      r := Ok;
    }
  }

  // ---------------------------------------------------------------- switches as the rules see them

  function Params(switches: seq<Switch>): (r: seq<Param>)
    ensures |r| == |switches|
  {
    seq(|switches|, i requires 0 <= i < |switches| => Param(switches[i].name, |switches[i].value|))
  }

  /** The switches of a command line and the numbers of their arguments. */
  function Counts(switches: seq<Switch>): Switches {
    Table(Params(switches))
  }

  lemma CountsFacts(switches: seq<Switch>)
    requires Increasing(switches)
    ensures |Counts(switches)| == |switches| && Distinct(Params(switches))
    ensures forall i :: 0 <= i < |switches| ==>
                          switches[i].name in Counts(switches) && Counts(switches)[switches[i].name] == |switches[i].value|
    ensures forall name :: name in Counts(switches) ==> Find(switches, name) < |switches|
  {
    var params := Params(switches);
    IncreasingDistinct(switches);
    assert Distinct(params);
    assert !Conflicting(params);
    TableFacts(params);
    NamesSize(params);
    assert |Counts(switches)| == |Counts(switches).Keys|;
    forall i | 0 <= i < |switches|
      ensures switches[i].name in Counts(switches) && Counts(switches)[switches[i].name] == |switches[i].value|
    {
      assert Has(Table(params), params[i]);
    }
    forall name | name in Counts(switches)
      ensures Find(switches, name) < |switches|
    {
      var i :| 0 <= i < |params| && params[i].name == name;
      assert switches[i].name == name;
    }
  }

  function LowerParams(params: seq<Param>, fold: char -> char): (r: seq<Param>)
    ensures |r| == |params|
  {
    seq(|params|, i requires 0 <= i < |params| => Param(Lower(params[i].name, fold), params[i].count))
  }

  /** A rule with its names as they are looked up. */
  function LowerRule(rule: Rule, fold: char -> char): Rule {
    Rule(LowerParams(rule.required, fold), LowerParams(rule.optional, fold))
  }

  // ---------------------------------------------------------------- the validator

  type Scenario = Entry<Rule>

  /** The first scenario, in the order of their names, that matches. */
  ghost function FirstMatch(scenarios: seq<Scenario>, s: Switches, fold: char -> char): (k: nat)
    ensures k <= |scenarios| && (k < |scenarios| ==> Matches(s, LowerRule(scenarios[k].value, fold)))
    ensures forall i :: 0 <= i < k ==> !Matches(s, LowerRule(scenarios[i].value, fold))
  {
    if scenarios == [] || Matches(s, LowerRule(scenarios[0].value, fold)) then 0
    else 1 + FirstMatch(scenarios[1..], s, fold)
  }

  /** The number of arguments of a switch, if it is there. */
  method LookUp(switches: seq<Switch>, name: string, fold: char -> char) returns (has: bool, count: nat)
    requires Increasing(switches)
    ensures has <==> Lower(name, fold) in Counts(switches)
    ensures has ==> count == Counts(switches)[Lower(name, fold)]
  {
    hide Counts;
    CountsFacts(switches);
    var k := Find(switches, Lower(name, fold));
    has, count := k < |switches|, 0;
    if has {
      count := |switches[k].value|;
    }
  }

  method HasRequired(switches: seq<Switch>, required: seq<Param>, fold: char -> char) returns (ok: bool)
    requires Increasing(switches)
    ensures ok <==> RequiredPresent(Counts(switches), LowerParams(required, fold))
  {
    hide Counts;
    for i := 0 to |required|
      invariant forall j :: 0 <= j < i ==> Has(Counts(switches), LowerParams(required, fold)[j])
    {
      var has, count := LookUp(switches, required[i].name, fold);
      if !has || count != required[i].count {
        assert !Has(Counts(switches), LowerParams(required, fold)[i]);
        return false;
      }
    }
    ok := true;
  }

  /** The loop over the optional parameters; the count of switches left goes down and never below zero. */
  method HasOptional(switches: seq<Switch>, optional: seq<Param>, left0: nat, fold: char -> char) returns (ok: bool)
    requires Increasing(switches)
    ensures ok <==> Scan(Counts(switches), LowerParams(optional, fold), left0)
  {
    hide Counts;
    ghost var params := LowerParams(optional, fold);
    var left := left0;
    var i := 0;
    assert params[0..] == params;
    while left != 0 && i < |optional|
      invariant i <= |optional|
      invariant Scan(Counts(switches), params, left0) == Scan(Counts(switches), params[i..], left)
    {
      assert params[i..][1..] == params[i + 1..];
      var has, count := LookUp(switches, optional[i].name, fold);
      if has {
        if count != optional[i].count {
          return false;
        }
        left := left - 1;
      }
      i := i + 1;
    }
    ok := left == 0;
  }

  class CommandLineValidator {
    var scenarioSequenceNumber: nat
    var scenarios: seq<Scenario>
    const fold: char -> char

    ghost predicate Valid()
      reads this
    {
      Increasing(scenarios)
    }

    constructor (fold: char -> char)
      ensures Valid() && scenarios == [] && scenarioSequenceNumber == 0 && this.fold == fold
    {
      scenarioSequenceNumber, scenarios := 0, [];
      this.fold := fold;
    }

    /** The name of the first scenario that matches. */
    method Validate(parser: CommandLineParser) returns (r: Status, name: string)
      requires Increasing(parser.requiredArgs.switches)
      ensures var k := FirstMatch(scenarios, Counts(parser.requiredArgs.switches), fold);
              if k < |scenarios| then r == Ok && name == scenarios[k].name else r == NoMatch
    {
      hide Counts, Matches, FirstMatch;
      name := "";
      ghost var s := Counts(parser.requiredArgs.switches);
      for i := 0 to |scenarios|
        invariant forall j :: 0 <= j < i ==> !Matches(s, LowerRule(scenarios[j].value, fold))
      {
        var matches := DoesScenarioMatch(parser, scenarios[i].value);
        if matches {
          return Ok, scenarios[i].name;
        }
      }
      r := NoMatch;
    }

    /** The size check and the two loops: no subtraction below zero. */
    method DoesScenarioMatch(parser: CommandLineParser, rule: Rule) returns (ok: bool)
      requires Increasing(parser.requiredArgs.switches)
      ensures ok <==> Matches(Counts(parser.requiredArgs.switches), LowerRule(rule, fold))
    {
      hide Counts, RequiredPresent, Scan;
      var switches := parser.requiredArgs.switches;
      CountsFacts(switches);
      if |switches| < |rule.required| || |switches| > |rule.required| + |rule.optional| {
        return false;
      }
      ok := HasRequired(switches, rule.required, fold);
      if ok {
        ok := HasOptional(switches, rule.optional, |switches| - |rule.required|, fold);
      }
    }

    ghost function Map(): map<string, Rule>
      reads this
    {
      AsMap(scenarios)
    }

    method CreateScenario(name: string) returns (r: Status)
      requires Valid()
      modifies this`scenarios
      ensures Valid() && r == if name in old(Map()) then InvalidArg else Ok
      ensures Map() == if r.Ok? then old(Map())[name := Rule([], [])] else old(Map())
      ensures scenarios == if r.Ok? then Insert(old(scenarios), Entry(name, Rule([], []))) else old(scenarios)
    {
      FindIsLookup(scenarios, name);
      if Find(scenarios, name) < |scenarios| {
        return InvalidArg;
      }
      InsertMap(scenarios, Entry(name, Rule([], [])));
      InsertFacts(scenarios, Entry(name, Rule([], [])));
      scenarios := Insert(scenarios, Entry(name, Rule([], [])));
      r := Ok;
    }

    method AddScenarioParameter(name: string, switchName: string, count: nat, optional: bool) returns (r: Status)
      requires Valid()
      modifies this`scenarios
      ensures Valid() && r == if name in old(Map()) then Ok else InvalidArg
      ensures Map() == if r.Ok? then old(Map())[name := MoreParam(old(Map())[name], Param(switchName, count), optional)]
                       else old(Map())
      ensures r.Ok? ==> Find(old(scenarios), name) < |old(scenarios)|
      ensures scenarios == if r.Ok? then WithParam(old(scenarios), Find(old(scenarios), name), Param(switchName, count), optional)
                           else old(scenarios)
    {
      FindIsLookup(scenarios, name);
      var k := Find(scenarios, name);
      if k == |scenarios| {
        return InvalidArg;
      }
      UpdateMap(scenarios, name, MoreParam(scenarios[k].value, Param(switchName, count), optional));
      UpdateIncreasing(scenarios, k, MoreParam(scenarios[k].value, Param(switchName, count), optional));
      scenarios := WithParam(scenarios, k, Param(switchName, count), optional);
      r := Ok;
    }

    /** Adds all switches of a rule line, required or optional, to a scenario. */
    method AddSwitches(name: string, switches: seq<Switch>, optional: bool)
      requires Valid() && Find(scenarios, name) < |scenarios| && Increasing(switches)
      requires forall i :: 0 <= i < |switches| ==> Lower(switches[i].name, fold) == switches[i].name
      modifies this`scenarios
      ensures var k := Find(old(scenarios), name);
              Valid() && scenarios == WithRule(old(scenarios), k, MoreParams(old(scenarios)[k].value, Params(switches), optional))
    {
      hide Lower, Find, Increasing, AsMap, Counts;
      var before := scenarios;
      ghost var k := Find(before, name);
      ghost var rule := before[k].value;
      NoMoreParams(before, k, optional);
      for i := 0 to |switches|
        invariant Valid() && scenarios == WithRule(before, k, MoreParams(rule, Params(switches)[..i], optional))
      {
        var has, count := LookUp(switches, switches[i].name, fold);
        CountsFacts(switches);
        FoundAgain(before, k, name, MoreParams(rule, Params(switches)[..i], optional));
        FindIsLookup(scenarios, name);
        var r := AddScenarioParameter(name, switches[i].name, count, optional);
        TakeOne(Params(switches), i);
        OneMoreParam(rule, Params(switches)[..i], Params(switches)[i], optional);
      }
      assert Params(switches)[..|switches|] == Params(switches);
    }

    /** Turns a rule line into a scenario with a name of its own. */
    method CreateScenarioFromCmdLine(argv: seq<string>) returns (r: Status, name: string)
      requires Valid() && Idempotent(fold)
      modifies this
      ensures Valid() && (r.Ok? <==> argv != [] && Steps(START, Tokens(argv[1..], fold)).Some?)
      ensures !r.Ok? ==> scenarios == old(scenarios)
      ensures r.Ok? ==> var p := Steps(START, Tokens(argv[1..], fold)).value;
                        && Find(old(scenarios), name) == |old(scenarios)|
                        && scenarios == Insert(old(scenarios), Entry(name, Rule(Params(p.required), Params(p.optional))))
    {
      hide Steps, Find, Insert, Params, Lower, Increasing, Tokens;
      name := "";
      var parser := new CommandLineParser(fold);
      r := parser.ParseFromArgv(argv);
      if !r.Ok? {
        return;
      }
      var required, optional := parser.requiredArgs.switches, parser.optionalArgs.switches;
      ParsedNames(argv[1..], fold);
      scenarioSequenceNumber := UnusedName(scenarios, scenarioSequenceNumber);
      name := ScenarioName(scenarioSequenceNumber);
      var before := scenarios;
      NotFound(before, name);
      FindIsLookup(before, name);
      InsertThenUpdate(before, name, Rule([], []), Rule(Params(required), Params(optional)));
      r := CreateScenario(name);
      AddSwitches(name, required, false);
      FoundAgain(Insert(before, Entry(name, Rule([], []))), Find(Insert(before, Entry(name, Rule([], []))), name), name,
                 Rule([] + Params(required), []));
      AddSwitches(name, optional, true);
      assert [] + Params(required) == Params(required) && [] + Params(optional) == Params(optional);
    }
  }

  function WithRule(scenarios: seq<Scenario>, k: nat, rule: Rule): seq<Scenario>
    requires k < |scenarios|
  {
    scenarios[k := Entry(scenarios[k].name, rule)]
  }

  lemma NoMoreParams(scenarios: seq<Scenario>, k: nat, optional: bool)
    requires k < |scenarios|
    ensures WithRule(scenarios, k, MoreParams(scenarios[k].value, [], optional)) == scenarios
  {
    assert scenarios[k].value.required + [] == scenarios[k].value.required;
    assert scenarios[k].value.optional + [] == scenarios[k].value.optional;
  }

  lemma OneMoreParam(rule: Rule, params: seq<Param>, p: Param, optional: bool)
    ensures MoreParam(MoreParams(rule, params, optional), p, optional) == MoreParams(rule, params + [p], optional)
  {
    assert rule.required + params + [p] == rule.required + (params + [p]);
    assert rule.optional + params + [p] == rule.optional + (params + [p]);
  }

  /** A changed rule does not change where its scenario is found. */
  lemma FoundAgain(scenarios: seq<Scenario>, k: nat, name: string, rule: Rule)
    requires k == Find(scenarios, name) < |scenarios|
    ensures Find(WithRule(scenarios, k, rule), name) == k
  {
    var f := Find(WithRule(scenarios, k, rule), name);
    assert WithRule(scenarios, k, rule)[k].name == name;
  }

  lemma NotFound(scenarios: seq<Scenario>, name: string)
    requires Find(scenarios, name) == |scenarios|
    ensures forall i :: 0 <= i < |scenarios| ==> scenarios[i].name != name
  {
  }

  /** The switches that a line is parsed into are ordered, and their names are folded. */
  lemma ParsedNames(argv: seq<string>, fold: char -> char)
    requires Idempotent(fold) && Steps(START, Tokens(argv, fold)).Some?
    ensures var p := Steps(START, Tokens(argv, fold)).value;
            && Increasing(p.required) && Increasing(p.optional)
            && (forall i :: 0 <= i < |p.required| ==> Lower(p.required[i].name, fold) == p.required[i].name)
            && (forall i :: 0 <= i < |p.optional| ==> Lower(p.optional[i].name, fold) == p.optional[i].name)
  {
    hide Steps, Increasing, Lower;
    var tokens := Tokens(argv, fold);
    var groups := EveryLine(tokens);
    TypedNames(groups, argv, fold);
    ParseLine(groups);
    var p := Steps(START, tokens).value;
    assert Holds(p, groups) && p.required == Side(p, false) && p.optional == Side(p, true);
    LoweredSide(p, groups, false, fold);
    LoweredSide(p, groups, true, fold);
  }

  /** The names of switches that were typed are not empty and are folded. */
  lemma TypedNames(line: seq<Group>, argv: seq<string>, fold: char -> char)
    requires Idempotent(fold) && Tokens(argv, fold) == Line(line)
    ensures Named(line) && Lowered(line, fold)
  {
    hide Lower, Line;
    forall i | 0 <= i < |line|
      ensures line[i].name != "" && Lower(line[i].name, fold) == line[i].name
    {
      SwitchOnLine(line, i);
      TokenNamed(argv, GroupTokens(line[i])[0], fold);
    }
  }

  lemma LoweredSide(p: Parsed, groups: seq<Group>, optional: bool, fold: char -> char)
    requires Holds(p, groups) && Lowered(groups, fold)
    ensures forall i :: 0 <= i < |Side(p, optional)| ==> Lower(Side(p, optional)[i].name, fold) == Side(p, optional)[i].name
  {
    hide Increasing, Lower;
    var side := Side(p, optional);
    forall k | 0 <= k < |side|
      ensures Lower(side[k].name, fold) == side[k].name
    {
      assert side[k] in side;
      var i :| 0 <= i < |groups| && groups[i] == Group(optional, side[k].name, side[k].value);
    }
  }

  lemma TokenNamed(argv: seq<string>, t: Token, fold: char -> char)
    requires Idempotent(fold) && t in Tokens(argv, fold) && !t.Argument?
    ensures t.name != "" && Lower(t.name, fold) == t.name
  {
    hide Lower, SwitchName, IsSwitch, Trim;
    var i :| 0 <= i < |argv| && Tokens(argv, fold)[i] == t;
    var s := Trim(argv[i]);
    if IsSwitch(s) {
      SwitchNamed(s, fold);
    } else {
      SwitchNamed(s[1..], fold);
    }
  }

  /** The rule that a scenario has after the first `n` switches were added to it. */
  function MoreParams(rule: Rule, params: seq<Param>, optional: bool): Rule {
    if optional then Rule(rule.required, rule.optional + params) else Rule(rule.required + params, rule.optional)
  }

  function MoreParam(rule: Rule, p: Param, optional: bool): Rule {
    if optional then Rule(rule.required, rule.optional + [p]) else Rule(rule.required + [p], rule.optional)
  }

  function WithParam(scenarios: seq<Scenario>, k: nat, p: Param, optional: bool): seq<Scenario>
    requires k < |scenarios|
  {
    scenarios[k := Entry(scenarios[k].name, MoreParam(scenarios[k].value, p, optional))]
  }

  // ---------------------------------------------------------------- scenarios from rule lines

  function Digit(d: nat): char
    requires d < 10
  {
    (d + '0' as nat) as char
  }

  function Decimal(n: nat): (s: string)
    ensures s != "" && (n >= 10 ==> |s| > 1)
  {
    if n < 10 then [Digit(n)] else Decimal(n / 10) + [Digit(n % 10)]
  }

  lemma {:induction false} DecimalInjective(a: nat, b: nat)
    requires Decimal(a) == Decimal(b)
    ensures a == b
    decreases a
  {
    var s, t := Decimal(a), Decimal(b);
    assert s[|s| - 1] == Digit(a % 10) && t[|t| - 1] == Digit(b % 10);
    assert a % 10 == b % 10;
    if a >= 10 && b >= 10 {
      assert s[..|s| - 1] == Decimal(a / 10) && t[..|t| - 1] == Decimal(b / 10);
      DecimalInjective(a / 10, b / 10);
    }
  }

  function ScenarioName(n: nat): string {
    "scenario_" + Decimal(n)
  }

  /** The value of decimal digits, most significant first. */
  function Value(s: string): int {
    if s == "" then 0 else 10 * Value(s[..|s| - 1]) + (s[|s| - 1] as int - '0' as int)
  }

  /** The name ends with the number, in decimal digits. */
  lemma {:induction false} ScenarioNameIs(n: nat)
    ensures var s := ScenarioName(n);
            "scenario_" <= s && Value(s[9..]) == n && forall i :: 9 <= i < |s| ==> '0' <= s[i] <= '9'
  {
    var d := Decimal(n);
    assert ScenarioName(n)[9..] == d;
    if n >= 10 {
      ScenarioNameIs(n / 10);
      assert ScenarioName(n / 10)[9..] == Decimal(n / 10);
      assert d[..|d| - 1] == Decimal(n / 10) && d[|d| - 1] == Digit(n % 10);
      assert forall i :: 0 <= i < |d| - 1 ==> d[i] == ScenarioName(n / 10)[i + 9];
    } else {
      assert d[..0] == "";
    }
  }

  lemma ScenarioNameInjective(a: nat, b: nat)
    ensures a != b ==> ScenarioName(a) != ScenarioName(b)
  {
    if ScenarioName(a) == ScenarioName(b) {
      assert Decimal(a) == ScenarioName(a)[9..] && Decimal(b) == ScenarioName(b)[9..];
      DecimalInjective(a, b);
    }
  }

  /** Counts up to a name that is not in use: there is one, as the names differ and the scenarios are finitely many. */
  method UnusedName(scenarios: seq<Scenario>, start: nat) returns (n: nat)
    ensures n > start && Find(scenarios, ScenarioName(n)) == |scenarios|
    ensures forall m :: start < m < n ==> Find(scenarios, ScenarioName(m)) < |scenarios|
  {
    hide ScenarioName, Find;
    n := start + 1;
    ghost var left := set i | 0 <= i < |scenarios| :: scenarios[i].name;
    while Find(scenarios, ScenarioName(n)) < |scenarios|
      invariant n > start
      invariant forall m :: start < m < n ==> Find(scenarios, ScenarioName(m)) < |scenarios|
      invariant forall m :: m >= n && Find(scenarios, ScenarioName(m)) < |scenarios| ==> ScenarioName(m) in left
      decreases |left|
    {
      assert ScenarioName(n) in left;
      left := left - {ScenarioName(n)};
      forall m | m > n
        ensures ScenarioName(m) != ScenarioName(n)
      {
        ScenarioNameInjective(m, n);
      }
      n := n + 1;
    }
  }

  // ---------------------------------------------------------------- from the text of a line to the verdict

  function RequiredOf(groups: seq<Group>): seq<Switch>
    requires Steps(START, Line(groups)).Some?
  {
    Steps(START, Line(groups)).value.required
  }

  function RuleOf(groups: seq<Group>): Rule
    requires Steps(START, Line(groups)).Some?
  {
    Rule(Params(RequiredOf(groups)), Params(Steps(START, Line(groups)).value.optional))
  }

  ghost predicate Lowered(groups: seq<Group>, fold: char -> char) {
    forall i :: 0 <= i < |groups| ==> Lower(groups[i].name, fold) == groups[i].name
  }

  /** A group of `groups` has this name, this number of arguments, and is or is not optional. */
  ghost predicate HasGroup(groups: seq<Group>, optional: bool, name: string, count: nat) {
    exists i :: 0 <= i < |groups| && groups[i].optional == optional && groups[i].name == name && |groups[i].args| == count
  }

  lemma ParamsOfSide(p: Parsed, groups: seq<Group>, optional: bool)
    requires Holds(p, groups)
    ensures forall q: Param :: q in Params(Side(p, optional)) <==> HasGroup(groups, optional, q.name, q.count)
  {
    hide Increasing;
    var side := Side(p, optional);
    forall q: Param
      ensures q in Params(side) <==> HasGroup(groups, optional, q.name, q.count)
    {
      if q in Params(side) {
        var k :| 0 <= k < |side| && Params(side)[k] == q;
        assert side[k] in side;
        var i :| 0 <= i < |groups| && groups[i] == Group(optional, side[k].name, side[k].value);
      }
      if HasGroup(groups, optional, q.name, q.count) {
        var i :| 0 <= i < |groups| && groups[i].optional == optional && groups[i].name == q.name
                 && |groups[i].args| == q.count;
        assert Group(optional, q.name, groups[i].args) in groups;
        var k :| 0 <= k < |side| && side[k] == Entry(q.name, groups[i].args);
        assert Params(side)[k] == q;
      }
    }
  }

  lemma LoweredParams(p: Parsed, groups: seq<Group>, optional: bool, fold: char -> char)
    requires Holds(p, groups) && Lowered(groups, fold)
    ensures LowerParams(Params(Side(p, optional)), fold) == Params(Side(p, optional))
  {
    hide Increasing, Lower, Lowered;
    LoweredSide(p, groups, optional, fold);
  }

  /** The switches of a line, as a rule sees them. */
  lemma CountsOfLine(groups: seq<Group>)
    requires NoRepeat(groups) && Named(groups)
    ensures Steps(START, Line(groups)).Some? && Increasing(RequiredOf(groups))
    ensures forall p: Param :: Has(Counts(RequiredOf(groups)), p) <==> HasGroup(groups, false, p.name, p.count)
  {
    hide Steps, Counts, Line, HasGroup;
    ParseLine(groups);
    var parsed := Steps(START, Line(groups)).value;
    ParamsOfSide(parsed, groups, false);
    var switches := RequiredOf(groups);
    CountsFacts(switches);
    forall p: Param
      ensures Has(Counts(switches), p) <==> p in Params(switches)
    {
      HasParams(switches, p);
    }
  }

  lemma HasParams(switches: seq<Switch>, p: Param)
    requires Increasing(switches)
    ensures Has(Counts(switches), p) <==> p in Params(switches)
  {
    hide Counts, Increasing;
    CountsFacts(switches);
    if Has(Counts(switches), p) {
      var k := Find(switches, p.name);
      assert Params(switches)[k] == p;
    }
    if p in Params(switches) {
      var k :| 0 <= k < |switches| && Params(switches)[k] == p;
    }
  }

  /** The rule that a line stands for. */
  lemma RuleOfLine(rule: seq<Group>)
    requires NoRepeat(rule) && Named(rule)
    ensures Steps(START, Line(rule)).Some?
    ensures Distinct(RuleOf(rule).required) && Distinct(RuleOf(rule).optional)
    ensures forall p: Param :: p in RuleOf(rule).required <==> HasGroup(rule, false, p.name, p.count)
    ensures forall p: Param :: p in RuleOf(rule).optional <==> HasGroup(rule, true, p.name, p.count)
  {
    hide Steps, Counts, Line, Increasing;
    ParseLine(rule);
    var parsed := Steps(START, Line(rule)).value;
    ParamsOfSide(parsed, rule, false);
    ParamsOfSide(parsed, rule, true);
    CountsFacts(parsed.required);
    CountsFacts(parsed.optional);
  }

  /** No switch of a rule is both required and optional. */
  ghost predicate NotBoth(groups: seq<Group>) {
    forall i, j :: 0 <= i < |groups| && 0 <= j < |groups| && groups[i].name == groups[j].name ==>
                     groups[i].optional == groups[j].optional
  }

  lemma NotBothExact(rule: seq<Group>)
    requires NoRepeat(rule) && Named(rule) && NotBoth(rule)
    ensures Steps(START, Line(rule)).Some? && Exact(RuleOf(rule))
  {
    hide Steps, Line, Exact, Distinct;
    RuleOfLine(rule);
    var r := RuleOf(rule);
    forall i, j | 0 <= i < |r.required| && 0 <= j < |r.optional|
      ensures r.required[i].name != r.optional[j].name
    {
      assert r.required[i] in r.required && r.optional[j] in r.optional;
      assert HasGroup(rule, false, r.required[i].name, r.required[i].count);
      assert HasGroup(rule, true, r.optional[j].name, r.optional[j].count);
    }
    DisjointExact(r);
  }

  /** Every required switch of the rule stands on the line, every switch of the line in the rule, with as many arguments. */
  ghost predicate Meant(rule: seq<Group>, line: seq<Group>) {
    && (forall name, n: nat :: HasGroup(rule, false, name, n) ==> HasGroup(line, false, name, n))
    && (forall name, n: nat :: HasGroup(line, false, name, n) ==>
                                 HasGroup(rule, false, name, n) || HasGroup(rule, true, name, n))
  }

  lemma MeantIs(rule: seq<Group>, line: seq<Group>)
    requires NoRepeat(rule) && Named(rule) && NoRepeat(line) && Named(line)
    ensures Steps(START, Line(rule)).Some? && Steps(START, Line(line)).Some?
    ensures Meant(rule, line) <==> Accepts(Counts(RequiredOf(line)), RuleOf(rule))
  {
    hide Steps, Counts, Line, HasGroup, Accepts, Distinct;
    CountsOfLine(line);
    RuleOfLine(rule);
    AcceptsIs(Counts(RequiredOf(line)), RuleOf(rule));
    forall name, n: nat
      ensures HasGroup(rule, false, name, n) <==> Param(name, n) in RuleOf(rule).required
      ensures HasGroup(rule, true, name, n) <==> Param(name, n) in RuleOf(rule).optional
      ensures HasGroup(line, false, name, n) <==> Has(Counts(RequiredOf(line)), Param(name, n))
    {
      var p := Param(name, n);
      assert p in RuleOf(rule).required <==> HasGroup(rule, false, p.name, p.count);
    }
  }

  lemma LoweredRule(rule: seq<Group>, fold: char -> char)
    requires NoRepeat(rule) && Named(rule) && Lowered(rule, fold)
    ensures Steps(START, Line(rule)).Some? && LowerRule(RuleOf(rule), fold) == RuleOf(rule)
  {
    hide Steps, Line, Holds, Lowered;
    ParseLine(rule);
    LoweredParams(Steps(START, Line(rule)).value, rule, false, fold);
    LoweredParams(Steps(START, Line(rule)).value, rule, true, fold);
  }

  /** The line matches the rule exactly when it is meant to. */
  ghost predicate DecidedRight(rule: seq<Group>, line: seq<Group>, fold: char -> char) {
    && Steps(START, Line(rule)).Some? && Steps(START, Line(line)).Some?
    && (Matches(Counts(RequiredOf(line)), LowerRule(RuleOf(rule), fold)) <==> Meant(rule, line))
  }

  /** The verdict is that of counting on the switches of the two lines. */
  lemma DecidedIs(rule: seq<Group>, line: seq<Group>, fold: char -> char)
    requires NoRepeat(rule) && Named(rule) && Lowered(rule, fold) && NoRepeat(line) && Named(line)
    ensures Steps(START, Line(rule)).Some? && Steps(START, Line(line)).Some?
    ensures var s := Counts(RequiredOf(line));
            DecidedRight(rule, line, fold) <==> (Matches(s, RuleOf(rule)) <==> Accepts(s, RuleOf(rule)))
  {
    hide *;
    MeantIs(rule, line);
    LoweredRule(rule, fold);
    DecidedUnfold(rule, line, fold);
  }

  lemma DecidedUnfold(rule: seq<Group>, line: seq<Group>, fold: char -> char)
    requires Steps(START, Line(rule)).Some? && Steps(START, Line(line)).Some?
    ensures DecidedRight(rule, line, fold)
            <==> (Matches(Counts(RequiredOf(line)), LowerRule(RuleOf(rule), fold)) <==> Meant(rule, line))
  {
  }

  /** Command lines are matched as meant against a rule line that is exact, as one is that lists no switch both ways. */
  lemma LineMatches(rule: seq<Group>, line: seq<Group>, fold: char -> char)
    requires NoRepeat(rule) && Named(rule) && Lowered(rule, fold) && NoRepeat(line) && Named(line)
    requires Steps(START, Line(rule)).Some? ==> Exact(RuleOf(rule))
    ensures DecidedRight(rule, line, fold)
  {
    hide *;
    DecidedIs(rule, line, fold);
    MatchesExact(Counts(RequiredOf(line)), RuleOf(rule));
  }

  // ---------------------------------------------------------------- rule lines that are decided wrongly

  lemma SameHas(s: Switches, t: Switches)
    requires forall p: Param :: Has(s, p) <==> Has(t, p)
    ensures s == t
  {
    forall name
      ensures name in s <==> name in t
      ensures name in s ==> s[name] == t[name]
    {
      if name in s {
        assert Has(s, Param(name, s[name]));
      }
      if name in t {
        assert Has(t, Param(name, t[name]));
      }
    }
  }

  /** The groups are the switches of `s`. */
  ghost predicate Spells(line: seq<Group>, s: Switches) {
    && (forall i :: 0 <= i < |line| ==> !line[i].optional && line[i].name in s && |line[i].args| == s[line[i].name])
    && (forall name :: name in s ==> exists i :: 0 <= i < |line| && line[i].name == name)
  }

  /** All arguments are empty. */
  ghost predicate Bare(line: seq<Group>) {
    forall i :: 0 <= i < |line| ==> line[i].args == Blanks(|line[i].args|)
  }

  function Blanks(n: nat): (r: seq<string>)
    ensures |r| == n
  {
    seq(n, _ => "")
  }

  /** Any switches can be put on a line. */
  lemma LineOf(s: Switches) returns (line: seq<Group>)
    ensures NoRepeat(line) && Spells(line, s) && Bare(line)
    decreases |s|
  {
    if s == map[] {
      line := [];
    } else {
      var name :| name in s;
      var rest := s - {name};
      assert rest.Keys == s.Keys - {name};
      assert |rest| == |rest.Keys| && |s| == |s.Keys|;
      var front := LineOf(rest);
      line := front + [Group(false, name, Blanks(s[name]))];
      SpellsStep(front, rest, line, s, name);
    }
  }

  lemma SpellsStep(front: seq<Group>, rest: Switches, line: seq<Group>, s: Switches, name: string)
    requires NoRepeat(front) && Spells(front, rest) && name in s && rest == s - {name}
    requires |line| == |front| + 1 && line[..|front|] == front
    requires line[|front|].name == name && !line[|front|].optional && |line[|front|].args| == s[name]
    ensures NoRepeat(line) && Spells(line, s)
  {
    assert forall i :: 0 <= i < |front| ==> line[i] == front[i] && line[i].name in rest;
    assert NoRepeat(line);
    hide NoRepeat;
    forall other | other in s
      ensures exists i :: 0 <= i < |line| && line[i].name == other
    {
      if other == name {
        assert line[|front|].name == other;
      } else {
        assert other in rest;
        var i :| 0 <= i < |front| && front[i].name == other;
        assert line[i].name == other;
      }
    }
  }

  lemma SpellsCounts(line: seq<Group>, s: Switches)
    requires NoRepeat(line) && Named(line) && Spells(line, s)
    ensures Steps(START, Line(line)).Some? && Counts(RequiredOf(line)) == s
  {
    hide Steps, Line, Counts, NoRepeat;
    CountsOfLine(line);
    forall p: Param
      ensures Has(s, p) <==> HasGroup(line, false, p.name, p.count)
    {
      if Has(s, p) {
        var i :| 0 <= i < |line| && line[i].name == p.name;
        assert HasGroup(line, false, p.name, p.count);
      }
    }
    SameHas(Counts(RequiredOf(line)), s);
  }

  // ---------------------------------------------------------------- lines that can be typed

  /** Some argument is the switch with this name. */
  ghost predicate Spelled(name: string, fold: char -> char) {
    exists arg :: Classify(arg, fold) == Required(name)
  }

  lemma SwitchTrimmed(s: string)
    requires IsSwitch(s)
    ensures Trim(s) == s
  {
    hide Trim;
    NoSpace(s);
    TrimNothing(s);
  }

  /** A switch that was typed, required or optional, can be typed as a required one. */
  lemma TokenSpelled(argv: seq<string>, t: Token, fold: char -> char)
    requires t in Tokens(argv, fold) && !t.Argument?
    ensures Spelled(t.name, fold)
  {
    hide SwitchName, IsSwitch, Trim;
    var i :| 0 <= i < |argv| && Tokens(argv, fold)[i] == t;
    var s := Trim(argv[i]);
    if IsSwitch(s) {
      assert Classify(argv[i], fold) == Required(t.name);
    } else {
      SwitchTrimmed(s[1..]);
      assert Classify(s[1..], fold) == Required(t.name);
    }
  }

  /** So can a name of one letter, repeated. */
  lemma LetterSpelled(x: string, fold: char -> char)
    requires x != "" && forall i :: 0 <= i < |x| ==> x[i] == fold('a')
    ensures Spelled(x, fold)
  {
    var s := ['/'] + seq(|x|, _ => 'a');
    forall i: nat | i <= |s|
      ensures !PartAt(s, i, " ") && !PartAt(s, i, "%20")
    {
      assert i < |s| ==> s[i] == '/' || s[i] == 'a';
      assert i + 1 <= |s| ==> s[i..i + 1][0] == s[i];
      assert i + 3 <= |s| ==> s[i..i + 3][0] == s[i];
    }
    assert IsSwitch(s);
    SwitchTrimmed(s);
    hide IsSwitch, Trim;
    TrimNothing(s[1..]);
    assert Lower(s[1..], fold) == x;
    assert Classify(s, fold) == Required(x);
  }

  lemma TokensAppend(a: seq<string>, b: seq<string>, fold: char -> char)
    ensures Tokens(a + b, fold) == Tokens(a, fold) + Tokens(b, fold)
  {
    hide Classify;
  }

  /** A blank argument is an argument. */
  lemma BlankTokens(n: nat, fold: char -> char)
    ensures Tokens(Blanks(n), fold) == Arguments(Blanks(n))
  {
    assert Classify("", fold) == Argument("");
    hide Classify;
  }

  lemma TypeGroup(g: Group, fold: char -> char) returns (argv: seq<string>)
    requires !g.optional && Spelled(g.name, fold) && g.args == Blanks(|g.args|)
    ensures Tokens(argv, fold) == GroupTokens(g)
  {
    hide Classify, Blanks;
    var arg :| Classify(arg, fold) == Required(g.name);
    argv := [arg] + g.args;
    BlankTokens(|g.args|, fold);
    TokensAppend([arg], g.args, fold);
    assert Tokens([arg], fold) == [Required(g.name)];
  }

  lemma {:induction false} TypeLine(line: seq<Group>, fold: char -> char) returns (argv: seq<string>)
    requires Bare(line) && forall i :: 0 <= i < |line| ==> !line[i].optional && Spelled(line[i].name, fold)
    ensures Tokens(argv, fold) == Line(line)
    decreases |line|
  {
    hide Classify, Blanks, Spelled, GroupTokens;
    if line == [] {
      argv := [];
    } else {
      var n := |line| - 1;
      var front := TypeLine(line[..n], fold);
      var last := TypeGroup(line[n], fold);
      argv := front + last;
      TokensAppend(front, last, fold);
    }
  }

  /** All names of a rule line that was typed can be typed. */
  lemma RuleNames(rule: seq<Group>, args: seq<string>, fold: char -> char)
    requires NoRepeat(rule) && Named(rule) && Tokens(args, fold) == Line(rule)
    ensures Steps(START, Line(rule)).Some?
    ensures forall name :: name in AllNames(RuleOf(rule)) ==> Spelled(name, fold)
  {
    hide Steps, Line, Distinct, Spelled, Tokens;
    RuleOfLine(rule);
    var r := RuleOf(rule);
    forall name | name in AllNames(r)
      ensures Spelled(name, fold)
    {
      var optional := name !in Names(r.required);
      var side := if optional then r.optional else r.required;
      var i :| 0 <= i < |side| && side[i].name == name;
      assert side[i] in side;
      assert HasGroup(rule, optional, name, side[i].count);
      var k :| 0 <= k < |rule| && rule[k].optional == optional && rule[k].name == name;
      SwitchOnLine(rule, k);
      TokenSpelled(args, GroupTokens(rule[k])[0], fold);
    }
  }

  lemma SpellsSpelled(line: seq<Group>, s: Switches, names: set<string>, x: string, fold: char -> char)
    requires Spells(line, s) && s.Keys <= names + {x} && Spelled(x, fold)
    requires forall name :: name in names ==> Spelled(name, fold)
    ensures forall i :: 0 <= i < |line| ==> !line[i].optional && Spelled(line[i].name, fold)
  {
    hide Spelled;
  }

  /** A rule line that is not exact is decided wrongly for a command line of its switches and one more. */
  lemma LineCounterexample(rule: seq<Group>, args: seq<string>, fold: char -> char)
    returns (line: seq<Group>, argv: seq<string>)
    requires NoRepeat(rule) && Tokens(args, fold) == Line(rule) && Idempotent(fold)
    requires Steps(START, Line(rule)).Some? && !Exact(RuleOf(rule))
    ensures NoRepeat(line) && Tokens(argv, fold) == Line(line) && !DecidedRight(rule, line, fold)
  {
    hide Steps, Line, Exact, Matches, Accepts, AllNames, Counts, DecidedRight, RuleOf, NoRepeat, Named, Lowered, Tokens,
      Spelled, Spells, Bare;
    TypedNames(rule, args, fold);
    RuleNames(rule, args, fold);
    var r := RuleOf(rule);
    var x := FreshName(AllNames(r), fold('a'));
    LetterSpelled(x, fold);
    var s := Counterexample(r, x);
    line := LineOf(s);
    SpellsSpelled(line, s, AllNames(r), x, fold);
    argv := TypeLine(line, fold);
    TypedNames(line, argv, fold);
    SpellsCounts(line, s);
    DecidedIs(rule, line, fold);
  }

  /** For every list of arguments that can be parsed; EveryLine says that each is a line. */
  ghost predicate AlwaysDecidedRight(rule: seq<Group>, fold: char -> char) {
    forall line, argv :: NoRepeat(line) && Tokens(argv, fold) == Line(line) ==> DecidedRight(rule, line, fold)
  }

  /**
   A rule line, given as arguments, is decided as meant for all arguments of a command line if and only if the rule it
   stands for is exact.
   */
  lemma RuleLineIff(rule: seq<Group>, args: seq<string>, fold: char -> char)
    requires NoRepeat(rule) && Tokens(args, fold) == Line(rule) && Idempotent(fold)
    ensures Steps(START, Line(rule)).Some?
    ensures Exact(RuleOf(rule)) <==> AlwaysDecidedRight(rule, fold)
  {
    hide NoRepeat, Named, Lowered, DecidedRight, Steps, Exact, Line, Tokens;
    TypedNames(rule, args, fold);
    ParseLine(rule);
    if Exact(RuleOf(rule)) {
      forall line, argv | NoRepeat(line) && Tokens(argv, fold) == Line(line)
        ensures DecidedRight(rule, line, fold)
      {
        TypedNames(line, argv, fold);
        LineMatches(rule, line, fold);
      }
    } else {
      var line, argv := LineCounterexample(rule, args, fold);
    }
  }

  // ---------------------------------------------------------------- a rule line that is decided wrongly

  lemma OneLetter(c: char, fold: char -> char)
    requires c != ' ' && c != '/' && c != '-' && c != '%' && fold(c) == c
    ensures Classify(['/', c], fold) == Required([c]) && Classify(['[', '/', c], fold) == Optional([c])
  {
    var s := ['/', c];
    assert Trim(s) == s && Trim(['[', '/', c]) == ['[', '/', c] && Trim([c]) == [c];
    assert ['[', '/', c][1..] == s && s[1..] == [c];
    assert forall i: nat :: i <= |s| ==> !PartAt(s, i, " ") && !PartAt(s, i, "%20");
    assert Lower([c], fold) == [c];
  }

  /** The rule `/a [/a` and the command line `/a /b`. */
  const TWICE := [Group(false, "a", []), Group(true, "a", [])]
  const UNKNOWN := [Group(false, "a", []), Group(false, "b", [])]

  lemma TypedLines(fold: char -> char)
    requires fold('a') == 'a' && fold('b') == 'b'
    ensures Tokens(["/a", "[/a"], fold) == Line(TWICE) && Tokens(["/a", "/b"], fold) == Line(UNKNOWN)
  {
    OneLetter('a', fold);
    OneLetter('b', fold);
    hide Classify, Line;
    TwoArguments("/a", "[/a", TWICE[0], TWICE[1], fold);
    TwoArguments("/a", "/b", UNKNOWN[0], UNKNOWN[1], fold);
    assert TWICE == [TWICE[0], TWICE[1]] && UNKNOWN == [UNKNOWN[0], UNKNOWN[1]];
  }

  lemma TwoArguments(a: string, b: string, g: Group, h: Group, fold: char -> char)
    requires g.args == [] && h.args == []
    requires Classify(a, fold) == GroupTokens(g)[0] && Classify(b, fold) == GroupTokens(h)[0]
    ensures Tokens([a, b], fold) == Line([g, h])
  {
    hide Classify, Line;
    LineTwo(g, h);
  }

  lemma LineTwo(g: Group, h: Group)
    ensures Line([g, h]) == GroupTokens(g) + GroupTokens(h)
  {
    LineAppend([], g);
    LineAppend([g], h);
    assert [] + [g] == [g] && [g] + [h] == [g, h];
  }

  lemma TwiceRule()
    ensures NoRepeat(TWICE) && Named(TWICE) && Steps(START, Line(TWICE)).Some?
    ensures RuleOf(TWICE) == Rule([Param("a", 0)], [Param("a", 0)])
  {
    RuleOfLine(TWICE);
    var r := RuleOf(TWICE);
    var p := Param("a", 0);
    hide Steps, Line, RuleOf;
    assert HasGroup(TWICE, false, "a", 0) by { assert TWICE[0].name == "a"; }
    assert HasGroup(TWICE, true, "a", 0) by { assert TWICE[1].name == "a"; }
    OnlyParam(r.required, p);
    OnlyParam(r.optional, p);
  }

  lemma OnlyParam(params: seq<Param>, p: Param)
    requires Distinct(params) && forall q :: q in params <==> q == p
    ensures params == [p]
  {
    assert p in params;
    forall i | 0 <= i < |params|
      ensures params[i] == p
    {
      assert params[i] in params;
    }
    assert |params| > 1 ==> params[0].name != params[1].name;
  }

  /** An unknown switch is let through: the rule lists `a` both ways, and `b` stands on the line only. */
  lemma UnknownPasses(fold: char -> char)
    requires fold('a') == 'a' && fold('b') == 'b'
    ensures Tokens(["/a", "[/a"], fold) == Line(TWICE) && Tokens(["/a", "/b"], fold) == Line(UNKNOWN)
    ensures Steps(START, Line(TWICE)).Some? && Steps(START, Line(UNKNOWN)).Some?
    ensures Matches(Counts(RequiredOf(UNKNOWN)), LowerRule(RuleOf(TWICE), fold))
    ensures HasGroup(UNKNOWN, false, "b", 0) && !Meant(TWICE, UNKNOWN)
  {
    hide Steps, Line, Counts, RuleOf, Tokens;
    TypedLines(fold);
    TwiceRule();
    UnknownSpelt();
    assert LowerRule(RuleOf(TWICE), fold) == RuleOf(TWICE) by { assert Lower("a", fold) == "a"; }
    hide Lower, Matches, LowerRule;
    TwoSwitches(map["a" := 0, "b" := 0]);
    assert !HasGroup(TWICE, false, "b", 0) && !HasGroup(TWICE, true, "b", 0);
  }

  lemma UnknownSpelt()
    ensures NoRepeat(UNKNOWN) && Named(UNKNOWN) && Steps(START, Line(UNKNOWN)).Some?
    ensures Counts(RequiredOf(UNKNOWN)) == map["a" := 0, "b" := 0] && HasGroup(UNKNOWN, false, "b", 0)
  {
    hide Steps, Line, Counts;
    var s: Switches := map["a" := 0, "b" := 0];
    assert Spells(UNKNOWN, s) by {
      assert UNKNOWN[0].name == "a" && UNKNOWN[1].name == "b";
    }
    SpellsCounts(UNKNOWN, s);
    assert HasGroup(UNKNOWN, false, "b", 0) by { assert UNKNOWN[1].name == "b"; }
  }

  lemma TwoSwitches(s: Switches)
    requires s == map["a" := 0, "b" := 0]
    ensures Matches(s, Rule([Param("a", 0)], [Param("a", 0)]))
  {
    assert s.Keys == {"a", "b"};
    assert |s| == |s.Keys|;
  }

  /** What a rule accepts, switch by switch. */
  lemma AcceptsIs(s: Switches, rule: Rule)
    ensures Accepts(s, rule) <==>
            && (forall p: Param :: p in rule.required ==> Has(s, p))
            && (forall p: Param :: Has(s, p) ==> p in rule.required || p in rule.optional)
  {
    if Accepts(s, rule) {
      PresentNames(s, rule.required);
      forall p: Param | Has(s, p)
        ensures p in rule.required || p in rule.optional
      {
        if p.name !in Names(rule.required) {
          assert Allowed(s, p.name, rule.optional);
        }
      }
    }
    if && (forall p: Param :: p in rule.required ==> Has(s, p))
       && (forall p: Param :: Has(s, p) ==> p in rule.required || p in rule.optional) {
      forall i | 0 <= i < |rule.required|
        ensures Has(s, rule.required[i])
      {
        assert rule.required[i] in rule.required;
      }
      forall name | name in s && name !in Names(rule.required)
        ensures Allowed(s, name, rule.optional)
      {
        var p := Param(name, s[name]);
        assert Has(s, p);
        assert p !in rule.required;
        var i :| 0 <= i < |rule.optional| && rule.optional[i] == p;
      }
    }
  }
}
