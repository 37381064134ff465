/** Random trees from a grammar (mutators/grammar/grammar.cpp, GenerateTree). */
module Prng {
  const RAND_MAX: nat := 4294967295

  /** The next of the draws that are left, and those after it. */
  function First(draws: seq<nat>): nat {
    if draws == [] then RAND_MAX else draws[0]
  }

  function Later(draws: seq<nat>): (rest: seq<nat>)
    ensures |rest| <= |draws|
  {
    if draws == [] then [] else draws[1..]
  }

  /** A draw as a real in the closed interval from 0 to 1. */
  function Unit(draw: nat): (p: real)
    ensures p >= 0.0 && (draw == 0 ==> p == 0.0) && (draw == RAND_MAX ==> p == 1.0)
    ensures draw <= RAND_MAX ==> p <= 1.0
  {
    draw as real / RAND_MAX as real
  }

  predicate AreDraws(draws: seq<nat>) {
    forall i :: 0 <= i < |draws| ==> draws[i] <= RAND_MAX
  }

  /** A random number generator: any finite record of draws, after which it keeps
      returning its largest value.  Every terminating run draws as some such record
      does. */
  class PRNG {
    const draws: seq<nat>
    var next: nat

    constructor (draws: seq<nat>)
      requires AreDraws(draws)
      ensures this.draws == draws && Valid() && Rest() == draws
    {
      this.draws, next := draws, 0;
    }

    ghost predicate Valid()
      reads this
    {
      next <= |draws| && AreDraws(draws)
    }

    /** The draws that are left. */
    ghost function Rest(): (rest: seq<nat>)
      requires Valid()
      reads this
      ensures AreDraws(rest)
    {
      draws[next..]
    }

    method Rand() returns (r: nat)
      requires Valid()
      modifies this`next
      ensures Valid() && r <= RAND_MAX
      ensures r == First(old(Rest())) && Rest() == Later(old(Rest()))
      ensures next == old(next) + 1 || (next == old(next) && r == RAND_MAX)
    {
      if next < |draws| {
        r := draws[next];
        next := next + 1;
      } else {
        r := RAND_MAX;
      }
    }

    /** A real in the closed interval from 0 to 1. */
    method RandReal() returns (p: real)
      requires Valid()
      modifies this`next
      ensures Valid() && 0.0 <= p <= 1.0
      ensures p == Unit(First(old(Rest()))) && Rest() == Later(old(Rest()))
      ensures next == old(next) + 1 || (next == old(next) && p == 1.0)
    {
      var r := Rand();
      p := r as real / RAND_MAX as real;
    }
  }
}

module Generation {
  import opened Trees
  import opened Grammars
  import opened TreeNodes
  import opened Prng
  import opened Wrappers
  import S = GrammarSyntax
  import R = GrammarReader
  import T = GrammarTables

  const MAX_DEPTH: nat := 100
  const REPEAT_PROBABILITY: real := 0.75

  function PartId(part: RulePart): nat {
    if part.SymbolPart? then part.id else 0
  }

  /** The last of the first `k` parts that carries `id`, or -1. */
  function LastWithId(parts: seq<RulePart>, id: nat, k: nat): (j: int)
    requires k <= |parts|
    ensures -1 <= j < k
    ensures j >= 0 ==> PartId(parts[j]) == id
    ensures forall i :: j < i < k ==> PartId(parts[i]) != id
  {
    if k == 0 then -1 else if PartId(parts[k - 1]) == id then k - 1 else LastWithId(parts, id, k - 1)
  }

  /** The part that part `i` repeats, or -1 when it is generated afresh. */
  function Repeats(parts: seq<RulePart>, i: nat): (j: int)
    requires i < |parts|
    ensures -1 <= j < i
    ensures j >= 0 ==> PartId(parts[i]) != 0 && PartId(parts[j]) == PartId(parts[i])
  {
    if PartId(parts[i]) == 0 then -1 else LastWithId(parts, PartId(parts[i]), i)
  }

  /** The trees that `GenerateTree` may return for a symbol at a depth: no symbol below
      `MAX_DEPTH`, a rule whose number can be drawn, and each part with an `id` already
      used in its rule the same tree as the part it repeats. */
  ghost predicate Generated(g: Grammar, name: string, depth: nat, t: Value)
    decreases t
  {
    && depth <= MAX_DEPTH
    && t.tag == SYMBOL && t.text == name && name in g
    && if g[name].repeat then
         forall i :: 0 <= i < |t.kids| ==> Generated(g, g[name].repeatSymbol, depth + 1, t.kids[i])
       else
         exists r :: IsRule(g, name, r) && Expands(g, g[name].generators[r].parts, depth, t.kids)
  }

  predicate IsRule(g: Grammar, name: string, r: int)
    requires name in g
  {
    0 <= r < |g[name].generators| && r <= RAND_MAX
  }

  ghost predicate Expands(g: Grammar, parts: seq<RulePart>, depth: nat, kids: seq<Value>)
    decreases kids
  {
    |parts| == |kids| && forall i :: 0 <= i < |kids| ==> ExpandsAt(g, parts, depth, kids, i)
  }

  ghost predicate ExpandsAt(g: Grammar, parts: seq<RulePart>, depth: nat, kids: seq<Value>, i: nat)
    requires i < |kids| && i < |parts|
    decreases kids, 0
  {
    match parts[i]
    case StringPart(value) => kids[i] == Leaf(value)
    case SymbolPart(symbol, _, _) =>
      var j := Repeats(parts, i);
      if j >= 0 then kids[i] == kids[j] else Generated(g, symbol, depth + 1, kids[i])
  }

  // ---------- What a generated tree is ----------

  /** Parts of one rule that share an `id` name the same symbol. */
  predicate IdsNameOneSymbol(parts: seq<RulePart>) {
    forall i :: 0 <= i < |parts| && Repeats(parts, i) >= 0 ==>
      parts[i].SymbolPart? && parts[Repeats(parts, i)].SymbolPart? &&
      parts[i].symbol == parts[Repeats(parts, i)].symbol
  }

  ghost predicate IdConsistent(g: Grammar) {
    forall name, r :: name in g && 0 <= r < |g[name].generators| ==> IdsNameOneSymbol(g[name].generators[r].parts)
  }

  /** Equal ids, equal subtrees. */
  lemma {:induction false} SameIdSameTree(g: Grammar, parts: seq<RulePart>, depth: nat, kids: seq<Value>, i: nat, j: nat)
    requires Expands(g, parts, depth, kids) && i < j < |parts|
    requires PartId(parts[i]) == PartId(parts[j]) != 0
    ensures kids[i] == kids[j]
    decreases j
  {
    assert ExpandsAt(g, parts, depth, kids, j);
    var k := Repeats(parts, j);
    assert k >= i;
    if k > i {
      SameIdSameTree(g, parts, depth, kids, i, k);
    }
  }

  predicate ShareId(parts: seq<RulePart>, i: nat, j: nat)
    requires i < |parts| && j < |parts|
  {
    i != j && PartId(parts[i]) == PartId(parts[j]) != 0
  }

  /** Parts that share an `id` have equal subtrees. */
  ghost predicate IdsAgree(parts: seq<RulePart>, kids: seq<Value>) {
    |parts| == |kids| && forall i, j :: 0 <= i < |parts| && 0 <= j < |parts| && ShareId(parts, i, j) ==> kids[i] == kids[j]
  }

  lemma ExpansionIdsAgree(g: Grammar, parts: seq<RulePart>, depth: nat, kids: seq<Value>)
    requires Expands(g, parts, depth, kids)
    ensures IdsAgree(parts, kids)
  {
    forall i, j | 0 <= i < |parts| && 0 <= j < |parts| && ShareId(parts, i, j)
      ensures kids[i] == kids[j]
    {
      if i < j {
        SameIdSameTree(g, parts, depth, kids, i, j);
      } else {
        SameIdSameTree(g, parts, depth, kids, j, i);
      }
    }
  }

  /** A change of one child keeps that exactly when it is none or no other part shares the
      child's `id`. */
  lemma IdsStayEqualIff(parts: seq<RulePart>, kids: seq<Value>, i: nat, r: Value)
    requires IdsAgree(parts, kids) && i < |kids|
    ensures IdsAgree(parts, kids[i := r]) <==> r == kids[i] || forall j :: 0 <= j < |parts| ==> !ShareId(parts, i, j)
  {
    var after := kids[i := r];
    if IdsAgree(parts, after) {
      forall j | 0 <= j < |parts| && ShareId(parts, i, j)
        ensures r == kids[i]
      {
        assert after[i] == after[j];
      }
    }
    if r == kids[i] {
      assert after == kids;
    } else if forall j :: 0 <= j < |parts| ==> !ShareId(parts, i, j) {
      forall j, k | 0 <= j < |parts| && 0 <= k < |parts| && ShareId(parts, j, k)
        ensures after[j] == after[k]
      {
        assert ShareId(parts, k, j);
      }
    }
  }

  /** The children made from one rule are what the rule asks for exactly when parts that
      share an `id` name the same symbol: the generator copies the earlier child without
      looking at the symbol. */
  lemma {:induction false} ExpansionMatchesIff(g: Grammar, parts: seq<RulePart>, depth: nat, kids: seq<Value>)
    requires Expands(g, parts, depth, kids)
    requires forall i :: 0 <= i < |kids| && parts[i].SymbolPart? && Repeats(parts, i) < 0 ==>
      Derives(g, parts[i].symbol, kids[i])
    ensures Matches(g, parts, kids) <==> IdsNameOneSymbol(parts)
  {
    if IdsNameOneSymbol(parts) {
      ExpansionMatches(g, parts, depth, kids, |kids|);
    }
    if Matches(g, parts, kids) {
      MatchedIdsAgree(g, parts, depth, kids);
    }
  }

  lemma MatchedIdsAgree(g: Grammar, parts: seq<RulePart>, depth: nat, kids: seq<Value>)
    requires Expands(g, parts, depth, kids) && Matches(g, parts, kids)
    ensures IdsNameOneSymbol(parts)
  {
    forall i | 0 <= i < |parts| && Repeats(parts, i) >= 0
      ensures parts[Repeats(parts, i)].SymbolPart? && parts[i].SymbolPart?
      ensures parts[i].symbol == parts[Repeats(parts, i)].symbol
    {
      assert ExpandsAt(g, parts, depth, kids, i);
      var j := Repeats(parts, i);
      assert Derives(g, parts[i].symbol, kids[i]) && Derives(g, parts[j].symbol, kids[j]);
    }
  }

  /** A symbol whose only rule has parts of one `id` but different symbols never generates
      a derivation. */
  lemma DisagreementNeverDerives(g: Grammar, name: string, depth: nat, t: Value)
    requires Generated(g, name, depth, t) && !g[name].repeat
    requires |g[name].generators| == 1 && !IdsNameOneSymbol(g[name].generators[0].parts)
    ensures !Derives(g, name, t)
  {
    var parts := g[name].generators[0].parts;
    assert Expands(g, parts, depth, t.kids);
    hide Expands, IdsNameOneSymbol;
    if Matches(g, parts, t.kids) {
      MatchedIdsAgree(g, parts, depth, t.kids);
    }
  }

  lemma {:induction false} ExpansionMatches(g: Grammar, parts: seq<RulePart>, depth: nat, kids: seq<Value>, n: nat)
    requires Expands(g, parts, depth, kids) && IdsNameOneSymbol(parts) && n <= |kids|
    requires forall i :: 0 <= i < |kids| && parts[i].SymbolPart? && Repeats(parts, i) < 0 ==>
      Derives(g, parts[i].symbol, kids[i])
    ensures forall i :: 0 <= i < n ==>
      match parts[i]
      case StringPart(value) => kids[i] == Leaf(value)
      case SymbolPart(symbol, _, _) => Derives(g, symbol, kids[i])
  {
    if n > 0 {
      ExpansionMatches(g, parts, depth, kids, n - 1);
      assert ExpandsAt(g, parts, depth, kids, n - 1);
    }
  }

  /** Generated trees are derivations. */
  lemma {:induction false} GeneratedDerives(g: Grammar, name: string, depth: nat, t: Value)
    requires IdConsistent(g) && Generated(g, name, depth, t)
    ensures Derives(g, name, t)
    decreases t
  {
    if g[name].repeat {
      forall i | 0 <= i < |t.kids| ensures Derives(g, g[name].repeatSymbol, t.kids[i]) {
        GeneratedDerives(g, g[name].repeatSymbol, depth + 1, t.kids[i]);
      }
    } else {
      var r :| IsRule(g, name, r) && Expands(g, g[name].generators[r].parts, depth, t.kids);
      var parts := g[name].generators[r].parts;
      forall i | 0 <= i < |t.kids| && parts[i].SymbolPart? && Repeats(parts, i) < 0
        ensures Derives(g, parts[i].symbol, t.kids[i])
      {
        assert ExpandsAt(g, parts, depth, t.kids, i);
        GeneratedDerives(g, parts[i].symbol, depth + 1, t.kids[i]);
      }
      ExpansionMatchesIff(g, parts, depth, t.kids);
    }
  }

  /** No symbol node stands below the depth limit. */
  ghost predicate WithinDepth(t: Value, depth: nat) {
    t.tag != STRING ==> depth <= MAX_DEPTH && forall i :: 0 <= i < |t.kids| ==> WithinDepth(t.kids[i], depth + 1)
  }

  lemma {:induction false} GeneratedWithinDepth(g: Grammar, name: string, depth: nat, t: Value)
    requires Generated(g, name, depth, t)
    ensures WithinDepth(t, depth)
    decreases t
  {
    if g[name].repeat {
      forall i | 0 <= i < |t.kids| ensures WithinDepth(t.kids[i], depth + 1) {
        GeneratedWithinDepth(g, g[name].repeatSymbol, depth + 1, t.kids[i]);
      }
    } else {
      var r :| IsRule(g, name, r) && Expands(g, g[name].generators[r].parts, depth, t.kids);
      ExpansionWithinDepth(g, g[name].generators[r].parts, depth, t.kids, |t.kids|);
    }
  }

  lemma {:induction false} ExpansionWithinDepth(g: Grammar, parts: seq<RulePart>, depth: nat, kids: seq<Value>, n: nat)
    requires Expands(g, parts, depth, kids) && n <= |kids|
    ensures forall i :: 0 <= i < n ==> WithinDepth(kids[i], depth + 1)
    decreases kids, n
  {
    if n > 0 {
      ExpansionWithinDepth(g, parts, depth, kids, n - 1);
      assert ExpandsAt(g, parts, depth, kids, n - 1);
      if parts[n - 1].SymbolPart? && Repeats(parts, n - 1) < 0 {
        GeneratedWithinDepth(g, parts[n - 1].symbol, depth + 1, kids[n - 1]);
      }
    }
  }

  /** The grammar leads from the symbol past the depth limit, by parts that are not copies. */
  ghost predicate LeadsTooDeep(g: Grammar, name: string, depth: nat)
    decreases MAX_DEPTH + 1 - depth, 1
  {
    depth > MAX_DEPTH
    || (name in g && if g[name].repeat then LeadsTooDeep(g, g[name].repeatSymbol, depth + 1)
                     else exists r :: IsRule(g, name, r) && RuleTooDeep(g, g[name].generators[r].parts, depth))
  }

  ghost predicate RuleTooDeep(g: Grammar, parts: seq<RulePart>, depth: nat)
    requires depth <= MAX_DEPTH
    decreases MAX_DEPTH + 1 - depth, 0, 1
  {
    exists i :: 0 <= i < |parts| && PartTooDeep(g, parts, depth, i)
  }

  ghost predicate PartTooDeep(g: Grammar, parts: seq<RulePart>, depth: nat, i: nat)
    requires depth <= MAX_DEPTH && i < |parts|
    decreases MAX_DEPTH + 1 - depth, 0, 0
  {
    parts[i].SymbolPart? && Repeats(parts, i) < 0 && LeadsTooDeep(g, parts[i].symbol, depth + 1)
  }

  // ---------- The generator as a function of the draws ----------

  function Below(depth: nat): nat {
    if depth <= MAX_DEPTH then MAX_DEPTH + 1 - depth else 0
  }

  predicate GoesOn(draw: nat) {
    Unit(draw) <= REPEAT_PROBABILITY
  }

  /** The tree that these draws give for a symbol at a depth, if any, and the draws left. */
  ghost function Grow(g: Grammar, symbol: string, draws: seq<nat>, depth: nat): (r: (Option<Value>, seq<nat>))
    requires WellFormed(g) && symbol in g
    ensures |r.1| <= |draws|
    decreases Below(depth), 2, 0
  {
    if depth > MAX_DEPTH then (None, draws)
    else
      var (kids, rest) :=
        if g[symbol].repeat then GrowRepeated(g, g[symbol].repeatSymbol, draws, depth)
        else GrowParts(g, RuleFor(g, symbol, First(draws)), [], Later(draws), depth);
      (if kids.None? then None else Some(Node((), SYMBOL, symbol, kids.value)), rest)
  }

  /** The parts of the rule that a draw selects. */
  ghost function RuleFor(g: Grammar, symbol: string, draw: nat): (parts: seq<RulePart>)
    requires WellFormed(g) && symbol in g && !g[symbol].repeat
    ensures ClosedParts(g, parts)
  {
    g[symbol].generators[draw % |g[symbol].generators|].parts
  }

  /** Trees for the repeated symbol, one for each draw that says to go on. */
  ghost function GrowRepeated(g: Grammar, symbol: string, draws: seq<nat>, depth: nat): (r: (Option<seq<Value>>, seq<nat>))
    requires WellFormed(g) && symbol in g && depth <= MAX_DEPTH
    ensures |r.1| <= |draws|
    decreases Below(depth), 1, |draws|
  {
    if !GoesOn(First(draws)) then (Some([]), Later(draws))
    else
      var (child, rest) := Grow(g, symbol, Later(draws), depth + 1);
      if child.None? then (None, rest)
      else Prepend([child.value], GrowRepeated(g, symbol, rest, depth))
  }

  /** The result with these trees in front of it. */
  ghost function Prepend(kids: seq<Value>, r: (Option<seq<Value>>, seq<nat>)): (Option<seq<Value>>, seq<nat>) {
    (if r.0.None? then None else Some(kids + r.0.value), r.1)
  }

  /** The parts of a rule from the first that is not done on. */
  ghost function GrowParts(g: Grammar, parts: seq<RulePart>, done: seq<Value>, draws: seq<nat>, depth: nat)
      : (r: (Option<seq<Value>>, seq<nat>))
    requires WellFormed(g) && ClosedParts(g, parts) && |done| <= |parts| && depth <= MAX_DEPTH
    ensures |r.1| <= |draws|
    decreases Below(depth), 1, |parts| - |done|
  {
    var k := |done|;
    if k == |parts| then (Some(done), draws)
    else match parts[k]
      case StringPart(value) => GrowParts(g, parts, done + [Leaf(value)], draws, depth)
      case SymbolPart(symbol, _, _) =>
        if Repeats(parts, k) >= 0 then GrowParts(g, parts, done + [done[Repeats(parts, k)]], draws, depth)
        else
          var (child, rest) := Grow(g, symbol, draws, depth + 1);
          if child.None? then (None, rest) else GrowParts(g, parts, done + [child.value], rest, depth)
  }

  // ---------- A grammar whose ids name two symbols ----------

  /** `<root> = <a id=1><b id=1>`, with a terminal for `a` and one for `b`. */
  function TwoNames(): seq<Rule> {
    var attributes := map["id" := S.Decimal(1)];
    [Rule("root", [SymbolPart("a", 1, attributes), SymbolPart("b", 1, attributes)]),
     Rule("a", [StringPart("x")]),
     Rule("b", [StringPart("y")])]
  }

  function TwoNamesTable(): Grammar {
    map["root" := Symbol(false, "", false, false, [TwoNames()[0]]),
        "a" := Symbol(false, "", false, true, [TwoNames()[1]]),
        "b" := Symbol(false, "", false, true, [TwoNames()[2]])]
  }

  predicate AllPrintable(rules: seq<Rule>) {
    forall i :: 0 <= i < |rules| ==> S.IsPrintableRule(rules[i])
  }

  function AddRules(g: Grammar, rules: seq<Rule>): Grammar
    decreases |rules|
  {
    if rules == [] then g else AddRules(S.AddRule(S.Mention(g, rules[0].parts), rules[0]), rules[1..])
  }

  /** A printed grammar is read rule by rule. */
  lemma {:induction false} ReadPrinted(g: Grammar, rules: seq<Rule>)
    requires AllPrintable(rules)
    ensures R.ReadLines(g, T.Printed(rules)) == Some(AddRules(g, rules))
    decreases |rules|
  {
    if rules != [] {
      hide S.IsPrintableRule, S.PrintRule, S.ParseLine, S.AddRule, S.Mention;
      S.ParsePrinted(g, rules[0]);
      ReadPrinted(S.AddRule(S.Mention(g, rules[0].parts), rules[0]), rules[1..]);
      assert T.Printed(rules)[1..] == T.Printed(rules[1..]);
    }
  }

  lemma TwoNamesPrintable()
    ensures AllPrintable(TwoNames())
  {
    hide S.Decimal, S.IsPrintableRule;
    RootPrintable();
    TerminalPrintable(TwoNames()[1]);
    TerminalPrintable(TwoNames()[2]);
  }

  lemma RootPrintable()
    ensures S.IsPrintableRule(TwoNames()[0])
  {
    hide S.Decimal;
    NameIsPlain('a');
    NameIsPlain('b');
    hide S.IsSymbolName;
  }

  lemma TerminalPrintable(rule: Rule)
    requires rule.generates in ["a", "b"] && rule.parts in [[StringPart("x")], [StringPart("y")]]
    ensures S.IsPrintableRule(rule)
  {
  }

  lemma NameIsPlain(c: char)
    requires 'a' <= c <= 'z'
    ensures S.IsSymbolName([c])
  {
  }

  lemma RuleAdded(g: Grammar, rule: Rule)
    requires rule.generates in g && g[rule.generates].generators == []
    ensures S.AddRule(g, rule) == g[rule.generates := g[rule.generates].(generators := [rule])]
  {
    assert [] + [rule] == [rule];
  }

  lemma FirstRuleAdded(g: Grammar, rule: Rule)
    requires rule.generates !in g && !S.HasPrefix(rule.generates, S.REPEAT_PREFIX)
    ensures S.AddRule(g, rule) == g[rule.generates := Symbol(false, "", false, false, [rule])]
  {
    assert [] + [rule] == [rule];
  }

  lemma SymbolMentioned(g: Grammar, part: RulePart)
    requires part.SymbolPart? && part.symbol !in g && !S.HasPrefix(part.symbol, S.REPEAT_PREFIX)
    ensures S.Mention(g, [part]) == g[part.symbol := Symbol(false, "", false, true, [])]
  {
    assert [part][1..] == [];
  }

  lemma RootAdded(root: Rule)
    requires root.generates == "root" && |root.parts| == 2 && root.parts[0].SymbolPart? && root.parts[1].SymbolPart?
    requires root.parts[0].symbol == "a" && root.parts[1].symbol == "b"
    ensures var used := Symbol(false, "", false, true, []);
            S.AddRule(S.Mention(map[], root.parts), root)
            == map["a" := used, "b" := used, "root" := Symbol(false, "", false, false, [root])]
  {
    hide S.AddRule, S.GetOrCreate, S.Mention;
    var used := Symbol(false, "", false, true, []);
    SymbolMentioned(map[], root.parts[0]);
    SymbolMentioned(map["a" := used], root.parts[1]);
    S.MentionConcat(map[], [root.parts[0]], root.parts[1]);
    assert root.parts == [root.parts[0]] + [root.parts[1]];
    FirstRuleAdded(map["a" := used, "b" := used], root);
  }

  lemma TerminalRuleAdded(g: Grammar, rule: Rule)
    requires rule.generates in g && g[rule.generates].generators == []
    requires |rule.parts| == 1 && rule.parts[0].StringPart?
    ensures S.AddRule(S.Mention(g, rule.parts), rule) == g[rule.generates := g[rule.generates].(generators := [rule])]
  {
    assert rule.parts[1..] == [];
    hide S.AddRule;
    RuleAdded(g, rule);
  }

  lemma TwoNamesAdded()
    ensures AddRules(map[], TwoNames()) == TwoNamesTable()
  {
    hide S.Decimal, S.AddRule, S.Mention;
    var rules := TwoNames();
    var (root, a, b) := (rules[0], rules[1], rules[2]);
    assert rules == [root, a, b];
    assert a.generates == "a" && b.generates == "b";
    RootAdded(root);
    AddThree(map[], root, a, b);
    var h := TwoNamesTable();
    assert h == map["root" := Symbol(false, "", false, false, [root]),
                    "a" := Symbol(false, "", false, true, [a]), "b" := Symbol(false, "", false, true, [b])];
    hide TwoNames, AddRules, TwoNamesTable;
    var g0 := S.AddRule(S.Mention(map[], root.parts), root);
    TerminalRuleAdded(g0, a);
    var g1 := S.AddRule(S.Mention(g0, a.parts), a);
    TerminalRuleAdded(g1, b);
  }

  lemma AddThree(g: Grammar, r0: Rule, r1: Rule, r2: Rule)
    ensures var g0 := S.AddRule(S.Mention(g, r0.parts), r0);
            var g1 := S.AddRule(S.Mention(g0, r1.parts), r1);
            AddRules(g, [r0, r1, r2]) == S.AddRule(S.Mention(g1, r2.parts), r2)
  {
    hide S.AddRule, S.Mention;
    assert [r0, r1, r2][1..] == [r1, r2] && [r1, r2][1..] == [r2] && [r2][1..] == [];
    var g0 := S.AddRule(S.Mention(g, r0.parts), r0);
    var g1 := S.AddRule(S.Mention(g0, r1.parts), r1);
    var g2 := S.AddRule(S.Mention(g1, r2.parts), r2);
    assert AddRules(g1, [r2]) == AddRules(g2, []) == g2;
    assert AddRules(g, [r0, r1, r2]) == AddRules(g0, [r1, r2]) == AddRules(g1, [r2]);
  }

  lemma TerminalsAreShallow(g: Grammar, name: string, depth: nat)
    requires depth <= MAX_DEPTH && name in g && !g[name].repeat
    requires forall r, i :: 0 <= r < |g[name].generators| && 0 <= i < |g[name].generators[r].parts| ==>
      g[name].generators[r].parts[i].StringPart?
    ensures !LeadsTooDeep(g, name, depth)
  {
    forall r | IsRule(g, name, r)
      ensures !RuleTooDeep(g, g[name].generators[r].parts, depth)
    {
    }
  }

  lemma OneRuleIsShallow(g: Grammar, name: string, depth: nat)
    requires depth <= MAX_DEPTH && name in g && !g[name].repeat && |g[name].generators| == 1
    requires forall part :: part in g[name].generators[0].parts && part.SymbolPart? ==>
      !LeadsTooDeep(g, part.symbol, depth + 1)
    ensures !LeadsTooDeep(g, name, depth)
  {
    var parts := g[name].generators[0].parts;
    forall i | 0 <= i < |parts|
      ensures !PartTooDeep(g, parts, depth, i)
    {
      assert parts[i] in parts;
    }
    assert !RuleTooDeep(g, parts, depth);
  }

  lemma TwoNamesShallow()
    ensures !LeadsTooDeep(TwoNamesTable(), "root", 0)
  {
    hide S.Decimal, LeadsTooDeep;
    var g := TwoNamesTable();
    TerminalsAreShallow(g, "a", 1);
    TerminalsAreShallow(g, "b", 1);
    OneRuleIsShallow(g, "root", 0);
  }

  lemma TwoNamesDisagree()
    ensures !IdsNameOneSymbol(TwoNames()[0].parts)
  {
    hide S.Decimal;
    var parts := TwoNames()[0].parts;
    assert LastWithId(parts, 1, 1) == 0;
    assert Repeats(parts, 1) == 0;
  }

  /** Without the agreement on ids the generator leaves the grammar: this one is accepted,
      generation from it never fails, and no tree that it generates is a derivation. */
  lemma GeneratedNeedsConsistentIds()
    ensures AllPrintable(TwoNames())
    ensures var read := R.ReadLines(map[], T.Printed(TwoNames()));
            && read.Some?
            && var g := R.Analyzed(read.value);
               && R.Checked(g) && WellFormed(g) && !LeadsTooDeep(g, "root", 0)
               && forall t :: Generated(g, "root", 0, t) ==> !Derives(g, "root", t)
  {
    TwoNamesPrintable();
    ReadPrinted(map[], TwoNames());
    TwoNamesAdded();
    var g := TwoNamesTable();
    TwoNamesShallow();
    TwoNamesDisagree();
    TwoNamesAnalyzed();
    hide S.IsPrintableRule, T.Printed, AddRules, WellFormed, R.ReadLines, R.Analyzed, R.Checked, LeadsTooDeep;
    hide IdsNameOneSymbol, TwoNames, Generated, Derives;
    R.ReadIsWellFormed(T.Printed(TwoNames()));
    forall t | Generated(g, "root", 0, t)
      ensures !Derives(g, "root", t)
    {
      DisagreementNeverDerives(g, "root", 0, t);
    }
  }

  lemma TwoNamesAnalyzed()
    ensures R.Analyzed(TwoNamesTable()) == TwoNamesTable() && R.Checked(TwoNamesTable())
  {
    hide S.Decimal;
  }

  // ---------- All trees, and all failures ----------

  /** Whatever the draws, a tree is one of the generated ones, and none is given only when
      the grammar leads too deep. */
  lemma {:induction false} GrownIsGenerated(g: Grammar, symbol: string, draws: seq<nat>, depth: nat)
    requires WellFormed(g) && symbol in g && AreDraws(draws)
    ensures AreDraws(Grow(g, symbol, draws, depth).1)
    ensures match Grow(g, symbol, draws, depth).0
            case Some(t) => Generated(g, symbol, depth, t)
            case None => LeadsTooDeep(g, symbol, depth)
    decreases Below(depth), 2, 0
  {
    hide WellFormed, Generated, LeadsTooDeep, RuleFor, IsRule;
    if depth > MAX_DEPTH {
      TooDeepAtOnce(g, symbol, depth);
    } else if g[symbol].repeat {
      var target := g[symbol].repeatSymbol;
      WellFormedParts(g, symbol);
      GrownRepeated(g, target, draws, depth);
      RepeatGenerated(g, symbol, depth, GrowRepeated(g, target, draws, depth).0);
    } else {
      var parts := RuleFor(g, symbol, First(draws));
      GrownParts(g, parts, [], Later(draws), depth);
      RuleIsDrawn(g, symbol, First(draws));
      RuleGenerated(g, symbol, First(draws), depth, GrowParts(g, parts, [], Later(draws), depth).0);
    }
  }

  lemma WellFormedParts(g: Grammar, symbol: string)
    requires WellFormed(g) && symbol in g
    ensures if g[symbol].repeat then g[symbol].repeatSymbol in g
            else |g[symbol].generators| > 0 && forall r :: 0 <= r < |g[symbol].generators| ==>
                   ClosedParts(g, g[symbol].generators[r].parts)
  {
  }

  lemma TooDeepAtOnce(g: Grammar, symbol: string, depth: nat)
    requires depth > MAX_DEPTH
    ensures LeadsTooDeep(g, symbol, depth)
  {
  }

  lemma RuleIsDrawn(g: Grammar, symbol: string, draw: nat)
    requires WellFormed(g) && symbol in g && !g[symbol].repeat && draw <= RAND_MAX
    ensures exists r :: IsRule(g, symbol, r) && RuleFor(g, symbol, draw) == g[symbol].generators[r].parts
  {
    assert IsRule(g, symbol, draw % |g[symbol].generators|);
  }

  lemma RepeatGenerated(g: Grammar, symbol: string, depth: nat, kids: Option<seq<Value>>)
    requires symbol in g && g[symbol].repeat && depth <= MAX_DEPTH
    requires kids.None? ==> LeadsTooDeep(g, g[symbol].repeatSymbol, depth + 1)
    requires kids.Some? ==> forall i :: 0 <= i < |kids.value| ==> Generated(g, g[symbol].repeatSymbol, depth + 1, kids.value[i])
    ensures match kids
            case Some(kids) => Generated(g, symbol, depth, Node((), SYMBOL, symbol, kids))
            case None => LeadsTooDeep(g, symbol, depth)
  {
  }

  lemma RuleGenerated(g: Grammar, symbol: string, draw: nat, depth: nat, kids: Option<seq<Value>>)
    requires WellFormed(g) && symbol in g && !g[symbol].repeat && depth <= MAX_DEPTH
    requires exists r :: IsRule(g, symbol, r) && RuleFor(g, symbol, draw) == g[symbol].generators[r].parts
    requires kids.None? ==> RuleTooDeep(g, RuleFor(g, symbol, draw), depth)
    requires kids.Some? ==> Expands(g, RuleFor(g, symbol, draw), depth, kids.value)
    ensures match kids
            case Some(kids) => Generated(g, symbol, depth, Node((), SYMBOL, symbol, kids))
            case None => LeadsTooDeep(g, symbol, depth)
  {
    hide WellFormed, RuleFor, Expands, RuleTooDeep;
  }

  lemma {:induction false} GrownRepeated(g: Grammar, symbol: string, draws: seq<nat>, depth: nat)
    requires WellFormed(g) && symbol in g && depth <= MAX_DEPTH && AreDraws(draws)
    ensures AreDraws(GrowRepeated(g, symbol, draws, depth).1)
    ensures match GrowRepeated(g, symbol, draws, depth).0
            case Some(kids) => forall i :: 0 <= i < |kids| ==> Generated(g, symbol, depth + 1, kids[i])
            case None => LeadsTooDeep(g, symbol, depth + 1)
    decreases Below(depth), 1, |draws|
  {
    hide WellFormed, Generated, LeadsTooDeep, Grow;
    if GoesOn(First(draws)) {
      GrownIsGenerated(g, symbol, Later(draws), depth + 1);
      var (child, rest) := Grow(g, symbol, Later(draws), depth + 1);
      if child.Some? {
        GrownRepeated(g, symbol, rest, depth);
      }
    }
  }

  lemma {:induction false} GrownParts(g: Grammar, parts: seq<RulePart>, done: seq<Value>, draws: seq<nat>, depth: nat)
    requires WellFormed(g) && ClosedParts(g, parts) && |done| <= |parts| && depth <= MAX_DEPTH && AreDraws(draws)
    requires forall i :: 0 <= i < |done| ==> ExpandsAt(g, parts, depth, done, i)
    ensures AreDraws(GrowParts(g, parts, done, draws, depth).1)
    ensures match GrowParts(g, parts, done, draws, depth).0
            case Some(kids) => Expands(g, parts, depth, kids)
            case None => RuleTooDeep(g, parts, depth)
    decreases Below(depth), 1, |parts| - |done|
  {
    hide WellFormed, Generated, LeadsTooDeep, Grow;
    var k := |done|;
    if k < |parts| {
      match parts[k] {
        case StringPart(value) =>
          OneMoreExpands(g, parts, depth, done, Leaf(value));
          GrownParts(g, parts, done + [Leaf(value)], draws, depth);
        case SymbolPart(symbol, _, _) =>
          if Repeats(parts, k) >= 0 {
            OneMoreExpands(g, parts, depth, done, done[Repeats(parts, k)]);
            GrownParts(g, parts, done + [done[Repeats(parts, k)]], draws, depth);
          } else {
            GrownIsGenerated(g, symbol, draws, depth + 1);
            var (child, rest) := Grow(g, symbol, draws, depth + 1);
            if child.Some? {
              OneMoreExpands(g, parts, depth, done, child.value);
              GrownParts(g, parts, done + [child.value], rest, depth);
            } else {
              assert PartTooDeep(g, parts, depth, k);
            }
          }
      }
    }
  }

  lemma OneMoreExpands(g: Grammar, parts: seq<RulePart>, depth: nat, done: seq<Value>, kid: Value)
    requires |done| < |parts| && forall i :: 0 <= i < |done| ==> ExpandsAt(g, parts, depth, done, i)
    requires match parts[|done|]
             case StringPart(value) => kid == Leaf(value)
             case SymbolPart(symbol, _, _) =>
               var j := Repeats(parts, |done|);
               if j >= 0 then kid == done[j] else Generated(g, symbol, depth + 1, kid)
    ensures forall i :: 0 <= i <= |done| ==> ExpandsAt(g, parts, depth, done + [kid], i)
  {
    hide Generated;
    forall i | 0 <= i < |done|
      ensures ExpandsAt(g, parts, depth, done + [kid], i)
    {
      assert ExpandsAt(g, parts, depth, done, i);
    }
  }

  /** These draws give this result, whatever follows them, and no others are used. */
  ghost predicate Yields(g: Grammar, symbol: string, depth: nat, draws: seq<nat>, result: Option<Value>)
    requires WellFormed(g) && symbol in g
  {
    AreDraws(draws) && forall more :: Grow(g, symbol, draws + more, depth) == (result, more)
  }

  ghost predicate YieldsRepeated(g: Grammar, symbol: string, depth: nat, draws: seq<nat>, result: Option<seq<Value>>)
    requires WellFormed(g) && symbol in g && depth <= MAX_DEPTH
  {
    AreDraws(draws) && forall more :: GrowRepeated(g, symbol, draws + more, depth) == (result, more)
  }

  ghost predicate YieldsParts(g: Grammar, parts: seq<RulePart>, done: seq<Value>, depth: nat, draws: seq<nat>,
                              result: Option<seq<Value>>)
    requires WellFormed(g) && ClosedParts(g, parts) && |done| <= |parts| && depth <= MAX_DEPTH
  {
    AreDraws(draws) && forall more :: GrowParts(g, parts, done, draws + more, depth) == (result, more)
  }

  lemma YieldsOfRepeat(g: Grammar, symbol: string, depth: nat, draws: seq<nat>, kids: Option<seq<Value>>)
    requires WellFormed(g) && symbol in g && g[symbol].repeat && depth <= MAX_DEPTH
    requires g[symbol].repeatSymbol in g && YieldsRepeated(g, g[symbol].repeatSymbol, depth, draws, kids)
    ensures Yields(g, symbol, depth, draws, if kids.None? then None else Some(Node((), SYMBOL, symbol, kids.value)))
  {
    hide WellFormed, GrowRepeated;
  }

  lemma YieldsOfRule(g: Grammar, symbol: string, depth: nat, r: nat, draws: seq<nat>, kids: Option<seq<Value>>)
    requires WellFormed(g) && symbol in g && !g[symbol].repeat && depth <= MAX_DEPTH && IsRule(g, symbol, r)
    requires var parts := g[symbol].generators[r].parts;
             ClosedParts(g, parts) && YieldsParts(g, parts, [], depth, draws, kids)
    ensures Yields(g, symbol, depth, [r] + draws, if kids.None? then None else Some(Node((), SYMBOL, symbol, kids.value)))
  {
    hide WellFormed, GrowParts, ClosedParts;
    var all, parts := [r] + draws, g[symbol].generators[r].parts;
    assert RuleFor(g, symbol, r) == parts;
    forall more
      ensures Grow(g, symbol, all + more, depth)
              == (if kids.None? then None else Some(Node((), SYMBOL, symbol, kids.value)), more)
    {
      assert First(all + more) == r && Later(all + more) == draws + more;
      assert GrowParts(g, parts, [], draws + more, depth) == (kids, more);
    }
  }

  /** One more tree for a repeated symbol, or none. */
  lemma YieldsOneMore(g: Grammar, symbol: string, depth: nat, first: seq<nat>, child: Option<Value>, draws: seq<nat>,
                      kids: Option<seq<Value>>)
    requires WellFormed(g) && symbol in g && depth <= MAX_DEPTH && Yields(g, symbol, depth + 1, first, child)
    requires if child.Some? then YieldsRepeated(g, symbol, depth, draws, kids) else draws == [] && kids.None?
    ensures YieldsRepeated(g, symbol, depth, [0] + first + draws,
                           if kids.None? then None else Some([child.value] + kids.value))
  {
    hide WellFormed, Grow;
    var all := [0] + first + draws;
    forall more
      ensures GrowRepeated(g, symbol, all + more, depth)
              == (if kids.None? then None else Some([child.value] + kids.value), more)
    {
      assert First(all + more) == 0 && Later(all + more) == first + (draws + more);
      assert Grow(g, symbol, first + (draws + more), depth + 1) == (child, draws + more);
      if child.Some? {
        assert GrowRepeated(g, symbol, draws + more, depth) == (kids, more);
      } else {
        assert draws + more == more;
      }
    }
  }

  lemma YieldsNoMore(g: Grammar, symbol: string, depth: nat)
    requires WellFormed(g) && symbol in g && depth <= MAX_DEPTH
    ensures YieldsRepeated(g, symbol, depth, [RAND_MAX], Some([]))
  {
    hide WellFormed;
    forall more
      ensures GrowRepeated(g, symbol, [RAND_MAX] + more, depth) == (Some([]), more)
    {
      assert First([RAND_MAX] + more) == RAND_MAX && Later([RAND_MAX] + more) == more;
    }
  }

  /** The next part of a rule takes no draws. */
  lemma YieldsGiven(g: Grammar, parts: seq<RulePart>, done: seq<Value>, depth: nat, kid: Value, draws: seq<nat>,
                    kids: Option<seq<Value>>)
    requires WellFormed(g) && ClosedParts(g, parts) && |done| < |parts| && depth <= MAX_DEPTH
    requires match parts[|done|]
             case StringPart(value) => kid == Leaf(value)
             case SymbolPart(symbol, _, _) => Repeats(parts, |done|) >= 0 && kid == done[Repeats(parts, |done|)]
    requires YieldsParts(g, parts, done + [kid], depth, draws, kids)
    ensures YieldsParts(g, parts, done, depth, draws, kids)
  {
    hide WellFormed, ClosedParts, Grow;
    forall more
      ensures GrowParts(g, parts, done, draws + more, depth) == (kids, more)
    {
      assert GrowParts(g, parts, done + [kid], draws + more, depth) == (kids, more);
    }
  }

  /** The next part of a rule is generated, or cannot be. */
  lemma YieldsFresh(g: Grammar, parts: seq<RulePart>, done: seq<Value>, depth: nat, first: seq<nat>, child: Option<Value>,
                    draws: seq<nat>, kids: Option<seq<Value>>)
    requires WellFormed(g) && ClosedParts(g, parts) && |done| < |parts| && depth <= MAX_DEPTH
    requires parts[|done|].SymbolPart? && Repeats(parts, |done|) < 0
    requires Yields(g, parts[|done|].symbol, depth + 1, first, child)
    requires if child.Some? then YieldsParts(g, parts, done + [child.value], depth, draws, kids) else draws == [] && kids.None?
    ensures YieldsParts(g, parts, done, depth, first + draws, kids)
  {
    hide WellFormed, Grow;
    forall more
      ensures GrowParts(g, parts, done, first + draws + more, depth) == (kids, more)
    {
      assert first + draws + more == first + (draws + more);
      assert Grow(g, parts[|done|].symbol, first + (draws + more), depth + 1) == (child, draws + more);
      if child.Some? {
        assert GrowParts(g, parts, done + [child.value], draws + more, depth) == (kids, more);
      } else {
        assert draws + more == more;
      }
    }
  }

  /** For every tree in `Generated` there are draws that give it. */
  lemma {:induction false} CanYield(g: Grammar, symbol: string, depth: nat, t: Value) returns (draws: seq<nat>)
    requires WellFormed(g) && symbol in g && Generated(g, symbol, depth, t)
    ensures Yields(g, symbol, depth, draws, Some(t))
    decreases t
  {
    hide WellFormed, Yields, YieldsRepeated, YieldsParts;
    WellFormedParts(g, symbol);
    OneUnit(t.id);
    if g[symbol].repeat {
      draws := CanYieldAll(g, g[symbol].repeatSymbol, depth, t.kids);
      YieldsOfRepeat(g, symbol, depth, draws, Some(t.kids));
    } else {
      var r: nat :| IsRule(g, symbol, r) && Expands(g, g[symbol].generators[r].parts, depth, t.kids);
      var more := CanYieldParts(g, g[symbol].generators[r].parts, depth, t.kids, 0);
      assert t.kids[..0] == [];
      YieldsOfRule(g, symbol, depth, r, more, Some(t.kids));
      draws := [r] + more;
    }
  }

  lemma {:induction false} CanYieldAll(g: Grammar, symbol: string, depth: nat, kids: seq<Value>) returns (draws: seq<nat>)
    requires WellFormed(g) && symbol in g && depth <= MAX_DEPTH
    requires forall i :: 0 <= i < |kids| ==> Generated(g, symbol, depth + 1, kids[i])
    ensures YieldsRepeated(g, symbol, depth, draws, Some(kids))
    decreases kids
  {
    hide WellFormed, Yields, YieldsRepeated, Generated;
    if kids == [] {
      YieldsNoMore(g, symbol, depth);
      draws := [RAND_MAX];
    } else {
      var first := CanYield(g, symbol, depth + 1, kids[0]);
      var more := CanYieldAll(g, symbol, depth, kids[1..]);
      YieldsOneMore(g, symbol, depth, first, Some(kids[0]), more, Some(kids[1..]));
      assert [kids[0]] + kids[1..] == kids;
      draws := [0] + first + more;
    }
  }

  lemma {:induction false} CanYieldParts(g: Grammar, parts: seq<RulePart>, depth: nat, kids: seq<Value>, k: nat)
    returns (draws: seq<nat>)
    requires WellFormed(g) && ClosedParts(g, parts) && depth <= MAX_DEPTH && Expands(g, parts, depth, kids) && k <= |kids|
    ensures YieldsParts(g, parts, kids[..k], depth, draws, Some(kids))
    decreases kids, |kids| - k
  {
    hide WellFormed, Yields, YieldsParts, Generated;
    if k == |kids| {
      assert kids[..k] == kids;
      YieldsDone(g, parts, kids, depth);
      draws := [];
    } else {
      assert ExpandsAt(g, parts, depth, kids, k);
      assert kids[..k] + [kids[k]] == kids[..k + 1];
      var more := CanYieldParts(g, parts, depth, kids, k + 1);
      if parts[k].SymbolPart? && Repeats(parts, k) < 0 {
        var first := CanYield(g, parts[k].symbol, depth + 1, kids[k]);
        YieldsFresh(g, parts, kids[..k], depth, first, Some(kids[k]), more, Some(kids));
        draws := first + more;
      } else {
        YieldsGiven(g, parts, kids[..k], depth, kids[k], more, Some(kids));
        draws := more;
      }
    }
  }

  lemma YieldsDone(g: Grammar, parts: seq<RulePart>, kids: seq<Value>, depth: nat)
    requires WellFormed(g) && ClosedParts(g, parts) && |kids| == |parts| && depth <= MAX_DEPTH
    ensures YieldsParts(g, parts, kids, depth, [], Some(kids))
  {
    hide WellFormed, ClosedParts;
    forall more: seq<nat>
      ensures GrowParts(g, parts, kids, [] + more, depth) == (Some(kids), more)
    {
      assert [] + more == more;
    }
  }

  lemma DeepPart(g: Grammar, parts: seq<RulePart>, depth: nat) returns (i: nat)
    requires depth <= MAX_DEPTH && RuleTooDeep(g, parts, depth)
    ensures i < |parts| && PartTooDeep(g, parts, depth, i)
  {
    i :| 0 <= i < |parts| && PartTooDeep(g, parts, depth, i);
  }

  /** When the grammar leads too deep there are draws for which generation fails. */
  lemma {:induction false} CanFail(g: Grammar, symbol: string, depth: nat) returns (draws: seq<nat>)
    requires WellFormed(g) && symbol in g && LeadsTooDeep(g, symbol, depth)
    ensures Yields(g, symbol, depth, draws, None)
    decreases Below(depth), 1, 0
  {
    hide WellFormed, YieldsRepeated, YieldsParts;
    WellFormedParts(g, symbol);
    if depth > MAX_DEPTH {
      draws := [];
      assert forall more: seq<nat> :: [] + more == more;
    } else if g[symbol].repeat {
      hide Yields;
      var target := g[symbol].repeatSymbol;
      var first := CanFail(g, target, depth + 1);
      YieldsOneMore(g, target, depth, first, None, [], None);
      YieldsOfRepeat(g, symbol, depth, [0] + first + [], None);
      draws := [0] + first + [];
    } else {
      hide Yields;
      var r: nat :| IsRule(g, symbol, r) && RuleTooDeep(g, g[symbol].generators[r].parts, depth);
      var parts := g[symbol].generators[r].parts;
      var i := DeepPart(g, parts, depth);
      var more := CanFailParts(g, parts, [], depth, i);
      YieldsOfRule(g, symbol, depth, r, more, None);
      draws := [r] + more;
    }
  }

  lemma {:induction false} CanFailParts(g: Grammar, parts: seq<RulePart>, done: seq<Value>, depth: nat, i: nat)
    returns (draws: seq<nat>)
    requires WellFormed(g) && ClosedParts(g, parts) && depth <= MAX_DEPTH
    requires |done| <= i < |parts| && PartTooDeep(g, parts, depth, i)
    ensures YieldsParts(g, parts, done, depth, draws, None)
    decreases Below(depth), 0, i - |done|
  {
    hide WellFormed, Yields, YieldsParts, LeadsTooDeep, Generated;
    var k := |done|;
    if parts[k].SymbolPart? && Repeats(parts, k) < 0 {
      var symbol := parts[k].symbol;
      if LeadsTooDeep(g, symbol, depth + 1) {
        var first := CanFail(g, symbol, depth + 1);
        YieldsFresh(g, parts, done, depth, first, None, [], None);
        draws := first + [];
      } else {
        GrownIsGenerated(g, symbol, [], depth + 1);
        var t := Grow(g, symbol, [], depth + 1).0.value;
        var first := CanYield(g, symbol, depth + 1, t);
        var more := CanFailParts(g, parts, done + [t], depth, i);
        YieldsFresh(g, parts, done, depth, first, Some(t), more, None);
        draws := first + more;
      }
    } else {
      var kid := if parts[k].StringPart? then Leaf(parts[k].value) else done[Repeats(parts, k)];
      draws := CanFailParts(g, parts, done + [kid], depth, i);
      YieldsGiven(g, parts, done, depth, kid, draws, None);
    }
  }

  /** The trees that some draws give are exactly those in `Generated`. */
  lemma GrownIff(g: Grammar, symbol: string, depth: nat, t: Value)
    requires WellFormed(g) && symbol in g
    ensures (exists draws :: AreDraws(draws) && Grow(g, symbol, draws, depth).0 == Some(t)) <==> Generated(g, symbol, depth, t)
  {
    hide WellFormed, Generated, Grow;
    if Generated(g, symbol, depth, t) {
      var draws := CanYield(g, symbol, depth, t);
      assert Grow(g, symbol, draws + [], depth) == (Some(t), []);
      assert AreDraws(draws + []);
    }
    if draws :| AreDraws(draws) && Grow(g, symbol, draws, depth).0 == Some(t) {
      GrownIsGenerated(g, symbol, draws, depth);
    }
  }

  /** Some draws fail exactly when the grammar leads too deep. */
  lemma FailsIff(g: Grammar, symbol: string, depth: nat)
    requires WellFormed(g) && symbol in g
    ensures (exists draws :: AreDraws(draws) && Grow(g, symbol, draws, depth).0 == None) <==> LeadsTooDeep(g, symbol, depth)
  {
    hide WellFormed, LeadsTooDeep, Grow;
    if LeadsTooDeep(g, symbol, depth) {
      var draws := CanFail(g, symbol, depth);
      assert Grow(g, symbol, draws + [], depth) == (None, []);
      assert AreDraws(draws + []);
    }
    if draws :| AreDraws(draws) && Grow(g, symbol, draws, depth).0 == None {
      GrownIsGenerated(g, symbol, draws, depth);
    }
  }

  // ---------- The generator ----------

  /** A tree for `symbol`, or null when the depth limit got in the way: what the draws say.
      `prng` decides; nothing it returns makes the method choose from an empty list of
      rules. */
  method GenerateTree(g: Grammar, symbol: string, prng: PRNG, depth: nat) returns (node: TreeNode?, ghost f: seq<Shape>)
    requires WellFormed(g) && symbol in g && prng.Valid()
    modifies prng`next
    ensures prng.Valid() && prng.next >= old(prng.next) && fresh(IdSet(f))
    ensures node != null ==> |f| == 1 && IsTree(node, f[0]) && Generated(g, symbol, depth, Erase(f[0]))
    ensures (if node == null then None else Some(Erase(f[0])), prng.Rest()) == Grow(g, symbol, old(prng.Rest()), depth)
    ensures node == null ==> LeadsTooDeep(g, symbol, depth)
    ensures depth > MAX_DEPTH ==> node == null
    decreases if depth <= MAX_DEPTH then MAX_DEPTH + 1 - depth else 0, 1
  {
    hide Linked, Distinct, Erase, Generated, LeadsTooDeep, GrowRepeated, GrowParts, IdSet, WellFormed, IsRule;
    ghost var draws := prng.Rest();
    GrownIsGenerated(g, symbol, draws, depth);
    NothingYet([]);
    if depth > MAX_DEPTH {
      return null, [];
    }
    WellFormedParts(g, symbol);
    var ok: bool, kids: seq<TreeNode>;
    ghost var done: seq<Shape>;
    if g[symbol].repeat {
      ok, kids, done := GenerateRepeated(g, g[symbol].repeatSymbol, prng, depth);
    } else {
      var r := prng.Rand();
      var rule := g[symbol].generators[r % |g[symbol].generators|];
      ok, kids, done := ExpandRule(g, rule.parts, prng, depth);
    }
    if !ok {
      return null, [];
    }
    node, f := Parent(symbol, kids, done);
  }

  /** A symbol node with these children. */
  method Parent(symbol: string, kids: seq<TreeNode>, ghost done: seq<Shape>) returns (node: TreeNode, ghost f: seq<Shape>)
    requires kids == Roots(done) && Linked(done) && Distinct(done)
    ensures |f| == 1 && IsTree(node, f[0]) && fresh(node) && IdSet(f) == {node} + IdSet(done)
    ensures Erase(f[0]) == Node((), SYMBOL, symbol, EraseAll(done))
  {
    hide Linked, Distinct, Erase, IdSet;
    assert allocated(IdSet(done));
    node := new TreeNode();
    node.tag, node.text, node.children := SYMBOL, symbol, kids;
    ghost var sh := Node(node, SYMBOL, symbol, done);
    OpenTree(sh);
    EraseNode(sh);
    f := [sh];
  }

  /** Zero or more trees for the repeated symbol. */
  method GenerateRepeated(g: Grammar, symbol: string, prng: PRNG, depth: nat)
      returns (ok: bool, kids: seq<TreeNode>, ghost f: seq<Shape>)
    requires WellFormed(g) && symbol in g && prng.Valid() && depth <= MAX_DEPTH
    modifies prng`next
    ensures prng.Valid() && prng.next >= old(prng.next) && fresh(IdSet(f))
    ensures ok ==> kids == Roots(f) && Linked(f) && Distinct(f)
    ensures (if ok then Some(EraseAll(f)) else None, prng.Rest()) == GrowRepeated(g, symbol, old(prng.Rest()), depth)
    decreases MAX_DEPTH + 1 - depth, 0
  {
    hide Linked, Distinct, Erase, IdSet, WellFormed, Grow, Prepend;
    ghost var draws := prng.Rest();
    NothingYet([]);
    kids, f := [], [];
    PrependNothing(GrowRepeated(g, symbol, draws, depth));
    while true
      invariant prng.Valid() && prng.next >= old(prng.next) && fresh(IdSet(f))
      invariant kids == Roots(f) && Linked(f) && Distinct(f)
      invariant GrowRepeated(g, symbol, draws, depth) == Prepend(EraseAll(f), GrowRepeated(g, symbol, prng.Rest(), depth))
      decreases |prng.draws| - prng.next
    {
      assert allocated(IdSet(f));
      ghost var now := prng.Rest();
      var p := prng.RandReal();
      if p > REPEAT_PROBABILITY {
        RepeatedStops(g, symbol, now, depth, EraseAll(f));
        return true, kids, f;
      }
      assert allocated(IdSet(f));
      ghost var before := EraseAll(f);
      var child, one := GenerateTree(g, symbol, prng, depth + 1);
      if child == null {
        RepeatedFails(g, symbol, now, depth, before);
        DeleteAll(kids, f);
        return false, [], [];
      }
      assert one == [one[0]];
      Append(f, one[0]);
      kids, f := kids + [child], f + one;
      assert EraseAll(f) == before + [Erase(one[0])];
      RepeatedGoesOn(g, symbol, now, depth, before);
    }
  }

  lemma PrependNothing(r: (Option<seq<Value>>, seq<nat>))
    ensures Prepend([], r) == r
  {
    if r.0.Some? {
      assert [] + r.0.value == r.0.value;
    }
  }

  lemma RepeatedStops(g: Grammar, symbol: string, draws: seq<nat>, depth: nat, kids: seq<Value>)
    requires WellFormed(g) && symbol in g && depth <= MAX_DEPTH && !GoesOn(First(draws))
    ensures Prepend(kids, GrowRepeated(g, symbol, draws, depth)) == (Some(kids), Later(draws))
  {
    hide WellFormed;
    assert kids + [] == kids;
  }

  lemma RepeatedFails(g: Grammar, symbol: string, draws: seq<nat>, depth: nat, kids: seq<Value>)
    requires WellFormed(g) && symbol in g && depth <= MAX_DEPTH && GoesOn(First(draws))
    requires Grow(g, symbol, Later(draws), depth + 1).0 == None
    ensures Prepend(kids, GrowRepeated(g, symbol, draws, depth)) == (None, Grow(g, symbol, Later(draws), depth + 1).1)
  {
    hide WellFormed, Grow;
  }

  lemma RepeatedGoesOn(g: Grammar, symbol: string, draws: seq<nat>, depth: nat, kids: seq<Value>)
    requires WellFormed(g) && symbol in g && depth <= MAX_DEPTH && GoesOn(First(draws))
    requires Grow(g, symbol, Later(draws), depth + 1).0.Some?
    ensures var (child, rest) := Grow(g, symbol, Later(draws), depth + 1);
            Prepend(kids, GrowRepeated(g, symbol, draws, depth))
            == Prepend(kids + [child.value], GrowRepeated(g, symbol, rest, depth))
  {
    hide WellFormed, Grow;
    var (child, rest) := Grow(g, symbol, Later(draws), depth + 1);
    var last := GrowRepeated(g, symbol, rest, depth);
    assert GrowRepeated(g, symbol, draws, depth) == Prepend([child.value], last);
    if last.0.Some? {
      assert kids + ([child.value] + last.0.value) == kids + [child.value] + last.0.value;
    }
  }

  /** The last part before `k` with the same id, if it has one. */
  method FindRepeated(parts: seq<RulePart>, id: nat, k: nat) returns (found: int)
    requires k <= |parts|
    ensures found == if id == 0 then -1 else LastWithId(parts, id, k)
  {
    found := -1;
    if id != 0 {
      for i := 0 to k
        invariant found == LastWithId(parts, id, i)
      {
        if PartId(parts[i]) == id {
          found := i;
        }
      }
    }
  }

  /** One tree for each part of a rule. */
  method ExpandRule(g: Grammar, parts: seq<RulePart>, prng: PRNG, depth: nat)
      returns (ok: bool, kids: seq<TreeNode>, ghost f: seq<Shape>)
    requires WellFormed(g) && ClosedParts(g, parts) && prng.Valid() && depth <= MAX_DEPTH
    modifies prng`next
    ensures prng.Valid() && prng.next >= old(prng.next) && fresh(IdSet(f))
    ensures ok ==> kids == Roots(f) && Linked(f) && Distinct(f)
    ensures (if ok then Some(EraseAll(f)) else None, prng.Rest()) == GrowParts(g, parts, [], old(prng.Rest()), depth)
    decreases MAX_DEPTH + 1 - depth, 0
  {
    hide Linked, Distinct, Erase, IdSet, WellFormed, Grow;
    ghost var draws := prng.Rest();
    NothingYet([]);
    kids, f := [], [];
    assert EraseAll(f) == [];
    for k := 0 to |parts|
      invariant prng.Valid() && prng.next >= old(prng.next) && fresh(IdSet(f))
      invariant |f| == k && kids == Roots(f) && Linked(f) && Distinct(f)
      invariant GrowParts(g, parts, [], draws, depth) == GrowParts(g, parts, EraseAll(f), prng.Rest(), depth)
    {
      ghost var before := EraseAll(f);
      var child: TreeNode?;
      ghost var one: seq<Shape>;
      assert allocated(IdSet(f));
      match parts[k] {
        case StringPart(value) =>
          child, one := StringLeaf(value);
        case SymbolPart(symbol, id, _) =>
          var found := FindRepeated(parts, id, k);
          if found >= 0 {
            LinkedAt(f, found);
            var copy, csh := TreeNode.Copy(kids[found], f[found]);
            child, one := copy, [csh];
          } else {
            child, one := GenerateTree(g, symbol, prng, depth + 1);
            if child == null {
              DeleteAll(kids, f);
              return false, [], [];
            }
          }
      }
      assert one == [one[0]];
      Append(f, one[0]);
      kids, f := kids + [child], f + one;
      assert EraseAll(f) == before + [Erase(one[0])];
    }
    ok := true;
  }

  method StringLeaf(value: string) returns (leaf: TreeNode, ghost f: seq<Shape>)
    ensures |f| == 1 && IsTree(leaf, f[0]) && IdSet(f) == {leaf} && fresh(leaf) && Erase(f[0]) == Leaf(value)
  {
    leaf := new TreeNode();
    leaf.text := value;
    f := [Node(leaf, STRING, value, [])];
    LeafTree(f[0]);
  }

  lemma LeafTree(sh: Shape)
    requires sh.id.live && sh.id.tag == sh.tag == STRING && sh.id.text == sh.text && sh.id.children == [] && sh.kids == []
    ensures IsTree(sh.id, sh) && Erase(sh) == Leaf(sh.text) && IdSet([sh]) == {sh.id}
  {
    OpenTree(sh);
  }
}
