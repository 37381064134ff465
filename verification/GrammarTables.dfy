/** What a grammar file leaves in the symbol table, line by line: which rules each symbol
    has, in which order, and which symbols there are (mutators/grammar/grammar.cpp, Read). */
module GrammarTables {
  import opened Wrappers
  import opened Grammars
  import opened GrammarSyntax
  import opened GrammarReader

  // ---------- Rules ----------

  function RulesOf(g: Grammar, name: string): seq<Rule> {
    if name in g then g[name].generators else []
  }

  /** The rules of a list that generate a name, in order. */
  function RulesFor(rules: seq<Rule>, name: string): seq<Rule> {
    if rules == [] then []
    else (if rules[0].generates == name then [rules[0]] else []) + RulesFor(rules[1..], name)
  }

  /** The rule that a line spells, whatever the table holds. */
  function RuleOf(line: string): Option<Rule> {
    if Clean(line) == "" then None
    else match ParseText(map[], Clean(line))
      case Reject => None
      case Parser(_, _, _, _, _, generates, parts, _) => Some(Rule(generates, parts))
  }

  function RulesIn(lines: seq<string>): seq<Rule> {
    if lines == [] then []
    else (match RuleOf(lines[0]) case None => [] case Some(rule) => [rule]) + RulesIn(lines[1..])
  }

  /** The machine on two tables. */
  predicate SameButSymbols(p: Parser, q: Parser) {
    if p.Reject? then q.Reject? else q.Parser? && p == q.(symbols := p.symbols)
  }

  lemma {:induction false} FeedSame(p: Parser, q: Parser, s: string)
    requires SameButSymbols(p, q)
    ensures SameButSymbols(Feed(p, s), Feed(q, s))
    decreases |s|
  {
    if s != "" {
      StepSame(p, q, s[0]);
      hide Step, SameButSymbols;
      FeedSame(Step(p, s[0]), Step(q, s[0]), s[1..]);
    }
  }

  lemma StepSame(p: Parser, q: Parser, c: char)
    requires SameButSymbols(p, q)
    ensures SameButSymbols(Step(p, c), Step(q, c))
  {
    if p.Parser? {
      hide AddSymbol, AddString;
      match p.state {
        case SYMBOL => AddsSame(p.(state := SYMBOLEND, symbolName := p.token), q, p.token);
        case SYMBOLSPACE => AddsSame(p.(state := SYMBOLEND), q, p.symbolName);
        case ATTRNAME =>
          AddsSame(p.(state := SYMBOLEND, attrName := p.token, attributes := p.attributes[p.token := ""]), q, p.symbolName);
        case ATTRVALUE =>
          AddsSame(p.(state := SYMBOLEND, attributes := p.attributes[p.attrName := p.token]), q, p.symbolName);
        case _ =>
      }
    }
  }

  lemma AddsSame(p: Parser, q: Parser, value: string)
    requires p.Parser? && q.Parser?
    ensures SameButSymbols(AddSymbol(p, value), AddSymbol(p.(symbols := q.symbols), value))
  {
    hide GetOrCreate, MarkUsed, Unhex, IdOf, AddString;
  }

  lemma AddRuleAdds(g: Grammar, rule: Rule, x: string)
    ensures RulesOf(AddRule(g, rule), x) == RulesOf(g, x) + if x == rule.generates then [rule] else []
  {
    GetOrCreateExtends(g, rule.generates);
    ExtendsRules(g, GetOrCreate(g, rule.generates), x);
    hide GetOrCreate;
  }

  lemma ExtendsRules(g: Grammar, h: Grammar, x: string)
    requires Extends(g, h)
    ensures RulesOf(h, x) == RulesOf(g, x)
  {
    if x in g {
      assert h[x].generators == g[x].(used := true).generators;
    }
  }

  /** An accepted line is empty and changes nothing, or adds the rule it spells after the
      others of its symbol, and leaves the rules of every other symbol as they were. */
  lemma LineAdds(g: Grammar, line: string, x: string)
    ensures ParseLine(g, line).Some? <==> Clean(line) == "" || RuleOf(line).Some?
    ensures ParseLine(g, line).Some? ==>
              match RuleOf(line)
              case None => ParseLine(g, line) == Some(g)
              case Some(rule) =>
                RulesOf(ParseLine(g, line).value, x) == RulesOf(g, x) + if x == rule.generates then [rule] else []
  {
    var text := Clean(line);
    if text != "" {
      var p := ParseText(g, text);
      FeedSame(Start(g), Start(map[]), Until(text, '\0') + "\0");
      StartRegisters(g);
      FeedRegisters(g, Start(g), Until(text, '\0') + "\0");
      hide Feed, AddRule, RulesOf, Extends, ClosedParts;
      if p.Parser? {
        ExtendsRules(g, p.symbols, x);
        AddRuleAdds(p.symbols, Rule(p.generates, p.parts), x);
      }
    }
  }

  lemma StartRegisters(g: Grammar)
    ensures Registers(g, Start(g))
  {
  }

  /** Reading a file gives each name exactly the rules of the lines that generate it, in the
      order of the file. */
  lemma {:induction false} FileGives(g: Grammar, lines: seq<string>, x: string)
    requires ReadLines(g, lines).Some?
    ensures RulesOf(ReadLines(g, lines).value, x) == RulesOf(g, x) + RulesFor(RulesIn(lines), x)
    decreases |lines|
  {
    hide ParseLine, RulesOf, RuleOf, RulesFor;
    if lines == [] {
      NoRules(x);
      assert RulesOf(g, x) + [] == RulesOf(g, x);
    } else {
      LineAdds(g, lines[0], x);
      var h, rest := ParseLine(g, lines[0]).value, RulesIn(lines[1..]);
      FileGives(h, lines[1..], x);
      match RuleOf(lines[0]) {
        case None =>
          assert [] + rest == rest;
        case Some(rule) =>
          RulesForCons(rule, rest, x);
          hide ReadLines, RulesIn;
          var own := if x == rule.generates then [rule] else [];
          Joined(RulesOf(g, x), own, RulesFor(rest, x));
      }
    }
  }

  lemma NoRules(x: string)
    ensures RulesFor([], x) == []
  {
  }

  lemma Joined<T>(a: seq<T>, b: seq<T>, c: seq<T>)
    ensures (a + b) + c == a + (b + c)
  {
  }

  lemma RulesForCons(rule: Rule, rules: seq<Rule>, x: string)
    ensures RulesFor([rule] + rules, x) == (if rule.generates == x then [rule] else []) + RulesFor(rules, x)
  {
    assert ([rule] + rules)[1..] == rules;
  }

  // ---------- Printed files ----------

  function Printed(rules: seq<Rule>): seq<string>
    requires forall i :: 0 <= i < |rules| ==> IsPrintableRule(rules[i])
  {
    seq(|rules|, i requires 0 <= i < |rules| => PrintRule(rules[i]))
  }

  lemma PrintedSpells(rule: Rule)
    requires IsPrintableRule(rule)
    ensures RuleOf(PrintRule(rule)) == Some(rule)
  {
    var line := PrintRule(rule);
    ParsePrinted(map[], rule);
    LineAdds(map[], line, rule.generates);
    AddRuleAdds(Mention(map[], rule.parts), rule, rule.generates);
    MentionRules(map[], rule.parts, rule.generates);
    PrintedIsText(rule);
    hide ParseLine, AddRule, RulesOf, RuleOf, PrintRule, IsPrintableRule;
    var read := RuleOf(line).value;
    LineAdds(map[], line, read.generates);
    AddRuleAdds(Mention(map[], rule.parts), rule, read.generates);
    MentionRules(map[], rule.parts, read.generates);
    EmptyRules(rule.generates);
    EmptyRules(read.generates);
    assert read == ([] + [read])[0];
  }

  lemma EmptyRules(x: string)
    ensures RulesOf(map[], x) == []
  {
  }

  lemma PrintedIsText(rule: Rule)
    requires IsPrintableRule(rule)
    ensures Clean(PrintRule(rule)) != ""
  {
    hide ItemOf, IsPrintable, IsWritable, PrintLine;
    var l := Plainly(rule.generates, Items(rule.parts));
    forall i | 0 <= i < |l.items|
      ensures IsWritable(l.items[i])
    {
      PrintableIsWritable(rule.parts[i]);
    }
    LineHasNo(l, '#');
    LineEnds(l);
    UntilAbsent(PrintRule(rule), '#');
  }

  lemma {:induction false} MentionRules(g: Grammar, parts: seq<RulePart>, x: string)
    ensures RulesOf(Mention(g, parts), x) == RulesOf(g, x)
    decreases |parts|
  {
    hide GetOrCreate, MarkUsed, RulesOf, Extends;
    if parts != [] {
      match parts[0]
      case StringPart(_) => MentionRules(g, parts[1..], x);
      case SymbolPart(symbol, _, _) =>
        UseExtends(g, symbol);
        var h := MarkUsed(GetOrCreate(g, symbol), symbol);
        ExtendsRules(g, h, x);
        MentionRules(h, parts[1..], x);
    }
  }

  /** For every list of printable rules: reading the printed lines succeeds, and each name
      gets exactly the rules of the list that generate it, in order. */
  lemma PrintedFileGives(g: Grammar, rules: seq<Rule>, x: string)
    requires forall i :: 0 <= i < |rules| ==> IsPrintableRule(rules[i])
    ensures ReadLines(g, Printed(rules)).Some?
    ensures RulesOf(ReadLines(g, Printed(rules)).value, x) == RulesOf(g, x) + RulesFor(rules, x)
  {
    PrintedAccepted(g, rules);
    PrintedRules(rules);
    FileGives(g, Printed(rules), x);
  }

  lemma {:induction false} PrintedAccepted(g: Grammar, rules: seq<Rule>)
    requires forall i :: 0 <= i < |rules| ==> IsPrintableRule(rules[i])
    ensures ReadLines(g, Printed(rules)).Some?
    decreases |rules|
  {
    hide PrintRule, IsPrintableRule, ParseLine, RulesOf, RuleOf;
    if rules != [] {
      PrintedSpells(rules[0]);
      LineAdds(g, PrintRule(rules[0]), "");
      assert Printed(rules)[1..] == Printed(rules[1..]);
      PrintedAccepted(ParseLine(g, PrintRule(rules[0])).value, rules[1..]);
    }
  }

  lemma {:induction false} PrintedRules(rules: seq<Rule>)
    requires forall i :: 0 <= i < |rules| ==> IsPrintableRule(rules[i])
    ensures RulesIn(Printed(rules)) == rules
  {
    hide PrintRule, IsPrintableRule, RuleOf;
    if rules != [] {
      PrintedSpells(rules[0]);
      PrintedRules(rules[1..]);
      assert Printed(rules)[1..] == Printed(rules[1..]);
      assert rules == [rules[0]] + rules[1..];
    }
  }

  // ---------- Symbols ----------

  /** A name brings itself, and what is left of it without its repeat prefixes. */
  predicate Brings(name: string, x: string)
    decreases |name|
  {
    name == x || ("repeat_" <= name && Brings(name[7..], x))
  }

  /** Repeat symbols are told by their names. */
  ghost predicate Kinds(g: Grammar) {
    forall x :: x in g ==>
      if "repeat_" <= x then g[x].repeat && g[x].repeatSymbol == x[7..] else !g[x].repeat
  }

  /** Repeat symbols with names up to a length come with what they repeat. */
  ghost predicate Complete(g: Grammar, n: nat) {
    forall x :: x in g && |x| <= n && "repeat_" <= x ==> x[7..] in g
  }

  lemma {:induction false} CompleteBrings(g: Grammar, name: string, x: string)
    requires Complete(g, |name|) && name in g && Brings(name, x)
    ensures x in g
    decreases |name|
  {
    if name != x {
      CompleteBrings(g, name[7..], x);
    }
  }

  predicate IsNewTarget(g: Grammar, h: Grammar, x: string) {
    "repeat_" + x in h && "repeat_" + x !in g
  }

  ghost predicate HasNames(g: Grammar, brought: seq<string>, h: Grammar) {
    forall x :: x in h <==> x in g || exists y :: y in brought && Brings(y, x)
  }

  ghost predicate HasMarks(g: Grammar, mentioned: seq<string>, h: Grammar) {
    forall x :: x in h ==> (h[x].used <==> (x in g && g[x].used) || x in mentioned || IsNewTarget(g, h, x))
  }

  /** `h` is `g` with all that some names bring, in which some of them are marked as used, and
      what new repeat symbols repeat. */
  ghost predicate Grown(g: Grammar, brought: seq<string>, mentioned: seq<string>, h: Grammar) {
    && Kinds(h) && HasNames(g, brought, h) && HasMarks(g, mentioned, h)
    && forall y :: y in mentioned ==> y in h
  }

  lemma PrefixedBack(name: string, x: string)
    ensures "repeat_" <= name ==> "repeat_" + name[7..] == name
    ensures "repeat_" <= "repeat_" + x && ("repeat_" + x)[7..] == x && |"repeat_" + x| == 7 + |x|
  {
  }

  lemma {:induction false} CreateGrows(g: Grammar, name: string)
    requires Kinds(g) && Complete(g, |name|)
    ensures Grown(g, [name], [], GetOrCreate(g, name))
    decreases |name|
  {
    if name in g {
      forall x | Brings(name, x) ensures x in g {
        CompleteBrings(g, name, x);
      }
    } else if HasPrefix(name, REPEAT_PREFIX) {
      var target := name[7..];
      var h := g[name := Symbol(true, target, false, false, [])];
      CreateGrows(h, target);
      hide GetOrCreate;
      TargetGrows(g, name, h, GetOrCreate(h, target));
    } else {
      OneGrows(g, name);
    }
  }

  lemma OneGrows(g: Grammar, name: string)
    requires Kinds(g) && name !in g && !("repeat_" <= name)
    ensures Grown(g, [name], [], g[name := Symbol(false, "", false, false, [])])
  {
    var h := g[name := Symbol(false, "", false, false, [])];
    forall x
      ensures "repeat_" + x != name
    {
      PrefixedBack(name, x);
    }
    assert HasNames(g, [name], h) by {
      assert name in [name] && forall x :: Brings(name, x) <==> x == name;
    }
  }

  lemma TargetGrows(g: Grammar, name: string, h: Grammar, k: Grammar)
    requires "repeat_" <= name && name !in g && h == g[name := Symbol(true, name[7..], false, false, [])]
    requires Grown(h, [name[7..]], [], k)
    ensures name[7..] in k && Grown(g, [name], [], MarkUsed(k, name[7..]))
  {
    var target := name[7..];
    assert Brings(target, target) && target in [target];
    var m := MarkUsed(k, target);
    forall x
      ensures x in m <==> x in g || Brings(name, x)
    {
      assert x in k <==> x in h || Brings(target, x);
    }
    forall x | x in m
      ensures m[x].used <==> (x in g && g[x].used) || IsNewTarget(g, m, x)
    {
      PrefixedBack(name, x);
      assert k[x].used <==> (x in h && h[x].used) || IsNewTarget(h, k, x);
    }
  }

  /** Every repeat symbol comes with what it repeats. */
  ghost predicate AllComplete(g: Grammar) {
    forall x :: "repeat_" + x in g ==> x in g
  }

  lemma {:induction false} BringsTarget(name: string, x: string)
    requires Brings(name, "repeat_" + x)
    ensures Brings(name, x)
    decreases |name|
  {
    PrefixedBack(name, x);
    if name == "repeat_" + x {
      assert name[7..] == x;
    } else {
      BringsTarget(name[7..], x);
    }
  }

  lemma GrownComplete(g: Grammar, brought: seq<string>, mentioned: seq<string>, h: Grammar)
    requires AllComplete(g) && Grown(g, brought, mentioned, h)
    ensures AllComplete(h)
  {
    forall x | "repeat_" + x in h
      ensures x in h
    {
      if "repeat_" + x !in g {
        var y :| y in brought && Brings(y, "repeat_" + x);
        BringsTarget(y, x);
      }
    }
  }

  lemma AllCompleteIs(g: Grammar, n: nat)
    requires AllComplete(g)
    ensures Complete(g, n)
  {
    forall x | x in g && |x| <= n && "repeat_" <= x
      ensures x[7..] in g
    {
      PrefixedBack(x, "");
    }
  }

  lemma GrowsOn(g: Grammar, b: seq<string>, m: seq<string>, h: Grammar, b': seq<string>, m': seq<string>, k: Grammar)
    requires AllComplete(g) && Grown(g, b, m, h) && Grown(h, b', m', k)
    ensures Grown(g, b + b', m + m', k) && AllComplete(h) && AllComplete(k)
  {
    GrownComplete(g, b, m, h);
    GrownComplete(h, b', m', k);
    forall x
      ensures x in k <==> x in g || exists y :: y in b + b' && Brings(y, x)
    {
      if y :| y in b && Brings(y, x) {
        assert y in b + b';
      }
      if y :| y in b' && Brings(y, x) {
        assert y in b + b';
      }
    }
    forall x | x in k
      ensures k[x].used <==> (x in g && g[x].used) || x in m + m' || IsNewTarget(g, k, x)
    {
      assert IsNewTarget(g, k, x) <==> IsNewTarget(g, h, x) || IsNewTarget(h, k, x);
      assert x in h ==> (h[x].used <==> (x in g && g[x].used) || x in m || IsNewTarget(g, h, x));
    }
  }

  /** The symbols that parts mention, in order. */
  function SymbolsOf(parts: seq<RulePart>): seq<string> {
    if parts == [] then []
    else SymbolsOf(parts[..|parts| - 1])
         + match parts[|parts| - 1] case StringPart(_) => [] case SymbolPart(symbol, _, _) => [symbol]
  }

  lemma SymbolsMore(parts: seq<RulePart>, part: RulePart)
    ensures SymbolsOf(parts + [part])
            == SymbolsOf(parts) + match part case StringPart(_) => [] case SymbolPart(symbol, _, _) => [symbol]
  {
    assert (parts + [part])[..|parts|] == parts;
  }

  lemma TextAddsNoSymbol(parts: seq<RulePart>, value: string)
    ensures SymbolsOf(AddString(parts, value)) == SymbolsOf(parts)
  {
    if parts != [] && parts[|parts| - 1].StringPart? {
      SymbolsMore(parts[..|parts| - 1], StringPart(parts[|parts| - 1].value + value));
    } else {
      SymbolsMore(parts, StringPart(value));
    }
  }

  /** The machine has registered what its parts mention. */
  ghost predicate Grows(g: Grammar, p: Parser) {
    p.Parser? ==> Grown(g, SymbolsOf(p.parts), SymbolsOf(p.parts), p.symbols)
  }

  lemma UseGrows(g: Grammar, name: string)
    requires Kinds(g) && AllComplete(g)
    ensures Grown(g, [name], [name], MarkUsed(GetOrCreate(g, name), name))
  {
    AllCompleteIs(g, |name|);
    CreateGrows(g, name);
    var h := GetOrCreate(g, name);
    hide GetOrCreate;
    MarkGrows(g, [name], [], h, name);
    assert [] + [name] == [name];
  }

  lemma MarkGrows(g: Grammar, b: seq<string>, m: seq<string>, h: Grammar, name: string)
    requires Grown(g, b, m, h) && name in h
    ensures Grown(g, b, m + [name], MarkUsed(h, name))
  {
  }

  lemma AddSymbolGrows(g: Grammar, p: Parser, value: string)
    requires AllComplete(g) && p.Parser? && Grows(g, p)
    ensures Grows(g, AddSymbol(p, value))
  {
    hide Grown, GetOrCreate, MarkUsed, Unhex, IdOf, AddString, AllComplete, SymbolsOf;
    if value in CONSTANTS {
      TextAddsNoSymbol(p.parts, CONSTANTS[value]);
    } else if HasPrefix(value, "0x") {
      if Unhex(value[2..]).Some? {
        TextAddsNoSymbol(p.parts, Unhex(value[2..]).value);
      }
    } else if IdOf(p.attributes).Some? {
      GrownKinds(g, SymbolsOf(p.parts), p.symbols);
      UseGrows(p.symbols, value);
      SymbolsMore(p.parts, SymbolPart(value, IdOf(p.attributes).value, p.attributes));
      GrowsOn(g, SymbolsOf(p.parts), SymbolsOf(p.parts), p.symbols, [value], [value],
              MarkUsed(GetOrCreate(p.symbols, value), value));
    }
  }

  lemma GrownKinds(g: Grammar, names: seq<string>, h: Grammar)
    requires AllComplete(g) && Grown(g, names, names, h)
    ensures Kinds(h) && AllComplete(h)
  {
    GrownComplete(g, names, names, h);
  }

  lemma StepGrows(g: Grammar, p: Parser, c: char)
    requires AllComplete(g) && Grows(g, p)
    ensures Grows(g, Step(p, c))
  {
    if p.Parser? {
      if p.state == SYMBOL || p.state == SYMBOLSPACE || p.state == ATTRNAME || p.state == ATTRVALUE {
        NamedStepGrows(g, p, c);
      } else {
        OutsideStep(p, c);
        TextAddsNoSymbol(p.parts, p.token);
        hide Grown, AllComplete, Step, AddString, SymbolsOf;
      }
    }
  }

  /** Outside angle brackets a character adds text at most. */
  lemma OutsideStep(p: Parser, c: char)
    requires p.Parser? && p.state != SYMBOL && p.state != SYMBOLSPACE && p.state != ATTRNAME && p.state != ATTRVALUE
    ensures var q := Step(p, c);
            q.Parser? ==> q.symbols == p.symbols && (q.parts == p.parts || q.parts == AddString(p.parts, p.token))
  {
    hide AddSymbol, AddString;
  }

  lemma NamedStepGrows(g: Grammar, p: Parser, c: char)
    requires AllComplete(g) && p.Parser? && Grows(g, p)
    requires p.state == SYMBOL || p.state == SYMBOLSPACE || p.state == ATTRNAME || p.state == ATTRVALUE
    ensures Grows(g, Step(p, c))
  {
    hide Grown, AllComplete, AddSymbol, AddString, SymbolsOf;
    match p.state
    case SYMBOL => AddSymbolGrows(g, p.(state := SYMBOLEND, symbolName := p.token), p.token);
    case SYMBOLSPACE => AddSymbolGrows(g, p.(state := SYMBOLEND), p.symbolName);
    case ATTRNAME =>
      AddSymbolGrows(
        g, p.(state := SYMBOLEND, attrName := p.token, attributes := p.attributes[p.token := ""]), p.symbolName);
    case ATTRVALUE =>
      AddSymbolGrows(g, p.(state := SYMBOLEND, attributes := p.attributes[p.attrName := p.token]), p.symbolName);
  }

  lemma {:induction false} FeedGrows(g: Grammar, p: Parser, s: string)
    requires AllComplete(g) && Grows(g, p)
    ensures Grows(g, Feed(p, s))
    decreases |s|
  {
    if s != "" {
      StepGrows(g, p, s[0]);
      hide Step, Grows, AllComplete;
      FeedGrows(g, Step(p, s[0]), s[1..]);
    }
  }

  lemma NothingGrows(g: Grammar)
    requires Kinds(g)
    ensures Grown(g, [], [], g)
  {
  }

  lemma AddRuleGrows(g: Grammar, rule: Rule)
    requires Kinds(g) && AllComplete(g)
    ensures Grown(g, [rule.generates], [], AddRule(g, rule))
  {
    AllCompleteIs(g, |rule.generates|);
    CreateGrows(g, rule.generates);
    var h := GetOrCreate(g, rule.generates);
    hide GetOrCreate, Grown;
    RulesGrow(g, [rule.generates], [], h, rule.generates, h[rule.generates].generators + [rule]);
  }

  /** More rules for a symbol bring no other. */
  lemma RulesGrow(g: Grammar, b: seq<string>, m: seq<string>, h: Grammar, name: string, rules: seq<Rule>)
    requires Grown(g, b, m, h) && name in h
    ensures Grown(g, b, m, h[name := h[name].(generators := rules)])
  {
    hide Brings;
  }

  lemma LineGrows(g: Grammar, line: string)
    requires Kinds(g) && AllComplete(g) && ParseLine(g, line).Some? && RuleOf(line).Some?
    ensures var rule := RuleOf(line).value;
            Grown(g, SymbolsOf(rule.parts) + [rule.generates], SymbolsOf(rule.parts), ParseLine(g, line).value)
  {
    var text := Clean(line);
    var p := ParseText(g, text);
    FeedSame(Start(g), Start(map[]), Until(text, '\0') + "\0");
    NothingGrows(g);
    assert SymbolsOf([]) == [];
    FeedGrows(g, Start(g), Until(text, '\0') + "\0");
    hide Feed, AddRule, Grown, AllComplete, SymbolsOf, Kinds;
    var rule := Rule(p.generates, p.parts);
    GrownKinds(g, SymbolsOf(p.parts), p.symbols);
    AddRuleGrows(p.symbols, rule);
    GrowsOn(g, SymbolsOf(p.parts), SymbolsOf(p.parts), p.symbols, [rule.generates], [], AddRule(p.symbols, rule));
    assert SymbolsOf(p.parts) + [] == SymbolsOf(p.parts);
  }

  /** The symbols that rules mention, and with those that they generate. */
  function AllMentioned(rules: seq<Rule>): seq<string> {
    if rules == [] then [] else SymbolsOf(rules[0].parts) + AllMentioned(rules[1..])
  }

  function AllNames(rules: seq<Rule>): seq<string> {
    if rules == [] then [] else SymbolsOf(rules[0].parts) + [rules[0].generates] + AllNames(rules[1..])
  }

  lemma {:induction false} FileGrows(g: Grammar, lines: seq<string>)
    requires Kinds(g) && AllComplete(g) && ReadLines(g, lines).Some?
    ensures Grown(g, AllNames(RulesIn(lines)), AllMentioned(RulesIn(lines)), ReadLines(g, lines).value)
    decreases |lines|
  {
    hide Kinds, AllComplete, Grown, ParseLine, RuleOf, SymbolsOf;
    if lines == [] {
      NothingGrows(g);
    } else {
      LineAdds(g, lines[0], "");
      var h, rest := ParseLine(g, lines[0]).value, RulesIn(lines[1..]);
      match RuleOf(lines[0]) {
        case None =>
          assert [] + rest == rest;
          FileGrows(h, lines[1..]);
        case Some(rule) =>
          LineGrows(g, lines[0]);
          var names := SymbolsOf(rule.parts);
          GrownNext(g, names + [rule.generates], names, h);
          FileGrows(h, lines[1..]);
          assert ([rule] + rest)[1..] == rest;
          GrowsOn(g, names + [rule.generates], names, h, AllNames(rest), AllMentioned(rest),
                  ReadLines(h, lines[1..]).value);
      }
    }
  }

  lemma GrownNext(g: Grammar, b: seq<string>, m: seq<string>, h: Grammar)
    requires AllComplete(g) && Grown(g, b, m, h)
    ensures Kinds(h) && AllComplete(h)
  {
    GrownComplete(g, b, m, h);
  }

  /** The rules generate or mention the symbol, or a name that brings it. */
  predicate Needs(rules: seq<Rule>, x: string) {
    exists y :: y in AllNames(rules) && Brings(y, x)
  }

  /** After a whole file the table holds exactly the symbols that its rules generate or
      mention, and what their repeat symbols repeat.  Repeat symbols are told by their names,
      and those marked as used are the ones mentioned in a rule or repeated by another. */
  lemma FileNames(lines: seq<string>, x: string)
    requires ReadLines(map[], lines).Some?
    ensures var h, rules := ReadLines(map[], lines).value, RulesIn(lines);
            && (x in h <==> Needs(rules, x))
            && (x in h ==>
                  && (h[x].repeat <==> "repeat_" <= x)
                  && (h[x].repeat ==> h[x].repeatSymbol == x[7..])
                  && (h[x].used <==> x in AllMentioned(rules) || "repeat_" + x in h))
  {
    hide AllNames, AllMentioned, ReadLines, RulesIn;
    FileGrows(map[], lines);
  }

  // ---------- Checks ----------

  lemma {:induction false} RulesForHas(rules: seq<Rule>, x: string, r: Rule)
    ensures r in RulesFor(rules, x) <==> r in rules && r.generates == x
  {
    if rules != [] {
      RulesForHas(rules[1..], x, r);
      assert rules == [rules[0]] + rules[1..];
    }
  }

  /** After reading, the symbols marked as possibly empty are those with an empty rule in the
      file. */
  lemma FileEmpty(lines: seq<string>, x: string)
    requires ReadLines(map[], lines).Some? && x in ReadLines(map[], lines).value
    ensures Analyzed(ReadLines(map[], lines).value)[x].canBeEmpty <==> Rule(x, []) in RulesIn(lines)
  {
    var h, rules := ReadLines(map[], lines).value, RulesIn(lines);
    FileGives(map[], lines, x);
    RulesForHas(rules, x, Rule(x, []));
    hide ReadLines, RulesIn;
    assert h[x].generators == RulesFor(rules, x);
    if HasEmptyRule(h[x]) {
      var i :| 0 <= i < |h[x].generators| && h[x].generators[i].parts == [];
      RulesForHas(rules, x, h[x].generators[i]);
      assert h[x].generators[i] == Rule(x, []);
    }
  }

  /** A file is accepted exactly when all its lines are, and every symbol that its rules
      generate, mention or repeat is a repeat symbol or has a rule in the file. */
  lemma FileAcceptedIff(lines: seq<string>)
    ensures ReadLines(map[], lines).Some?
            <==> forall i :: 0 <= i < |lines| ==> Clean(lines[i]) == "" || RuleOf(lines[i]).Some?
    ensures ReadLines(map[], lines).Some? ==>
              var rules := RulesIn(lines);
              (Checked(Analyzed(ReadLines(map[], lines).value))
               <==> forall x :: Needs(rules, x) ==> IsRepeatName(x) || HasRule(rules, x))
  {
    LinesAccepted(map[], lines);
    hide Clean, RuleOf;
    if ReadLines(map[], lines).Some? {
      var h, rules := ReadLines(map[], lines).value, RulesIn(lines);
      hide Checked, Analyzed, ReadLines, RulesIn, Needs, HasRule, Lacks, IsRepeatName;
      CheckedIs(h);
      forall x
        ensures Lacks(h, x) <==> Needs(rules, x) && !IsRepeatName(x) && !HasRule(rules, x)
      {
        LacksIff(lines, x);
      }
    }
  }

  /** The table holds a symbol that is neither a repeat symbol nor has a rule. */
  predicate Lacks(h: Grammar, x: string) {
    x in h && h[x].generators == [] && !h[x].repeat
  }

  predicate IsRepeatName(x: string) {
    "repeat_" <= x
  }

  predicate HasRule(rules: seq<Rule>, x: string) {
    exists r :: r in rules && r.generates == x
  }

  lemma LacksIff(lines: seq<string>, x: string)
    requires ReadLines(map[], lines).Some?
    ensures var h, rules := ReadLines(map[], lines).value, RulesIn(lines);
            Lacks(h, x) <==> Needs(rules, x) && !IsRepeatName(x) && !HasRule(rules, x)
  {
    FileNames(lines, x);
    hide ReadLines, RulesIn, Needs, HasRule;
    if x in ReadLines(map[], lines).value {
      HasRules(lines, x);
    }
  }

  lemma CheckedIs(h: Grammar)
    ensures Checked(Analyzed(h)) <==> forall x :: !Lacks(h, x)
  {
    var a := Analyzed(h);
    forall x | x in h
      ensures x in a && a[x].generators == h[x].generators && a[x].repeat == h[x].repeat
    {
    }
    if Checked(a) {
      forall x
        ensures !Lacks(h, x)
      {
        assert x in h ==> a[x].generators != [] || a[x].repeat;
      }
    }
    if forall x :: !Lacks(h, x) {
      forall x | x in a
        ensures a[x].generators != [] || a[x].repeat
      {
        assert !Lacks(h, x);
      }
    }
  }

  lemma HasRules(lines: seq<string>, x: string)
    requires ReadLines(map[], lines).Some? && x in ReadLines(map[], lines).value
    ensures ReadLines(map[], lines).value[x].generators != [] <==> HasRule(RulesIn(lines), x)
  {
    FileGives(map[], lines, x);
    hide ReadLines, RulesIn;
    var rules := RulesIn(lines);
    if RulesFor(rules, x) != [] {
      RulesForHas(rules, x, RulesFor(rules, x)[0]);
    }
    if r :| r in rules && r.generates == x {
      RulesForHas(rules, x, r);
    }
  }

  lemma {:induction false} LinesAccepted(g: Grammar, lines: seq<string>)
    ensures ReadLines(g, lines).Some?
            <==> forall i :: 0 <= i < |lines| ==> Clean(lines[i]) == "" || RuleOf(lines[i]).Some?
    decreases |lines|
  {
    hide ParseLine, RuleOf, Clean, RulesOf;
    if lines != [] {
      LineAdds(g, lines[0], "");
      if ParseLine(g, lines[0]).Some? {
        LinesAccepted(ParseLine(g, lines[0]).value, lines[1..]);
        assert forall i :: 0 < i < |lines| ==> lines[i] == lines[1..][i - 1];
        assert forall i :: 0 <= i < |lines| - 1 ==> lines[1..][i] == lines[i + 1];
      }
    }
  }
}
