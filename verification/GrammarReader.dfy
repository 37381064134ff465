/** The grammar file reader (mutators/grammar/grammar.cpp, Read and what it calls), as it
    edits the symbol table, proved against the machine of GrammarSyntax. */
module GrammarReader {
  import opened Wrappers
  import opened Grammars
  import opened GrammarSyntax

  // ---------- What reading keeps true of the table ----------

  /** `h` is `g` with symbols marked as used or added without rules. */
  ghost predicate Extends(g: Grammar, h: Grammar) {
    && (forall x :: x in g ==> x in h && h[x].(used := true) == g[x].(used := true))
    && (forall x :: x in h && x !in g ==>
         h[x].generators == [] && (h[x].repeat ==> h[x].repeatSymbol in h))
  }

  lemma {:induction false} GetOrCreateExtends(g: Grammar, name: string)
    ensures Extends(g, GetOrCreate(g, name))
    decreases |name|
  {
    if name !in g && HasPrefix(name, REPEAT_PREFIX) {
      var target := name[|REPEAT_PREFIX|..];
      var h := g[name := Symbol(true, target, false, false, [])];
      GetOrCreateExtends(h, target);
    }
  }

  lemma ExtendsClosed(g: Grammar, h: Grammar)
    requires Closed(g) && Extends(g, h)
    ensures Closed(h)
  {
    forall x | x in h
      ensures h[x].repeat ==> h[x].repeatSymbol in h
      ensures forall r :: 0 <= r < |h[x].generators| ==> ClosedParts(h, h[x].generators[r].parts)
    {
      if x in g {
        assert h[x].generators == g[x].(used := true).generators;
        forall r | 0 <= r < |h[x].generators| ensures ClosedParts(h, h[x].generators[r].parts) {
          assert ClosedParts(g, g[x].generators[r].parts);
        }
      }
    }
  }

  lemma ExtendsTransitive(g: Grammar, h: Grammar, k: Grammar)
    requires Extends(g, h) && Extends(h, k)
    ensures Extends(g, k)
  {
    forall x | x in g ensures k[x].(used := true) == g[x].(used := true) {
      assert h[x].(used := true) == g[x].(used := true);
    }
    forall x | x in k && x !in g
      ensures k[x].generators == [] && (k[x].repeat ==> k[x].repeatSymbol in k)
    {
      if x in h {
        assert k[x].(used := true) == h[x].(used := true);
        assert h[x].generators == k[x].(used := true).generators;
        assert h[x].repeat == k[x].(used := true).repeat && h[x].repeatSymbol == k[x].(used := true).repeatSymbol;
      }
    }
  }

  /** The symbols a rule has mentioned so far are in the table. */
  ghost predicate Registers(g: Grammar, p: Parser) {
    p.Parser? ==> Extends(g, p.symbols) && ClosedParts(p.symbols, p.parts)
  }

  lemma AddStringCloses(g: Grammar, parts: seq<RulePart>, value: string)
    requires ClosedParts(g, parts)
    ensures ClosedParts(g, AddString(parts, value))
  {
  }

  lemma AddPartCloses(g: Grammar, h: Grammar, parts: seq<RulePart>, part: RulePart)
    requires ClosedParts(g, parts) && g.Keys <= h.Keys && (part.SymbolPart? ==> part.symbol in h)
    ensures ClosedParts(h, parts + [part])
  {
  }

  lemma UseExtends(g: Grammar, name: string)
    ensures var h := MarkUsed(GetOrCreate(g, name), name); Extends(g, h) && g.Keys <= h.Keys && name in h
  {
    GetOrCreateExtends(g, name);
    var h := GetOrCreate(g, name);
    hide GetOrCreate;
    assert Extends(h, MarkUsed(h, name));
    ExtendsTransitive(g, h, MarkUsed(h, name));
  }

  lemma AddSymbolRegisters(g: Grammar, p: Parser, value: string)
    requires p.Parser? && Registers(g, p)
    ensures Registers(g, AddSymbol(p, value))
  {
    hide Extends, GetOrCreate, MarkUsed, Unhex, IdOf, AddString, ClosedParts;
    if value in CONSTANTS {
      AddStringCloses(p.symbols, p.parts, CONSTANTS[value]);
    } else if HasPrefix(value, "0x") {
      if Unhex(value[2..]).Some? {
        AddStringCloses(p.symbols, p.parts, Unhex(value[2..]).value);
      }
    } else if IdOf(p.attributes).Some? {
      UseExtends(p.symbols, value);
      var h := MarkUsed(GetOrCreate(p.symbols, value), value);
      ExtendsTransitive(g, p.symbols, h);
      AddPartCloses(p.symbols, h, p.parts, SymbolPart(value, IdOf(p.attributes).value, p.attributes));
    }
  }

  lemma StepRegisters(g: Grammar, p: Parser, c: char)
    requires Registers(g, p)
    ensures Registers(g, Step(p, c))
  {
    hide Extends, AddSymbol, AddString, ClosedParts;
    if p.Parser? {
      match p.state
      case SYMBOL => AddSymbolRegisters(g, p.(state := SYMBOLEND, symbolName := p.token), p.token);
      case SYMBOLSPACE => AddSymbolRegisters(g, p.(state := SYMBOLEND), p.symbolName);
      case ATTRNAME =>
        AddSymbolRegisters(
          g, p.(state := SYMBOLEND, attrName := p.token, attributes := p.attributes[p.token := ""]), p.symbolName);
      case ATTRVALUE =>
        AddSymbolRegisters(g, p.(state := SYMBOLEND, attributes := p.attributes[p.attrName := p.token]), p.symbolName);
      case STRING => AddStringCloses(p.symbols, p.parts, p.token);
      case _ =>
    }
  }

  lemma {:induction false} FeedRegisters(g: Grammar, p: Parser, s: string)
    requires Registers(g, p)
    ensures Registers(g, Feed(p, s))
    decreases |s|
  {
    if s != "" {
      StepRegisters(g, p, s[0]);
      FeedRegisters(g, Step(p, s[0]), s[1..]);
    }
  }

  /** An accepted line keeps the table closed. */
  lemma ParseLineCloses(g: Grammar, line: string)
    requires Closed(g) && ParseLine(g, line).Some?
    ensures Closed(ParseLine(g, line).value)
  {
    var text := Clean(line);
    if text != "" {
      var p := ParseText(g, text);
      FeedRegisters(g, Start(g), Until(text, '\0') + "\0");
      ExtendsClosed(g, p.symbols);
      AddRuleCloses(p.symbols, Rule(p.generates, p.parts));
    }
  }

  lemma AddRuleCloses(g: Grammar, rule: Rule)
    requires Closed(g) && ClosedParts(g, rule.parts)
    ensures Closed(AddRule(g, rule))
  {
    var h := GetOrCreate(g, rule.generates);
    GetOrCreateExtends(g, rule.generates);
    ExtendsClosed(g, h);
    var k := AddRule(g, rule);
    forall x, r | x in k && 0 <= r < |k[x].generators| ensures ClosedParts(k, k[x].generators[r].parts) {
      if x == rule.generates && r == |h[x].generators| {
        assert k[x].generators[r] == rule;
      } else {
        assert ClosedParts(h, h[x].generators[r].parts);
      }
    }
  }

  // ---------- The whole file, on values ----------

  /** The table after all the lines; None when a line is not accepted. */
  function ReadLines(g: Grammar, lines: seq<string>): Option<Grammar>
    decreases |lines|
  {
    if lines == [] then Some(g)
    else match ParseLine(g, lines[0])
      case None => None
      case Some(h) => ReadLines(h, lines[1..])
  }

  lemma {:induction false} ReadLinesCloses(g: Grammar, lines: seq<string>)
    requires Closed(g) && ReadLines(g, lines).Some?
    ensures Closed(ReadLines(g, lines).value)
    decreases |lines|
  {
    if lines != [] {
      ParseLineCloses(g, lines[0]);
      ReadLinesCloses(ParseLine(g, lines[0]).value, lines[1..]);
    }
  }

  function Analyzed(g: Grammar): Grammar {
    map x | x in g :: g[x].(canBeEmpty := HasEmptyRule(g[x]))
  }

  predicate Checked(g: Grammar) {
    forall x :: x in g ==> g[x].generators != [] || g[x].repeat
  }

  /** What a successful `Read` establishes. */
  lemma ReadIsWellFormed(lines: seq<string>)
    requires ReadLines(map[], lines).Some? && Checked(Analyzed(ReadLines(map[], lines).value))
    ensures WellFormed(Analyzed(ReadLines(map[], lines).value))
  {
    ReadLinesCloses(map[], lines);
    var g := ReadLines(map[], lines).value;
    var h := Analyzed(g);
    forall x, r | x in h && 0 <= r < |h[x].generators| ensures ClosedParts(h, h[x].generators[r].parts) {
      assert ClosedParts(g, g[x].generators[r].parts);
    }
  }

  // ---------- The reader ----------

  class Reader {
    var symbols: Grammar

    constructor ()
      ensures symbols == map[]
    {
      symbols := map[];
    }

    method GetOrCreateSymbol(name: string)
      modifies this
      ensures symbols == GetOrCreate(old(symbols), name)
      decreases |name|
    {
      if name !in symbols {
        if HasPrefix(name, REPEAT_PREFIX) {
          var target := name[|REPEAT_PREFIX|..];
          symbols := symbols[name := Symbol(true, target, false, false, [])];
          GetOrCreateSymbol(target);
          symbols := symbols[target := symbols[target].(used := true)];
        } else {
          symbols := symbols[name := Symbol(false, "", false, false, [])];
        }
      }
    }

    /** Decodes the digits of a name `0x...`. */
    method HexStringToString(hex: string) returns (out: Option<string>)
      requires HasPrefix(hex, "0x")
      ensures out == Unhex(hex[2..])
    {
      hide Unhex, HexValue;
      UnhexParity(hex[2..]);
      if |hex| % 2 != 0 {
        return None;
      }
      var bytes, prev := "", 0;
      ghost var k := 2;
      PrependNothing(Unhex(hex[2..]));
      for i := 2 to |hex|
        invariant k == i - i % 2 && k >= 2
        invariant Unhex(hex[2..]) == Prepend(bytes, Unhex(hex[k..]))
        invariant i % 2 == 1 ==> HexValue(hex[i - 1]) == Some(prev) && prev < 16
      {
        UnhexTwo(hex[k..]);
        HexValueRange(hex[i]);
        var cur := HexValue(hex[i]);
        if cur.None? {
          return None;
        }
        if i % 2 == 1 {
          assert hex[k..][2..] == hex[i + 1..];
          PrependOne(bytes, (16 * prev + cur.value) as char, Unhex(hex[i + 1..]));
          bytes := bytes + [(16 * prev + cur.value) as char];
          k := i + 1;
        } else {
          prev := cur.value;
        }
      }
      UnhexTwo(hex[k..]);
      assert bytes + "" == bytes;
      return Some(bytes);
    }

    /** Adds a name in angle brackets to the parts read so far. */
    method AddRulePart(parts: seq<RulePart>, value: string, attributes: map<string, string>)
        returns (ok: bool, newParts: seq<RulePart>, newAttributes: map<string, string>)
      modifies this
      ensures var q := AddSymbol(MidRule(parts, attributes, old(symbols)), value);
        ok == q.Parser? && (ok ==> newParts == q.parts && newAttributes == q.attributes && symbols == q.symbols)
    {
      newParts, newAttributes := parts, attributes;
      if value in CONSTANTS {
        newParts := AddString(parts, CONSTANTS[value]);
        return true, newParts, newAttributes;
      }
      if HasPrefix(value, "0x") {
        var decoded := HexStringToString(value);
        if decoded.None? {
          return false, newParts, newAttributes;
        }
        newParts := AddString(parts, decoded.value);
        return true, newParts, newAttributes;
      }
      GetOrCreateSymbol(value);
      symbols := symbols[value := symbols[value].(used := true)];
      var id := IdOf(attributes);
      if id.None? {
        return false, newParts, newAttributes;
      }
      return true, parts + [SymbolPart(value, id.value, attributes)], map[];
    }

    method ParseGrammarLine(line: string) returns (ok: bool)
      modifies this
      ensures ok == ParseLine(old(symbols), line).Some?
      ensures ok ==> symbols == ParseLine(old(symbols), line).value
    {
      hide ParseText, GetOrCreate, TrimEnd, Until;
      var text := Clean(line);
      if text == "" {
        return true;
      }
      var generates, parts;
      ok, generates, parts := ScanLine(text);
      if ok {
        GetOrCreateSymbol(generates);
        var symbol := symbols[generates];
        symbols := symbols[generates := symbol.(generators := symbol.generators + [Rule(generates, parts)])];
      }
    }

    /** The part of the scan between angle brackets. */
    method ScanSymbol(text: string, i: nat, c: char, ghost p: Parser,
                      state0: ParseState, start0: nat, symbolName0: string, attrName0: string,
                      attributes0: map<string, string>, parts0: seq<RulePart>, generates: string)
        returns (ok: bool, state: ParseState, start: nat, symbolName: string, attrName: string,
                 attributes: map<string, string>, parts: seq<RulePart>)
      requires state0 == SYMBOL || state0 == SYMBOLSPACE || state0 == ATTRNAME || state0 == ATTRVALUE
      requires start0 <= i <= |text| && c == (if i < |text| then text[i] else '\0')
      requires Agree(p, state0, attributes0, parts0, generates, symbols, symbolName0, attrName0, text[start0..i])
      modifies this
      ensures ok == Step(p, c).Parser?
      ensures ok ==> c != '\0' && start <= i + 1 <= |text|
      ensures ok ==> Agree(Step(p, c), state, attributes, parts, generates, symbols, symbolName, attrName, text[start..i + 1])
    {
      hide AddSymbol, AddString, GetOrCreate, MidRule;
      ok, state, start, symbolName, attrName, attributes, parts :=
        true, state0, start0, symbolName0, attrName0, attributes0, parts0;
      match state0 {
        case SYMBOL =>
          if IsBlank(c) {
            state, symbolName := SYMBOLSPACE, text[start..i];
            if symbolName == "" { ok := false; }
          } else if c == '>' {
            state, symbolName := SYMBOLEND, text[start..i];
            if symbolName == "" {
              ok := false;
            } else {
              AddSymbolSame(p.(state := SYMBOLEND, symbolName := p.token), symbolName);
              ok, parts, attributes := AddRulePart(parts, symbolName, attributes);
            }
          } else if c == '\0' {
            ok := false;
          }
        case SYMBOLSPACE =>
          if IsBlank(c) {
          } else if c == '>' {
            state := SYMBOLEND;
            AddSymbolSame(p.(state := SYMBOLEND), symbolName);
            ok, parts, attributes := AddRulePart(parts, symbolName, attributes);
          } else if c == '\0' {
            ok := false;
          } else {
            state, start := ATTRNAME, i;
          }
        case ATTRNAME =>
          if IsBlank(c) {
            attrName := text[start..i];
            attributes := attributes[attrName := ""];
            state := SYMBOLSPACE;
          } else if c == '=' {
            attrName := text[start..i];
            state, start := ATTRVALUE, i + 1;
          } else if c == '>' {
            attrName := text[start..i];
            attributes := attributes[attrName := ""];
            AddSymbolSame(p.(state := SYMBOLEND, attrName := p.token, attributes := attributes), symbolName);
            ok, parts, attributes := AddRulePart(parts, symbolName, attributes);
            state := SYMBOLEND;
          } else if c == '\0' {
            ok := false;
          }
        case ATTRVALUE =>
          if IsBlank(c) {
            attributes := attributes[attrName := text[start..i]];
            state := SYMBOLSPACE;
          } else if c == '>' {
            attributes := attributes[attrName := text[start..i]];
            AddSymbolSame(p.(state := SYMBOLEND, attributes := attributes), symbolName);
            ok, parts, attributes := AddRulePart(parts, symbolName, attributes);
            state := SYMBOLEND;
          } else if c == '\0' {
            ok := false;
          }
      }
      assert ok && i < |text| && start <= i ==> text[start..i + 1] == text[start..i] + [c];
    }

    /** The part of the scan outside the symbols of the rule. */
    method ScanOutside(text: string, i: nat, c: char, ghost p: Parser,
                       state0: ParseState, start0: nat, symbolName0: string, attrName: string,
                       attributes: map<string, string>, parts0: seq<RulePart>, generates0: string)
        returns (ok: bool, state: ParseState, start: nat, symbolName: string, parts: seq<RulePart>, generates: string)
      requires state0 != SYMBOL && state0 != SYMBOLSPACE && state0 != ATTRNAME && state0 != ATTRVALUE
      requires start0 <= i <= |text| && (i == |text| ==> c == '\0') && (i < |text| ==> c == text[i])
      requires Agree(p, state0, attributes, parts0, generates0, symbols, symbolName0, attrName, text[start0..i])
      ensures ok == Step(p, c).Parser?
      ensures ok ==> parts == Step(p, c).parts && generates == Step(p, c).generates && symbols == Step(p, c).symbols
      ensures ok && c != '\0' ==>
                && start <= i + 1 <= |text|
                && Agree(Step(p, c), state, attributes, parts, generates, symbols, symbolName, attrName, text[start..i + 1])
    {
      hide AddSymbol, AddString;
      ok, state, start, symbolName, parts, generates := true, state0, start0, symbolName0, parts0, generates0;
      match state {
        case LINESTART =>
          if IsBlank(c) {
          } else if c == '<' {
            state, start := GENERATORSYMBOL, i + 1;
          } else {
            ok := false;
          }
        case GENERATORSYMBOL =>
          if c == '>' {
            state, symbolName := GENERATORSYMBOLEND, text[start..i];
            if symbolName == "" { ok := false; } else { generates := symbolName; }
          } else if c == '\0' {
            ok := false;
          }
        case GENERATORSYMBOLEND =>
          if IsBlank(c) {
          } else if c == '=' {
            state := EQUAL;
          } else {
            ok := false;
          }
        case EQUAL =>
          if IsBlank(c) {
            state := EQUALSPACE;
          } else if c == '<' {
            state, start := SYMBOL, i + 1;
          } else if c != '\0' {
            state, start := STRING, i;
          }
        case EQUALSPACE =>
          if c == '<' {
            state, start := SYMBOL, i + 1;
          } else if c != '\0' {
            state, start := STRING, i;
          }
        case SYMBOLEND =>
          if c == '<' {
            state, start := SYMBOL, i + 1;
          } else if c != '\0' {
            state, start := STRING, i;
          }
        case STRING =>
          if c == '<' {
            parts := AddString(parts, text[start..i]);
            state, start := SYMBOL, i + 1;
          } else if c == '\0' {
            parts := AddString(parts, text[start..i]);
          }
      }
      assert ok && i < |text| && start <= i ==> text[start..i + 1] == text[start..i] + [c];
    }

    /** Runs over the characters of a line, with the current token starting at `start`. */
    method ScanLine(text: string) returns (ok: bool, generates: string, parts: seq<RulePart>)
      modifies this
      ensures var p := ParseText(old(symbols), text);
        ok == p.Parser? && (ok ==> generates == p.generates && parts == p.parts && symbols == p.symbols)
    {
      hide Feed, FeedFrom, Until, AddSymbol, AddString, GetOrCreate, IsBlank, MidRule, ParseText;
      ParseTextIs(symbols, text);
      ghost var full := Until(text, '\0') + "\0";
      ghost var p := Start(symbols);
      var state, start, i := LINESTART, 0, 0;
      var symbolName, attrName := "", "";
      var attributes: map<string, string> := map[];
      generates, parts := "", [];
      UntilChars(text, '\0');
      FeedAll(p, full);
      while true
        invariant start <= i < |full| && |full| <= |text| + 1
        invariant FeedFrom(p, full, i) == ParseText(old(symbols), text)
        invariant Agree(p, state, attributes, parts, generates, symbols, symbolName, attrName, text[start..i])
        decreases |full| - i
      {
        var c := if i < |text| then text[i] else '\0';
        assert c == full[i];
        FeedStep(p, full, i);
        ghost var q := Step(p, c);
        ok := true;
        if state == SYMBOL || state == SYMBOLSPACE || state == ATTRNAME || state == ATTRVALUE {
          ok, state, start, symbolName, attrName, attributes, parts :=
            ScanSymbol(text, i, c, p, state, start, symbolName, attrName, attributes, parts, generates);
        } else {
          ok, state, start, symbolName, parts, generates :=
            ScanOutside(text, i, c, p, state, start, symbolName, attrName, attributes, parts, generates);
        }
        assert ok == q.Parser?;
        if !ok {
          break;
        }
        p := q;
        if c == '\0' {
          break;
        }
        assert start <= i ==> text[start..i + 1] == text[start..i] + [c];
        assert Agree(p, state, attributes, parts, generates, symbols, symbolName, attrName, text[start..i + 1]);
        hide Agree, Step;
        i := i + 1;
      }
      FeedEnds(p, full);
      RejectStays(full, i + 1);
    }

    method AnalyzeGrammar()
      modifies this
      ensures symbols == Analyzed(old(symbols))
    {
      ghost var g := symbols;
      var todo := symbols.Keys;
      while todo != {}
        invariant todo <= g.Keys == symbols.Keys
        invariant forall x :: x in g ==> symbols[x] == if x in todo then g[x] else g[x].(canBeEmpty := HasEmptyRule(g[x]))
        decreases |todo|
      {
        var x :| x in todo;
        var rules := symbols[x].generators;
        var empty := false;
        for r := 0 to |rules|
          invariant empty == exists q :: 0 <= q < r && rules[q].parts == []
        {
          if rules[r].parts == [] {
            empty := true;
            break;
          }
        }
        symbols := symbols[x := symbols[x].(canBeEmpty := empty)];
        todo := todo - {x};
      }
    }

    method CheckGrammar() returns (ok: bool)
      ensures ok == Checked(symbols)
    {
      ok := true;
      var todo := symbols.Keys;
      while todo != {}
        invariant todo <= symbols.Keys
        invariant ok == forall x :: x in symbols && x !in todo ==> symbols[x].generators != [] || symbols[x].repeat
        decreases |todo|
      {
        var x :| x in todo;
        if symbols[x].generators == [] && !symbols[x].repeat {
          ok := false;
        }
        todo := todo - {x};
      }
    }

    /** Reads the lines of a grammar file into an empty table. */
    method Read(lines: seq<string>) returns (ok: bool)
      requires symbols == map[]
      modifies this
      ensures ok <==> ReadLines(map[], lines).Some? && Checked(Analyzed(ReadLines(map[], lines).value))
      ensures ok ==> symbols == Analyzed(ReadLines(map[], lines).value) && WellFormed(symbols)
    {
      hide ParseLine, WellFormed;
      ok := true;
      for i := 0 to |lines|
        invariant ok ==> ReadLines(symbols, lines[i..]) == ReadLines(map[], lines)
        invariant !ok ==> ReadLines(map[], lines).None?
      {
        assert lines[i..][1..] == lines[i + 1..];
        ok := ParseGrammarLine(lines[i]);
        if !ok {
          break;
        }
      }
      AnalyzeGrammar();
      if ok {
        ok := CheckGrammar();
        if ok {
          ReadIsWellFormed(lines);
        }
      }
    }
  }

  /** The locals of the parsing loop hold what the machine holds. */
  ghost predicate Agree(p: Parser, state: ParseState, attributes: map<string, string>, parts: seq<RulePart>,
                        generates: string, symbols: Grammar, symbolName: string, attrName: string, token: string)
  {
    && p.Parser? && p.state == state && p.attributes == attributes && p.parts == parts
    && p.generates == generates && p.symbols == symbols
    && (state == GENERATORSYMBOL || state == SYMBOL || state == ATTRNAME || state == ATTRVALUE || state == STRING ==>
         p.token == token)
    && (state == SYMBOLSPACE || state == ATTRNAME || state == ATTRVALUE ==> p.symbolName == symbolName)
    && (state == ATTRVALUE ==> p.attrName == attrName)
  }

  lemma AddSymbolSame(p: Parser, value: string)
    requires p.Parser?
    ensures var q, r := AddSymbol(p, value), AddSymbol(MidRule(p.parts, p.attributes, p.symbols), value);
      && q.Parser? == r.Parser?
      && (q.Parser? ==> q == p.(parts := r.parts, attributes := r.attributes, symbols := r.symbols))
  {
  }

  lemma {:induction false} RejectStays(s: string, i: nat)
    requires i <= |s|
    ensures FeedFrom(Reject, s, i) == Reject
    decreases |s| - i
  {
    if i < |s| {
      FeedStep(Reject, s, i);
      RejectStays(s, i + 1);
    }
  }

  lemma FeedEnds(p: Parser, s: string)
    ensures FeedFrom(p, s, |s|) == p
  {
  }

  lemma FeedAll(p: Parser, s: string)
    ensures FeedFrom(p, s, 0) == Feed(p, s)
  {
    assert s[0..] == s;
  }

  lemma ParseTextIs(g: Grammar, text: string)
    ensures ParseText(g, text) == Feed(Start(g), Until(text, '\0') + "\0")
  {
  }

  ghost function FeedFrom(p: Parser, s: string, i: nat): Parser
    requires i <= |s|
  {
    Feed(p, s[i..])
  }

  lemma FeedStep(p: Parser, s: string, i: nat)
    requires i < |s|
    ensures FeedFrom(p, s, i) == FeedFrom(Step(p, s[i]), s, i + 1)
  {
    assert s[i..][1..] == s[i + 1..];
  }

  lemma {:induction false} UntilChars(s: string, c: char)
    ensures var u := Until(s, c);
      |u| <= |s| && c !in u && u == s[..|u|] && (|u| < |s| ==> s[|u|] == c)
  {
    if s != "" && s[0] != c {
      UntilChars(s[1..], c);
    }
  }

  /** The parts of the machine's state that a symbol part may change. */
  function MidRule(parts: seq<RulePart>, attributes: map<string, string>, symbols: Grammar): Parser {
    Parser(SYMBOLEND, "", "", "", attributes, "", parts, symbols)
  }

  function Prepend(s: string, o: Option<string>): Option<string> {
    match o
    case None => None
    case Some(t) => Some(s + t)
  }

  lemma UnhexTwo(digits: string)
    ensures |digits| == 0 ==> Unhex(digits) == Some("")
    ensures |digits| >= 2 && (HexValue(digits[0]).None? || HexValue(digits[1]).None?) ==> Unhex(digits) == None
    ensures |digits| >= 2 && HexValue(digits[0]).Some? && HexValue(digits[1]).Some? ==>
      Unhex(digits) == Prepend([(16 * HexValue(digits[0]).value + HexValue(digits[1]).value) as char], Unhex(digits[2..]))
    ensures |digits| == 1 ==> Unhex(digits) == None
  {
  }

  lemma HexValueRange(c: char)
    ensures HexValue(c).Some? ==> HexValue(c).value < 16
  {
  }

  lemma PrependNothing(o: Option<string>)
    ensures Prepend("", o) == o
  {
    if o.Some? {
      assert "" + o.value == o.value;
    }
  }

  lemma PrependOne(s: string, c: char, o: Option<string>)
    ensures Prepend(s + [c], o) == Prepend(s, Prepend([c], o))
  {
    if o.Some? {
      assert (s + [c]) + o.value == s + ([c] + o.value);
    }
  }

  lemma {:induction false} UnhexParity(digits: string)
    ensures |digits| % 2 == 1 ==> Unhex(digits) == None
  {
    if |digits| >= 2 {
      UnhexParity(digits[2..]);
    }
  }
}
