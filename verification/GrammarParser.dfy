/** Reading a grammar file line by line (mutators/grammar/grammar.cpp, ParseGrammarLine
    and what it calls): first as a state machine on values, with a printer and the round
    trip, then as the loop over the characters of a line. */
module GrammarSyntax {
  import opened Wrappers
  import opened Grammars

  // ---------- Symbols and rule parts ----------

  const REPEAT_PREFIX: string := "repeat_"

  const CONSTANTS: map<string, string> := map[
    "lt" := "<", "gt" := ">", "hash" := "#", "cr" := "\r", "lf" := "\n",
    "crlf" := "\r\n", "space" := " ", "tab" := "\t"]

  predicate HasPrefix(s: string, prefix: string) {
    prefix <= s
  }

  /** The table with a symbol of that name in it; a `repeat_x` brings `x` with it. */
  function GetOrCreate(g: Grammar, name: string): (r: Grammar)
    ensures name in r && g.Keys <= r.Keys
    decreases |name|
  {
    if name in g then g
    else if HasPrefix(name, REPEAT_PREFIX) then
      var target := name[|REPEAT_PREFIX|..];
      var r := GetOrCreate(g[name := Symbol(true, target, false, false, [])], target);
      MarkUsed(r, target)
    else g[name := Symbol(false, "", false, false, [])]
  }

  function MarkUsed(g: Grammar, name: string): Grammar
    requires name in g
  {
    g[name := g[name].(used := true)]
  }

  function HexValue(c: char): Option<nat> {
    if '0' <= c <= '9' then Some(c as int - '0' as int)
    else if 'a' <= c <= 'f' then Some(c as int - 'a' as int + 10)
    else if 'A' <= c <= 'F' then Some(c as int - 'A' as int + 10)
    else None
  }

  /** The bytes spelled by pairs of hex digits. */
  function Unhex(digits: string): Option<string> {
    if |digits| == 0 then Some("")
    else if |digits| == 1 then None
    else match (HexValue(digits[0]), HexValue(digits[1]), Unhex(digits[2..]))
      case (Some(high), Some(low), Some(rest)) => Some([(16 * high + low) as char] + rest)
      case _ => None
  }

  predicate IsBlank(c: char) {
    c == ' ' || c == '\t'
  }

  predicate IsSpace(c: char) {
    IsBlank(c) || (10 <= c as int <= 13)
  }

  /** The C library's `atoi`, on numbers of any size. */
  function Atoi(s: string): int {
    if s != "" && IsSpace(s[0]) then Atoi(s[1..])
    else if s != "" && s[0] == '-' then -(Digits(s[1..], 0) as int)
    else if s != "" && s[0] == '+' then Digits(s[1..], 0)
    else Digits(s, 0)
  }

  function Digits(s: string, acc: nat): nat {
    if s != "" && '0' <= s[0] <= '9' then Digits(s[1..], 10 * acc + (s[0] as int - '0' as int)) else acc
  }

  /** The id that a part with these attributes gets; an `id` must be positive. */
  function IdOf(attributes: map<string, string>): Option<nat> {
    if "id" !in attributes then Some(0)
    else if Atoi(attributes["id"]) > 0 then Some(Atoi(attributes["id"]))
    else None
  }

  // ---------- The machine ----------

  datatype ParseState =
    | LINESTART | GENERATORSYMBOL | GENERATORSYMBOLEND | EQUAL | EQUALSPACE
    | SYMBOL | SYMBOLEND | STRING | SYMBOLSPACE | ATTRNAME | ATTRVALUE

  /** `token` is the text since the last token start. */
  datatype Parser =
    | Reject
    | Parser(state: ParseState, token: string, symbolName: string, attrName: string,
             attributes: map<string, string>, generates: string, parts: seq<RulePart>, symbols: Grammar)

  function Start(g: Grammar): Parser {
    Parser(LINESTART, "", "", "", map[], "", [], g)
  }

  /** A terminal is merged with a terminal before it. */
  function AddString(parts: seq<RulePart>, value: string): seq<RulePart> {
    if parts != [] && parts[|parts| - 1].StringPart? then
      parts[..|parts| - 1] + [StringPart(parts[|parts| - 1].value + value)]
    else parts + [StringPart(value)]
  }

  /** A name in angle brackets: a constant, a hex string, or a symbol.  Attributes are
      cleared only when a symbol takes them. */
  function AddSymbol(p: Parser, value: string): Parser
    requires p.Parser?
  {
    if value in CONSTANTS then p.(parts := AddString(p.parts, CONSTANTS[value]))
    else if HasPrefix(value, "0x") then
      match Unhex(value[2..])
      case None => Reject
      case Some(decoded) => p.(parts := AddString(p.parts, decoded))
    else
      match IdOf(p.attributes)
      case None => Reject
      case Some(id) => p.(parts := p.parts + [SymbolPart(value, id, p.attributes)], attributes := map[],
                          symbols := MarkUsed(GetOrCreate(p.symbols, value), value))
  }

  /** One character; `'\0'` is the end of the line. */
  function Step(p: Parser, c: char): Parser {
    if p.Reject? then p
    else match p.state
      case LINESTART =>
        if IsBlank(c) then p
        else if c == '<' then p.(state := GENERATORSYMBOL, token := "")
        else Reject
      case GENERATORSYMBOL =>
        if c == '>' then
          if p.token == "" then Reject
          else p.(state := GENERATORSYMBOLEND, symbolName := p.token, generates := p.token)
        else if c == '\0' then Reject
        else p.(token := p.token + [c])
      case GENERATORSYMBOLEND =>
        if IsBlank(c) then p
        else if c == '=' then p.(state := EQUAL)
        else Reject
      case EQUAL =>
        if IsBlank(c) then p.(state := EQUALSPACE)
        else if c == '<' then p.(state := SYMBOL, token := "")
        else if c == '\0' then p
        else p.(state := STRING, token := [c])
      case EQUALSPACE =>
        if c == '<' then p.(state := SYMBOL, token := "")
        else if c == '\0' then p
        else p.(state := STRING, token := [c])
      case SYMBOL =>
        if IsBlank(c) then
          if p.token == "" then Reject else p.(state := SYMBOLSPACE, symbolName := p.token)
        else if c == '>' then
          if p.token == "" then Reject
          else AddSymbol(p.(state := SYMBOLEND, symbolName := p.token), p.token)
        else if c == '\0' then Reject
        else p.(token := p.token + [c])
      case SYMBOLSPACE =>
        if IsBlank(c) then p
        else if c == '>' then AddSymbol(p.(state := SYMBOLEND), p.symbolName)
        else if c == '\0' then Reject
        else p.(state := ATTRNAME, token := [c])
      case ATTRNAME =>
        if IsBlank(c) then
          p.(state := SYMBOLSPACE, attrName := p.token, attributes := p.attributes[p.token := ""])
        else if c == '=' then p.(state := ATTRVALUE, attrName := p.token, token := "")
        else if c == '>' then
          AddSymbol(p.(state := SYMBOLEND, attrName := p.token, attributes := p.attributes[p.token := ""]), p.symbolName)
        else if c == '\0' then Reject
        else p.(token := p.token + [c])
      case ATTRVALUE =>
        if IsBlank(c) then p.(state := SYMBOLSPACE, attributes := p.attributes[p.attrName := p.token])
        else if c == '>' then
          AddSymbol(p.(state := SYMBOLEND, attributes := p.attributes[p.attrName := p.token]), p.symbolName)
        else if c == '\0' then Reject
        else p.(token := p.token + [c])
      case SYMBOLEND =>
        if c == '<' then p.(state := SYMBOL, token := "")
        else if c == '\0' then p
        else p.(state := STRING, token := [c])
      case STRING =>
        if c == '<' then
          p.(state := SYMBOL, parts := AddString(p.parts, p.token), symbolName := p.token, token := "")
        else if c == '\0' then p.(parts := AddString(p.parts, p.token), symbolName := p.token)
        else p.(token := p.token + [c])
  }

  function Feed(p: Parser, s: string): Parser
    decreases |s|
  {
    if s == "" then p else Feed(Step(p, s[0]), s[1..])
  }

  // ---------- Lines ----------

  /** The part of `s` before the first `c`. */
  function Until(s: string, c: char): string {
    if s == "" || s[0] == c then "" else [s[0]] + Until(s[1..], c)
  }

  function TrimEnd(s: string): string {
    if s != "" && IsBlank(s[|s| - 1]) then TrimEnd(s[..|s| - 1]) else s
  }

  /** What is left of a line without its comment and its trailing blanks. */
  function Clean(line: string): string {
    TrimEnd(Until(line, '#'))
  }

  function ParseText(g: Grammar, text: string): Parser {
    Feed(Start(g), Until(text, '\0') + "\0")
  }

  function AddRule(g: Grammar, rule: Rule): Grammar {
    var r := GetOrCreate(g, rule.generates);
    r[rule.generates := r[rule.generates].(generators := r[rule.generates].generators + [rule])]
  }

  /** The table after one more line; None when the line is not accepted. */
  function ParseLine(g: Grammar, line: string): Option<Grammar> {
    var text := Clean(line);
    if text == "" then Some(g)
    else match ParseText(g, text)
      case Reject => None
      case Parser(_, _, _, _, _, generates, parts, symbols) => Some(AddRule(symbols, Rule(generates, parts)))
  }

  // ---------- Printing a rule ----------

  function HexDigit(n: nat): char
    requires n < 16
  {
    "0123456789abcdef"[n]
  }

  function Hex(bytes: string): string
    requires forall i :: 0 <= i < |bytes| ==> bytes[i] as int < 256
  {
    if bytes == "" then ""
    else [HexDigit(bytes[0] as int / 16), HexDigit(bytes[0] as int % 16)] + Hex(bytes[1..])
  }

  function Decimal(n: nat): string {
    if n < 10 then [('0' as int + n) as char] else Decimal(n / 10) + [('0' as int + n % 10) as char]
  }

  /** Text that no state of the machine gives a meaning to. */
  predicate IsPlain(s: string) {
    forall i :: 0 <= i < |s| ==> !IsBlank(s[i]) && s[i] != '>' && s[i] != '#' && s[i] != '\0'
  }

  /** A name that stands for itself between angle brackets. */
  predicate IsSymbolName(s: string) {
    s != "" && IsPlain(s) && s !in CONSTANTS && !HasPrefix(s, "0x")
  }

  /** Parts that a printed rule can spell: terminals of any bytes, symbols with at most
      an `id`. */
  predicate IsPrintable(part: RulePart) {
    match part
    case StringPart(value) => forall i :: 0 <= i < |value| ==> value[i] as int < 256
    case SymbolPart(symbol, id, attributes) =>
      IsSymbolName(symbol) && attributes == if id == 0 then map[] else map["id" := Decimal(id)]
  }

  predicate IsPrintableRule(rule: Rule) {
    && IsGeneratorName(rule.generates)
    && (forall i :: 0 <= i < |rule.parts| ==> IsPrintable(rule.parts[i]))
    && (forall i :: 0 <= i < |rule.parts| - 1 ==> !(rule.parts[i].StringPart? && rule.parts[i + 1].StringPart?))
  }

  predicate AreBlanks(s: string) {
    forall i :: 0 <= i < |s| ==> IsBlank(s[i])
  }

  /** An attribute with the blanks before it; it may come without a value. */
  datatype Attribute = Attribute(blanks: string, key: string, value: Option<string>)

  /** What a rule is written of: text as it stands, and names in angle brackets with the
      attributes written there, and blanks at the end. */
  datatype Item = Text(text: string) | Item(name: string, attributes: seq<Attribute>, blanks: string)

  /** A line as it is laid out: blanks, the name in angle brackets, blanks, `=`, perhaps one
      blank that does not count, and the items. */
  datatype Line = Line(lead: string, generates: string, mid: string, space: string, items: seq<Item>)

  predicate IsWritable(w: Item) {
    match w
    case Text(text) => text != "" && forall i :: 0 <= i < |text| ==> text[i] !in "<#\0"
    case Item(name, attributes, blanks) =>
      && name != "" && IsPlain(name) && AreBlanks(blanks)
      && forall i :: 0 <= i < |attributes| ==> IsWritableAttribute(attributes[i])
  }

  /** An equals sign ends a key, unless it comes first. */
  predicate IsWritableAttribute(a: Attribute) {
    && a.blanks != "" && AreBlanks(a.blanks)
    && a.key != "" && IsPlain(a.key) && '=' !in a.key[1..]
    && (a.value.Some? ==> IsPlain(a.value.value))
  }

  function PrintAttribute(a: Attribute): string {
    a.blanks + (a.key + match a.value case None => "" case Some(v) => "=" + v)
  }

  function PrintAttributes(attributes: seq<Attribute>): string {
    if attributes == [] then "" else PrintAttribute(attributes[0]) + PrintAttributes(attributes[1..])
  }

  function PrintItem(w: Item): string {
    match w
    case Text(text) => text
    case Item(name, attributes, blanks) => "<" + (name + (PrintAttributes(attributes) + (blanks + ">")))
  }

  function PrintItems(ws: seq<Item>): string {
    if ws == [] then "" else PrintItem(ws[0]) + PrintItems(ws[1..])
  }

  function PrintLine(l: Line): string {
    l.lead + ("<" + (l.generates + (">" + (l.mid + ("=" + (l.space + PrintItems(l.items)))))))
  }

  predicate IsGeneratorName(s: string) {
    s != "" && forall i :: 0 <= i < |s| ==> s[i] !in ">#\0"
  }

  /** Of blanks after the equals sign only the first does not count. */
  predicate IsLaidOut(l: Line) {
    && AreBlanks(l.lead) && IsGeneratorName(l.generates) && AreBlanks(l.mid)
    && AreBlanks(l.space) && |l.space| <= 1
    && (forall i :: 0 <= i < |l.items| ==> IsWritable(l.items[i]))
    && (l.items != [] && l.space == "" ==> !StartsBlank(l.items[0]))
  }

  /** A blank at the end would be lost. */
  predicate IsWritableLine(l: Line) {
    IsLaidOut(l) && if l.items == [] then l.space == "" else !EndsBlank(l.items[|l.items| - 1])
  }

  predicate StartsBlank(w: Item) {
    w.Text? && w.text != "" && IsBlank(w.text[0])
  }

  predicate EndsBlank(w: Item) {
    w.Text? && w.text != "" && IsBlank(w.text[|w.text| - 1])
  }

  function Plainly(generates: string, ws: seq<Item>): Line {
    Line("", generates, "", "", ws)
  }

  /** A terminal is written as its bytes, a symbol with its `id`. */
  function ItemOf(part: RulePart): (w: Item)
    requires IsPrintable(part)
    ensures w.Item?
  {
    match part
    case StringPart(value) => Item("0x" + Hex(value), [], "")
    case SymbolPart(symbol, id, _) => Item(symbol, if id == 0 then [] else [Attribute(" ", "id", Some(Decimal(id)))], "")
  }

  function Items(parts: seq<RulePart>): (ws: seq<Item>)
    requires forall i :: 0 <= i < |parts| ==> IsPrintable(parts[i])
    ensures |ws| == |parts| && forall i :: 0 <= i < |ws| ==> ws[i].Item?
  {
    seq(|parts|, i requires 0 <= i < |parts| => ItemOf(parts[i]))
  }

  function PrintRule(rule: Rule): string
    requires IsPrintableRule(rule)
  {
    PrintLine(Plainly(rule.generates, Items(rule.parts)))
  }

  /** What reading the parts does to the symbol table. */
  function Mention(g: Grammar, parts: seq<RulePart>): Grammar
    decreases |parts|
  {
    if parts == [] then g
    else match parts[0]
      case StringPart(_) => Mention(g, parts[1..])
      case SymbolPart(symbol, _, _) => Mention(MarkUsed(GetOrCreate(g, symbol), symbol), parts[1..])
  }

  // ---------- Round trip ----------

  lemma {:induction false} UnhexHex(bytes: string)
    requires forall i :: 0 <= i < |bytes| ==> bytes[i] as int < 256
    ensures Unhex(Hex(bytes)) == Some(bytes) && IsPlain(Hex(bytes))
  {
    if bytes != "" {
      UnhexHex(bytes[1..]);
      var high, low := bytes[0] as int / 16, bytes[0] as int % 16;
      HexDigitValue(high);
      HexDigitValue(low);
      assert 16 * high + low == bytes[0] as int;
      hide HexDigit, HexValue, IsPlain;
      UnhexPair(HexDigit(high), HexDigit(low), high, low, Hex(bytes[1..]), bytes[1..]);
      assert bytes == [bytes[0]] + bytes[1..];
    }
  }

  lemma UnhexPair(a: char, b: char, high: nat, low: nat, digits: string, rest: string)
    requires HexValue(a) == Some(high) && HexValue(b) == Some(low) && high < 16 && low < 16
    requires Unhex(digits) == Some(rest) && IsPlain(digits) && IsPlain([a]) && IsPlain([b])
    ensures Unhex([a, b] + digits) == Some([(16 * high + low) as char] + rest) && IsPlain([a, b] + digits)
  {
    hide HexValue;
    var s := [a, b] + digits;
    assert s[2..] == digits && s[0] == [a][0] && s[1] == [b][0];
  }

  lemma HexDigitValue(n: nat)
    requires n < 16
    ensures HexValue(HexDigit(n)) == Some(n) && IsPlain([HexDigit(n)])
  {
  }

  predicate AllDigits(s: string) {
    forall i :: 0 <= i < |s| ==> '0' <= s[i] <= '9'
  }

  lemma {:induction false} DigitsAppend(s: string, c: char, acc: nat)
    requires AllDigits(s) && '0' <= c <= '9'
    ensures Digits(s + [c], acc) == 10 * Digits(s, acc) + (c as int - '0' as int)
  {
    var t := s + [c];
    if s == "" {
      assert t[1..] == "";
    } else {
      assert t[1..] == s[1..] + [c];
      DigitsAppend(s[1..], c, 10 * acc + (s[0] as int - '0' as int));
    }
  }

  lemma {:induction false} AtoiDecimal(n: nat)
    ensures Atoi(Decimal(n)) == Digits(Decimal(n), 0) == n
    ensures AllDigits(Decimal(n)) && Decimal(n) != "" && IsPlain(Decimal(n))
  {
    if n < 10 {
      assert Decimal(n)[1..] == "";
    } else {
      AtoiDecimal(n / 10);
      DigitsAppend(Decimal(n / 10), ('0' as int + n % 10) as char, 0);
    }
  }

  lemma {:induction false} FeedConcat(p: Parser, a: string, b: string)
    ensures Feed(p, a + b) == Feed(Feed(p, a), b)
    decreases |a|
  {
    if a == "" {
      assert a + b == b;
    } else {
      assert (a + b)[1..] == a[1..] + b;
      FeedConcat(Step(p, a[0]), a[1..], b);
    }
  }

  lemma {:induction false} FeedReject(s: string)
    ensures Feed(Reject, s) == Reject
    decreases |s|
  {
    if s != "" {
      FeedReject(s[1..]);
    }
  }

  lemma FeedNothing(p: Parser)
    ensures Feed(p, "") == p
  {
  }

  lemma FeedFirst(p: Parser, c: char, rest: string)
    ensures Feed(p, [c] + rest) == Feed(Step(p, c), rest)
  {
    assert ([c] + rest)[1..] == rest;
  }

  lemma FeedOne(p: Parser, c: char)
    ensures Feed(p, [c]) == Step(p, c)
  {
    assert [c][1..] == "";
  }

  /** Plain text is collected into the token, inside a name, an attribute's name or value. */
  lemma {:induction false} CollectPlain(p: Parser, s: string)
    requires p.Parser? && IsPlain(s)
    requires p.state == SYMBOL || p.state == ATTRVALUE || (p.state == ATTRNAME && '=' !in s)
    ensures Feed(p, s) == p.(token := p.token + s)
    decreases |s|
  {
    if s == "" {
      assert p.token + s == p.token;
    } else {
      var q := Step(p, s[0]);
      assert q == p.(token := p.token + [s[0]]);
      CollectPlain(q, s[1..]);
      assert p.token + s == (p.token + [s[0]]) + s[1..];
    }
  }

  lemma {:induction false} CollectGenerator(p: Parser, s: string)
    requires p.Parser? && p.state == GENERATORSYMBOL && forall i :: 0 <= i < |s| ==> s[i] !in ">#\0"
    ensures Feed(p, s) == p.(token := p.token + s)
    decreases |s|
  {
    if s == "" {
      assert p.token + s == p.token;
    } else {
      var q := Step(p, s[0]);
      assert q == p.(token := p.token + [s[0]]);
      CollectGenerator(q, s[1..]);
      assert p.token + s == (p.token + [s[0]]) + s[1..];
    }
  }

  // ---------- Items ----------

  predicate BetweenParts(p: Parser) {
    p.Parser? && (p.state == EQUAL || p.state == EQUALSPACE || p.state == SYMBOLEND || p.state == STRING)
  }

  /** The machine between parts, with the text read last as a part, and without what else
      it remembers of the last token. */
  function Rested(p: Parser): Parser {
    if p.Reject? then Reject
    else Parser(SYMBOLEND, "", "", "", p.attributes, p.generates,
                if p.state == STRING then AddString(p.parts, p.token) else p.parts, p.symbols)
  }

  /** An attribute without a value has the empty one. */
  function ValueOf(a: Attribute): string {
    match a.value case None => "" case Some(v) => v
  }

  function Merged(m: map<string, string>, attributes: seq<Attribute>): map<string, string>
    decreases |attributes|
  {
    if attributes == [] then m else Merged(m[attributes[0].key := ValueOf(attributes[0])], attributes[1..])
  }

  /** What an item does: text is added as it stands; the attributes of a name join those
      left over, and it is added. */
  function TakeItem(p: Parser, w: Item): Parser {
    if p.Reject? then Reject
    else match w
      case Text(text) => Rested(p.(state := SYMBOLEND, parts := AddString(p.parts, text)))
      case Item(name, attributes, _) =>
        Rested(AddSymbol(p.(state := SYMBOLEND, attributes := Merged(p.attributes, attributes)), name))
  }

  function TakeItems(p: Parser, ws: seq<Item>): Parser {
    if ws == [] then p else TakeItem(TakeItems(p, ws[..|ws| - 1]), ws[|ws| - 1])
  }

  /** The machine inside an item, with the attributes that it will have once the token is
      done. */
  predicate Inside(p: Parser, base: Parser, name: string, m: map<string, string>)
    requires base.Parser?
  {
    && p.Parser? && name != ""
    && p.generates == base.generates && p.parts == base.parts && p.symbols == base.symbols
    && (|| (p.state == SYMBOL && p.token == name && p.attributes == m)
        || (p.state == SYMBOLSPACE && p.symbolName == name && p.attributes == m)
        || (p.state == ATTRNAME && p.symbolName == name && p.attributes[p.token := ""] == m)
        || (p.state == ATTRVALUE && p.symbolName == name && p.attributes[p.attrName := p.token] == m))
  }

  lemma ReadName(p: Parser, name: string)
    requires BetweenParts(p) && IsPlain(name) && name != ""
    ensures Inside(Feed(p, "<" + name), Rested(p), name, p.attributes)
  {
    var q := Step(p, '<');
    assert q.Parser? && q.state == SYMBOL && q.token == "" && q.attributes == p.attributes;
    assert q.generates == p.generates && q.parts == Rested(p).parts && q.symbols == p.symbols;
    hide Step;
    FeedFirst(p, '<', name);
    CollectPlain(q, name);
    assert "" + name == name;
  }

  lemma LeaveToken(p: Parser, base: Parser, name: string, m: map<string, string>, c: char)
    requires base.Parser? && Inside(p, base, name, m) && IsBlank(c)
    ensures Inside(Step(p, c), base, name, m) && Step(p, c).state == SYMBOLSPACE
  {
    hide AddSymbol;
  }

  lemma {:induction false} ReadBlanks(p: Parser, base: Parser, name: string, m: map<string, string>, s: string)
    requires base.Parser? && Inside(p, base, name, m) && AreBlanks(s)
    ensures Inside(Feed(p, s), base, name, m) && (s != "" ==> Feed(p, s).state == SYMBOLSPACE)
    decreases |s|
  {
    hide Step, Inside;
    if s == "" {
      FeedNothing(p);
    } else {
      LeaveToken(p, base, name, m, s[0]);
      ReadBlanks(Step(p, s[0]), base, name, m, s[1..]);
      if |s| == 1 {
        FeedNothing(Step(p, s[0]));
      }
    }
  }

  lemma ReadKey(p: Parser, k: string)
    requires p.Parser? && p.state == SYMBOLSPACE && k != "" && IsPlain(k) && '=' !in k[1..]
    ensures Feed(p, k) == p.(state := ATTRNAME, token := k)
  {
    var q := p.(state := ATTRNAME, token := [k[0]]);
    assert Step(p, k[0]) == q;
    hide Step, Feed;
    assert k == [k[0]] + k[1..];
    FeedFirst(p, k[0], k[1..]);
    CollectPlain(q, k[1..]);
  }

  lemma ReadValue(p: Parser, v: string)
    requires p.Parser? && p.state == ATTRNAME && IsPlain(v)
    ensures Feed(p, "=" + v) == p.(state := ATTRVALUE, attrName := p.token, token := v)
  {
    var q := p.(state := ATTRVALUE, attrName := p.token, token := "");
    assert Step(p, '=') == q;
    hide Step, Feed;
    FeedFirst(p, '=', v);
    CollectPlain(q, v);
    assert "" + v == v;
  }

  lemma ReadAttribute(p: Parser, base: Parser, name: string, m: map<string, string>, a: Attribute)
    requires base.Parser? && Inside(p, base, name, m) && IsWritableAttribute(a)
    ensures Inside(Feed(p, PrintAttribute(a)), base, name, m[a.key := ValueOf(a)])
  {
    hide Step, Feed, IsPlain, AreBlanks;
    ReadBlanks(p, base, name, m, a.blanks);
    var q := Feed(p, a.blanks);
    ReadKey(q, a.key);
    var r := q.(state := ATTRNAME, token := a.key);
    match a.value {
      case None =>
        assert a.key + "" == a.key;
        FeedConcat(p, a.blanks, a.key);
      case Some(v) =>
        FeedConcat(p, a.blanks, a.key + ("=" + v));
        FeedConcat(q, a.key, "=" + v);
        ReadValue(r, v);
    }
  }

  lemma {:induction false} ReadAttributes(
    p: Parser, base: Parser, name: string, m: map<string, string>, attributes: seq<Attribute>)
    requires base.Parser? && Inside(p, base, name, m)
    requires forall i :: 0 <= i < |attributes| ==> IsWritableAttribute(attributes[i])
    ensures Inside(Feed(p, PrintAttributes(attributes)), base, name, Merged(m, attributes))
    decreases |attributes|
  {
    hide Feed, Inside, IsWritableAttribute, PrintAttribute, ValueOf;
    if attributes == [] {
      FeedNothing(p);
    } else {
      var a := attributes[0];
      FeedConcat(p, PrintAttribute(a), PrintAttributes(attributes[1..]));
      ReadAttribute(p, base, name, m, a);
      ReadAttributes(Feed(p, PrintAttribute(a)), base, name, m[a.key := ValueOf(a)], attributes[1..]);
    }
  }

  lemma CloseItem(p: Parser, base: Parser, name: string, m: map<string, string>)
    requires base.Parser? && Inside(p, base, name, m)
    ensures Rested(Step(p, '>')) == Rested(AddSymbol(base.(state := SYMBOLEND, attributes := m), name))
    ensures Step(p, '>').Parser? ==> Step(p, '>').state == SYMBOLEND
  {
    hide GetOrCreate, Unhex, IdOf;
  }

  /** The characters of a name with attributes do to the machine what the item does. */
  lemma ReadNamed(p: Parser, w: Item)
    requires BetweenParts(p) && IsWritable(w) && w.Item?
    ensures var q := Feed(p, PrintItem(w));
            Rested(q) == TakeItem(Rested(p), w) && (q.Parser? ==> q.state == SYMBOLEND)
  {
    var base := Rested(p);
    var m := Merged(p.attributes, w.attributes);
    ReadName(p, w.name);
    var inside := Feed(p, "<" + w.name);
    ReadAttributes(inside, base, w.name, p.attributes, w.attributes);
    var after := Feed(inside, PrintAttributes(w.attributes));
    ReadBlanks(after, base, w.name, m, w.blanks);
    var done := Feed(after, w.blanks);
    CloseItem(done, base, w.name, m);
    hide Feed, Step, AddSymbol, Inside, PrintAttributes, Merged;
    FeedConcat(p, "<" + w.name, PrintAttributes(w.attributes) + (w.blanks + ">"));
    assert "<" + w.name + (PrintAttributes(w.attributes) + (w.blanks + ">")) == PrintItem(w);
    FeedConcat(inside, PrintAttributes(w.attributes), w.blanks + ">");
    FeedConcat(after, w.blanks, ">");
    FeedOne(done, '>');
  }

  lemma {:induction false} CollectText(p: Parser, s: string)
    requires p.Parser? && p.state == STRING && forall i :: 0 <= i < |s| ==> s[i] !in "<#\0"
    ensures Feed(p, s) == p.(token := p.token + s)
    decreases |s|
  {
    if s == "" {
      assert p.token + s == p.token;
    } else {
      var q := Step(p, s[0]);
      assert q == p.(token := p.token + [s[0]]);
      CollectText(q, s[1..]);
      assert p.token + s == (p.token + [s[0]]) + s[1..];
    }
  }

  lemma AddStringTwice(parts: seq<RulePart>, a: string, b: string)
    ensures AddString(AddString(parts, a), b) == AddString(parts, a + b)
  {
    if parts != [] && parts[|parts| - 1].StringPart? {
      var v := parts[|parts| - 1].value;
      assert v + (a + b) == (v + a) + b;
    }
  }

  /** Text is read as one more terminal, or more of one. */
  lemma ReadText(p: Parser, text: string)
    requires BetweenParts(p) && IsWritable(Text(text)) && (p.state == EQUAL ==> !IsBlank(text[0]))
    ensures var q := Feed(p, text);
            Rested(q) == TakeItem(Rested(p), Text(text)) && q.Parser? && q.state == STRING
  {
    if p.state == STRING {
      CollectText(p, text);
      AddStringTwice(p.parts, p.token, text);
    } else {
      var q := Step(p, text[0]);
      assert q == p.(state := STRING, token := [text[0]]);
      assert text == [text[0]] + text[1..];
      hide Step, Feed;
      FeedFirst(p, text[0], text[1..]);
      CollectText(q, text[1..]);
    }
  }

  /** The characters of an item do to the machine what the item does. */
  lemma ReadItem(p: Parser, w: Item)
    requires BetweenParts(p) && IsWritable(w) && (p.state == EQUAL ==> !StartsBlank(w))
    ensures var q := Feed(p, PrintItem(w));
            Rested(q) == TakeItem(Rested(p), w) && (q.Parser? ==> BetweenParts(q) && q.state != EQUAL)
  {
    hide Feed, TakeItem, Rested;
    match w
    case Text(text) => ReadText(p, text);
    case Item(_, _, _) => ReadNamed(p, w);
  }

  lemma {:induction false} ReadItems(p: Parser, ws: seq<Item>)
    requires BetweenParts(p) && (forall i :: 0 <= i < |ws| ==> IsWritable(ws[i]))
    requires ws != [] && p.state == EQUAL ==> !StartsBlank(ws[0])
    ensures var q := Feed(p, PrintItems(ws));
            && Rested(q) == TakeItems(Rested(p), ws)
            && (q.Parser? ==> BetweenParts(q) && (ws != [] ==> q.state != EQUAL))
    decreases |ws|
  {
    hide Feed, PrintItem, TakeItem, IsWritable, Rested, StartsBlank;
    if ws == [] {
      FeedNothing(p);
    } else {
      var n := |ws| - 1;
      ReadItems(p, ws[..n]);
      var q := Feed(p, PrintItems(ws[..n]));
      PrintItemsLast(ws);
      FeedConcat(p, PrintItems(ws[..n]), PrintItem(ws[n]));
      FeedNothing(p);
      if q.Parser? {
        ReadItem(q, ws[n]);
        TakeRested(q, ws[n]);
      } else {
        FeedReject(PrintItem(ws[n]));
        TakeRested(q, ws[n]);
      }
    }
  }

  lemma TakeRested(p: Parser, w: Item)
    ensures TakeItem(Reject, w) == Reject == Rested(Reject) && Rested(Rested(p)) == Rested(p)
  {
  }

  lemma {:induction false} PrintItemsLast(ws: seq<Item>)
    requires ws != []
    ensures PrintItems(ws) == PrintItems(ws[..|ws| - 1]) + PrintItem(ws[|ws| - 1])
  {
    hide PrintItem;
    if |ws| == 1 {
      assert ws[1..] == [] && ws[..0] == [];
      assert PrintItem(ws[0]) + "" == "" + PrintItem(ws[0]);
    } else {
      PrintItemsLast(ws[1..]);
      assert ws[1..][..|ws| - 2] == ws[..|ws| - 1][1..];
      var a, b, c := PrintItem(ws[0]), PrintItems(ws[1..][..|ws| - 2]), PrintItem(ws[|ws| - 1]);
      assert a + (b + c) == (a + b) + c;
    }
  }

  lemma {:induction false} UntilAbsent(s: string, c: char)
    requires c !in s
    ensures Until(s, c) == s
  {
    if s != "" {
      UntilAbsent(s[1..], c);
    }
  }

  // ---------- Lines of items ----------

  /** The machine at the first part of a rule. */
  function AtParts(g: Grammar, generates: string): Parser {
    Parser(SYMBOLEND, "", "", "", map[], generates, [], g)
  }

  /** A line that is laid out is read item by item, whatever its blanks are, and whatever
      follows the text proper: blanks, a comment, or a character 0. */
  lemma ParseLaidOut(g: Grammar, l: Line, line: string)
    requires IsLaidOut(l) && Until(Clean(line), '\0') == PrintLine(l)
    ensures ParseLine(g, line) ==
            match TakeItems(AtParts(g, l.generates), l.items)
            case Reject => None
            case Parser(_, _, _, _, _, _, parts, symbols) => Some(AddRule(symbols, Rule(l.generates, parts)))
  {
    assert Clean(line) != "";
    hide Feed, PrintLine, TakeItems, GetOrCreate, AddRule, Until, Clean, IsLaidOut;
    ReadLine(g, l);
    TakeItemsGenerates(AtParts(g, l.generates), l.items);
  }

  lemma ParseItems(g: Grammar, l: Line)
    requires IsWritableLine(l)
    ensures ParseLine(g, PrintLine(l)) ==
            match TakeItems(AtParts(g, l.generates), l.items)
            case Reject => None
            case Parser(_, _, _, _, _, _, parts, symbols) => Some(AddRule(symbols, Rule(l.generates, parts)))
  {
    var s := PrintLine(l);
    LineHasNo(l, '#');
    LineHasNo(l, '\0');
    LineEnds(l);
    hide PrintLine, IsLaidOut;
    UntilAbsent(s, '#');
    UntilAbsent(s, '\0');
    assert Clean(s) == s;
    ParseLaidOut(g, l, s);
  }

  /** The end of the line adds the text read last, if any. */
  lemma EndLine(p: Parser)
    requires BetweenParts(p)
    ensures var q, r := Step(p, '\0'), Rested(p);
            q.Parser? && q.generates == r.generates && q.parts == r.parts && q.symbols == r.symbols
  {
  }

  lemma {:induction false} TakeItemsGenerates(p: Parser, ws: seq<Item>)
    requires p.Parser?
    ensures TakeItems(p, ws).Parser? ==> TakeItems(p, ws).generates == p.generates
  {
    if ws != [] {
      TakeItemsGenerates(p, ws[..|ws| - 1]);
      hide GetOrCreate, Unhex, IdOf;
    }
  }

  lemma {:induction false} SkipBlanks(p: Parser, s: string)
    requires p.Parser? && (p.state == LINESTART || p.state == GENERATORSYMBOLEND) && AreBlanks(s)
    ensures Feed(p, s) == p
    decreases |s|
  {
    if s != "" {
      assert Step(p, s[0]) == p;
      hide Step;
      SkipBlanks(p, s[1..]);
    }
  }

  lemma ReadLine(g: Grammar, l: Line)
    requires IsLaidOut(l)
    ensures var q, r := Feed(Start(g), PrintLine(l) + "\0"), TakeItems(AtParts(g, l.generates), l.items);
            if r.Reject? then q.Reject?
            else q.Parser? && q.generates == r.generates && q.parts == r.parts && q.symbols == r.symbols
  {
    hide PrintItems, Feed, TakeItems, IsWritable, StartsBlank, AreBlanks, IsGeneratorName;
    var parts := PrintItems(l.items) + "\0";
    var p := ReadHead(g, l, parts);
    assert PrintLine(l) + "\0" == Head(l, parts);
    FeedConcat(p, PrintItems(l.items), "\0");
    ReadItems(p, l.items);
    var q := Feed(p, PrintItems(l.items));
    FeedOne(q, '\0');
    FeedReject("\0");
    if q.Parser? {
      EndLine(q);
    }
  }

  function Head(l: Line, rest: string): string {
    l.lead + ("<" + (l.generates + (">" + (l.mid + ("=" + (l.space + rest))))))
  }

  lemma ReadHead(g: Grammar, l: Line, rest: string) returns (p: Parser)
    requires IsLaidOut(l)
    ensures Feed(Start(g), Head(l, rest)) == Feed(p, rest)
    ensures BetweenParts(p) && p.state == (if l.space == "" then EQUAL else EQUALSPACE)
    ensures Rested(p) == AtParts(g, l.generates)
  {
    var p0 := Start(g);
    var p1 := p0.(state := GENERATORSYMBOL);
    var p2 := p1.(token := l.generates);
    var p3 := p2.(state := GENERATORSYMBOLEND, symbolName := l.generates, generates := l.generates);
    var p4 := p3.(state := EQUAL);
    assert Step(p0, '<') == p1 && Step(p2, '>') == p3 && Step(p3, '=') == p4;
    p := if l.space == "" then p4 else p4.(state := EQUALSPACE);
    assert l.space != "" ==> l.space == [l.space[0]] && Step(p4, l.space[0]) == p;
    hide Feed, Step, AreBlanks, IsWritable, StartsBlank;
    var r5 := l.space + rest;
    var r3 := l.mid + ("=" + r5);
    var r1 := l.generates + (">" + r3);
    FeedConcat(p0, l.lead, "<" + r1);
    SkipBlanks(p0, l.lead);
    FeedFirst(p0, '<', r1);
    FeedConcat(p1, l.generates, ">" + r3);
    CollectGenerator(p1, l.generates);
    assert "" + l.generates == l.generates;
    FeedFirst(p2, '>', r3);
    FeedConcat(p3, l.mid, "=" + r5);
    SkipBlanks(p3, l.mid);
    FeedFirst(p3, '=', r5);
    FeedConcat(p4, l.space, rest);
    if l.space == "" {
      FeedNothing(p4);
    } else {
      FeedOne(p4, l.space[0]);
    }
  }

  lemma {:induction false} AttributesHaveNo(attributes: seq<Attribute>, c: char)
    requires (forall i :: 0 <= i < |attributes| ==> IsWritableAttribute(attributes[i])) && (c == '#' || c == '\0')
    ensures c !in PrintAttributes(attributes)
    decreases |attributes|
  {
    if attributes != [] {
      AttributeHasNo(attributes[0], c);
      hide PrintAttribute, IsWritableAttribute;
      AttributesHaveNo(attributes[1..], c);
    }
  }

  lemma AttributeHasNo(a: Attribute, c: char)
    requires IsWritableAttribute(a) && (c == '#' || c == '\0')
    ensures c !in PrintAttribute(a)
  {
  }

  lemma ItemHasNo(w: Item, c: char)
    requires IsWritable(w) && (c == '#' || c == '\0')
    ensures c !in PrintItem(w) && PrintItem(w) != ""
    ensures !EndsBlank(w) ==> !IsBlank(PrintItem(w)[|PrintItem(w)| - 1])
  {
    if w.Item? {
      AttributesHaveNo(w.attributes, c);
    }
  }

  lemma {:induction false} ItemsHaveNo(ws: seq<Item>, c: char)
    requires (forall i :: 0 <= i < |ws| ==> IsWritable(ws[i])) && (c == '#' || c == '\0')
    ensures c !in PrintItems(ws)
    decreases |ws|
  {
    hide PrintItem, IsWritable, EndsBlank;
    if ws != [] {
      ItemHasNo(ws[0], c);
      ItemsHaveNo(ws[1..], c);
    }
  }

  lemma LineHasNo(l: Line, c: char)
    requires IsLaidOut(l) && (c == '#' || c == '\0')
    ensures c !in PrintLine(l) && PrintLine(l) != ""
  {
    hide PrintItems, IsWritable, StartsBlank;
    ItemsHaveNo(l.items, c);
    assert c !in l.lead && c !in l.generates && c !in l.mid && c !in l.space;
  }

  lemma LineEnds(l: Line)
    requires IsWritableLine(l)
    ensures var s := PrintLine(l); s != "" && !IsBlank(s[|s| - 1])
  {
    hide PrintItem, IsWritable, EndsBlank, StartsBlank, AreBlanks, IsGeneratorName;
    if l.items == [] {
      assert PrintItems(l.items) == "";
    } else {
      PrintItemsLast(l.items);
      ItemHasNo(l.items[|l.items| - 1], '#');
    }
  }

  // ---------- Round trip ----------

  lemma PrintableIsWritable(part: RulePart)
    requires IsPrintable(part)
    ensures IsWritable(ItemOf(part))
  {
    match part
    case StringPart(value) => UnhexHex(value);
    case SymbolPart(_, id, _) => AtoiDecimal(id);
  }

  lemma TakePrinted(p: Parser, part: RulePart)
    requires p.Parser? && p.attributes == map[] && IsPrintable(part)
    requires p.parts != [] ==> !(p.parts[|p.parts| - 1].StringPart? && part.StringPart?)
    ensures var q := TakeItem(p, ItemOf(part));
            q == Rested(p).(parts := p.parts + [part], symbols := Mention(p.symbols, [part]))
  {
    hide GetOrCreate, Hex, Decimal, Unhex, Atoi, Digits;
    assert [part][1..] == [];
    match part {
      case StringPart(value) =>
        UnhexHex(value);
        var name := "0x" + Hex(value);
        assert name[2..] == Hex(value) && HasPrefix(name, "0x");
        assert name !in CONSTANTS by {
          assert name[0] == '0';
        }
      case SymbolPart(symbol, id, attributes) =>
        AtoiDecimal(id);
        TakesId(id);
    }
  }

  lemma TakesId(id: nat)
    ensures Merged(map[], if id == 0 then [] else [Attribute(" ", "id", Some(Decimal(id)))])
            == if id == 0 then map[] else map["id" := Decimal(id)]
  {
    assert [Attribute(" ", "id", Some(Decimal(id)))][1..] == [];
  }

  lemma {:induction false} TakeAllPrinted(p: Parser, parts: seq<RulePart>)
    requires p.Parser? && p.attributes == map[] && p == Rested(p)
    requires forall i :: 0 <= i < |parts| ==> IsPrintable(parts[i])
    requires forall i :: 0 <= i < |parts| - 1 ==> !(parts[i].StringPart? && parts[i + 1].StringPart?)
    requires p.parts == []
    ensures TakeItems(p, Items(parts)) == p.(parts := parts, symbols := Mention(p.symbols, parts))
    decreases |parts|
  {
    hide TakeItem, IsPrintable, ItemOf;
    if parts != [] {
      var n := |parts| - 1;
      var before, part := parts[..n], parts[n];
      TakeAllPrinted(p, before);
      assert Items(parts)[..n] == Items(before) && Items(parts)[n] == ItemOf(part);
      var q := TakeItems(p, Items(before));
      TakePrinted(q, part);
      MentionConcat(p.symbols, before, part);
      assert before + [part] == parts;
    }
  }

  lemma {:induction false} MentionConcat(g: Grammar, parts: seq<RulePart>, part: RulePart)
    ensures Mention(g, parts + [part]) == Mention(Mention(g, parts), [part])
    decreases |parts|
  {
    hide GetOrCreate;
    if parts == [] {
      assert parts + [part] == [part];
    } else {
      assert (parts + [part])[1..] == parts[1..] + [part];
      match parts[0]
      case StringPart(_) => MentionConcat(g, parts[1..], part);
      case SymbolPart(symbol, _, _) => MentionConcat(MarkUsed(GetOrCreate(g, symbol), symbol), parts[1..], part);
    }
  }

  /** Round trip: a printed rule is read back as the same rule. */
  lemma ParsePrinted(g: Grammar, rule: Rule)
    requires IsPrintableRule(rule)
    ensures ParseLine(g, PrintRule(rule)) == Some(AddRule(Mention(g, rule.parts), rule))
  {
    hide TakeItems, Mention, GetOrCreate, AddRule, ItemOf, IsPrintable, IsWritable;
    var ws := Items(rule.parts);
    forall i | 0 <= i < |ws|
      ensures IsWritable(ws[i])
    {
      PrintableIsWritable(rule.parts[i]);
    }
    assert IsWritableLine(Plainly(rule.generates, ws)) by {
      assert AreBlanks("");
    }
    ParseItems(g, Plainly(rule.generates, ws));
    TakeAllPrinted(AtParts(g, rule.generates), rule.parts);
  }

  // ---------- Attributes of terminals ----------

  predicate IsTerminal(name: string) {
    name in CONSTANTS || HasPrefix(name, "0x")
  }

  /** The attributes that terminals have written since the last symbol. */
  function LeftOver(ws: seq<Item>): map<string, string> {
    if ws == [] then map[]
    else
      var before := LeftOver(ws[..|ws| - 1]);
      match ws[|ws| - 1]
      case Text(_) => before
      case Item(name, attributes, _) => if IsTerminal(name) then Merged(before, attributes) else map[]
  }

  predicate IsText(w: Item) {
    w.Text? || IsTerminal(w.name)
  }

  /** How many parts the items make: neighbouring terminals make one. */
  function PartCount(ws: seq<Item>): nat {
    if ws == [] then 0
    else
      var n := |ws| - 1;
      PartCount(ws[..n]) + if n > 0 && IsText(ws[n - 1]) && IsText(ws[n]) then 0 else 1
  }

  lemma {:induction false} PartsCounted(p: Parser, ws: seq<Item>)
    requires p.Parser? && p.state == SYMBOLEND && p.parts == [] && TakeItems(p, ws).Parser?
    ensures var parts := TakeItems(p, ws).parts;
            && |parts| == PartCount(ws)
            && (ws != [] ==> parts != [] && (parts[|parts| - 1].StringPart? <==> IsText(ws[|ws| - 1])))
  {
    if ws != [] {
      var n := |ws| - 1;
      hide GetOrCreate, Unhex, IdOf, Merged;
      assert TakeItems(p, ws) == TakeItem(TakeItems(p, ws[..n]), ws[n]);
      assert TakeItems(p, ws[..n]).Parser?;
      PartsCounted(p, ws[..n]);
      TakenIsRested(p, ws[..n]);
      hide TakeItems;
      OnePartMore(TakeItems(p, ws[..n]), ws[n]);
      assert n > 0 ==> ws[..n][n - 1] == ws[n - 1];
    }
  }

  lemma TakenIsRested(p: Parser, ws: seq<Item>)
    requires p.Parser? && p.state == SYMBOLEND && TakeItems(p, ws).Parser?
    ensures TakeItems(p, ws).state == SYMBOLEND
  {
    hide GetOrCreate, Unhex, IdOf, Merged, AddSymbol;
  }

  lemma OnePartMore(p: Parser, w: Item)
    requires p.Parser? && p.state == SYMBOLEND && TakeItem(p, w).Parser?
    ensures var parts := TakeItem(p, w).parts;
            && parts != [] && (parts[|parts| - 1].StringPart? <==> IsText(w))
            && |parts| == |p.parts|
                          + if p.parts != [] && p.parts[|p.parts| - 1].StringPart? && IsText(w) then 0 else 1
  {
    hide GetOrCreate, Unhex, IdOf, Merged;
  }

  lemma {:induction false} MergedKeys(m: map<string, string>, attributes: seq<Attribute>)
    ensures Merged(m, attributes) == m + Merged(map[], attributes)
    decreases |attributes|
  {
    if attributes == [] {
      assert m + map[] == m;
    } else {
      var k, v := attributes[0].key, ValueOf(attributes[0]);
      MergedKeys(m[k := v], attributes[1..]);
      MergedKeys(map[][k := v], attributes[1..]);
      var rest := Merged(map[], attributes[1..]);
      assert m[k := v] + rest == m + (map[][k := v] + rest);
    }
  }

  lemma {:induction false} LeftOverIs(p: Parser, ws: seq<Item>)
    requires p.Parser? && p.attributes == map[] && TakeItems(p, ws).Parser?
    ensures TakeItems(p, ws).attributes == LeftOver(ws)
  {
    if ws != [] {
      LeftOverIs(p, ws[..|ws| - 1]);
      hide GetOrCreate, Unhex, IdOf, Merged;
    }
  }

  /** Parts that are read stay, but for a terminal at the end that may grow. */
  lemma {:induction false} PartsStay(p: Parser, ws: seq<Item>, k: nat, j: nat)
    requires p.Parser? && k <= |ws| && TakeItems(p, ws).Parser?
    requires TakeItems(p, ws[..k]).Parser?
    requires j < |TakeItems(p, ws[..k]).parts| && TakeItems(p, ws[..k]).parts[j].SymbolPart?
    ensures j < |TakeItems(p, ws).parts| && TakeItems(p, ws).parts[j] == TakeItems(p, ws[..k]).parts[j]
    decreases |ws|
  {
    if k == |ws| {
      assert ws[..k] == ws;
    } else {
      var n := |ws| - 1;
      assert ws[..n][..k] == ws[..k];
      var q := TakeItems(p, ws[..n]);
      assert TakeItems(p, ws) == TakeItem(q, ws[n]);
      hide TakeItems, TakeItem;
      assert q.Parser? by {
        NothingTaken(q, ws[n]);
      }
      PartsStay(p, ws[..n], k, j);
      PartStays(q, ws[n], j);
    }
  }

  lemma NothingTaken(p: Parser, w: Item)
    requires TakeItem(p, w).Parser?
    ensures p.Parser?
  {
  }

  lemma PartStays(p: Parser, w: Item, j: nat)
    requires p.Parser? && j < |p.parts| && p.parts[j].SymbolPart? && TakeItem(p, w).Parser?
    ensures j < |TakeItem(p, w).parts| && TakeItem(p, w).parts[j] == p.parts[j]
  {
    hide GetOrCreate, Unhex, IdOf, Merged;
  }

  /** A symbol of an accepted line reads back with the attributes written at it exactly when
      the terminals since the symbol before it wrote none that it does not write itself.  It
      is the part after those that the items before it make. */
  lemma AttributesReadBackIff(g: Grammar, l: Line, k: nat)
    requires IsWritableLine(l) && ParseLine(g, PrintLine(l)).Some?
    requires k < |l.items| && l.items[k].Item? && IsSymbolName(l.items[k].name)
    ensures var read, ws := ParseLine(g, PrintLine(l)).value, l.items;
            && l.generates in read && read[l.generates].generators != []
            && var rules, own, left := read[l.generates].generators, Merged(map[], ws[k].attributes), LeftOver(ws[..k]);
               var parts, j := rules[|rules| - 1].parts, PartCount(ws[..k]);
               && j < |parts| && parts[j].SymbolPart? && parts[j].symbol == ws[k].name
               && parts[j].attributes == left + own
               && (parts[j].attributes == own <==> left.Keys <= own.Keys)
  {
    hide IsWritableLine, ParseLine, PrintLine, TakeItems, LeftOver, Merged, IsSymbolName, GetOrCreate, PartCount;
    ParseItems(g, l);
    var p := AtParts(g, l.generates);
    AttributesTaken(p, l.items, k);
    PartsCounted(p, l.items[..k]);
  }

  lemma AttributesTaken(p: Parser, ws: seq<Item>, k: nat)
    requires p.Parser? && p.attributes == map[]
    requires k < |ws| && ws[k].Item? && IsSymbolName(ws[k].name) && TakeItems(p, ws).Parser?
    ensures var before, after := TakeItems(p, ws[..k]), TakeItems(p, ws);
            var own, left := Merged(map[], ws[k].attributes), LeftOver(ws[..k]);
            && before.Parser? && |before.parts| < |after.parts|
            && var part := after.parts[|before.parts|];
               && part.SymbolPart? && part.symbol == ws[k].name && part.attributes == left + own
               && (part.attributes == own <==> left.Keys <= own.Keys)
  {
    hide TakeItems, LeftOver, Merged, IsSymbolName;
    var own, left := Merged(map[], ws[k].attributes), LeftOver(ws[..k]);
    SymbolTaken(p, ws, k);
    LeftOverIs(p, ws[..k]);
    MergedKeys(left, ws[k].attributes);
    KeysDecide(left, own);
  }

  lemma KeysDecide(left: map<string, string>, own: map<string, string>)
    ensures left + own == own <==> left.Keys <= own.Keys
  {
    if left.Keys <= own.Keys {
      assert (left + own).Keys == own.Keys;
    } else {
      var x :| x in left.Keys && x !in own.Keys;
      assert x in left + own;
    }
  }

  lemma SymbolTaken(p: Parser, ws: seq<Item>, k: nat)
    requires p.Parser? && k < |ws| && ws[k].Item? && IsSymbolName(ws[k].name) && TakeItems(p, ws).Parser?
    ensures var before, after := TakeItems(p, ws[..k]), TakeItems(p, ws);
            && before.Parser? && |before.parts| < |after.parts|
            && var part := after.parts[|before.parts|];
               part.SymbolPart? && part.symbol == ws[k].name && part.attributes == Merged(before.attributes, ws[k].attributes)
  {
    hide GetOrCreate, Unhex, IdOf, Merged;
    PrefixTaken(p, ws, k + 1);
    assert ws[..k + 1][..k] == ws[..k];
    var before, now := TakeItems(p, ws[..k]), TakeItems(p, ws[..k + 1]);
    assert now == TakeItem(before, ws[k]);
    PartsStay(p, ws, k + 1, |before.parts|);
  }

  lemma {:induction false} PrefixTaken(p: Parser, ws: seq<Item>, k: nat)
    requires k <= |ws| && TakeItems(p, ws).Parser?
    ensures TakeItems(p, ws[..k]).Parser?
    decreases |ws|
  {
    if k == |ws| {
      assert ws[..k] == ws;
    } else {
      assert ws[..|ws| - 1][..k] == ws[..k];
      PrefixTaken(p, ws[..|ws| - 1], k);
    }
  }

  /** For example: the `id` written at a constant becomes that of the next symbol. */
  lemma ConstantPassesId(g: Grammar)
    ensures var x := SymbolPart("x", 1, map["id" := "1"]);
            ParseLine(g, "<r>=<lt id=1><x>")
            == Some(AddRule(MarkUsed(GetOrCreate(g, "x"), "x"), Rule("r", [StringPart("<"), x])))
  {
    var lt, x := Item("lt", [Attribute(" ", "id", Some("1"))], ""), Item("x", [], "");
    ConstantAndSymbol();
    var l := Plainly("r", [lt, x]);
    assert IsWritableLine(l);
    hide ParseLine, PrintLine, TakeItems, TakeItem, AddRule, GetOrCreate;
    ParseItems(g, l);
    TakeTwo(AtParts(g, "r"), lt, x);
    TakeConstant(AtParts(g, "r"), x);
  }

  lemma ConstantAndSymbol()
    ensures PrintLine(Plainly("r", [Item("lt", [Attribute(" ", "id", Some("1"))], ""), Item("x", [], "")]))
            == "<r>=<lt id=1><x>"
  {
    var lt, x := Item("lt", [Attribute(" ", "id", Some("1"))], ""), Item("x", [], "");
    assert PrintItem(lt) == "<lt id=1>" by {
      assert lt.attributes[1..] == [];
    }
    assert PrintItem(x) == "<x>";
    hide PrintItem;
    PrintTwo(lt, x);
  }

  lemma PrintTwo(v: Item, w: Item)
    ensures PrintItems([v, w]) == PrintItem(v) + PrintItem(w)
  {
    hide PrintItem;
    assert [v, w][1..] == [w] && [w][1..] == [];
    assert PrintItems([w]) == PrintItem(w);
  }

  lemma TakeTwo(p: Parser, v: Item, w: Item)
    ensures TakeItems(p, [v, w]) == TakeItem(TakeItem(p, v), w)
  {
    hide TakeItem;
    assert [v, w][..1] == [v] && [v][..0] == [];
    assert TakeItems(p, [v]) == TakeItem(p, v);
  }

  lemma TakeConstant(p: Parser, x: Item)
    requires p.Parser? && p.attributes == map[] && p.parts == [] && x == Item("x", [], "")
    ensures TakeItem(TakeItem(p, Item("lt", [Attribute(" ", "id", Some("1"))], "")), x)
            == Parser(SYMBOLEND, "", "", "", map[], p.generates, [StringPart("<"), SymbolPart("x", 1, map["id" := "1"])],
                      MarkUsed(GetOrCreate(p.symbols, "x"), "x"))
  {
    hide *;
    TakeLt(p);
    TakeX(Parser(SYMBOLEND, "", "", "", map["id" := "1"], p.generates, [StringPart("<")], p.symbols));
    assert [StringPart("<")] + [SymbolPart("x", 1, map["id" := "1"])]
        == [StringPart("<"), SymbolPart("x", 1, map["id" := "1"])];
  }

  lemma TakeLt(p: Parser)
    requires p.Parser? && p.attributes == map[] && p.parts == []
    ensures TakeItem(p, Item("lt", [Attribute(" ", "id", Some("1"))], ""))
            == Parser(SYMBOLEND, "", "", "", map["id" := "1"], p.generates, [StringPart("<")], p.symbols)
  {
    hide GetOrCreate, Unhex, IdOf;
    var attributes := [Attribute(" ", "id", Some("1"))];
    assert attributes[1..] == [];
    assert Merged(map[], attributes) == map["id" := "1"];
    hide Merged;
  }

  lemma TakeX(p: Parser)
    requires p.Parser? && p.attributes == map["id" := "1"]
    ensures TakeItem(p, Item("x", [], ""))
            == Parser(SYMBOLEND, "", "", "", map[], p.generates, p.parts + [SymbolPart("x", 1, map["id" := "1"])],
                      MarkUsed(GetOrCreate(p.symbols, "x"), "x"))
  {
    hide GetOrCreate, Unhex, Atoi, MarkUsed, Digits, Decimal;
    assert IdOf(p.attributes) == Some(1) by {
      AtoiDecimal(1);
      assert Decimal(1) == "1" by {
        OneDigit();
      }
    }
    hide IdOf;
    assert Merged(p.attributes, []) == p.attributes;
  }

  lemma OneDigit()
    ensures Decimal(1) == "1"
  {
  }
}
