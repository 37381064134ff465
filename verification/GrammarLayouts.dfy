/** Which lines the grammar reader accepts, and what it makes of their text
    (mutators/grammar/grammar.cpp, ParseGrammarLine). */
module GrammarLayouts {
  import opened Wrappers
  import opened Grammars
  import opened GrammarSyntax

  // ---------- Comments and blanks at the end ----------

  predicate IsClean(s: string) {
    '#' !in s && (s == "" || !IsBlank(s[|s| - 1]))
  }

  /** Every line is its text, then blanks, then perhaps a comment... */
  lemma CleanSplits(line: string) returns (blanks: string, comment: string)
    ensures line == Clean(line) + blanks + comment && IsClean(Clean(line)) && AreBlanks(blanks)
    ensures comment == "" || comment[0] == '#'
  {
    UntilSplits(line, '#');
    var s := Until(line, '#');
    comment := line[|s|..];
    TrimSplits(s);
    blanks := s[|TrimEnd(s)|..];
  }

  /** ... and blanks and a comment change nothing. */
  lemma CleanJoins(s: string, blanks: string, comment: string)
    requires IsClean(s) && AreBlanks(blanks) && (comment == "" || comment[0] == '#')
    ensures Clean(s + blanks + comment) == s
  {
    UntilJoins(s + blanks, '#', comment);
    TrimJoins(s, blanks);
  }

  lemma {:induction false} UntilSplits(s: string, c: char)
    ensures var u := Until(s, c); |u| <= |s| && s[..|u|] == u && c !in u && (|u| < |s| ==> s[|u|] == c)
  {
    if s != "" && s[0] != c {
      UntilSplits(s[1..], c);
    }
  }

  lemma {:induction false} UntilJoins(s: string, c: char, rest: string)
    requires c !in s && (rest == "" || rest[0] == c)
    ensures Until(s + rest, c) == s
  {
    if s == "" {
      assert s + rest == rest;
    } else {
      assert (s + rest)[1..] == s[1..] + rest;
      UntilJoins(s[1..], c, rest);
    }
  }

  lemma {:induction false} TrimSplits(s: string)
    ensures var t := TrimEnd(s);
            |t| <= |s| && s[..|t|] == t && AreBlanks(s[|t|..]) && (t == "" || !IsBlank(t[|t| - 1]))
  {
    if s == "" {
      assert AreBlanks(s);
    } else if IsBlank(s[|s| - 1]) {
      var t := TrimEnd(s[..|s| - 1]);
      TrimSplits(s[..|s| - 1]);
      assert TrimEnd(s) == t;
      hide TrimEnd, IsBlank;
      forall i | 0 <= i < |s[|t|..]|
        ensures IsBlank(s[|t|..][i])
      {
        assert |t| + i < |s| - 1 ==> s[..|s| - 1][|t|..][i] == s[|t| + i];
      }
    } else {
      assert TrimEnd(s) == s && s[|s|..] == "";
    }
  }

  lemma {:induction false} TrimJoins(s: string, blanks: string)
    requires AreBlanks(blanks) && (s == "" || !IsBlank(s[|s| - 1]))
    ensures TrimEnd(s + blanks) == s
    decreases |blanks|
  {
    if blanks == "" {
      assert s + blanks == s;
    } else {
      var n := |blanks| - 1;
      assert (s + blanks)[..|s + blanks| - 1] == s + blanks[..n];
      TrimJoins(s, blanks[..n]);
    }
  }

  // ---------- Every accepted line is laid out ----------

  /** A name in angle brackets up to where it is closed. */
  function PrintOpen(w: Item): string
    requires w.Item?
  {
    "<" + (w.name + (PrintAttributes(w.attributes) + w.blanks))
  }

  /** The machine has read `s`, which is the start of the line `l` and of an open item. */
  ghost predicate IsAt(p: Parser, s: string, l: Line, w: Item) {
    p.Parser? &&
    match p.state
    case LINESTART => s == l.lead && AreBlanks(s)
    case GENERATORSYMBOL =>
      AreBlanks(l.lead) && s == l.lead + "<" + p.token && forall i :: 0 <= i < |p.token| ==> p.token[i] !in ">#\0"
    case GENERATORSYMBOLEND =>
      AreBlanks(l.lead) && IsGeneratorName(l.generates) && AreBlanks(l.mid) && s == l.lead + "<" + l.generates + ">" + l.mid
    case EQUAL => IsLaidOut(l) && l.items == [] && l.space == "" && s == PrintLine(l)
    case EQUALSPACE => IsLaidOut(l) && l.items == [] && l.space != "" && s == PrintLine(l)
    case SYMBOLEND => IsLaidOut(l) && l.items != [] && s == PrintLine(l)
    case STRING => IsLaidOut(l) && l.items != [] && l.items[|l.items| - 1].Text? && s == PrintLine(l)
    case SYMBOL =>
      IsLaidOut(l) && w == Item(p.token, [], "") && IsPlain(p.token) && s == PrintLine(l) + PrintOpen(w)
    case SYMBOLSPACE => IsOpen(l, w, s) && w.blanks != ""
    case ATTRNAME => IsOpen(l, w, s) && w.blanks == "" && w.attributes != [] && w.attributes[|w.attributes| - 1].value.None?
    case ATTRVALUE => IsOpen(l, w, s) && w.blanks == "" && w.attributes != [] && w.attributes[|w.attributes| - 1].value.Some?
  }

  ghost predicate IsOpen(l: Line, w: Item, s: string) {
    IsLaidOut(l) && w.Item? && IsWritable(w) && s == PrintLine(l) + PrintOpen(w)
  }

  lemma {:induction false} AttributesMore(attributes: seq<Attribute>, a: Attribute)
    ensures PrintAttributes(attributes + [a]) == PrintAttributes(attributes) + PrintAttribute(a)
    decreases |attributes|
  {
    hide PrintAttribute;
    if attributes == [] {
      assert [a][1..] == [];
      assert PrintAttribute(a) + "" == "" + PrintAttribute(a);
    } else {
      assert (attributes + [a])[1..] == attributes[1..] + [a];
      AttributesMore(attributes[1..], a);
      Associates(PrintAttribute(attributes[0]), PrintAttributes(attributes[1..]), PrintAttribute(a));
    }
  }

  lemma Associates(a: string, b: string, c: string)
    ensures a + (b + c) == a + b + c
  {
  }

  lemma ItemsMore(l: Line, w: Item)
    ensures PrintLine(l.(items := l.items + [w])) == PrintLine(l) + PrintItem(w)
  {
    hide PrintItem;
    var ws := l.items + [w];
    assert ws[..|ws| - 1] == l.items;
    PrintItemsLast(ws);
    hide PrintItems;
    LongConcat(l.lead, l.generates, l.mid, l.space, PrintItems(l.items), PrintItem(w));
  }

  lemma LongConcat(a: string, b: string, c: string, d: string, e: string, f: string)
    ensures a + ("<" + (b + (">" + (c + ("=" + (d + (e + f))))))) == a + ("<" + (b + (">" + (c + ("=" + (d + e)))))) + f
  {
  }

  /** One more item at the end of a line. */
  lemma LaidOutMore(l: Line, w: Item)
    requires IsLaidOut(l) && IsWritable(w) && (l.items == [] && l.space == "" ==> !StartsBlank(w))
    ensures IsLaidOut(l.(items := l.items + [w])) && PrintLine(l.(items := l.items + [w])) == PrintLine(l) + PrintItem(w)
  {
    hide IsWritable, StartsBlank;
    ItemsMore(l, w);
  }

  lemma TextMore(l: Line, c: char)
    requires IsLaidOut(l) && l.items != [] && l.items[|l.items| - 1].Text? && c !in "<#\0"
    ensures var n := |l.items| - 1;
            var l' := l.(items := l.items[..n] + [Text(l.items[n].text + [c])]);
            IsLaidOut(l') && PrintLine(l') == PrintLine(l) + [c]
  {
    var n := |l.items| - 1;
    var before, t := l.(items := l.items[..n]), l.items[n].text;
    assert l.items == before.items + [Text(t)] && IsWritable(l.items[n]);
    assert t + [c] != "" && (t + [c])[0] == t[0];
    hide PrintLine, AreBlanks, IsGeneratorName;
    LaidOutMore(before, Text(t));
    LaidOutMore(before, Text(t + [c]));
    Associates(PrintLine(before), t, [c]);
  }

  lemma HeadStep(p: Parser, s: string, l: Line, w: Item, c: char) returns (l': Line)
    requires p.Parser? && (p.state == LINESTART || p.state == GENERATORSYMBOL || p.state == GENERATORSYMBOLEND)
    requires IsAt(p, s, l, w) && c != '#' && c != '\0' && Step(p, c).Parser?
    ensures IsAt(Step(p, c), s + [c], l', w)
  {
    match p.state {
      case LINESTART => l' := if IsBlank(c) then l.(lead := l.lead + [c]) else l;
      case GENERATORSYMBOL => l' := if c == '>' then l.(generates := p.token, mid := "") else l;
      case GENERATORSYMBOLEND =>
        l' := if IsBlank(c) then l.(mid := l.mid + [c]) else l.(space := "", items := []);
        if !IsBlank(c) {
          assert PrintLine(l') == l.lead + "<" + l.generates + ">" + l.mid + "=";
        }
    }
  }

  lemma EqualStep(p: Parser, s: string, l: Line, w: Item, c: char) returns (l': Line, w': Item)
    requires p.Parser? && (p.state == EQUAL || p.state == EQUALSPACE)
    requires IsAt(p, s, l, w) && c != '#' && c != '\0' && Step(p, c).Parser?
    ensures IsAt(Step(p, c), s + [c], l', w')
  {
    l', w' := l, w;
    if p.state == EQUAL && IsBlank(c) {
      l' := l.(space := [c]);
      assert PrintItems(l.items) == "";
    } else if c == '<' {
      w' := Item("", [], "");
      OpensItem();
    } else {
      l' := l.(items := l.items + [Text([c])]);
      hide PrintLine, AreBlanks, IsGeneratorName;
      LaidOutMore(l, Text([c]));
    }
  }

  lemma OpensItem()
    ensures PrintOpen(Item("", [], "")) == "<"
  {
  }

  lemma BetweenStep(p: Parser, s: string, l: Line, w: Item, c: char) returns (l': Line, w': Item)
    requires p.Parser? && (p.state == SYMBOLEND || p.state == STRING)
    requires IsAt(p, s, l, w) && c != '#' && c != '\0' && Step(p, c).Parser?
    ensures IsAt(Step(p, c), s + [c], l', w')
  {
    hide PrintLine, IsLaidOut, AddString;
    l', w' := l, w;
    if c == '<' {
      w' := Item("", [], "");
      OpensItem();
    } else if p.state == SYMBOLEND {
      l' := l.(items := l.items + [Text([c])]);
      LaidOutMore(l, Text([c]));
    } else {
      var n := |l.items| - 1;
      l' := l.(items := l.items[..n] + [Text(l.items[n].text + [c])]);
      TextMore(l, c);
    }
  }

  /** One more character of an open item. */
  lemma OpenMore(l: Line, w: Item, s: string, w': Item, c: char)
    requires IsLaidOut(l) && w.Item? && w'.Item? && s == PrintLine(l) + PrintOpen(w) && PrintOpen(w') == PrintOpen(w) + [c]
    ensures s + [c] == PrintLine(l) + PrintOpen(w')
  {
    Associates(PrintLine(l), PrintOpen(w), [c]);
  }

  lemma BlankMore(w: Item, c: char)
    requires w.Item? && IsBlank(c)
    ensures PrintOpen(w.(blanks := w.blanks + [c])) == PrintOpen(w) + [c]
    ensures IsWritable(w) ==> IsWritable(w.(blanks := w.blanks + [c]))
  {
    hide PrintAttributes;
    assert PrintAttributes(w.attributes) + (w.blanks + [c]) == PrintAttributes(w.attributes) + w.blanks + [c];
  }

  /** The open item with its last attribute replaced by one that prints one more character. */
  lemma LastMore(w: Item, a: Attribute, c: char)
    requires w.Item? && w.blanks == "" && w.attributes != [] && IsWritable(w) && IsWritableAttribute(a)
    requires PrintAttribute(a) == PrintAttribute(w.attributes[|w.attributes| - 1]) + [c]
    ensures var w' := w.(attributes := w.attributes[..|w.attributes| - 1] + [a]);
            IsWritable(w') && PrintOpen(w') == PrintOpen(w) + [c]
  {
    var n := |w.attributes| - 1;
    var before, last := w.attributes[..n], w.attributes[n];
    assert w.attributes == before + [last];
    AttributesMore(before, last);
    AttributesMore(before, a);
    hide PrintAttribute, PrintAttributes, IsWritableAttribute;
    Associates(PrintAttributes(before), PrintAttribute(last), [c]);
    assert w.name + (PrintAttributes(before + [a]) + "") == w.name + (PrintAttributes(w.attributes) + "") + [c];
  }

  /** A first character of a key after blanks. */
  lemma KeyStarts(w: Item, c: char)
    requires w.Item? && IsWritable(w) && w.blanks != "" && IsPlain([c])
    ensures var w' := Item(w.name, w.attributes + [Attribute(w.blanks, [c], None)], "");
            IsWritable(w') && PrintOpen(w') == PrintOpen(w) + [c]
  {
    var a := Attribute(w.blanks, [c], None);
    assert [c][1..] == "" && PrintAttribute(a) == w.blanks + [c] by {
      assert [c] + "" == [c];
    }
    AttributesMore(w.attributes, a);
    hide PrintAttribute, PrintAttributes;
    assert w.name + (PrintAttributes(w.attributes) + (w.blanks + [c]) + "")
        == w.name + (PrintAttributes(w.attributes) + w.blanks) + [c];
  }

  lemma KeyMore(a: Attribute, c: char)
    requires IsWritableAttribute(a) && a.value.None? && IsPlain([c]) && c != '='
    ensures var a' := a.(key := a.key + [c]); IsWritableAttribute(a') && PrintAttribute(a') == PrintAttribute(a) + [c]
  {
    assert (a.key + [c])[1..] == a.key[1..] + [c] && [c][0] == c;
    assert a.blanks + (a.key + [c] + "") == a.blanks + (a.key + "") + [c];
  }

  lemma ValueStarts(a: Attribute)
    requires IsWritableAttribute(a) && a.value.None?
    ensures var a' := a.(value := Some("")); IsWritableAttribute(a') && PrintAttribute(a') == PrintAttribute(a) + "="
  {
    assert "=" + "" == "=" && a.blanks + (a.key + "=") == a.blanks + (a.key + "") + "=";
  }

  lemma ValueMore(a: Attribute, c: char)
    requires IsWritableAttribute(a) && a.value.Some? && IsPlain([c])
    ensures var a' := a.(value := Some(a.value.value + [c]));
            IsWritableAttribute(a') && PrintAttribute(a') == PrintAttribute(a) + [c]
  {
    assert [c][0] == c;
    assert a.blanks + (a.key + ("=" + (a.value.value + [c]))) == a.blanks + (a.key + ("=" + a.value.value)) + [c];
  }

  /** The closing bracket makes the open item one of the line's. */
  lemma Closes(p: Parser, s: string, l: Line, w: Item)
    requires IsOpen(l, w, s)
    ensures var l' := l.(items := l.items + [w]); IsLaidOut(l') && l'.items != [] && s + ">" == PrintLine(l')
  {
    hide PrintLine, IsLaidOut, IsWritable, PrintAttributes;
    LaidOutMore(l, w);
    assert PrintItem(w) == PrintOpen(w) + ">";
    Associates(PrintLine(l), PrintOpen(w), ">");
  }

  lemma SymbolStep(p: Parser, s: string, l: Line, w: Item, c: char) returns (l': Line, w': Item)
    requires p.Parser? && p.state == SYMBOL
    requires IsAt(p, s, l, w) && c != '#' && c != '\0' && Step(p, c).Parser?
    ensures IsAt(Step(p, c), s + [c], l', w')
  {
    hide PrintLine, IsLaidOut, AddSymbol;
    AddedState(p.(state := SYMBOLEND, symbolName := p.token), p.token);
    l', w' := l, w;
    assert PrintOpen(w) == "<" + p.token by {
      assert p.token + ("" + "") == p.token;
    }
    if IsBlank(c) {
      w' := w.(blanks := "" + [c]);
      BlankMore(w, c);
      OpenMore(l, w, s, w', c);
      assert IsWritable(w);
    } else if c == '>' {
      assert IsWritable(w);
      l' := l.(items := l.items + [w]);
      Closes(p, s, l, w);
    } else {
      w' := Item(p.token + [c], [], "");
      assert PrintOpen(w') == "<" + p.token + [c] by {
        assert p.token + [c] + ("" + "") == p.token + [c];
      }
      OpenMore(l, w, s, w', c);
    }
  }

  lemma AddedState(p: Parser, value: string)
    requires p.Parser?
    ensures AddSymbol(p, value).Parser? ==> AddSymbol(p, value).state == p.state
  {
    hide GetOrCreate, Unhex, IdOf;
  }

  lemma SpaceStep(p: Parser, s: string, l: Line, w: Item, c: char) returns (l': Line, w': Item)
    requires p.Parser? && p.state == SYMBOLSPACE
    requires IsAt(p, s, l, w) && c != '#' && c != '\0' && Step(p, c).Parser?
    ensures IsAt(Step(p, c), s + [c], l', w')
  {
    hide PrintLine, IsLaidOut, AddSymbol, PrintOpen, IsWritable;
    AddedState(p.(state := SYMBOLEND), p.symbolName);
    l', w' := l, w;
    if IsBlank(c) {
      w' := w.(blanks := w.blanks + [c]);
      BlankMore(w, c);
      OpenMore(l, w, s, w', c);
    } else if c == '>' {
      l' := l.(items := l.items + [w]);
      Closes(p, s, l, w);
    } else {
      w' := Item(w.name, w.attributes + [Attribute(w.blanks, [c], None)], "");
      KeyStarts(w, c);
      OpenMore(l, w, s, w', c);
    }
  }

  lemma AttributeStep(p: Parser, s: string, l: Line, w: Item, c: char) returns (l': Line, w': Item)
    requires p.Parser? && (p.state == ATTRNAME || p.state == ATTRVALUE)
    requires IsAt(p, s, l, w) && c != '#' && c != '\0' && Step(p, c).Parser?
    ensures IsAt(Step(p, c), s + [c], l', w')
  {
    AddedState(p.(state := SYMBOLEND, attrName := p.token, attributes := p.attributes[p.token := ""]), p.symbolName);
    AddedState(p.(state := SYMBOLEND, attributes := p.attributes[p.attrName := p.token]), p.symbolName);
    l', w' := l, w;
    var n := |w.attributes| - 1;
    var a := w.attributes[n];
    assert IsWritableAttribute(a);
    hide PrintLine, IsLaidOut, AddSymbol, PrintOpen, IsWritable, PrintAttribute, IsWritableAttribute;
    if IsBlank(c) {
      w' := w.(blanks := w.blanks + [c]);
      BlankMore(w, c);
      OpenMore(l, w, s, w', c);
    } else if c == '>' {
      l' := l.(items := l.items + [w]);
      Closes(p, s, l, w);
    } else {
      var a' := LongerAttribute(a, c);
      w' := w.(attributes := w.attributes[..n] + [a']);
      LastMore(w, a', c);
      OpenMore(l, w, s, w', c);
    }
  }

  lemma LongerAttribute(a: Attribute, c: char) returns (a': Attribute)
    requires IsWritableAttribute(a) && IsPlain([c])
    ensures IsWritableAttribute(a') && PrintAttribute(a') == PrintAttribute(a) + [c]
    ensures a'.value.Some? <==> a.value.Some? || c == '='
  {
    hide PrintAttribute, IsWritableAttribute;
    if a.value.Some? {
      a' := a.(value := Some(a.value.value + [c]));
      ValueMore(a, c);
    } else if c == '=' {
      a' := a.(value := Some(""));
      ValueStarts(a);
    } else {
      a' := a.(key := a.key + [c]);
      KeyMore(a, c);
    }
  }

  /** Whatever the machine has read without rejecting it is the start of a line. */
  lemma {:induction false} ReadsLayout(g: Grammar, s: string) returns (l: Line, w: Item)
    requires '#' !in s && '\0' !in s && Feed(Start(g), s).Parser?
    ensures IsAt(Feed(Start(g), s), s, l, w)
    decreases |s|
  {
    hide Step, IsAt;
    if s == "" {
      l, w := Line("", "", "", "", []), Text("");
      AtStart(g, w);
    } else {
      var n := |s| - 1;
      var p, c := Feed(Start(g), s[..n]), s[n];
      FeedConcat(Start(g), s[..n], [c]);
      FeedOne(p, c);
      assert s[..n] + [c] == s;
      StepReject(p, c);
      l, w := ReadsLayout(g, s[..n]);
      l, w := StepLayout(p, s[..n], l, w, c);
    }
  }

  lemma AtStart(g: Grammar, w: Item)
    ensures IsAt(Feed(Start(g), ""), "", Line("", "", "", "", []), w)
  {
  }

  lemma StepReject(p: Parser, c: char)
    ensures Step(p, c).Parser? ==> p.Parser?
  {
  }

  lemma StepLayout(p: Parser, s: string, l: Line, w: Item, c: char) returns (l': Line, w': Item)
    requires p.Parser? && IsAt(p, s, l, w) && c != '#' && c != '\0' && Step(p, c).Parser?
    ensures IsAt(Step(p, c), s + [c], l', w')
  {
    hide Step, IsAt;
    match p.state {
      case LINESTART => w' := w; l' := HeadStep(p, s, l, w, c);
      case GENERATORSYMBOL => w' := w; l' := HeadStep(p, s, l, w, c);
      case GENERATORSYMBOLEND => w' := w; l' := HeadStep(p, s, l, w, c);
      case EQUAL => l', w' := EqualStep(p, s, l, w, c);
      case EQUALSPACE => l', w' := EqualStep(p, s, l, w, c);
      case SYMBOLEND => l', w' := BetweenStep(p, s, l, w, c);
      case STRING => l', w' := BetweenStep(p, s, l, w, c);
      case SYMBOL => l', w' := SymbolStep(p, s, l, w, c);
      case SYMBOLSPACE => l', w' := SpaceStep(p, s, l, w, c);
      case ATTRNAME => l', w' := AttributeStep(p, s, l, w, c);
      case ATTRVALUE => l', w' := AttributeStep(p, s, l, w, c);
    }
  }

  lemma EndsLaidOut(p: Parser, s: string, l: Line, w: Item)
    requires p.Parser? && IsAt(p, s, l, w) && Step(p, '\0').Parser?
    ensures IsLaidOut(l) && s == PrintLine(l)
  {
    hide PrintLine, IsLaidOut, AddSymbol, AddString;
  }

  /** An accepted line that is not blank is laid out, up to a character 0 if it has one. */
  lemma AcceptedIsLaidOut(g: Grammar, line: string) returns (l: Line)
    requires Clean(line) != "" && ParseLine(g, line).Some?
    ensures IsLaidOut(l) && PrintLine(l) == Until(Clean(line), '\0')
  {
    var s := Until(Clean(line), '\0');
    UntilSplits(Clean(line), '\0');
    var blanks, comment := CleanSplits(line);
    assert forall i :: 0 <= i < |s| ==> s[i] == Clean(line)[i];
    hide Until, TrimEnd, Step, IsAt, PrintLine, AddRule;
    FeedConcat(Start(g), s, "\0");
    var p := Feed(Start(g), s);
    FeedOne(p, '\0');
    StepReject(p, '\0');
    var w;
    l, w := ReadsLayout(g, s);
    EndsLaidOut(p, s, l, w);
  }

  // ---------- Hexadecimal digits and constants ----------

  /** `c` is the hexadecimal digit of `n`, in lower or upper case. */
  predicate IsDigitOf(c: char, n: nat) {
    n < 16 && (c == "0123456789abcdef"[n] || c == "0123456789ABCDEF"[n])
  }

  lemma HexValueIff(c: char, n: nat)
    ensures HexValue(c) == Some(n) <==> IsDigitOf(c, n)
  {
    if n < 10 {
      assert IsDigitOf(c, n) <==> c as int == '0' as int + n;
    } else if n < 16 {
      assert IsDigitOf(c, n) <==> c as int == 'a' as int + n - 10 || c as int == 'A' as int + n - 10;
    }
  }

  /** Two digits spell a byte, the high one first. */
  ghost predicate IsPair(a: char, b: char, byte: char) {
    exists high: nat, low: nat :: IsDigitOf(a, high) && IsDigitOf(b, low) && byte as int == 16 * high + low
  }

  ghost predicate SpelledAt(digits: string, bytes: string, i: nat)
    requires i < |bytes| && |digits| == 2 * |bytes|
  {
    IsPair(digits[2 * i], digits[2 * i + 1], bytes[i])
  }

  ghost predicate Spelled(digits: string, bytes: string) {
    |digits| == 2 * |bytes| && forall i :: 0 <= i < |bytes| ==> SpelledAt(digits, bytes, i)
  }

  /** Digits are decoded exactly to the bytes that they spell, pair by pair. */
  lemma {:induction false} UnhexIff(digits: string, bytes: string)
    ensures Unhex(digits) == Some(bytes) <==> Spelled(digits, bytes)
    decreases |digits|
  {
    if |digits| >= 2 && bytes != "" {
      UnhexIff(digits[2..], bytes[1..]);
      PairIff(digits[0], digits[1], bytes[0]);
      SpelledCons(digits, bytes);
      hide Spelled, SpelledAt, IsPair, HexValue;
      assert bytes == [bytes[0]] + bytes[1..];
    }
  }

  lemma PairIff(a: char, b: char, byte: char)
    ensures IsPair(a, b, byte)
            <==> HexValue(a).Some? && HexValue(b).Some? && byte as int == 16 * HexValue(a).value + HexValue(b).value
  {
    hide HexValue, IsDigitOf;
    forall c, n: nat
      ensures HexValue(c) == Some(n) <==> IsDigitOf(c, n)
    {
      HexValueIff(c, n);
    }
  }

  lemma SpelledCons(digits: string, bytes: string)
    requires |digits| >= 2 && bytes != ""
    ensures Spelled(digits, bytes) <==> Spelled(digits[2..], bytes[1..]) && IsPair(digits[0], digits[1], bytes[0])
  {
    hide IsPair;
    if |digits| == 2 * |bytes| {
      var d, b := digits[2..], bytes[1..];
      forall i | 0 <= i < |b|
        ensures SpelledAt(d, b, i) <==> SpelledAt(digits, bytes, i + 1)
      {
        assert d[2 * i] == digits[2 * (i + 1)] && d[2 * i + 1] == digits[2 * (i + 1) + 1];
      }
      assert SpelledAt(digits, bytes, 0) <==> IsPair(digits[0], digits[1], bytes[0]);
      hide SpelledAt;
      if Spelled(d, b) && IsPair(digits[0], digits[1], bytes[0]) {
        forall i | 0 <= i < |bytes|
          ensures SpelledAt(digits, bytes, i)
        {
          assert i > 0 ==> SpelledAt(d, b, i - 1);
        }
      }
    }
  }

  /** The constants, by the codes of their characters. */
  lemma ConstantsAre(name: string)
    ensures name in CONSTANTS <==> name in ["lt", "gt", "hash", "cr", "lf", "crlf", "space", "tab"]
    ensures CONSTANTS["lt"] == [60 as char] && CONSTANTS["gt"] == [62 as char] && CONSTANTS["hash"] == [35 as char]
    ensures CONSTANTS["cr"] == [13 as char] && CONSTANTS["lf"] == [10 as char]
    ensures CONSTANTS["crlf"] == [13 as char, 10 as char]
    ensures CONSTANTS["space"] == [32 as char] && CONSTANTS["tab"] == [9 as char]
  {
  }

  // ---------- Numbers ----------

  predicate AllSpace(s: string) {
    forall i :: 0 <= i < |s| ==> s[i] == ' ' || 9 <= s[i] as int <= 13
  }

  predicate StartsDigit(s: string) {
    s != "" && '0' <= s[0] <= '9'
  }

  lemma {:induction false} DigitsStop(s: string, rest: string, acc: nat)
    requires AllDigits(s) && !StartsDigit(rest)
    ensures Digits(s + rest, acc) == Digits(s, acc)
    decreases |s|
  {
    if s == "" {
      assert s + rest == rest;
    } else {
      assert (s + rest)[1..] == s[1..] + rest;
      DigitsStop(s[1..], rest, 10 * acc + (s[0] as int - '0' as int));
    }
  }

  lemma {:induction false} AtoiSkips(blanks: string, s: string)
    requires AllSpace(blanks)
    ensures Atoi(blanks + s) == Atoi(s)
    decreases |blanks|
  {
    if blanks == "" {
      assert blanks + s == s;
    } else {
      assert (blanks + s)[1..] == blanks[1..] + s;
      AtoiSkips(blanks[1..], s);
    }
  }

  /** White space before a number is skipped, one sign may come before it, and it ends at the
      first character that is not a digit. */
  lemma AtoiReads(blanks: string, n: nat, rest: string)
    requires AllSpace(blanks) && !StartsDigit(rest)
    ensures Atoi(blanks + (Decimal(n) + rest)) == n
    ensures Atoi(blanks + ("+" + (Decimal(n) + rest))) == n && Atoi(blanks + ("-" + (Decimal(n) + rest))) == -(n as int)
    ensures rest == "" || (!IsSpace(rest[0]) && rest[0] != '+' && rest[0] != '-') ==> Atoi(blanks + rest) == 0
  {
    var s := Decimal(n) + rest;
    AtoiDecimal(n);
    DigitsStop(Decimal(n), rest, 0);
    DigitsStop("", rest, 0);
    assert "" + rest == rest && s[0] == Decimal(n)[0];
    AtoiSkips(blanks, s);
    AtoiSkips(blanks, "+" + s);
    AtoiSkips(blanks, "-" + s);
    AtoiSkips(blanks, rest);
    assert ("+" + s)[1..] == s && ("-" + s)[1..] == s;
    hide Decimal, Digits;
  }

  // ---------- Which items are accepted ----------

  predicate IsHexDigit(c: char) {
    c in "0123456789abcdefABCDEF"
  }

  predicate AllHex(s: string) {
    forall i :: 0 <= i < |s| ==> IsHexDigit(s[i])
  }

  /** The item is text, a constant, an even number of hexadecimal digits, or a symbol whose
      `id`, if it or a terminal before it has one, is positive. */
  predicate IsTaken(ws: seq<Item>, k: nat)
    requires k < |ws|
  {
    match ws[k]
    case Text(_) => true
    case Item(name, attributes, _) =>
      if name in CONSTANTS then true
      else if "0x" <= name then |name| % 2 == 0 && AllHex(name[2..])
      else
        var all := LeftOver(ws[..k]) + Merged(map[], attributes);
        "id" in all ==> Atoi(all["id"]) > 0
  }

  lemma {:induction false} UnhexSomeIff(digits: string)
    ensures Unhex(digits).Some? <==> |digits| % 2 == 0 && AllHex(digits)
    decreases |digits|
  {
    hide HexValue, IsHexDigit;
    if |digits| >= 2 {
      UnhexSomeIff(digits[2..]);
      HexDigitIff(digits[0]);
      HexDigitIff(digits[1]);
      AllHexTwo(digits);
      hide AllHex;
    }
  }

  lemma AllHexTwo(digits: string)
    requires |digits| >= 2
    ensures AllHex(digits) <==> IsHexDigit(digits[0]) && IsHexDigit(digits[1]) && AllHex(digits[2..])
  {
    hide IsHexDigit;
    if IsHexDigit(digits[0]) && IsHexDigit(digits[1]) && AllHex(digits[2..]) {
      forall i | 0 <= i < |digits|
        ensures IsHexDigit(digits[i])
      {
        assert i >= 2 ==> digits[i] == digits[2..][i - 2];
      }
    }
    if AllHex(digits) {
      forall i | 0 <= i < |digits[2..]|
        ensures IsHexDigit(digits[2..][i])
      {
        assert digits[2..][i] == digits[i + 2];
      }
    }
  }

  lemma HexDigitIff(c: char)
    ensures HexValue(c).Some? <==> IsHexDigit(c)
  {
  }

  predicate AllTaken(ws: seq<Item>) {
    forall k :: 0 <= k < |ws| ==> IsTaken(ws, k)
  }

  lemma AllTakenLast(ws: seq<Item>)
    requires ws != []
    ensures AllTaken(ws) <==> AllTaken(ws[..|ws| - 1]) && IsTaken(ws, |ws| - 1)
  {
    hide IsTaken;
    var before := ws[..|ws| - 1];
    forall k | 0 <= k < |before|
      ensures IsTaken(before, k) <==> IsTaken(ws, k)
    {
      TakenSame(before, ws, k);
    }
  }

  /** The machine takes the items of a rule exactly when each of them is acceptable. */
  lemma {:induction false} TakesIff(p: Parser, ws: seq<Item>)
    requires p.Parser? && p.attributes == map[]
    ensures TakeItems(p, ws).Parser? <==> AllTaken(ws)
  {
    if ws != [] {
      var before, w := ws[..|ws| - 1], ws[|ws| - 1];
      var q := TakeItems(p, before);
      assert TakeItems(p, ws) == TakeItem(q, w);
      hide TakeItems, TakeItem, IsTaken, AllTaken, LeftOver;
      TakesIff(p, before);
      AllTakenLast(ws);
      if q.Parser? {
        LeftOverIs(p, before);
        LastTaken(q, ws);
      } else {
        TakeRested(p, w);
      }
    }
  }

  lemma TakenSame(ws: seq<Item>, more: seq<Item>, k: nat)
    requires ws <= more && k < |ws|
    ensures IsTaken(ws, k) <==> IsTaken(more, k)
  {
    assert ws[..k] == more[..k] && ws[k] == more[k];
  }

  lemma LastTaken(p: Parser, ws: seq<Item>)
    requires p.Parser? && ws != [] && p.attributes == LeftOver(ws[..|ws| - 1])
    ensures TakeItem(p, ws[|ws| - 1]).Parser? <==> IsTaken(ws, |ws| - 1)
  {
    var w := ws[|ws| - 1];
    hide GetOrCreate, Atoi, LeftOver, Unhex, Merged, AllHex, AddSymbol, AddString, IdOf;
    if w.Item? {
      MergedKeys(p.attributes, w.attributes);
      AddsIff(p.(state := SYMBOLEND, attributes := Merged(p.attributes, w.attributes)), w.name);
    }
  }

  lemma AddsIff(p: Parser, name: string)
    requires p.Parser?
    ensures AddSymbol(p, name).Parser?
            <==> if name in CONSTANTS then true
                 else if "0x" <= name then |name| % 2 == 0 && AllHex(name[2..])
                 else "id" in p.attributes ==> Atoi(p.attributes["id"]) > 0
  {
    hide GetOrCreate, Atoi, Unhex, AllHex, AddString;
    if "0x" <= name {
      UnhexSomeIff(name[2..]);
    }
  }

  /** A line that is not blank is accepted exactly when it is laid out, with items that are
      acceptable. */
  lemma AcceptedIff(g: Grammar, line: string)
    requires Clean(line) != ""
    ensures ParseLine(g, line).Some?
            <==> exists l: Line :: IsLaidOut(l) && PrintLine(l) == Until(Clean(line), '\0')
                                   && AllTaken(l.items)
  {
    hide Clean, IsLaidOut, PrintLine, ParseLine, AllTaken, TakeItems, Until, AddRule;
    if ParseLine(g, line).Some? {
      var l := AcceptedIsLaidOut(g, line);
      ParseLaidOut(g, l, line);
      TakesIff(AtParts(g, l.generates), l.items);
    }
    if l: Line :| IsLaidOut(l) && PrintLine(l) == Until(Clean(line), '\0')
                  && AllTaken(l.items) {
      ParseLaidOut(g, l, line);
      TakesIff(AtParts(g, l.generates), l.items);
    }
  }

  // ---------- The terminals of a rule ----------

  /** What a text, a constant or a name in hexadecimal stands for. */
  function TextOf(w: Item): string
    requires IsText(w)
  {
    if w.Text? then w.text
    else if w.name in CONSTANTS then CONSTANTS[w.name]
    else match Unhex(w.name[2..]) case None => "" case Some(bytes) => bytes
  }

  function TextsOf(ws: seq<Item>): string
    requires forall i :: 0 <= i < |ws| ==> IsText(ws[i])
  {
    if ws == [] then "" else TextsOf(ws[..|ws| - 1]) + TextOf(ws[|ws| - 1])
  }

  /** Items `i` up to `j` are neighbouring terminals, and not next to others. */
  predicate IsTextRun(ws: seq<Item>, i: nat, j: nat) {
    && i < j <= |ws| && (forall k :: i <= k < j ==> IsText(ws[k]))
    && (i > 0 ==> !IsText(ws[i - 1])) && (j < |ws| ==> !IsText(ws[j]))
  }

  /** Neighbouring terminals make one part, of all their text in order, after the parts that
      the items before them make. */
  lemma TextRunIs(p: Parser, ws: seq<Item>, i: nat, j: nat)
    requires p.Parser? && p.state == SYMBOLEND && p.parts == [] && TakeItems(p, ws).Parser? && IsTextRun(ws, i, j)
    ensures var parts := TakeItems(p, ws).parts;
            PartCount(ws[..i]) < |parts| && parts[PartCount(ws[..i])] == StringPart(TextsOf(ws[i..j]))
  {
    hide TakeItems, PartCount, IsText, TextsOf;
    PrefixTaken(p, ws, i);
    PrefixTaken(p, ws, j);
    PartsCounted(p, ws[..i]);
    var before := TakeItems(p, ws[..i]);
    assert i > 0 ==> ws[..i][i - 1] == ws[i - 1];
    NoText(p, ws, i);
    RunTaken(p, ws, i, j);
    if j < |ws| {
      PrefixTaken(p, ws, j + 1);
      SymbolAfter(p, ws, j);
      assert ws[..|ws|] == ws;
      StaysBefore(p, ws, j + 1, |ws|, |before.parts| + 1);
    } else {
      assert ws[..j] == ws;
    }
  }

  lemma NoText(p: Parser, ws: seq<Item>, i: nat)
    requires p.Parser? && p.state == SYMBOLEND && p.parts == [] && i <= |ws| && TakeItems(p, ws[..i]).Parser?
    requires i > 0 ==> !IsText(ws[i - 1])
    ensures var before := TakeItems(p, ws[..i]);
            before.parts != [] ==> before.parts[|before.parts| - 1].SymbolPart?
    ensures TakeItems(p, ws[..i]).state == SYMBOLEND
  {
    PartsCounted(p, ws[..i]);
    TakenIsRested(p, ws[..i]);
    if i == 0 {
      assert TakeItems(p, ws[..0]) == p;
    } else {
      hide TakeItems, PartCount;
      assert ws[..i][i - 1] == ws[i - 1];
    }
  }

  lemma TakenLast(p: Parser, ws: seq<Item>, n: nat)
    requires n < |ws|
    ensures TakeItems(p, ws[..n + 1]) == TakeItem(TakeItems(p, ws[..n]), ws[n])
    ensures TakeItems(p, ws[..n + 1]).Parser? ==> TakeItems(p, ws[..n]).Parser?
  {
    hide TakeItem;
    assert ws[..n + 1][..n] == ws[..n];
    TakeRested(TakeItems(p, ws[..n]), ws[n]);
  }

  lemma {:induction false} RunTaken(p: Parser, ws: seq<Item>, i: nat, j: nat)
    requires p.Parser? && p.state == SYMBOLEND && i < j <= |ws| && (forall k :: i <= k < j ==> IsText(ws[k]))
    requires TakeItems(p, ws[..i]).Parser? && TakeItems(p, ws[..j]).Parser?
    requires var parts := TakeItems(p, ws[..i]).parts; parts != [] ==> parts[|parts| - 1].SymbolPart?
    ensures TakeItems(p, ws[..j]).parts == TakeItems(p, ws[..i]).parts + [StringPart(TextsOf(ws[i..j]))]
    decreases j
  {
    hide TakeItems, TakeItem, TextOf, IsText;
    var n := j - 1;
    TakenLast(p, ws, n);
    TakenIsRested(p, ws[..n]);
    TextAdded(TakeItems(p, ws[..n]), ws[n]);
    TextsLast(ws, i, n);
    hide TextsOf;
    if i < n {
      RunTaken(p, ws, i, n);
    }
  }

  lemma TextsLast(ws: seq<Item>, i: nat, n: nat)
    requires i <= n < |ws| && forall k :: i <= k <= n ==> IsText(ws[k])
    ensures TextsOf(ws[i..n + 1]) == (if i == n then "" else TextsOf(ws[i..n])) + TextOf(ws[n])
    ensures "" + TextOf(ws[n]) == TextOf(ws[n])
  {
    hide TextOf, IsText;
    var run := ws[i..n + 1];
    assert run[..|run| - 1] == ws[i..n] && run[|run| - 1] == ws[n];
    assert i == n ==> ws[i..n] == [];
  }

  lemma TextAdded(p: Parser, w: Item)
    requires p.Parser? && p.state == SYMBOLEND && IsText(w) && TakeItem(p, w).Parser?
    ensures TakeItem(p, w).parts
            == if p.parts != [] && p.parts[|p.parts| - 1].StringPart?
               then p.parts[..|p.parts| - 1] + [StringPart(p.parts[|p.parts| - 1].value + TextOf(w))]
               else p.parts + [StringPart(TextOf(w))]
  {
    hide GetOrCreate, Unhex, IdOf, Merged;
  }

  lemma SymbolAfter(p: Parser, ws: seq<Item>, j: nat)
    requires p.Parser? && p.state == SYMBOLEND && j < |ws| && !IsText(ws[j])
    requires TakeItems(p, ws[..j]).Parser? && TakeItems(p, ws[..j + 1]).Parser?
    ensures var before, after := TakeItems(p, ws[..j]).parts, TakeItems(p, ws[..j + 1]).parts;
            |after| == |before| + 1 && after[..|before|] == before && after[|before|].SymbolPart?
  {
    assert ws[..j + 1][..j] == ws[..j] && ws[..j + 1][j] == ws[j];
    hide GetOrCreate, Unhex, IdOf, Merged;
  }

  /** Parts before a symbol stay as they are. */
  lemma {:induction false} StaysBefore(p: Parser, ws: seq<Item>, k: nat, j: nat, n: nat)
    requires p.Parser? && k <= j <= |ws| && TakeItems(p, ws[..k]).Parser? && TakeItems(p, ws[..j]).Parser?
    requires n < |TakeItems(p, ws[..k]).parts| && TakeItems(p, ws[..k]).parts[n].SymbolPart?
    ensures var parts := TakeItems(p, ws[..j]).parts;
            n < |parts| && parts[..n + 1] == TakeItems(p, ws[..k]).parts[..n + 1]
    decreases j
  {
    hide TakeItems, TakeItem;
    if k < j {
      TakenLast(p, ws, j - 1);
      StaysBefore(p, ws, k, j - 1, n);
      var before := TakeItems(p, ws[..j - 1]).parts;
      assert before[n] == before[..n + 1][n];
      OneStays(TakeItems(p, ws[..j - 1]), ws[j - 1], n);
    }
  }

  lemma OneStays(p: Parser, w: Item, n: nat)
    requires p.Parser? && n < |p.parts| && p.parts[n].SymbolPart? && TakeItem(p, w).Parser?
    ensures n < |TakeItem(p, w).parts| && TakeItem(p, w).parts[..n + 1] == p.parts[..n + 1]
  {
    hide GetOrCreate, Unhex, IdOf, Merged;
  }

  /** So an accepted line has read its rule completely: as many parts as its items make, its
      terminals by this lemma, and its symbols by AttributesReadBackIff. */
  lemma TerminalsReadBack(g: Grammar, l: Line, i: nat, j: nat)
    requires IsWritableLine(l) && ParseLine(g, PrintLine(l)).Some? && IsTextRun(l.items, i, j)
    ensures var read := ParseLine(g, PrintLine(l)).value;
            && l.generates in read && read[l.generates].generators != []
            && var rules := read[l.generates].generators;
               var parts, k := rules[|rules| - 1].parts, PartCount(l.items[..i]);
               && rules[|rules| - 1].generates == l.generates
               && |parts| == PartCount(l.items) && k < |parts| && parts[k] == StringPart(TextsOf(l.items[i..j]))
  {
    hide IsWritableLine, ParseLine, PrintLine, TakeItems, GetOrCreate, PartCount, IsTextRun, IsText, TextsOf;
    ParseItems(g, l);
    var p := AtParts(g, l.generates);
    PartsCounted(p, l.items);
    TextRunIs(p, l.items, i, j);
  }
}
