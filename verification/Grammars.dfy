/** Grammars as read from a file, and what it means for a tree to be derived from one
    (mutators/grammar/grammar.h, grammar.cpp). */
module Grammars {
  import opened Trees

  /** A terminal part, or a symbol part with its attributes; `id` is the value of the
      `id` attribute and 0 when there is none. */
  datatype RulePart =
    | StringPart(value: string)
    | SymbolPart(symbol: string, id: nat, attributes: map<string, string>)

  datatype Rule = Rule(generates: string, parts: seq<RulePart>)

  datatype Symbol = Symbol(repeat: bool, repeatSymbol: string, canBeEmpty: bool,
                           used: bool, generators: seq<Rule>)

  /** The symbol table.  Names take the place of the `Symbol*` pointers, one symbol per name. */
  type Grammar = map<string, Symbol>

  /** Every name a rule or a repeat symbol mentions is in the table. */
  ghost predicate Closed(g: Grammar) {
    forall name :: name in g ==>
      && (g[name].repeat ==> g[name].repeatSymbol in g)
      && forall r :: 0 <= r < |g[name].generators| ==> ClosedParts(g, g[name].generators[r].parts)
  }

  ghost predicate ClosedParts(g: Grammar, parts: seq<RulePart>) {
    forall i :: 0 <= i < |parts| && parts[i].SymbolPart? ==> parts[i].symbol in g
  }

  predicate HasEmptyRule(s: Symbol) {
    exists r :: 0 <= r < |s.generators| && s.generators[r].parts == []
  }

  /** What a successful `Read` leaves behind. */
  ghost predicate WellFormed(g: Grammar) {
    && Closed(g)
    && forall name :: name in g ==>
         && (g[name].repeat || g[name].generators != [])
         && (g[name].canBeEmpty <==> HasEmptyRule(g[name]))
  }

  // ---------- Derivations ----------

  ghost predicate Derives(g: Grammar, name: string, t: Value)
    decreases t
  {
    && t.tag == SYMBOL
    && t.text == name
    && name in g
    && if g[name].repeat then
         forall i :: 0 <= i < |t.kids| ==> Derives(g, g[name].repeatSymbol, t.kids[i])
       else
         exists r :: 0 <= r < |g[name].generators| && Matches(g, g[name].generators[r].parts, t.kids)
  }

  ghost predicate Matches(g: Grammar, parts: seq<RulePart>, kids: seq<Value>)
    decreases kids
  {
    && |parts| == |kids|
    && forall i :: 0 <= i < |kids| ==>
         match parts[i]
         case StringPart(value) => kids[i] == Leaf(value)
         case SymbolPart(symbol, _, _) => Derives(g, symbol, kids[i])
  }

  /** A node that may stand inside a derivation: a terminal without children or the
      root of a derivation of its own symbol. */
  ghost predicate Sound<Id>(g: Grammar, t: Tree<Id>) {
    if t.tag == STRING then t.kids == [] else Derives(g, t.text, Erase(t))
  }

  lemma KidsSound<Id>(g: Grammar, t: Tree<Id>, i: nat)
    requires Sound(g, t) && i < |t.kids|
    ensures Sound(g, t.kids[i])
  {
    var e := Erase(t.kids[i]);
    assert e == Erase(t).kids[i];
    assert |e.kids| == |t.kids[i].kids|;
    if g[t.text].repeat {
      assert Derives(g, g[t.text].repeatSymbol, e);
    } else {
      var r :| 0 <= r < |g[t.text].generators| && Matches(g, g[t.text].generators[r].parts, Erase(t).kids);
      match g[t.text].generators[r].parts[i]
      case StringPart(value) => assert e == Leaf(value);
      case SymbolPart(symbol, _, _) => assert Derives(g, symbol, e);
    }
  }

  /** Inside a derivation every node is sound. */
  lemma {:induction false} FindSound<Id>(g: Grammar, f: seq<Tree<Id>>, n: Id)
    requires forall i :: 0 <= i < |f| ==> Sound(g, f[i])
    requires n in IdSet(f)
    ensures Sound(g, Find(f, n))
  {
    if f[0].id == n {
    } else if n in IdSet(f[0].kids) {
      forall i | 0 <= i < |f[0].kids| ensures Sound(g, f[0].kids[i]) {
        KidsSound(g, f[0], i);
      }
      FindSound(g, f[0].kids, n);
    } else {
      FindSound(g, f[1..], n);
    }
  }

  /** Every node named `n` is a `name` symbol. */
  predicate Labelled<Id(==)>(f: seq<Tree<Id>>, n: Id, name: string) {
    f == [] ||
    (&& (f[0].id == n ==> f[0].tag == SYMBOL && f[0].text == name)
     && Labelled(f[0].kids, n, name)
     && Labelled(f[1..], n, name))
  }

  lemma {:induction false} LabelledAbsent<Id>(f: seq<Tree<Id>>, n: Id, name: string)
    requires n !in IdSet(f)
    ensures Labelled(f, n, name)
  {
    if f != [] {
      LabelledAbsent(f[0].kids, n, name);
      LabelledAbsent(f[1..], n, name);
    }
  }

  lemma {:induction false} FoundIsLabelled<Id>(f: seq<Tree<Id>>, n: Id)
    requires n in IdSet(f) && Distinct(f)
    requires Find(f, n).tag == SYMBOL
    ensures Labelled(f, n, Find(f, n).text)
  {
    var name := Find(f, n).text;
    if f[0].id == n {
      LabelledAbsent(f[0].kids, n, name);
      LabelledAbsent(f[1..], n, name);
    } else if n in IdSet(f[0].kids) {
      FoundIsLabelled(f[0].kids, n);
      LabelledAbsent(f[1..], n, name);
    } else {
      LabelledAbsent(f[0].kids, n, name);
      FoundIsLabelled(f[1..], n);
    }
  }

  lemma {:induction false} LabelledAt<Id>(f: seq<Tree<Id>>, n: Id, name: string, i: nat)
    requires Labelled(f, n, name) && i < |f|
    ensures Labelled(f[i].kids, n, name)
    ensures f[i].id == n ==> f[i].tag == SYMBOL && f[i].text == name
  {
    if i > 0 {
      LabelledAt(f[1..], n, name, i - 1);
    }
  }

  /** Context-freeness: putting one derivation of a symbol where another one stood
      leaves a derivation. */
  lemma {:induction false} SubstDerives<Id>(g: Grammar, root: string, t: Tree<Id>, n: Id, name: string, r: Tree<Id>)
    requires Derives(g, root, Erase(t))
    requires Labelled([t], n, name)
    requires Derives(g, name, Erase(r))
    ensures Derives(g, root, Erase(SubstTree(t, n, r)))
    decreases t
  {
    LabelledAt([t], n, name, 0);
    if t.id != n {
      var u := SubstTree(t, n, r);
      var before, after := Erase(t).kids, Erase(u).kids;
      forall i | 0 <= i < |t.kids|
        ensures after[i] == Erase(SubstTree(t.kids[i], n, r))
      {
        SubstAt(t.kids, n, r, i);
      }
      if g[root].repeat {
        forall i | 0 <= i < |t.kids| ensures Derives(g, g[root].repeatSymbol, after[i]) {
          assert Derives(g, g[root].repeatSymbol, before[i]);
          ChildLabelled(t.kids, n, name, i);
          SubstDerives(g, g[root].repeatSymbol, t.kids[i], n, name, r);
        }
      } else {
        var k :| 0 <= k < |g[root].generators| && Matches(g, g[root].generators[k].parts, before);
        var parts := g[root].generators[k].parts;
        forall i | 0 <= i < |t.kids|
          ensures match parts[i]
                  case StringPart(value) => after[i] == Leaf(value)
                  case SymbolPart(symbol, _, _) => Derives(g, symbol, after[i])
        {
          ChildLabelled(t.kids, n, name, i);
          match parts[i]
          case StringPart(value) =>
            assert before[i] == Erase(t.kids[i]);
            assert |before[i].kids| == |t.kids[i].kids|;
            LabelledAt([t.kids[i]], n, name, 0);
            assert SubstTree(t.kids[i], n, r) == t.kids[i];
          case SymbolPart(symbol, _, _) =>
            assert Derives(g, symbol, before[i]);
            SubstDerives(g, symbol, t.kids[i], n, name, r);
        }
        assert Matches(g, parts, after);
      }
    }
  }

  lemma ChildLabelled<Id>(f: seq<Tree<Id>>, n: Id, name: string, i: nat)
    requires Labelled(f, n, name) && i < |f|
    ensures Labelled([f[i]], n, name)
  {
    LabelledAt(f, n, name, i);
    assert [f[i]][1..] == [];
  }

  /** Every symbol in a derivation is in the grammar. */
  predicate Known<Id>(g: Grammar, f: seq<Tree<Id>>) {
    f == [] || ((f[0].tag != STRING ==> f[0].text in g) && Known(g, f[0].kids) && Known(g, f[1..]))
  }

  lemma {:induction false} SoundIsKnown<Id>(g: Grammar, f: seq<Tree<Id>>)
    requires forall i :: 0 <= i < |f| ==> Sound(g, f[i])
    ensures Known(g, f)
  {
    if f != [] {
      forall i | 0 <= i < |f[0].kids| ensures Sound(g, f[0].kids[i]) {
        KidsSound(g, f[0], i);
      }
      SoundIsKnown(g, f[0].kids);
      SoundIsKnown(g, f[1..]);
    }
  }

  /** `p` changes symbol nodes only, derivations into derivations of the same symbol. */
  ghost predicate Preserves(g: Grammar, p: (Value, Value) -> bool) {
    forall a, b :: p(a, b) ==> a.tag != STRING && (Derives(g, a.text, a) ==> Derives(g, a.text, b))
  }

  /** Such a change at one place keeps the whole a derivation. */
  lemma {:induction false} ChangedDerives(g: Grammar, name: string, t: Value, u: Value, p: (Value, Value) -> bool)
    requires Derives(g, name, t) && Changed(t, u, p)
    requires Preserves(g, p)
    ensures Derives(g, name, u)
    decreases t
  {
    hide Preserves;
    if p(t, u) {
      PreservedHere(g, t, u, p);
    } else {
      var i :| ChangedAt(t.kids, u.kids, i, p);
      assert forall k :: 0 <= k < |t.kids| && k != i ==> u.kids[k] == t.kids[k];
      if g[name].repeat {
        ChangedDerives(g, g[name].repeatSymbol, t.kids[i], u.kids[i], p);
      } else {
        var r :| 0 <= r < |g[name].generators| && Matches(g, g[name].generators[r].parts, t.kids);
        ChangedMatches(g, g[name].generators[r].parts, t.kids, u.kids, i, p);
      }
    }
  }

  lemma PreservedHere(g: Grammar, t: Value, u: Value, p: (Value, Value) -> bool)
    requires Preserves(g, p) && p(t, u)
    ensures t.tag != STRING && (Derives(g, t.text, t) ==> Derives(g, t.text, u))
  {
  }

  lemma LeafUnchanged(g: Grammar, value: string, u: Value, p: (Value, Value) -> bool)
    requires Preserves(g, p)
    ensures !Changed(Leaf(value), u, p)
  {
    if p(Leaf(value), u) {
      PreservedHere(g, Leaf(value), u, p);
    }
  }

  lemma {:induction false} ChangedMatches(
    g: Grammar, parts: seq<RulePart>, kids: seq<Value>, kids': seq<Value>, i: nat, p: (Value, Value) -> bool)
    requires Matches(g, parts, kids) && ChangedAt(kids, kids', i, p)
    requires Preserves(g, p)
    ensures Matches(g, parts, kids')
    decreases kids
  {
    match parts[i] {
      case StringPart(value) => LeafUnchanged(g, value, kids'[i], p);
      case SymbolPart(symbol, _, _) => ChangedDerives(g, symbol, kids[i], kids'[i], p);
    }
    assert forall k :: 0 <= k < |kids| && k != i ==> kids'[k] == kids[k];
  }

  /** Only symbol nodes have children, as in derivations. */
  predicate StringsAreLeaves<Id>(f: seq<Tree<Id>>) {
    f == [] ||
    ((f[0].tag == STRING ==> f[0].kids == []) && StringsAreLeaves(f[0].kids) && StringsAreLeaves(f[1..]))
  }

  lemma {:induction false} SoundStringsAreLeaves<Id>(g: Grammar, f: seq<Tree<Id>>)
    requires forall i :: 0 <= i < |f| ==> Sound(g, f[i])
    ensures StringsAreLeaves(f)
  {
    if f != [] {
      forall i | 0 <= i < |f[0].kids| ensures Sound(g, f[0].kids[i]) {
        KidsSound(g, f[0], i);
      }
      SoundStringsAreLeaves(g, f[0].kids);
      SoundStringsAreLeaves(g, f[1..]);
    }
  }
}
