/** What each random draw of the generator decides (mutators/grammar/grammar.cpp,
    GenerateTree). */
module GenerationDraws {
  import opened Wrappers
  import opened Trees
  import opened Grammars
  import opened Prng
  import opened Generation

  // ---------- Draws by their numbers ----------

  /** Draw number `i`; a record that is used up goes on with its largest value. */
  function Draw(draws: seq<nat>, i: nat): nat {
    if i < |draws| then draws[i] else RAND_MAX
  }

  function Skip(draws: seq<nat>, n: nat): seq<nat> {
    if n <= |draws| then draws[n..] else []
  }

  lemma SkipMore(draws: seq<nat>, n: nat)
    ensures First(Skip(draws, n)) == Draw(draws, n) && Later(Skip(draws, n)) == Skip(draws, n + 1)
    ensures Skip(draws, 0) == draws
  {
  }

  /** A draw below three quarters of the range, or at it, says to go on. */
  predicate SaysOn(draw: nat) {
    4 * draw <= 3 * RAND_MAX
  }

  lemma GoesOnIff(draw: nat)
    ensures GoesOn(draw) <==> SaysOn(draw)
  {
  }

  /** The fractions of the range that choices are made by. */
  lemma TenthsIff(draw: nat)
    ensures Unit(draw) < 0.1 <==> 10 * draw < RAND_MAX
    ensures Unit(draw) < 0.2 <==> 10 * draw < 2 * RAND_MAX
    ensures Unit(draw) < 0.3 <==> 10 * draw < 3 * RAND_MAX
    ensures Unit(draw) < 0.4 <==> 10 * draw < 4 * RAND_MAX
    ensures Unit(draw) < 0.5 <==> 10 * draw < 5 * RAND_MAX
    ensures Unit(draw) > 0.5 <==> 10 * draw > 5 * RAND_MAX
    ensures Unit(draw) < 0.8 <==> 10 * draw < 8 * RAND_MAX
  {
  }

  /** The position among `size` elements that a draw gives: its remainder. */
  ghost predicate IsPosition(draw: nat, size: nat, at: nat) {
    at < size && exists q: nat :: draw == q * size + at
  }

  // ---------- Trees ----------

  /** The rule is the one whose number is the remainder of the draw. */
  lemma RuleIs(g: Grammar, name: string, draw: nat) returns (r: nat)
    requires WellFormed(g) && name in g && !g[name].repeat
    ensures IsPosition(draw, |g[name].generators|, r) && RuleFor(g, name, draw) == g[name].generators[r].parts
  {
    hide WellFormed;
    SomeRule(g, name);
    var n := |g[name].generators|;
    r := draw % n;
    assert draw == (draw / n) * n + r && draw / n >= 0;
  }

  lemma SomeRule(g: Grammar, name: string)
    requires WellFormed(g) && name in g && !g[name].repeat
    ensures g[name].generators != []
  {
  }

  /** The children of a repeat node: before each a draw says to go on, and the next ones give
      it. */
  ghost predicate AreRepeats(g: Grammar, name: string, depth: nat, kids: seq<Value>, starts: seq<seq<nat>>)
    requires WellFormed(g) && name in g
  {
    && |starts| == |kids| + 1
    && forall i :: 0 <= i < |kids| ==>
         SaysOn(First(starts[i])) && Grow(g, name, Later(starts[i]), depth) == (Some(kids[i]), starts[i + 1])
  }

  lemma FirstRepeat(g: Grammar, name: string, depth: nat, draws: seq<nat>, child: Value,
                    kids: seq<Value>, starts: seq<seq<nat>>)
    requires WellFormed(g) && name in g && AreRepeats(g, name, depth, kids, starts)
    requires SaysOn(First(draws)) && Grow(g, name, Later(draws), depth) == (Some(child), starts[0])
    ensures AreRepeats(g, name, depth, [child] + kids, [draws] + starts)
  {
    hide WellFormed, Grow, SaysOn;
    var all, from := [child] + kids, [draws] + starts;
    forall i | 0 <= i < |all|
      ensures SaysOn(First(from[i])) && Grow(g, name, Later(from[i]), depth) == (Some(all[i]), from[i + 1])
    {
      if i > 0 {
        assert from[i] == starts[i - 1] && from[i + 1] == starts[i] && all[i] == kids[i - 1];
      }
    }
  }

  lemma NoRepeat(g: Grammar, name: string, depth: nat, draws: seq<nat>)
    requires WellFormed(g) && name in g
    ensures AreRepeats(g, name, depth, [], [draws])
  {
  }

  lemma RepeatsShape(g: Grammar, name: string, depth: nat, kids: seq<Value>, starts: seq<seq<nat>>)
    requires WellFormed(g) && name in g && AreRepeats(g, name, depth, kids, starts)
    ensures |starts| == |kids| + 1
  {
  }

  /** A repeat node gets such children up to the first draw that says to stop, or fails at the
      first child that the draws do not give. */
  lemma {:induction false} RepeatsAre(g: Grammar, name: string, draws: seq<nat>, depth: nat)
    returns (kids: seq<Value>, starts: seq<seq<nat>>)
    requires WellFormed(g) && name in g && depth <= MAX_DEPTH
    ensures AreRepeats(g, name, depth + 1, kids, starts) && starts[0] == draws
    ensures var last := starts[|kids|];
            if SaysOn(First(last)) then
              var (child, rest) := Grow(g, name, Later(last), depth + 1);
              child == None && GrowRepeated(g, name, draws, depth) == (None, rest)
            else GrowRepeated(g, name, draws, depth) == (Some(kids), Later(last))
    decreases |draws|
  {
    GoesOnIff(First(draws));
    assert !GoesOn(RAND_MAX);
    hide WellFormed, Grow, SaysOn, GoesOn, AreRepeats;
    NoRepeat(g, name, depth + 1, draws);
    kids, starts := [], [draws];
    if GoesOn(First(draws)) {
      var (child, rest) := Grow(g, name, Later(draws), depth + 1);
      if child.Some? {
        kids, starts := RepeatsAre(g, name, rest, depth);
        RepeatsShape(g, name, depth + 1, kids, starts);
        FirstRepeat(g, name, depth + 1, draws, child.value, kids, starts);
        kids, starts := [child.value] + kids, [draws] + starts;
      }
    }
  }

  /** The children made from the parts of a rule: terminals as they stand, copies where an `id`
      repeats, and otherwise what the next draws give. */
  ghost predicate AreParts(g: Grammar, parts: seq<RulePart>, depth: nat, kids: seq<Value>, starts: seq<seq<nat>>)
    requires WellFormed(g) && ClosedParts(g, parts)
  {
    && |kids| <= |parts| && |starts| == |kids| + 1
    && forall i :: 0 <= i < |kids| ==> IsPart(g, parts, depth, kids, i, starts[i], starts[i + 1])
  }

  ghost predicate IsPart(g: Grammar, parts: seq<RulePart>, depth: nat, kids: seq<Value>, i: nat,
                         start: seq<nat>, next: seq<nat>)
    requires WellFormed(g) && ClosedParts(g, parts) && i < |kids| <= |parts|
  {
    match parts[i]
    case StringPart(value) => kids[i] == Leaf(value) && next == start
    case SymbolPart(symbol, _, _) =>
      if Repeats(parts, i) >= 0 then kids[i] == kids[Repeats(parts, i)] && next == start
      else Grow(g, symbol, start, depth) == (Some(kids[i]), next)
  }

  lemma NextPart(g: Grammar, parts: seq<RulePart>, depth: nat, kids: seq<Value>, starts: seq<seq<nat>>,
                 child: Value, next: seq<nat>)
    requires WellFormed(g) && ClosedParts(g, parts) && AreParts(g, parts, depth, kids, starts) && |kids| < |parts|
    requires IsPart(g, parts, depth, kids + [child], |kids|, starts[|kids|], next)
    ensures AreParts(g, parts, depth, kids + [child], starts + [next])
  {
    hide WellFormed, Grow, ClosedParts;
    var all, from := kids + [child], starts + [next];
    forall i | 0 <= i < |all|
      ensures IsPart(g, parts, depth, all, i, from[i], from[i + 1])
    {
      if i < |kids| {
        assert IsPart(g, parts, depth, kids, i, starts[i], starts[i + 1]);
      }
    }
  }

  /** A rule's parts get such children, or fail at the first that the draws do not give. */
  lemma {:induction false} PartsAre(g: Grammar, parts: seq<RulePart>, done: seq<Value>, before: seq<seq<nat>>, depth: nat)
    returns (kids: seq<Value>, starts: seq<seq<nat>>)
    requires WellFormed(g) && ClosedParts(g, parts) && depth <= MAX_DEPTH && AreParts(g, parts, depth + 1, done, before)
    ensures AreParts(g, parts, depth + 1, kids, starts) && before <= starts
    ensures var grown, k := GrowParts(g, parts, done, before[|done|], depth), |kids|;
            if k == |parts| then grown == (Some(kids), starts[k])
            else parts[k].SymbolPart? && Repeats(parts, k) < 0
                 && var (child, rest) := Grow(g, parts[k].symbol, starts[k], depth + 1);
                    child == None && grown == (None, rest)
    decreases |parts| - |done|
  {
    hide WellFormed, Grow;
    kids, starts := done, before;
    var k := |done|;
    if k < |parts| {
      match parts[k] {
        case StringPart(value) =>
          NextPart(g, parts, depth + 1, done, before, Leaf(value), before[k]);
          kids, starts := PartsAre(g, parts, done + [Leaf(value)], before + [before[k]], depth);
        case SymbolPart(symbol, _, _) =>
          if Repeats(parts, k) >= 0 {
            var copy := done[Repeats(parts, k)];
            NextPart(g, parts, depth + 1, done, before, copy, before[k]);
            kids, starts := PartsAre(g, parts, done + [copy], before + [before[k]], depth);
          } else {
            var (child, rest) := Grow(g, symbol, before[k], depth + 1);
            if child.Some? {
              NextPart(g, parts, depth + 1, done, before, child.value, rest);
              kids, starts := PartsAre(g, parts, done + [child.value], before + [rest], depth);
            }
          }
      }
    }
  }
}
