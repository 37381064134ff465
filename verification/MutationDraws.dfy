/** What each random draw of a mutation decides, by its number
    (mutators/grammar/grammarmutator.cpp). */
module MutationDraws {
  import opened Wrappers
  import opened Trees
  import opened Grammars
  import opened TreeNodes
  import opened Prng
  import opened Generation
  import opened GenerationDraws
  import opened Mutation

  // ---------- Positions and stretches ----------

  /** How many draws a position takes: none when there is nothing to choose from. */
  function Used(size: nat): nat {
    if size == 0 then 0 else 1
  }

  lemma PositionIs(size: nat, draws: seq<nat>, i: nat)
    ensures var (at, rest) := PositionIn(size, Skip(draws, i));
            && (if size == 0 then at == 0 else IsPosition(Draw(draws, i), size, at))
            && rest == Skip(draws, i + Used(size))
  {
    SkipMore(draws, i);
    if size > 0 {
      var d := Draw(draws, i);
      assert d == (d / size) * size + d % size;
      assert d / size >= 0;
    }
  }

  /** The stretch of `size` elements from `from` up to `end` that the draws from number `i` on
      give: at least one element if there is one, each but the last one's draw says to go on,
      and the last one's does not unless the elements end there. */
  predicate IsStretchBy(draws: seq<nat>, i: nat, size: nat, from: nat, end: nat) {
    && from <= end <= size && (from < size ==> from < end)
    && (forall d :: i <= d < i + end - from - 1 ==> SaysOn(Draw(draws, d)))
    && (from < end < size ==> !SaysOn(Draw(draws, i + end - from - 1)))
  }

  lemma {:induction false} StretchIs(size: nat, from: nat, draws: seq<nat>, i: nat)
    requires from <= size
    ensures var (end, rest) := StretchTo(size, from, Skip(draws, i));
            IsStretchBy(draws, i, size, from, end) && rest == Skip(draws, i + end - from)
    decreases size - from
  {
    SkipMore(draws, i);
    GoesOnIff(Draw(draws, i));
    StretchStep(size, from, Skip(draws, i));
    hide GoesOn, SaysOn, Draw, Skip, StretchTo;
    if from < size && GoesOn(Draw(draws, i)) {
      StretchIs(size, from + 1, draws, i + 1);
    }
  }

  lemma ShorterStretch(size: nat, from: nat, draws: seq<nat>, a: nat, b: nat)
    requires from <= a < b <= size && IsStretchBy(draws, 0, size, from, a)
    ensures !IsStretchBy(draws, 0, size, from, b)
  {
    hide SaysOn, Draw;
    var last := a - from - 1;
    assert !SaysOn(Draw(draws, last));
  }

  /** There is one such stretch only. */
  lemma StretchIff(size: nat, from: nat, draws: seq<nat>, end: nat)
    requires from <= size
    ensures StretchTo(size, from, draws).0 == end <==> IsStretchBy(draws, 0, size, from, end)
  {
    SkipMore(draws, 0);
    StretchIs(size, from, draws, 0);
    hide StretchTo, SaysOn, Draw, Skip;
    var e := StretchTo(size, from, draws).0;
    if end < e && IsStretchBy(draws, 0, size, from, end) {
      ShorterStretch(size, from, draws, end, e);
    } else if e < end <= size {
      ShorterStretch(size, from, draws, e, end);
    }
  }

  // ---------- Inserted and deleted children ----------

  /** What is inserted comes one place after what is deleted, or at the end. */
  lemma MixedIs<T>(kids: seq<T>, at: nat, end: nat, more: seq<T>)
    requires at <= end <= |kids|
    ensures Mixed(kids, at, end, more)
            == if end < |kids| then kids[..at] + [kids[end]] + more + kids[end + 1..] else kids[..at] + more
  {
    var rest := kids[..at] + kids[end..];
    if end < |kids| {
      assert rest[..at + 1] == kids[..at] + [kids[end]] && rest[at + 1..] == kids[end + 1..];
    } else {
      assert rest == kids[..at] && rest[..at] == rest && rest[at..] == [];
    }
  }

  /** How many draws it takes to mix: two positions, the choice to delete, and one for each
      child deleted or copied. */
  function DrawsToMix(n: nat, k: nat): nat {
    Used(n) + Used(k) + 1
  }

  /** A repeat splice takes a stretch of the donor's children from the position drawn, never
      an empty one unless the donor has none, and in two of five cases deletes a stretch of
      our own. */
  lemma MixIs(t: Shape, donor: Shape, draws: seq<nat>) returns (from: nat)
    ensures var (mix, rest) := MixAt(t, donor, draws);
            var n, k := |t.kids|, |donor.kids|;
            var i := DrawsToMix(n, k);
            && (if n == 0 then mix.at == 0 else IsPosition(Draw(draws, 0), n, mix.at))
            && (if k == 0 then from == 0 else IsPosition(Draw(draws, Used(n)), k, from))
            && (if 10 * Draw(draws, i - 1) < 4 * RAND_MAX then IsStretchBy(draws, i, n, mix.at, mix.end)
                else mix.end == mix.at)
            && var j := i + mix.end - mix.at;
               && IsStretchBy(draws, j, k, from, from + |mix.more|)
               && mix.more == EraseAll(donor.kids)[from..from + |mix.more|]
               && (mix.more == [] <==> k == 0)
               && rest == Skip(draws, j + |mix.more|)
  {
    hide PositionIn, StretchTo, Skip, Draw, Unit, IsPosition, SaysOn, IsStretchBy, EraseAll;
    var n, k := |t.kids|, |donor.kids|;
    var i := DrawsToMix(n, k);
    SkipMore(draws, 0);
    PositionIs(n, draws, 0);
    PositionIs(k, draws, Used(n));
    var at := PositionIn(n, draws).0;
    from := PositionIn(k, Skip(draws, Used(n))).0;
    SkipMore(draws, i - 1);
    TenthsIff(Draw(draws, i - 1));
    StretchIs(n, at, draws, i);
    var end := if Unit(Draw(draws, i - 1)) < 0.4 then StretchTo(n, at, Skip(draws, i)).0 else at;
    StretchIs(k, from, draws, i + end - at);
    var to := StretchTo(k, from, Skip(draws, i + end - at)).0;
    StretchBounds(draws, i + end - at, k, from, to);
    assert MixAt(t, donor, draws) == (Mix(at, end, EraseAll(donor.kids)[from..to]), Skip(draws, i + end - at + to - from));
  }

  lemma StretchBounds(draws: seq<nat>, i: nat, size: nat, from: nat, end: nat)
    requires IsStretchBy(draws, i, size, from, end)
    ensures from <= end <= size && (from < size ==> from < end)
  {
  }

  // ---------- Generated children ----------

  /** One try for a tree: what these draws give, and whether the draw after them says to go
      on. */
  ghost predicate IsTry(g: Grammar, name: string, depth: nat, start: seq<nat>, tree: Option<Value>, next: seq<nat>, on: bool)
    requires WellFormed(g) && name in g
  {
    var (grown, rest) := Grow(g, name, start, depth);
    grown == tree && next == Later(rest) && (SaysOn(First(rest)) <==> on)
  }

  /** Tries one after the other, each from the draws that the one before left. */
  ghost predicate AreTries(g: Grammar, name: string, depth: nat, tries: seq<Option<Value>>, starts: seq<seq<nat>>)
    requires WellFormed(g) && name in g
  {
    && tries != [] && |starts| == |tries| + 1
    && forall i :: 0 <= i < |tries| ==>
         IsTry(g, name, depth, starts[i], tries[i], starts[i + 1], i < |tries| - 1)
  }

  /** The trees among the results. */
  function Given(tries: seq<Option<Value>>): seq<Value> {
    if tries == [] then []
    else (match tries[0] case None => [] case Some(t) => [t]) + Given(tries[1..])
  }

  lemma GivenFirst(tree: Option<Value>, tries: seq<Option<Value>>)
    ensures Given([tree] + tries) == (match tree case None => [] case Some(t) => [t]) + Given(tries)
  {
    assert ([tree] + tries)[1..] == tries;
  }

  lemma FirstTry(g: Grammar, name: string, depth: nat, draws: seq<nat>, next: seq<nat>, tree: Option<Value>,
                 tries: seq<Option<Value>>, starts: seq<seq<nat>>)
    requires WellFormed(g) && name in g && IsTry(g, name, depth, draws, tree, next, tries != [])
    requires if tries == [] then starts == [next] else AreTries(g, name, depth, tries, starts) && starts[0] == next
    ensures AreTries(g, name, depth, [tree] + tries, [draws] + starts)
  {
    hide WellFormed, IsTry;
    var all, from := [tree] + tries, [draws] + starts;
    forall i | 0 <= i < |all|
      ensures IsTry(g, name, depth, from[i], all[i], from[i + 1], i < |all| - 1)
    {
      if i > 0 {
        assert from[i] == starts[i - 1] && from[i + 1] == starts[i] && all[i] == tries[i - 1];
      }
    }
  }

  /** What is generated are the trees of a first try and of one more for each draw after a try
      that says to go on. */
  lemma {:induction false} TriesAre(g: Grammar, name: string, draws: seq<nat>, depth: nat)
    returns (tries: seq<Option<Value>>, starts: seq<seq<nat>>)
    requires WellFormed(g) && name in g
    ensures AreTries(g, name, depth, tries, starts) && starts[0] == draws
    ensures GrowSome(g, name, draws, depth) == (Given(tries), starts[|tries|])
    decreases |draws|
  {
    hide WellFormed, Grow, AreTries;
    var (child, rest) := Grow(g, name, draws, depth);
    GoesOnIff(First(rest));
    GrowSomeUnfolds(g, name, draws, depth);
    var own := if child.None? then [] else [child.value];
    if GoesOn(First(rest)) {
      TryShortens(g, name, draws, depth);
      hide GrowSome, GoesOn, SaysOn, Joined;
      tries, starts := TriesAre(g, name, Later(rest), depth);
      AtLeastOne(g, name, depth, tries, starts);
      FirstTry(g, name, depth, draws, Later(rest), child, tries, starts);
      GivenFirst(child, tries);
      JoinedIs(own, Given(tries), starts[|tries|]);
      tries, starts := [child] + tries, [draws] + starts;
    } else {
      hide GrowSome, GoesOn, SaysOn;
      FirstTry(g, name, depth, draws, Later(rest), child, [], [Later(rest)]);
      GivenFirst(child, []);
      assert own + [] == own;
      tries, starts := [child] + [], [draws] + [Later(rest)];
    }
  }

  lemma AtLeastOne(g: Grammar, name: string, depth: nat, tries: seq<Option<Value>>, starts: seq<seq<nat>>)
    requires WellFormed(g) && name in g && AreTries(g, name, depth, tries, starts)
    ensures tries != [] && |starts| == |tries| + 1
  {
    hide WellFormed, IsTry;
  }

  lemma JoinedIs(kids: seq<Value>, more: seq<Value>, rest: seq<nat>)
    ensures Joined(kids, (more, rest)) == (kids + more, rest)
  {
  }

  lemma TryShortens(g: Grammar, name: string, draws: seq<nat>, depth: nat)
    requires WellFormed(g) && name in g && GoesOn(First(Grow(g, name, draws, depth).1))
    ensures |Later(Grow(g, name, draws, depth).1)| < |draws|
  {
    hide WellFormed, Grow;
    assert !GoesOn(RAND_MAX);
  }

  /** What the trees that are inserted come to, with the draws up to there: none, or those of
      the tries. */
  ghost predicate Inserts(g: Grammar, name: string, depth: nat, insert: bool, draws: seq<nat>,
                          tries: seq<Option<Value>>, starts: seq<seq<nat>>, last: seq<nat>)
    requires WellFormed(g) && name in g
  {
    if !insert then tries == [] && last == draws
    else AreTries(g, name, depth, tries, starts) && starts[0] == draws && starts[|tries|] == last
  }

  /** The repeat mutator draws a position and then, in one of five cases only deletes from
      there, in one deletes and inserts, and in three only inserts.  It does nothing exactly
      when it tried to generate trees and got none. */
  lemma RegrowIs(g: Grammar, t: Shape, depth: nat, draws: seq<nat>)
    returns (tries: seq<Option<Value>>, starts: seq<seq<nat>>, last: seq<nat>)
    requires WellFormed(g) && t.text in g && g[t.text].repeat
    ensures g[t.text].repeatSymbol in g
    ensures var (mix, rest) := RegrowAt(g, t, depth, draws);
            var n := |t.kids|;
            var choice := Draw(draws, Used(n));
            var delete, insert := 10 * choice < 4 * RAND_MAX, 10 * choice >= 2 * RAND_MAX;
            && Inserts(g, g[t.text].repeatSymbol, depth + 1, insert, Skip(draws, Used(n) + 1), tries, starts, last)
            && (mix.None? <==> insert && Given(tries) == [])
            && (mix.None? ==> rest == last)
            && (mix.Some? ==>
                  && (if n == 0 then mix.value.at == 0 else IsPosition(Draw(draws, 0), n, mix.value.at))
                  && mix.value.more == Given(tries)
                  && (if delete then IsStretchBy(last, 0, n, mix.value.at, mix.value.end)
                      else mix.value.end == mix.value.at)
                  && rest == Skip(last, mix.value.end - mix.value.at))
  {
    RepeatsKnown(g, t.text);
    var plan;
    tries, starts, plan, last := PlanTries(g, t, depth, draws);
    hide Skip, Draw, IsPosition, IsStretchBy, WellFormed, Inserts, Given, PlanBy, RegrowAt;
    RegrowWith(g, t, depth, draws, plan, last);
  }

  /** The position, the choice, and the tries that they lead to. */
  lemma PlanTries(g: Grammar, t: Shape, depth: nat, draws: seq<nat>)
    returns (tries: seq<Option<Value>>, starts: seq<seq<nat>>, plan: Plan, last: seq<nat>)
    requires WellFormed(g) && t.text in g && g[t.text].repeat && g[t.text].repeatSymbol in g
    ensures PlanBy(g, |t.kids|, t.text, depth, draws) == (plan, last)
    ensures var n := |t.kids|;
            var choice := Draw(draws, Used(n));
            var insert := 10 * choice >= 2 * RAND_MAX;
            && (if n == 0 then plan.at == 0 else IsPosition(Draw(draws, 0), n, plan.at))
            && plan.delete == (10 * choice < 4 * RAND_MAX)
            && plan.more == (if insert && Given(tries) == [] then None else Some(Given(tries)))
            && Inserts(g, g[t.text].repeatSymbol, depth + 1, insert, Skip(draws, Used(n) + 1), tries, starts, last)
  {
    hide PositionIn, Skip, Draw, Unit, IsPosition, WellFormed, AreTries, GrowSome, PlanBy;
    var n, name := |t.kids|, g[t.text].repeatSymbol;
    SkipMore(draws, 0);
    PositionIs(n, draws, 0);
    var choice, start := Draw(draws, Used(n)), Skip(draws, Used(n) + 1);
    SkipMore(draws, Used(n));
    TenthsIff(choice);
    PlanIs(g, n, t.text, depth, draws);
    plan, last := PlanBy(g, n, t.text, depth, draws).0, start;
    tries, starts := [], [];
    if 10 * choice >= 2 * RAND_MAX {
      tries, starts := TriesAre(g, name, start, depth + 1);
      AtLeastOne(g, name, depth + 1, tries, starts);
      last := starts[|tries|];
    }
  }

  lemma PlanIs(g: Grammar, size: nat, text: string, depth: nat, draws: seq<nat>)
    requires WellFormed(g)
    ensures var (at, chance) := PositionIn(size, draws);
            var choice := Unit(First(chance));
            var (more, last) := if choice >= 0.2 then GrowSome(g, RepeatedBy(g, text), Later(chance), depth + 1)
                                else ([], Later(chance));
            PlanBy(g, size, text, depth, draws)
            == (Plan(at, choice < 0.4, if choice >= 0.2 && more == [] then None else Some(more)), last)
  {
    hide WellFormed, GrowSome, Unit;
  }

  lemma RegrowWith(g: Grammar, t: Shape, depth: nat, draws: seq<nat>, plan: Plan, last: seq<nat>)
    requires WellFormed(g) && PlanBy(g, |t.kids|, t.text, depth, draws) == (plan, last)
    ensures plan.at <= |t.kids|
    ensures var (mix, rest) := RegrowAt(g, t, depth, draws);
            && (mix.None? <==> plan.more.None?) && (mix.None? ==> rest == last)
            && (mix.Some? ==>
                  && mix.value.at == plan.at && Some(mix.value.more) == plan.more
                  && (if plan.delete then IsStretchBy(last, 0, |t.kids|, plan.at, mix.value.end)
                      else mix.value.end == plan.at)
                  && rest == Skip(last, mix.value.end - plan.at))
  {
    hide PlanBy, StretchTo, IsStretchBy, WellFormed;
    SkipMore(last, 0);
    StretchIs(|t.kids|, plan.at, last, 0);
  }

  lemma RepeatsKnown(g: Grammar, text: string)
    requires WellFormed(g) && text in g && g[text].repeat
    ensures g[text].repeatSymbol in g
  {
  }

  // ---------- Candidates ----------

  function Power(x: real, n: nat): real {
    if n == 0 then 1.0 else x * Power(x, n - 1)
  }

  /** A node is a candidate exactly when it is a symbol node, of the symbol asked for, a repeat
      symbol if those are asked for, and no deeper than allowed. */
  ghost predicate IsCandidate<Id>(g: Grammar, s: Search, f: seq<Tree<Id>>, depth: nat, n: Id)
  {
    && n in IdSet(f) && Find(f, n).tag != STRING && depth + DepthOf(f, n) <= s.maxDepth
    && (s.filter.None? || s.filter.value == Find(f, n).text)
    && (s.justRepeat ==> Find(f, n).text in g && g[Find(f, n).text].repeat)
  }

  lemma CandidateAfter<Id>(g: Grammar, s: Search, f: seq<Tree<Id>>, depth: nat, n: Id)
    requires f != [] && Distinct(f) && IsCandidate(g, s, f[1..], depth, n)
    ensures IsCandidate(g, s, f, depth, n) && DepthOf(f, n) == DepthOf(f[1..], n)
  {
  }

  lemma CandidateBelow<Id>(g: Grammar, s: Search, f: seq<Tree<Id>>, depth: nat, n: Id)
    requires f != [] && Distinct(f) && IsCandidate(g, s, f[0].kids, depth + 1, n)
    ensures IsCandidate(g, s, f, depth, n)
    ensures n in IdSet(f[0].kids) && DepthOf(f, n) == 1 + DepthOf(f[0].kids, n)
  {
  }

  lemma DistinctParts<Id>(f: seq<Tree<Id>>)
    requires f != [] && Distinct(f)
    ensures Distinct(f[1..]) && Distinct(f[0].kids)
  {
  }

  /** Each level further down divides the weight of a candidate by the falloff. */
  lemma {:induction false} CandidateIs<Id>(g: Grammar, s: Search, f: seq<Tree<Id>>, depth: nat, p: real, c: Candidate<Id>)
    requires s.falloff > 0.0 && p > 0.0 && Distinct(f) && c in Select(g, s, f, depth, p)
    ensures IsCandidate(g, s, f, depth, c.node) && c.depth == depth + DepthOf(f, c.node)
    ensures c.p > 0.0 && c.p * Power(s.falloff, DepthOf(f, c.node)) == p
    decreases f
  {
    hide IsCandidate, DepthOf, Power, Lowered, Select, Wanted, Distinct;
    SelectCases(g, s, f, depth, p, c);
    DistinctParts(f);
    if c in Select(g, s, f[1..], depth, p) {
      CandidateIs(g, s, f[1..], depth, p, c);
      CandidateAfter(g, s, f, depth, c.node);
    } else if c in Select(g, s, f[0].kids, depth + 1, Lowered(p, s.falloff)) {
      CandidateIs(g, s, f[0].kids, depth + 1, Lowered(p, s.falloff), c);
      CandidateBelow(g, s, f, depth, c.node);
      PowerStep(c.p, p, s.falloff, DepthOf(f[0].kids, c.node));
    } else {
      FirstCandidate(g, s, f, depth, p);
    }
  }

  lemma SelectCases<Id>(g: Grammar, s: Search, f: seq<Tree<Id>>, depth: nat, p: real, c: Candidate<Id>)
    requires s.falloff > 0.0 && c in Select(g, s, f, depth, p)
    ensures f != []
    ensures || c in Select(g, s, f[1..], depth, p)
            || c in Select(g, s, f[0].kids, depth + 1, Lowered(p, s.falloff))
            || (c == Candidate(f[0].id, depth, p) && f[0].tag != STRING && Wanted(g, s, f[0].text) && depth <= s.maxDepth)
  {
    hide Lowered, Wanted;
  }

  lemma FirstCandidate<Id>(g: Grammar, s: Search, f: seq<Tree<Id>>, depth: nat, p: real)
    requires f != [] && f[0].tag != STRING && Wanted(g, s, f[0].text) && depth <= s.maxDepth
    ensures IsCandidate(g, s, f, depth, f[0].id) && DepthOf(f, f[0].id) == 0
    ensures p * Power(s.falloff, DepthOf(f, f[0].id)) == p
  {
  }

  lemma PowerStep(w: real, p: real, falloff: real, n: nat)
    requires falloff > 0.0 && w * Power(falloff, n) == Lowered(p, falloff)
    ensures w * Power(falloff, n + 1) == p
  {
    var x := Power(falloff, n);
    assert w * (falloff * x) == falloff * (w * x);
    Divided(p, falloff);
  }

  lemma Divided(p: real, falloff: real)
    requires falloff > 0.0
    ensures falloff * Lowered(p, falloff) == p
  {
  }

  lemma CandidateIff<Id>(g: Grammar, s: Search, f: seq<Tree<Id>>, depth: nat, p: real, n: Id)
    requires s.falloff > 0.0 && p > 0.0 && Distinct(f) && StringsAreLeaves(f)
    ensures (exists c :: c in Select(g, s, f, depth, p) && c.node == n) <==> IsCandidate(g, s, f, depth, n)
  {
    if IsCandidate(g, s, f, depth, n) {
      SelectedAreAll(g, s, f, depth, p, n);
    }
    if c :| c in Select(g, s, f, depth, p) && c.node == n {
      CandidateIs(g, s, f, depth, p, c);
    }
  }

  // ---------- The choice of a candidate ----------

  /** The draw, as a share of all weights together, falls to candidate `k`: the weights before
      it do not exceed the share, and with its own they do, unless it is the last. */
  ghost predicate FallsTo<Id>(found: seq<Candidate<Id>>, draw: nat, k: nat) {
    && k < |found|
    && var share := draw as real * Total(found, |found|);
       && (k > 0 ==> Total(found, k) * RAND_MAX as real <= share)
       && (k < |found| - 1 ==> share < Total(found, k + 1) * RAND_MAX as real)
  }

  lemma ShareIs(draw: nat, total: real, x: real)
    ensures x <= Share(draw, total) <==> x * RAND_MAX as real <= draw as real * total
  {
    var m := RAND_MAX as real;
    assert Share(draw, total) * m == draw as real * total by {
      assert Unit(draw) * m == draw as real;
      assert (Unit(draw) * total) * m == (Unit(draw) * m) * total;
    }
    hide Share, Unit;
    TimesMax(x, Share(draw, total));
  }

  lemma TimesMax(x: real, y: real)
    ensures x <= y <==> x * RAND_MAX as real <= y * RAND_MAX as real
  {
  }

  lemma ChosenFalls<Id>(found: seq<Candidate<Id>>, draw: nat)
    requires found != [] && forall j :: 0 <= j < |found| ==> found[j].p > 0.0
    ensures FallsTo(found, draw, Chosen(found, draw))
  {
    var k, total := Chosen(found, draw), Total(found, |found|);
    hide Chosen, Share, Total;
    ChosenIs(found, draw);
    ShareIs(draw, total, Total(found, k));
    if k < |found| - 1 {
      ShareIs(draw, total, Total(found, k + 1));
    }
  }

  lemma ChosenIs<Id>(found: seq<Candidate<Id>>, draw: nat)
    requires found != [] && forall j :: 0 <= j < |found| ==> found[j].p > 0.0
    ensures var k, share := Chosen(found, draw), Share(draw, Total(found, |found|));
            && k < |found| && (k > 0 ==> Total(found, k) <= share) && (k < |found| - 1 ==> share < Total(found, k + 1))
  {
    hide Share;
    ReachedIff(found, Share(draw, Total(found, |found|)), 0, Chosen(found, draw));
  }

  // ---------- The four mutations ----------

  ghost function Candidates(g: Grammar, falloff: real, sh: Shape, justRepeat: bool): seq<Candidate<TreeNode>>
    requires falloff > 0.0
  {
    Select(g, Search(None, justRepeat, MAX_DEPTH, falloff), [sh], 0, 1.0)
  }

  /** Nodes of a donor with this symbol and no deeper than that. */
  ghost function Donations(g: Grammar, falloff: real, donor: Shape, text: string, justRepeat: bool, depth: nat)
    : seq<Candidate<TreeNode>>
    requires falloff > 0.0
  {
    Select(g, Search(Some(text), justRepeat, depth, falloff), [donor], 0, 1.0)
  }

  lemma PickFalls(g: Grammar, s: Search, sh: Shape, draw: nat) returns (k: nat)
    requires s.falloff > 0.0 && Distinct([sh]) && Select(g, s, [sh], 0, 1.0) != []
    ensures var found := Select(g, s, [sh], 0, 1.0);
            && k == Chosen(found, draw) && FallsTo(found, draw, k)
            && found[k].node in IdSet([sh]) && SubtreeAt(sh, found[k].node) == Find([sh], found[k].node)
  {
    var found := Select(g, s, [sh], 0, 1.0);
    SelectedFacts(g, s, [sh], found);
    hide Select, Find, IdSet, Distinct, Chosen, FallsTo, Wanted;
    ChosenFalls(found, draw);
    k := Chosen(found, draw);
  }

  /** A replacement: the node that the first draw falls to, and the tree that the next give for
      its symbol at its depth. */
  lemma ReplaceIs(g: Grammar, falloff: real, sh: Shape, draws: seq<nat>) returns (k: nat)
    requires WellFormed(g) && falloff > 0.0 && Distinct([sh]) && Candidates(g, falloff, sh, false) != []
    ensures var found, (edit, rest) := Candidates(g, falloff, sh, false), ReplaceBy(g, falloff, sh, draws);
            && FallsTo(found, Draw(draws, 0), k)
            && found[k].node in IdSet([sh])
            && var name := Find([sh], found[k].node).text;
               && (edit.Some? ==> edit.value.node == found[k].node)
               && (name in g ==>
                     Grow(g, name, Skip(draws, 1), found[k].depth) == (if edit.None? then None else Some(edit.value.tree), rest))
  {
    hide Select, Find, IdSet, Distinct, Chosen, FallsTo, WellFormed, Grow, SubtreeAt, Skip, Draw;
    SkipMore(draws, 0);
    k := PickFalls(g, Search(None, false, MAX_DEPTH, falloff), sh, Draw(draws, 0));
  }

  /** The donor node that draws number `i` and `i + 1` give: one picks the donor, and the next
      one falls to a node of it, if any is wanted. */
  lemma DonorIs(g: Grammar, s: Search, donors: seq<Shape>, draws: seq<nat>, i: nat) returns (j: nat, m: nat)
    requires s.falloff > 0.0 && donors != [] && forall d :: d in donors ==> Distinct([d])
    ensures IsPosition(Draw(draws, i), |donors|, j) && j < |donors|
    ensures var found, (donor, rest) := Select(g, s, [donors[j]], 0, 1.0), DonorBy(g, s, donors, Skip(draws, i));
            if found == [] then donor == None && rest == Skip(draws, i + 1)
            else
              && FallsTo(found, Draw(draws, i + 1), m) && m < |found| && found[m].node in IdSet([donors[j]])
              && donor == Some(Find([donors[j]], found[m].node)) && rest == Skip(draws, i + 2)
  {
    PositionIs(|donors|, draws, i);
    hide Select, Find, IdSet, Distinct, Chosen, FallsTo, SubtreeAt, Skip, Draw;
    j, m := PositionIn(|donors|, Skip(draws, i)).0, 0;
    hide PositionIn;
    SkipMore(draws, i + 1);
    assert donors[j] in donors;
    if Select(g, s, [donors[j]], 0, 1.0) != [] {
      m := PickFalls(g, s, donors[j], Draw(draws, i + 1));
    }
  }

  /** A splice: the node that the first draw falls to becomes a copy of the node of the donor
      that the next two give, of its symbol and no deeper than it. */
  lemma SpliceIs(g: Grammar, falloff: real, donors: seq<Shape>, sh: Shape, draws: seq<nat>) returns (k: nat, j: nat, m: nat)
    requires falloff > 0.0 && Distinct([sh]) && Candidates(g, falloff, sh, false) != []
    requires donors != [] && forall d :: d in donors ==> Distinct([d])
    ensures var found, (edit, rest) := Candidates(g, falloff, sh, false), SpliceBy(g, falloff, donors, sh, draws);
            && FallsTo(found, Draw(draws, 0), k) && IsPosition(Draw(draws, 1), |donors|, j)
            && found[k].node in IdSet([sh])
            && var others := Donations(g, falloff, donors[j], Find([sh], found[k].node).text, false, found[k].depth);
               if others == [] then edit == None && rest == Skip(draws, 2)
               else
                 && FallsTo(others, Draw(draws, 2), m) && others[m].node in IdSet([donors[j]])
                 && edit == Some(Edit(found[k].node, Erase(Find([donors[j]], others[m].node))))
                 && rest == Skip(draws, 3)
  {
    hide Select, Find, IdSet, Distinct, Chosen, FallsTo, SubtreeAt, Skip, Draw, DonorBy, Erase, IsPosition;
    SkipMore(draws, 0);
    k := PickFalls(g, Search(None, false, MAX_DEPTH, falloff), sh, Draw(draws, 0));
    var c := Candidates(g, falloff, sh, false)[k];
    j, m := DonorIs(g, Search(Some(Find([sh], c.node).text), false, c.depth, falloff), donors, draws, 1);
  }

  /** The edit replaces the node by itself with its children mixed: those up to the stretch
      deleted stay, and what comes in follows the first one after it. */
  ghost predicate IsEditBy(t: Shape, n: TreeNode, mix: Mix, edit: Edit) {
    && edit.node == n
    && (mix.at <= mix.end <= |t.kids| ==>
          var kids := EraseAll(t.kids);
          edit.tree == Node((), t.tag, t.text,
            if mix.end < |kids| then kids[..mix.at] + [kids[mix.end]] + mix.more + kids[mix.end + 1..]
            else kids[..mix.at] + mix.more))
  }

  lemma EditIs(sh: Shape, n: TreeNode, mix: Option<Mix>)
    requires n in IdSet([sh])
    ensures EditBy(sh, n, mix).Some? <==> mix.Some?
    ensures mix.Some? ==> IsEditBy(Find([sh], n), n, mix.value, EditBy(sh, n, mix).value)
  {
    hide Find, IdSet, Mixed, Erase, EraseAll;
    var t := Find([sh], n);
    EraseNode(t);
    if mix.Some? && mix.value.at <= mix.value.end <= |t.kids| {
      MixedIs(EraseAll(t.kids), mix.value.at, mix.value.end, mix.value.more);
    }
  }

  /** The repeat mutator works on the repeat node that the first draw falls to (RegrowIs says
      how), or fails when there is none. */
  lemma RegrowPicks(g: Grammar, falloff: real, sh: Shape, draws: seq<nat>) returns (k: nat)
    requires WellFormed(g) && falloff > 0.0 && Distinct([sh])
    ensures var found, (edit, rest) := Candidates(g, falloff, sh, true), RegrowBy(g, falloff, sh, draws);
            if found == [] then edit == None && rest == draws
            else
              && FallsTo(found, Draw(draws, 0), k) && found[k].node in IdSet([sh])
              && var t := Find([sh], found[k].node);
                 var (mix, last) := RegrowAt(g, t, found[k].depth, Skip(draws, 1));
                 && rest == last && (edit.Some? <==> mix.Some?)
                 && (edit.Some? ==> IsEditBy(t, found[k].node, mix.value, edit.value))
  {
    hide Select, Find, IdSet, Distinct, Chosen, FallsTo, SubtreeAt, Skip, Draw, WellFormed, RegrowAt, Erase;
    SkipMore(draws, 0);
    k := 0;
    if Candidates(g, falloff, sh, true) != [] {
      k := PickFalls(g, Search(None, true, MAX_DEPTH, falloff), sh, Draw(draws, 0));
      var c := Candidates(g, falloff, sh, true)[k];
      EditIs(sh, c.node, RegrowAt(g, Find([sh], c.node), c.depth, Skip(draws, 1)).0);
      hide EditBy, IsEditBy;
    }
  }

  /** A repeat splice likewise, with the donor node that the next two draws give (MixIs says
      how), or fails when there is none. */
  lemma MixPicks(g: Grammar, falloff: real, donors: seq<Shape>, sh: Shape, draws: seq<nat>) returns (k: nat, j: nat, m: nat)
    requires falloff > 0.0 && Distinct([sh]) && donors != [] && forall d :: d in donors ==> Distinct([d])
    ensures var found, (edit, rest) := Candidates(g, falloff, sh, true), MixBy(g, falloff, donors, sh, draws);
            if found == [] then edit == None && rest == draws
            else
              && FallsTo(found, Draw(draws, 0), k) && IsPosition(Draw(draws, 1), |donors|, j)
              && found[k].node in IdSet([sh])
              && var t := Find([sh], found[k].node);
                 var others := Donations(g, falloff, donors[j], t.text, true, found[k].depth);
                 if others == [] then edit == None && rest == Skip(draws, 2)
                 else
                   && FallsTo(others, Draw(draws, 2), m) && others[m].node in IdSet([donors[j]])
                   && var (mix, last) := MixAt(t, Find([donors[j]], others[m].node), Skip(draws, 3));
                      rest == last && edit.Some? && IsEditBy(t, found[k].node, mix, edit.value)
  {
    hide Select, Find, IdSet, Distinct, Chosen, FallsTo, SubtreeAt, Skip, Draw, DonorBy, MixAt, Erase, IsPosition;
    SkipMore(draws, 0);
    k, j, m := 0, 0, 0;
    if Candidates(g, falloff, sh, true) != [] {
      k := PickFalls(g, Search(None, true, MAX_DEPTH, falloff), sh, Draw(draws, 0));
      var c := Candidates(g, falloff, sh, true)[k];
      var t := Find([sh], c.node);
      j, m := DonorIs(g, Search(Some(t.text), true, c.depth, falloff), donors, draws, 1);
      var others := Donations(g, falloff, donors[j], t.text, true, c.depth);
      if others != [] {
        EditIs(sh, c.node, Some(MixAt(t, Find([donors[j]], others[m].node), Skip(draws, 3)).0));
      }
      hide EditBy, IsEditBy;
    }
  }

  /** One attempt: three tenths of the draws replace a node, two splice, three change a repeat
      node and two splice one; the coin after a success stops it above one half. */
  lemma AttemptIs(g: Grammar, falloff: real, donors: seq<Shape>, sh: Shape, draws: seq<nat>)
    requires WellFormed(g) && falloff > 0.0 && donors != []
    ensures var d, rest := 10 * Draw(draws, 0), Skip(draws, 1);
            AttemptBy(g, falloff, donors, sh, draws)
            == if d < 3 * RAND_MAX then ReplaceBy(g, falloff, sh, rest)
               else if d < 5 * RAND_MAX then SpliceBy(g, falloff, donors, sh, rest)
               else if d < 8 * RAND_MAX then RegrowBy(g, falloff, sh, rest)
               else MixBy(g, falloff, donors, sh, rest)
    ensures var (edit, rest) := AttemptBy(g, falloff, donors, sh, draws);
            Stops(g, falloff, donors, Moment(sh, draws)) <==> edit.Some? && 10 * First(rest) > 5 * RAND_MAX
  {
    hide ReplaceBy, SpliceBy, RegrowBy, MixBy, WellFormed, Unit;
    SkipMore(draws, 0);
    TenthsIff(Draw(draws, 0));
    TenthsIff(First(AttemptBy(g, falloff, donors, sh, draws).1));
  }
}
