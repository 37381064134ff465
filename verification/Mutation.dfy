/** The grammar mutator (mutators/grammar/grammarmutator.cpp): random edits of a copy of
    the current sample's tree, in place, with donors from the trees of other interesting
    samples. */
module Mutation {
  import opened Wrappers
  import opened Trees
  import opened Grammars
  import opened TreeNodes
  import opened Codec
  import opened Serializer
  import opened Pruning
  import opened Prng
  import opened Generation

  const MUTATOR_REPEAT_PROB: real := 0.5
  const MAX_ATTEMPTS: nat := 100
  const ROOT: string := "root"

  // ---------- Candidates, on values ----------

  datatype Candidate<Id> = Candidate(node: Id, depth: nat, p: real)

  /** Which nodes a search asks for: one symbol or any, repeat symbols only or all, down
      to a depth; `falloff` is what each level costs in probability. */
  datatype Search = Search(filter: Option<string>, justRepeat: bool, maxDepth: nat, falloff: real)

  /** The weight of a node one level further down. */
  function Lowered(p: real, falloff: real): (r: real)
    requires falloff > 0.0
    ensures p > 0.0 ==> r > 0.0
  {
    p / falloff
  }

  predicate Wanted(g: Grammar, s: Search, text: string) {
    (s.filter.None? || s.filter.value == text) && (!s.justRepeat || (text in g && g[text].repeat))
  }

  /** The candidates of a forest, in preorder. */
  function Select<Id>(g: Grammar, s: Search, f: seq<Tree<Id>>, depth: nat, p: real): seq<Candidate<Id>>
    requires s.falloff > 0.0
  {
    if f == [] then [] else SelectAt(g, s, f[0], depth, p) + Select(g, s, f[1..], depth, p)
  }

  function SelectAt<Id>(g: Grammar, s: Search, t: Tree<Id>, depth: nat, p: real): seq<Candidate<Id>>
    requires s.falloff > 0.0
  {
    if depth > s.maxDepth || t.tag == STRING then
      []
    else
      (if Wanted(g, s, t.text) then [Candidate(t.id, depth, p)] else [])
      + Select(g, s, t.kids, depth + 1, Lowered(p, s.falloff))
  }

  lemma {:induction false} SelectConcat<Id>(g: Grammar, s: Search, a: seq<Tree<Id>>, b: seq<Tree<Id>>, depth: nat, p: real)
    requires s.falloff > 0.0
    ensures Select(g, s, a + b, depth, p) == Select(g, s, a, depth, p) + Select(g, s, b, depth, p)
  {
    if a == [] {
      assert a + b == b;
    } else {
      assert (a + b)[1..] == a[1..] + b;
      SelectConcat(g, s, a[1..], b, depth, p);
    }
  }

  /** A candidate is a node that the search asks for, and has positive probability. */
  lemma {:induction false} SelectedIsWanted<Id>(g: Grammar, s: Search, f: seq<Tree<Id>>, depth: nat, p: real, c: Candidate<Id>)
    requires s.falloff > 0.0 && p > 0.0 && Distinct(f)
    requires c in Select(g, s, f, depth, p)
    ensures c.node in IdSet(f) && c.p > 0.0 && depth <= c.depth <= s.maxDepth
    ensures var t := Find(f, c.node); t.tag != STRING && Wanted(g, s, t.text)
    decreases f
  {
    if c in Select(g, s, f[1..], depth, p) {
      SelectedIsWanted(g, s, f[1..], depth, p, c);
    } else if c in Select(g, s, f[0].kids, depth + 1, Lowered(p, s.falloff)) {
      SelectedIsWanted(g, s, f[0].kids, depth + 1, Lowered(p, s.falloff), c);
    } else {
      assert c == Candidate(f[0].id, depth, p);
    }
  }

  /** How deep below the roots a node is. */
  ghost function DepthOf<Id>(f: seq<Tree<Id>>, n: Id): nat
    requires n in IdSet(f)
  {
    if f[0].id == n then 0
    else if n in IdSet(f[0].kids) then 1 + DepthOf(f[0].kids, n)
    else DepthOf(f[1..], n)
  }

  /** In a tree whose terminals are leaves no wanted node within the depth is missed. */
  lemma {:induction false} SelectedAreAll<Id>(g: Grammar, s: Search, f: seq<Tree<Id>>, depth: nat, p: real, n: Id)
    requires s.falloff > 0.0 && StringsAreLeaves(f) && n in IdSet(f)
    requires Find(f, n).tag != STRING && Wanted(g, s, Find(f, n).text) && depth + DepthOf(f, n) <= s.maxDepth
    ensures exists c :: c in Select(g, s, f, depth, p) && c.node == n && c.depth == depth + DepthOf(f, n)
    decreases f
  {
    if f[0].id == n {
      assert Candidate(n, depth, p) in SelectAt(g, s, f[0], depth, p);
    } else if n in IdSet(f[0].kids) {
      var q := Lowered(p, s.falloff);
      SelectedAreAll(g, s, f[0].kids, depth + 1, q, n);
      var c :| c in Select(g, s, f[0].kids, depth + 1, q) && c.node == n && c.depth == depth + DepthOf(f, n);
      assert c in SelectAt(g, s, f[0], depth, p);
    } else {
      SelectedAreAll(g, s, f[1..], depth, p, n);
      var c :| c in Select(g, s, f[1..], depth, p) && c.node == n && c.depth == depth + DepthOf(f, n);
      assert c in Select(g, s, f, depth, p);
    }
  }

  function Nodes<Id>(cs: seq<Candidate<Id>>): (ids: seq<Id>)
    ensures |ids| == |cs|
  {
    seq(|cs|, i requires 0 <= i < |cs| => cs[i].node)
  }

  /** Candidates stand at increasing places of the preorder. */
  lemma {:induction false} SelectedInPreorder<Id>(g: Grammar, s: Search, f: seq<Tree<Id>>, depth: nat, p: real, base: nat)
    returns (at: seq<nat>)
    requires s.falloff > 0.0
    ensures Located(Nodes(Select(g, s, f, depth, p)), at, Ids(f), base)
    decreases f
  {
    hide Located, Wanted, Lowered;
    if f == [] {
      LocatedNone<Id>([], base);
      at := [];
      assert Nodes<Id>([]) == [];
    } else {
      var t, q := f[0], Lowered(p, s.falloff);
      var head := [t.id] + Ids(t.kids);
      var below := SelectedInPreorder(g, s, t.kids, depth + 1, q, base + 1);
      var rest := SelectedInPreorder(g, s, f[1..], depth, p, base + |head|);
      var first := SelectedAtNode(g, s, t, depth, p, base, below);
      var a, b := SelectAt(g, s, t, depth, p), Select(g, s, f[1..], depth, p);
      LocatedConcat(Nodes(a), first, head, base, Nodes(b), rest, Ids(f[1..]));
      NodesConcat(a, b);
      at := first + rest;
    }
  }

  lemma SelectedAtNode<Id>(g: Grammar, s: Search, t: Tree<Id>, depth: nat, p: real, base: nat, below: seq<nat>)
    returns (at: seq<nat>)
    requires s.falloff > 0.0
    requires Located(Nodes(Select(g, s, t.kids, depth + 1, Lowered(p, s.falloff))), below, Ids(t.kids), base + 1)
    ensures Located(Nodes(SelectAt(g, s, t, depth, p)), at, [t.id] + Ids(t.kids), base)
  {
    hide Located, Wanted, Lowered, Select, Ids;
    if depth > s.maxDepth || t.tag == STRING {
      LocatedNone([t.id] + Ids(t.kids), base);
      at := [];
      assert Nodes<Id>([]) == [];
    } else {
      var wanted := Wanted(g, s, t.text);
      var own := if wanted then [Candidate(t.id, depth, p)] else [];
      var place := if wanted then [base] else [];
      var kids := Select(g, s, t.kids, depth + 1, Lowered(p, s.falloff));
      LocatedNone([t.id], base);
      LocatedFirst(t.id, base);
      assert Nodes(own) == if wanted then [t.id] else [];
      LocatedConcat(Nodes(own), place, [t.id], base, Nodes(kids), below, Ids(t.kids));
      NodesConcat(own, kids);
      at := place + below;
    }
  }

  lemma NodesConcat<Id>(a: seq<Candidate<Id>>, b: seq<Candidate<Id>>)
    ensures Nodes(a + b) == Nodes(a) + Nodes(b)
  {
  }

  // ---------- What the draws decide ----------

  /** The weights of the first `n` candidates together. */
  function Total<Id>(found: seq<Candidate<Id>>, n: nat): real
    requires n <= |found|
  {
    if n == 0 then 0.0 else Total(found, n - 1) + found[n - 1].p
  }

  /** The first candidate from `i` on whose weight, with all before it, exceeds `p`, or the
      last one. */
  function Reached<Id>(found: seq<Candidate<Id>>, p: real, i: nat): (k: nat)
    requires i < |found|
    ensures i <= k < |found|
    decreases |found| - i
  {
    if i == |found| - 1 || p < Total(found, i + 1) then i else Reached(found, p, i + 1)
  }

  function Chosen<Id>(found: seq<Candidate<Id>>, draw: nat): (k: nat)
    requires found != []
    ensures k < |found|
  {
    Reached(found, Share(draw, Total(found, |found|)), 0)
  }

  function Share(draw: nat, total: real): real {
    Unit(draw) * total
  }

  /** Each candidate is chosen for its own stretch of the weights, the last one for the end
      as well. */
  lemma {:induction false} ReachedIff<Id>(found: seq<Candidate<Id>>, p: real, i: nat, k: nat)
    requires i <= k < |found| && forall j :: 0 <= j < |found| ==> found[j].p > 0.0
    ensures Reached(found, p, i) == k
            <==> (k > i ==> Total(found, k) <= p) && (k < |found| - 1 ==> p < Total(found, k + 1))
    decreases k - i
  {
    if i < k {
      TotalGrows(found, i + 1, k);
      ReachedIff(found, p, i + 1, k);
    }
  }

  lemma {:induction false} TotalGrows<Id>(found: seq<Candidate<Id>>, i: nat, k: nat)
    requires i <= k <= |found| && forall j :: 0 <= j < |found| ==> found[j].p > 0.0
    ensures Total(found, i) <= Total(found, k)
    decreases k
  {
    if i < k {
      TotalGrows(found, i, k - 1);
    }
  }

  /** A mutation: the node whose subtree is replaced, and what by. */
  datatype Edit = Edit(node: TreeNode, tree: Value)

  function PositionIn(size: nat, draws: seq<nat>): (r: (nat, seq<nat>))
    ensures r.0 <= size && (size > 0 ==> r.0 < size)
  {
    if size == 0 then (0, draws) else (First(draws) % size, Later(draws))
  }

  /** The end of a stretch from `from` on: one element, if there is one, and one more each
      time that a draw says to go on. */
  function StretchTo(size: nat, from: nat, draws: seq<nat>): (r: (nat, seq<nat>))
    requires from <= size
    ensures from <= r.0 <= size
    decreases size - from
  {
    if from == size then (size, draws)
    else if GoesOn(First(draws)) then StretchTo(size, from + 1, Later(draws))
    else (from + 1, Later(draws))
  }

  ghost function GrowIf(g: Grammar, name: string, draws: seq<nat>, depth: nat): (Option<Value>, seq<nat>)
    requires WellFormed(g)
  {
    if name in g then Grow(g, name, draws, depth) else (None, draws)
  }

  /** Tries for trees, at least one; those that fail are left out. */
  ghost function GrowSome(g: Grammar, name: string, draws: seq<nat>, depth: nat): (seq<Value>, seq<nat>)
    requires WellFormed(g)
    decreases |draws|
  {
    if name !in g then ([], draws)
    else
      var (child, rest) := Grow(g, name, draws, depth);
      var own := if child.None? then [] else [child.value];
      if !GoesOn(First(rest)) then (own, Later(rest))
      else var (more, last) := GrowSome(g, name, Later(rest), depth); (own + more, last)
  }

  ghost function Joined(kids: seq<Value>, r: (seq<Value>, seq<nat>)): (seq<Value>, seq<nat>) {
    (kids + r.0, r.1)
  }

  lemma GrowSomeStep(g: Grammar, name: string, draws: seq<nat>, depth: nat, kids: seq<Value>)
    requires WellFormed(g) && name in g
    ensures var (child, rest) := Grow(g, name, draws, depth);
            var own := if child.None? then kids else kids + [child.value];
            Joined(kids, GrowSome(g, name, draws, depth))
            == if GoesOn(First(rest)) then Joined(own, GrowSome(g, name, Later(rest), depth)) else (own, Later(rest))
  {
    hide WellFormed, Grow, GrowSome, GoesOn, Joined;
    var (child, rest) := Grow(g, name, draws, depth);
    var own := if child.None? then [] else [child.value];
    GrowSomeUnfolds(g, name, draws, depth);
    assert kids + own == if child.None? then kids else kids + [child.value];
    if GoesOn(First(rest)) {
      JoinedTwice(kids, own, GrowSome(g, name, Later(rest), depth));
    } else {
      JoinedNothing(kids, (own, Later(rest)));
    }
  }

  lemma GrowSomeUnfolds(g: Grammar, name: string, draws: seq<nat>, depth: nat)
    requires WellFormed(g) && name in g
    ensures var (child, rest) := Grow(g, name, draws, depth);
            var own := if child.None? then [] else [child.value];
            GrowSome(g, name, draws, depth)
            == if GoesOn(First(rest)) then Joined(own, GrowSome(g, name, Later(rest), depth)) else (own, Later(rest))
  {
    hide WellFormed, Grow, GoesOn;
  }

  lemma JoinedTwice(kids: seq<Value>, own: seq<Value>, r: (seq<Value>, seq<nat>))
    ensures Joined(kids, Joined(own, r)) == Joined(kids + own, r)
  {
    assert kids + (own + r.0) == kids + own + r.0;
  }

  lemma JoinedNothing(kids: seq<Value>, r: (seq<Value>, seq<nat>))
    ensures Joined(kids, r) == (kids + r.0, r.1) && Joined([], r) == r
  {
    assert [] + r.0 == r.0;
  }

  lemma StretchStep(size: nat, from: nat, draws: seq<nat>)
    requires from <= size
    ensures StretchTo(size, from, draws)
            == if from == size then (size, draws)
               else if GoesOn(First(draws)) then StretchTo(size, from + 1, Later(draws)) else (from + 1, Later(draws))
  {
    hide GoesOn;
  }

  ghost function SubtreeAt(sh: Shape, n: TreeNode): Shape {
    if n in IdSet([sh]) then Find([sh], n) else sh
  }

  ghost function ReplaceBy(g: Grammar, falloff: real, sh: Shape, draws: seq<nat>): (Option<Edit>, seq<nat>)
    requires WellFormed(g) && falloff > 0.0
  {
    var found := Select(g, Search(None, false, MAX_DEPTH, falloff), [sh], 0, 1.0);
    if found == [] then (None, draws)
    else
      var c := found[Chosen(found, First(draws))];
      var (tree, rest) := GrowIf(g, SubtreeAt(sh, c.node).text, Later(draws), c.depth);
      (if tree.None? then None else Some(Edit(c.node, tree.value)), rest)
  }

  /** A node of a donor that the search asks for. */
  ghost function DonorBy(g: Grammar, s: Search, donors: seq<Shape>, draws: seq<nat>): (Option<Shape>, seq<nat>)
    requires s.falloff > 0.0 && donors != []
  {
    var (k, rest) := PositionIn(|donors|, draws);
    var found := Select(g, s, [donors[k]], 0, 1.0);
    if found == [] then (None, rest)
    else (Some(SubtreeAt(donors[k], found[Chosen(found, First(rest))].node)), Later(rest))
  }

  ghost function SpliceBy(g: Grammar, falloff: real, donors: seq<Shape>, sh: Shape, draws: seq<nat>): (Option<Edit>, seq<nat>)
    requires falloff > 0.0 && donors != []
  {
    var found := Select(g, Search(None, false, MAX_DEPTH, falloff), [sh], 0, 1.0);
    if found == [] then (None, draws)
    else
      var c := found[Chosen(found, First(draws))];
      var s := Search(Some(SubtreeAt(sh, c.node).text), false, c.depth, falloff);
      var (donor, rest) := DonorBy(g, s, donors, Later(draws));
      (if donor.None? then None else Some(Edit(c.node, Erase(donor.value))), rest)
  }

  function RepeatedBy(g: Grammar, text: string): string {
    if text in g then g[text].repeatSymbol else ""
  }

  ghost function RegrowBy(g: Grammar, falloff: real, sh: Shape, draws: seq<nat>): (Option<Edit>, seq<nat>)
    requires WellFormed(g) && falloff > 0.0
  {
    var found := Select(g, Search(None, true, MAX_DEPTH, falloff), [sh], 0, 1.0);
    if found == [] then (None, draws)
    else
      var c := found[Chosen(found, First(draws))];
      var (mix, rest) := RegrowAt(g, SubtreeAt(sh, c.node), c.depth, Later(draws));
      (EditBy(sh, c.node, mix), rest)
  }

  ghost function EditBy(sh: Shape, n: TreeNode, mix: Option<Mix>): Option<Edit> {
    if mix.None? then None else Some(Edit(n, Remixing(Erase(SubtreeAt(sh, n)), mix.value)))
  }

  function Remixing(t: Value, mix: Mix): Value {
    if mix.at <= mix.end <= |t.kids| then Remix(t, mix.at, mix.end, mix.more) else t
  }

  /** Which children of the repeat node `t` go and which come: none, if nothing could be
      generated. */
  ghost function RegrowAt(g: Grammar, t: Shape, depth: nat, draws: seq<nat>): (Option<Mix>, seq<nat>)
    requires WellFormed(g)
  {
    var (plan, last) := PlanBy(g, |t.kids|, t.text, depth, draws);
    if plan.more.None? then (None, last)
    else
      var (end, rest) := if plan.delete then StretchTo(|t.kids|, plan.at, last) else (plan.at, last);
      (Some(Mix(plan.at, end, plan.more.value)), rest)
  }

  /** A position, whether to delete there, and what to insert; None when trees were to be
      generated and none could be. */
  datatype Plan = Plan(at: nat, delete: bool, more: Option<seq<Value>>)

  ghost function PlanBy(g: Grammar, size: nat, text: string, depth: nat, draws: seq<nat>): (r: (Plan, seq<nat>))
    requires WellFormed(g)
    ensures r.0.at <= size
  {
    var (at, chance) := PositionIn(size, draws);
    var choice, rest := Unit(First(chance)), Later(chance);
    var (more, last) := if choice >= 0.2 then GrowSome(g, RepeatedBy(g, text), rest, depth + 1) else ([], rest);
    (Plan(at, choice < 0.4, if choice >= 0.2 && more == [] then None else Some(more)), last)
  }

  ghost function MixBy(g: Grammar, falloff: real, donors: seq<Shape>, sh: Shape, draws: seq<nat>): (Option<Edit>, seq<nat>)
    requires falloff > 0.0 && donors != []
  {
    var found := Select(g, Search(None, true, MAX_DEPTH, falloff), [sh], 0, 1.0);
    if found == [] then (None, draws)
    else
      var c := found[Chosen(found, First(draws))];
      var t := SubtreeAt(sh, c.node);
      var (donor, rest) := DonorBy(g, Search(Some(t.text), true, c.depth, falloff), donors, Later(draws));
      if donor.None? then (None, rest)
      else var (mix, last) := MixAt(t, donor.value, rest); (EditBy(sh, c.node, Some(mix)), last)
  }

  /** Which children of the repeat node `t` go, and which of the donor's come. */
  ghost function MixAt(t: Shape, donor: Shape, draws: seq<nat>): (Mix, seq<nat>) {
    var (at, d1) := PositionIn(|t.kids|, draws);
    var (from, d2) := PositionIn(|donor.kids|, d1);
    var (end, d3) := if Unit(First(d2)) < 0.4 then StretchTo(|t.kids|, at, Later(d2)) else (at, Later(d2));
    var (to, d4) := StretchTo(|donor.kids|, from, d3);
    (Mix(at, end, EraseAll(donor.kids)[from..to]), d4)
  }

  /** One attempt: what it does to the tree, if anything, and the draws left. */
  ghost function AttemptBy(g: Grammar, falloff: real, donors: seq<Shape>, sh: Shape, draws: seq<nat>): (Option<Edit>, seq<nat>)
    requires WellFormed(g) && falloff > 0.0 && donors != []
  {
    var choice, rest := Unit(First(draws)), Later(draws);
    if choice < 0.3 then ReplaceBy(g, falloff, sh, rest)
    else if choice < 0.5 then SpliceBy(g, falloff, donors, sh, rest)
    else if choice < 0.8 then RegrowBy(g, falloff, sh, rest)
    else MixBy(g, falloff, donors, sh, rest)
  }

  /** The tree and the draws left between two attempts. */
  datatype Moment = Moment(tree: Shape, draws: seq<nat>)

  ghost predicate Follows(g: Grammar, falloff: real, donors: seq<Shape>, m: Moment, n: Moment)
    requires WellFormed(g) && falloff > 0.0 && donors != []
  {
    var (edit, rest) := AttemptBy(g, falloff, donors, m.tree, m.draws);
    match edit
    case None => n == Moment(m.tree, rest)
    case Some(e) => n.draws == Later(rest) && Edited(m.tree, e, n.tree)
  }

  ghost predicate Edited(t: Shape, e: Edit, u: Shape) {
    && e.node in IdSet([t]) && e.node in IdSet([u])
    && var r := Find([u], e.node); Erase(r) == e.tree && u == Graft(t, e.node, r)
  }

  /** The attempt that starts here succeeds, and the coin says to stop. */
  ghost predicate Stops(g: Grammar, falloff: real, donors: seq<Shape>, m: Moment)
    requires WellFormed(g) && falloff > 0.0 && donors != []
  {
    var (edit, rest) := AttemptBy(g, falloff, donors, m.tree, m.draws);
    edit.Some? && Unit(First(rest)) > MUTATOR_REPEAT_PROB
  }

  /** A run of attempts: each as the draws say, up to the first that stops or to the limit. */
  ghost predicate IsSession(g: Grammar, falloff: real, donors: seq<Shape>, log: seq<Moment>)
    requires WellFormed(g) && falloff > 0.0 && donors != []
  {
    && IsSessionSoFar(g, falloff, donors, log)
    && (|log| == MAX_ATTEMPTS + 1 || (|log| > 1 && Stops(g, falloff, donors, log[|log| - 2])))
    && (|log| > 1 ==> NoneStops(g, falloff, donors, log, |log| - 2))
  }

  /** None of the first `n` attempts stops. */
  ghost predicate NoneStops(g: Grammar, falloff: real, donors: seq<Shape>, log: seq<Moment>, n: nat)
    requires WellFormed(g) && falloff > 0.0 && donors != [] && n <= |log|
  {
    forall i :: 0 <= i < n ==> !Stops(g, falloff, donors, log[i])
  }

  lemma NoneStopsStill(g: Grammar, falloff: real, donors: seq<Shape>, log: seq<Moment>, m: Moment)
    requires WellFormed(g) && falloff > 0.0 && donors != [] && log != []
    requires NoneStops(g, falloff, donors, log, |log| - 1)
    ensures NoneStops(g, falloff, donors, log + [m], |log| - 1)
    ensures !Stops(g, falloff, donors, log[|log| - 1]) ==> NoneStops(g, falloff, donors, log + [m], |log|)
  {
    hide WellFormed, Stops;
  }

  lemma NoneStopsBefore(g: Grammar, falloff: real, donors: seq<Shape>, log: seq<Moment>)
    requires WellFormed(g) && falloff > 0.0 && donors != [] && |log| > 1
    requires NoneStops(g, falloff, donors, log, |log| - 1)
    ensures NoneStops(g, falloff, donors, log, |log| - 2)
  {
    hide WellFormed, Stops;
  }

  ghost predicate IsSessionSoFar(g: Grammar, falloff: real, donors: seq<Shape>, log: seq<Moment>)
    requires WellFormed(g) && falloff > 0.0 && donors != []
  {
    1 <= |log| <= MAX_ATTEMPTS + 1 && forall i :: 0 <= i < |log| - 1 ==> Follows(g, falloff, donors, log[i], log[i + 1])
  }

  lemma SessionGoesOn(g: Grammar, falloff: real, donors: seq<Shape>, log: seq<Moment>, m: Moment)
    requires WellFormed(g) && falloff > 0.0 && donors != [] && |log| <= MAX_ATTEMPTS
    requires IsSessionSoFar(g, falloff, donors, log) && Follows(g, falloff, donors, log[|log| - 1], m)
    ensures IsSessionSoFar(g, falloff, donors, log + [m])
  {
    hide WellFormed, Follows;
    var longer := log + [m];
    forall i | 0 <= i < |longer| - 1
      ensures Follows(g, falloff, donors, longer[i], longer[i + 1])
    {
      assert i < |log| - 1 ==> longer[i + 1] == log[i + 1];
    }
  }

  lemma AttemptFollows(g: Grammar, falloff: real, donors: seq<Shape>, m: Moment, n: Moment, r: Shape, rest: seq<nat>)
    requires WellFormed(g) && falloff > 0.0 && donors != [] && Distinct([m.tree])
    requires var (edit, left) := AttemptBy(g, falloff, donors, m.tree, m.draws);
             && left == rest
             && if edit.None? then n == Moment(m.tree, rest)
                else edit.value.node in IdSet([m.tree]) && Erase(r) == edit.value.tree && r.id == edit.value.node
                     && n == Moment(Graft(m.tree, edit.value.node, r), Later(rest))
    ensures Follows(g, falloff, donors, m, n)
  {
    hide WellFormed, AttemptBy, IdSet, Erase, Graft;
    var edit := AttemptBy(g, falloff, donors, m.tree, m.draws).0;
    if edit.Some? {
      GraftIsSubst(m.tree, edit.value.node, r);
      FindSubst([m.tree], edit.value.node, r);
    }
  }

  lemma StopsIff(g: Grammar, falloff: real, donors: seq<Shape>, m: Moment, rest: seq<nat>)
    requires WellFormed(g) && falloff > 0.0 && donors != []
    requires AttemptBy(g, falloff, donors, m.tree, m.draws).1 == rest
    ensures Stops(g, falloff, donors, m)
            <==> AttemptBy(g, falloff, donors, m.tree, m.draws).0.Some? && Unit(First(rest)) > MUTATOR_REPEAT_PROB
  {
    hide WellFormed, AttemptBy, Unit;
  }

  /** `n` attempts, none of which stopped. */
  ghost predicate IsRun(g: Grammar, falloff: real, donors: seq<Shape>, log: seq<Moment>, first: Moment, last: Moment, n: nat)
  {
    && WellFormed(g) && falloff > 0.0 && donors != []
    && |log| == n + 1 <= MAX_ATTEMPTS + 1 && log[0] == first && log[n] == last
    && IsSessionSoFar(g, falloff, donors, log) && NoneStops(g, falloff, donors, log, n)
  }

  lemma RunStarts(g: Grammar, falloff: real, donors: seq<Shape>, m: Moment)
    requires WellFormed(g) && falloff > 0.0 && donors != []
    ensures IsRun(g, falloff, donors, [m], m, m, 0)
  {
    hide WellFormed;
  }

  lemma RunGoesOn(g: Grammar, falloff: real, donors: seq<Shape>, log: seq<Moment>, first: Moment, m: Moment, n: Moment, k: nat)
    requires IsRun(g, falloff, donors, log, first, m, k) && k < MAX_ATTEMPTS
    requires WellFormed(g) && falloff > 0.0 && donors != [] && Follows(g, falloff, donors, m, n)
    ensures var longer := log + [n];
            && longer[0] == first && longer[|longer| - 1] == n
            && if Stops(g, falloff, donors, m) then IsSession(g, falloff, donors, longer)
               else IsRun(g, falloff, donors, longer, first, n, k + 1)
  {
    hide WellFormed, Follows, Stops, IsSessionSoFar, NoneStops;
    SessionGoesOn(g, falloff, donors, log, n);
    NoneStopsStill(g, falloff, donors, log, n);
  }

  lemma RunEnds(g: Grammar, falloff: real, donors: seq<Shape>, log: seq<Moment>, first: Moment, last: Moment)
    requires IsRun(g, falloff, donors, log, first, last, MAX_ATTEMPTS)
    ensures WellFormed(g) && falloff > 0.0 && donors != [] && IsSession(g, falloff, donors, log)
    ensures log[0] == first && log[|log| - 1] == last
  {
    hide WellFormed, Stops, IsSessionSoFar, NoneStops;
    NoneStopsBefore(g, falloff, donors, log);
  }

  // ---------- What an edit at one node keeps ----------

  /** The tree with the subtree at `n` replaced by `r`. */
  ghost function Graft<Id>(t: Tree<Id>, n: Id, r: Tree<Id>): Tree<Id> {
    SubstTree(t, n, r)
  }

  lemma GraftIsSubst<Id>(t: Tree<Id>, n: Id, r: Tree<Id>)
    ensures Subst([t], n, r) == [Graft(t, n, r)]
  {
    assert [t][1..] == [];
  }

  /** Memory and grammar after an edit confined to the subtree at `n`. */
  lemma Grafted(g: Grammar, root: string, sh: Shape, n: TreeNode, r: Shape)
    requires Distinct([sh]) && n in IdSet([sh]) && LinkedExcept([sh], n)
    requires IsTree(n, r) && Outside([sh], n) !! IdSet([r])
    requires Derives(g, root, Erase(sh)) && Find([sh], n).tag != STRING
    requires Derives(g, Find([sh], n).text, Erase(r))
    ensures IsTree(sh.id, Graft(sh, n, r))
    ensures Derives(g, root, Erase(Graft(sh, n, r)))
    ensures IdSet([Graft(sh, n, r)]) == Outside([sh], n) + IdSet([r])
  {
    hide Linked, LinkedExcept, Distinct, IdSet, Outside, Find, Subst, SubstTree, Derives, Erase, Sound;
    GraftIsSubst(sh, n, r);
    PasteLinked([sh], n, r);
    DistinctSubst([sh], n, r);
    OutsideSubst([sh], n, r);
    GraftDerives(g, root, sh, n, r);
    RootsSubst([sh], n, r);
    assert Roots([Graft(sh, n, r)])[0] == Roots([sh])[0];
  }

  lemma GraftDerives<Id>(g: Grammar, root: string, sh: Tree<Id>, n: Id, r: Tree<Id>)
    requires Distinct([sh]) && n in IdSet([sh])
    requires Derives(g, root, Erase(sh)) && Find([sh], n).tag != STRING
    requires Derives(g, Find([sh], n).text, Erase(r))
    ensures Derives(g, root, Erase(Graft(sh, n, r)))
  {
    FindSound(g, [sh], n);
    FoundIsLabelled([sh], n);
    SubstDerives(g, root, sh, n, Find([sh], n).text, r);
  }

  /** `u` is `t` with one subtree replaced by a derivation of the same symbol. */
  ghost predicate Rewritten(g: Grammar, t: Value, u: Value) {
    Changed(t, u, Rederives(g))
  }

  ghost predicate IsChain(g: Grammar, edits: seq<Value>) {
    forall i :: 0 <= i < |edits| - 1 ==> Rewritten(g, edits[i], edits[i + 1])
  }

  lemma OneIsChain(g: Grammar, t: Value)
    ensures IsChain(g, [t])
  {
  }

  /** A chain of at most `n` edits. */
  ghost predicate IsEdited(g: Grammar, edits: seq<Value>, first: Value, last: Value, n: nat) {
    1 <= |edits| <= n + 1 && edits[0] == first && edits[|edits| - 1] == last && IsChain(g, edits)
  }

  lemma NothingEdited(g: Grammar, t: Value)
    ensures IsEdited(g, [t], t, t, 0)
  {
  }

  lemma OneMoreEdit(g: Grammar, edits: seq<Value>, first: Value, before: Value, after: Value, n: nat, changed: bool)
    requires IsEdited(g, edits, first, before, n)
    requires if changed then Rewritten(g, before, after) else after == before
    ensures IsEdited(g, if changed then edits + [after] else edits, first, after, n + 1)
  {
    hide IsChain, Rewritten;
    if changed {
      ChainGrows(g, edits, after);
    }
  }

  lemma EditsEnd(g: Grammar, edits: seq<Value>, first: Value, last: Value, n: nat)
    requires IsEdited(g, edits, first, last, n)
    ensures 1 <= |edits| <= n + 1 && edits[0] == first && edits[|edits| - 1] == last && IsChain(g, edits)
  {
  }

  lemma ChainGrows(g: Grammar, edits: seq<Value>, t: Value)
    requires IsChain(g, edits) && edits != [] && Rewritten(g, edits[|edits| - 1], t)
    ensures IsChain(g, edits + [t])
  {
    hide Rewritten;
  }

  ghost function Rederives(g: Grammar): (Value, Value) -> bool {
    (t: Value, u: Value) => t.tag != STRING && Derives(g, t.text, u)
  }

  lemma GraftRewrites<Id>(g: Grammar, t: Tree<Id>, n: Id, r: Tree<Id>)
    requires Distinct([t]) && n in IdSet([t])
    requires Find([t], n).tag != STRING && Derives(g, Find([t], n).text, Erase(r))
    ensures Rewritten(g, Erase(t), Erase(Graft(t, n, r)))
  {
    EraseNode(Find([t], n));
    hide Derives, Erase, Changed, Distinct, IdSet, Find;
    SubstChangesTree(t, n, r, Rederives(g));
  }

  /** A mutation of one child of a rule breaks the equality of parts with one `id` exactly
      when it changes the child and another part shares its `id`. */
  lemma MutationBreaksIdsIff(g: Grammar, t: Value, parts: seq<RulePart>, i: nat, r: Value)
    requires IdsAgree(parts, t.kids) && i < |parts| && parts[i].SymbolPart?
    requires Derives(g, parts[i].symbol, t.kids[i]) && Derives(g, parts[i].symbol, r)
    ensures var after := Node((), t.tag, t.text, t.kids[i := r]);
            && Rewritten(g, t, after)
            && (!IdsAgree(parts, after.kids) <==> r != t.kids[i] && exists j :: 0 <= j < |parts| && ShareId(parts, i, j))
  {
    IdsStayEqualIff(parts, t.kids, i, r);
    var after := Node((), t.tag, t.text, t.kids[i := r]);
    ChangedHere(t.kids[i], r, Rederives(g));
    assert after.kids == t.kids[i := after.kids[i]];
    ChangedBelow(t, after, i, Rederives(g));
  }

  lemma TerminalTree(g: Grammar, name: string, r: nat, value: string, depth: nat)
    requires name in g && !g[name].repeat && IsRule(g, name, r) && depth <= MAX_DEPTH
    requires g[name].generators[r].parts == [StringPart(value)]
    ensures var t := Node((), SYMBOL, name, [Leaf(value)]);
            Generated(g, name, depth, t) && Derives(g, name, t)
  {
    var t := Node((), SYMBOL, name, [Leaf(value)]);
    assert ExpandsAt(g, g[name].generators[r].parts, depth, t.kids, 0);
    assert Expands(g, g[name].generators[r].parts, depth, t.kids);
    assert Matches(g, g[name].generators[r].parts, t.kids);
  }

  lemma TwiceGenerated(g: Grammar, name: string, part: RulePart, kid: Value)
    requires part.SymbolPart? && part.id != 0 && name in g && !g[name].repeat
    requires |g[name].generators| == 1 && g[name].generators[0].parts == [part, part]
    requires Generated(g, part.symbol, 1, kid)
    ensures Generated(g, name, 0, Node((), SYMBOL, name, [kid, kid]))
  {
    var parts, kids := [part, part], [kid, kid];
    assert LastWithId(parts, part.id, 0) == -1 && LastWithId(parts, part.id, 1) == 0;
    hide LastWithId;
    assert ExpandsAt(g, parts, 0, kids, 0) && ExpandsAt(g, parts, 0, kids, 1);
    assert Expands(g, g[name].generators[0].parts, 0, kids);
  }

  lemma TwiceBroken(g: Grammar, name: string, part: RulePart, x: Value, y: Value)
    requires part.SymbolPart? && part.id != 0 && name in g && !g[name].repeat
    requires |g[name].generators| == 1 && g[name].generators[0].parts == [part, part]
    requires Generated(g, part.symbol, 1, x) && Derives(g, part.symbol, x) && Derives(g, part.symbol, y) && x != y
    ensures var t, u := Node((), SYMBOL, name, [x, x]), Node((), SYMBOL, name, [y, x]);
            && Generated(g, name, 0, t) && Rewritten(g, t, u) && Derives(g, name, u)
            && IdsAgree(g[name].generators[0].parts, t.kids) && !IdsAgree(g[name].generators[0].parts, u.kids)
  {
    TwiceGenerated(g, name, part, x);
    hide Generated, Rewritten;
    var t, u := Node((), SYMBOL, name, [x, x]), Node((), SYMBOL, name, [y, x]);
    assert t.kids[0 := y] == u.kids;
    assert ShareId([part, part], 0, 1);
    MutationBreaksIdsIff(g, t, [part, part], 0, y);
    assert Matches(g, g[name].generators[0].parts, u.kids);
  }

  /** `<root> = <a id=1><a id=1>`, where `a` has two terminals. */
  function OneIdTwice(): Grammar {
    var part := SymbolPart("a", 1, map["id" := "1"]);
    map["root" := Symbol(false, "", false, false, [Rule("root", [part, part])]),
        "a" := Symbol(false, "", false, true, [Rule("a", [StringPart("x")]), Rule("a", [StringPart("y")])])]
  }

  /** Such a mutation exists: it leaves a derivation whose equal ids have different trees. */
  lemma MutationBreaksIds()
    ensures var g := OneIdTwice();
            && WellFormed(g)
            && exists t, u ::
                 && Generated(g, "root", 0, t) && Rewritten(g, t, u) && Derives(g, "root", u)
                 && IdsAgree(g["root"].generators[0].parts, t.kids) && !IdsAgree(g["root"].generators[0].parts, u.kids)
  {
    OneIdTwiceParts();
    OneIdTwiceWellFormed();
    hide OneIdTwice, WellFormed, Generated, Rewritten, Derives, IdsAgree;
    var g, part := OneIdTwice(), SymbolPart("a", 1, map["id" := "1"]);
    TerminalTree(g, "a", 0, "x", 1);
    TerminalTree(g, "a", 1, "y", 1);
    TwiceBroken(g, "root", part, Node((), SYMBOL, "a", [Leaf("x")]), Node((), SYMBOL, "a", [Leaf("y")]));
  }

  lemma OneIdTwiceParts()
    ensures var g := OneIdTwice();
            && "root" in g && "a" in g && !g["root"].repeat && !g["a"].repeat
            && g["a"].generators == [Rule("a", [StringPart("x")]), Rule("a", [StringPart("y")])]
            && var part := SymbolPart("a", 1, map["id" := "1"]); g["root"].generators == [Rule("root", [part, part])]
  {
  }

  lemma OneIdTwiceWellFormed()
    ensures WellFormed(OneIdTwice())
  {
  }

  // ---------- Edits of the children of one node, in memory ----------

  /** A list of trees in memory, each once. */
  ghost predicate AreTrees(nodes: seq<TreeNode>, f: seq<Shape>)
    reads IdSet(f)
  {
    nodes == Roots(f) && Linked(f) && Distinct(f)
  }

  lemma EraseFrom(nodes: seq<TreeNode>, f: seq<Shape>, i: nat)
    requires AreTrees(nodes, f) && i < |f|
    ensures IsTree(nodes[i], f[i]) && AreTrees(nodes[..i] + nodes[i + 1..], f[..i] + f[i + 1..])
    ensures IdSet([f[i]]) !! IdSet(f[..i] + f[i + 1..])
    ensures IdSet(f) == IdSet([f[i]]) + IdSet(f[..i] + f[i + 1..])
  {
    hide Linked, Distinct, IdSet;
    LinkedAt(f, i);
    DistinctAt(f, i);
    RootsOmit(f, i);
    hide Roots;
    OthersStay(f, i);
  }

  lemma RootsOmit(f: seq<Shape>, i: nat)
    requires i < |f|
    ensures Roots(f)[i] == f[i].id && Roots(f)[..i] + Roots(f)[i + 1..] == Roots(f[..i] + f[i + 1..])
  {
  }

  lemma OthersStay(f: seq<Shape>, i: nat)
    requires Linked(f) && Distinct(f) && i < |f|
    ensures var others := f[..i] + f[i + 1..];
            && Linked(others) && Distinct(others)
            && IdSet([f[i]]) !! IdSet(others) && IdSet(f) == IdSet([f[i]]) + IdSet(others)
  {
    hide Linked, Distinct, IdSet, Count, Yield;
    var a, one, b := f[..i], [f[i]], f[i + 1..];
    assert f == a + (one + b);
    TakeOut(a, one, b);
    LinkedConcat(a, one + b);
    LinkedConcat(one, b);
    LinkedConcat(a, b);
  }

  lemma InsertInto(nodes: seq<TreeNode>, f: seq<Shape>, more: seq<TreeNode>, g: seq<Shape>, i: nat)
    requires AreTrees(nodes, f) && AreTrees(more, g) && IdSet(f) !! IdSet(g) && i <= |f|
    ensures AreTrees(nodes[..i] + more + nodes[i..], f[..i] + g + f[i..])
    ensures IdSet(f[..i] + g + f[i..]) == IdSet(f) + IdSet(g)
  {
    hide Linked, Distinct, IdSet;
    var a, b := f[..i], f[i..];
    assert f == a + b;
    LinkedConcat(a, b);
    LinkedConcat(a, g);
    LinkedConcat(a + g, b);
    DistinctConcat(a, b);
    DistinctConcat(a, g);
    DistinctConcat(a + g, b);
    IdSetConcat(a, b);
    IdSetConcat(a, g);
    IdSetConcat(a + g, b);
  }

  lemma RepeatNodeInMemory(n: TreeNode, t: Shape, kids: seq<Shape>)
    requires n.live && n.tag == t.tag && n.text == t.text && t.id == n
    requires AreTrees(n.children, kids) && n !in IdSet(kids)
    ensures IsTree(n, t.(kids := kids)) && IdSet([t.(kids := kids)]) == {n} + IdSet(kids)
  {
    OpenTree(t.(kids := kids));
  }

  /** The donors: trees of interesting samples. */
  class TreePool {
    var trees: seq<TreeNode>
    ghost var shapes: seq<Shape>

    constructor ()
      ensures trees == [] && shapes == []
    {
      trees, shapes := [], [];
    }

    /** The trees are in memory, each node once. */
    ghost predicate InMemory()
      reads this, IdSet(shapes)
    {
      trees == Roots(shapes) && Linked(shapes) && Distinct(shapes)
    }

    ghost predicate Valid(g: Grammar)
      reads this, IdSet(shapes)
    {
      && InMemory()
      && forall i :: 0 <= i < |shapes| ==> Derives(g, ROOT, Erase(shapes[i]))
    }
  }

  class GrammarMutator {
    const grammar: Grammar
    const mutationFalloff: real
    const pool: TreePool
    var currentSample: TreeNode
    var candidates: seq<Candidate<TreeNode>>
    var repeatCandidates: seq<Candidate<TreeNode>>
    var spliceCandidates: seq<Candidate<TreeNode>>

    constructor (grammar: Grammar, mutationFalloff: real, pool: TreePool, currentSample: TreeNode)
      requires WellFormed(grammar) && IdConsistent(grammar) && ROOT in grammar && mutationFalloff > 0.0
      requires pool.Valid(grammar) && currentSample in pool.trees
      ensures this.grammar == grammar && this.pool == pool && Valid()
    {
      this.grammar, this.mutationFalloff, this.pool := grammar, mutationFalloff, pool;
      this.currentSample := currentSample;
      candidates, repeatCandidates, spliceCandidates := [], [], [];
    }

    ghost predicate Valid()
      reads this`currentSample, pool, IdSet(pool.shapes)
    {
      && WellFormed(grammar) && IdConsistent(grammar) && ROOT in grammar && mutationFalloff > 0.0
      && pool.Valid(grammar) && currentSample in pool.trees
    }

    /** Nodes of the tree that the search asks for, appended to `found` (which is
        emptied first at the root). */
    method GetMutationCandidates(found: seq<Candidate<TreeNode>>, node: TreeNode, s: Search, depth: nat, p: real, ghost sh: Shape)
        returns (out: seq<Candidate<TreeNode>>)
      requires Linked([sh]) && sh.id == node && Known(grammar, [sh]) && s.falloff > 0.0
      ensures out == (if depth == 0 then [] else found) + Select(grammar, s, [sh], depth, p)
      decreases sh, 1
    {
      hide Linked, Known, IdSet, Select, SelectAt, Lowered;
      LinkedOne(sh);
      KnownOne(grammar, sh);
      var q := Lowered(p, s.falloff);
      SelectNode(grammar, s, sh, depth, p, q);
      out := if depth == 0 then [] else found;
      ghost var before := out;
      Associates(before, [], []);
      if depth > s.maxDepth {
        return;
      }
      if node.Tag() == STRING {
        return;
      }
      ghost var own: seq<Candidate<TreeNode>> := [];
      if s.filter.None? || node.Text() == s.filter.value {
        if !s.justRepeat || grammar[node.Text()].repeat {
          own := [Candidate(node, depth, p)];
          out := out + [Candidate(node, depth, p)];
        }
      }
      assert own == if Wanted(grammar, s, sh.text) then [Candidate(node, depth, p)] else [];
      hide Wanted;
      out := GetFromChildren(out, node, s, depth + 1, q, sh);
      Associates(before, own, Select(grammar, s, sh.kids, depth + 1, q));
    }

    /** The candidates below a node. */
    method GetFromChildren(found: seq<Candidate<TreeNode>>, node: TreeNode, s: Search, depth: nat, q: real, ghost sh: Shape)
        returns (out: seq<Candidate<TreeNode>>)
      requires node.live && node.children == Roots(sh.kids) && Linked(sh.kids) && Known(grammar, sh.kids)
      requires depth > 0 && s.falloff > 0.0
      ensures out == found + Select(grammar, s, sh.kids, depth, q)
      decreases sh, 0
    {
      hide Linked, Known, IdSet, Select, Lowered, Wanted;
      out := found;
      SelectNothing(found, grammar, s, sh.kids, depth, q);
      for i := 0 to |node.Children()|
        invariant Linked(sh.kids) && out == found + Select(grammar, s, sh.kids[..i], depth, q)
      {
        LinkedAt(sh.kids, i);
        KnownAt(grammar, sh.kids, i);
        SelectExtends(found, grammar, s, sh.kids, depth, q, i);
        assert allocated(IdSet(sh.kids));
        if node.Children()[i].Tag() == STRING {
          LinkedOne(sh.kids[i]);
          SelectTerminal(grammar, s, sh.kids[i], depth, q);
          Associates(out, [], []);
        } else {
          out := GetMutationCandidates(out, node.Children()[i], s, depth, q, sh.kids[i]);
        }
      }
      assert sh.kids[..|node.children|] == sh.kids;
    }

    /** Picks a candidate with a chance proportional to its `p`. */
    method GetNodeToMutate(found: seq<Candidate<TreeNode>>, prng: PRNG) returns (picked: Option<nat>)
      requires prng.Valid() && forall i :: 0 <= i < |found| ==> found[i].p > 0.0
      modifies prng`next
      ensures prng.Valid() && prng.next >= old(prng.next)
      ensures picked == if found == [] then None else Some(Chosen(found, First(old(prng.Rest()))))
      ensures prng.Rest() == if found == [] then old(prng.Rest()) else Later(old(prng.Rest()))
    {
      hide Unit;
      if found == [] {
        return None;
      }
      var psum := 0.0;
      for i := 0 to |found|
        invariant psum == Total(found, i) && (i > 0 ==> psum > 0.0)
      {
        psum := psum + found[i].p;
      }
      if psum == 0.0 {
        return None;
      }
      ghost var draw := First(prng.Rest());
      var r := prng.RandReal();
      var p := r * psum;
      assert p == Share(draw, psum);
      hide Share;
      var sum := 0.0;
      for i := 0 to |found|
        invariant i < |found| && sum == Total(found, i) && Reached(found, p, i) == Reached(found, p, 0)
      {
        sum := sum + found[i].p;
        if p < sum || i == |found| - 1 {
          return Some(i);
        }
      }
      picked := None;
    }

    ghost function AnyNode(): Search {
      Search(None, false, MAX_DEPTH, mutationFalloff)
    }

    ghost function RepeatNode(): Search {
      Search(None, true, MAX_DEPTH, mutationFalloff)
    }

    /** A sample tree of our own, apart from the donors. */
    ghost predicate Owned(tree: TreeNode, sh: Shape)
      reads pool`shapes, IdSet([sh])
    {
      IsTree(tree, sh) && Derives(grammar, ROOT, Erase(sh)) && IdSet([sh]) !! IdSet(pool.shapes)
    }

    /** `r` is a tree generated for the symbol of `n`, at the depth of `n`. */
    ghost predicate Regenerated(sh: Shape, n: TreeNode, r: Shape)
      requires n in IdSet([sh])
      reads `candidates
    {
      exists i ::
        && 0 <= i < |candidates| && candidates[i].node == n
        && Generated(grammar, Find([sh], n).text, candidates[i].depth, Erase(r))
    }

    /** `r` derives the symbol of `n`. */
    ghost predicate Rederived(sh: Shape, n: TreeNode, r: Shape)
      requires n in IdSet([sh])
    {
      Find([sh], n).tag != STRING && Derives(grammar, Find([sh], n).text, Erase(r))
    }

    /** Generates one node anew; the "error selecting grammar node" exit cannot be
        taken. */
    method ReplaceNode(tree: TreeNode, prng: PRNG, ghost sh: Shape)
        returns (ok: bool, ghost nsh: Shape, ghost n: TreeNode, ghost r: Shape)
      requires Valid() && Owned(tree, sh) && prng.Valid()
      requires candidates == Select(grammar, AnyNode(), [sh], 0, 1.0)
      modifies prng`next, IdSet([sh])
      ensures Valid() && Owned(tree, nsh) && prng.Valid() && (forall x :: x in IdSet([nsh]) ==> x in IdSet([sh]) || fresh(x))
      ensures !ok ==> nsh == sh
      ensures ok ==> n in IdSet([sh]) && nsh == Graft(sh, n, r) && r.id == n
      ensures ok ==> Regenerated(sh, n, r) && Rederived(sh, n, r)
      ensures candidates != []
      ensures (if ok then Some(Edit(n, Erase(r))) else None, prng.Rest())
              == ReplaceBy(grammar, mutationFalloff, sh, old(prng.Rest()))
    {
      hide Linked, LinkedExcept, Distinct, IdSet, Outside, Find, Select, Generated, Derives, Erase, Graft, Chosen, Grow;
      hide WellFormed, IdConsistent, TreePool.Valid;
      nsh, n, r := sh, tree, sh;
      DerivesIsSymbol(grammar, ROOT, sh);
      SelectedFacts(grammar, AnyNode(), [sh], candidates);
      RootSelected(grammar, AnyNode(), sh);
      assert allocated(IdSet([sh])) && allocated(IdSet(pool.shapes));
      var picked := GetNodeToMutate(candidates, prng);
      assert picked.Some?;
      var candidate := candidates[picked.value];
      var node := candidate.node;
      ghost var t := Find([sh], node);
      FoundInMemory(sh, node);
      FoundIsTree(sh, node);
      FoundDerives(grammar, ROOT, sh, node);
      DerivesIsSymbol(grammar, t.text, t);
      assert allocated(Outside([sh], node)) && allocated(IdSet([t]));
      var replacement, f := GenerateTree(grammar, node.Text(), prng, candidate.depth);
      if replacement == null {
        return false, sh, node, sh;
      }
      OpenTree(f[0]);
      GeneratedDerives(grammar, t.text, candidate.depth, Erase(f[0]));
      assert f == [f[0]];
      r := node.Replace(replacement, t, f[0]);
      OpenTree(r);
      EraseNode(r);
      EraseNode(f[0]);
      Grafted(grammar, ROOT, sh, node, r);
      ok, nsh, n := true, Graft(sh, node, r), node;
    }

    lemma DonorsExist()
      requires Valid()
      ensures pool.shapes != [] && |pool.trees| == |pool.shapes| && WellFormed(grammar) && mutationFalloff > 0.0
    {
    }

    /** A donor: a node of some interesting tree that the search `s` asks for. */
    method PickDonor(s: Search, prng: PRNG) returns (donor: Option<TreeNode>, ghost osh: Shape)
      requires Valid() && prng.Valid() && s.falloff > 0.0
      modifies prng`next, `spliceCandidates
      ensures Valid() && prng.Valid() && prng.next >= old(prng.next) && pool.shapes != []
      ensures (if donor.None? then None else Some(osh), prng.Rest()) == DonorBy(grammar, s, pool.shapes, old(prng.Rest()))
      ensures donor.Some? ==>
        && Linked([osh]) && osh.id == donor.value && IdSet([osh]) <= IdSet(pool.shapes)
        && osh.id in IdSet(pool.shapes) && osh == Find(pool.shapes, osh.id)
        && osh.tag != STRING && Wanted(grammar, s, osh.text) && Derives(grammar, osh.text, Erase(osh))
    {
      hide Linked, Distinct, IdSet, Find, Select, Derives, Erase, WellFormed, IdConsistent, Wanted, Chosen, TreePool.Valid;
      hide PositionIn, First, Later, SubtreeAt;
      DonorsExist();
      osh := Node(currentSample, STRING, "", []);
      assert allocated(IdSet(pool.shapes));
      if pool.trees == [] {
        return None, osh;
      }
      var k := PickPosition(|pool.trees|, prng);
      var other := pool.trees[k];
      ghost var sh := pool.shapes[k];
      DonorTree(k);
      assert allocated(IdSet(pool.shapes));
      spliceCandidates := GetMutationCandidates(spliceCandidates, other, s, 0, 1.0, sh);
      assert spliceCandidates == Select(grammar, s, [sh], 0, 1.0);
      if spliceCandidates == [] {
        return None, osh;
      }
      SelectedFacts(grammar, s, [sh], spliceCandidates);
      assert allocated(IdSet(pool.shapes));
      var picked := GetNodeToMutate(spliceCandidates, prng);
      if picked.None? {
        return None, osh;
      }
      var node := spliceCandidates[picked.value].node;
      osh := Find([sh], node);
      DonorNode(k, node);
      donor := Some(node);
    }

    lemma DonorTree(k: nat)
      requires Valid() && k < |pool.shapes|
      ensures pool.trees[k] == pool.shapes[k].id && Linked([pool.shapes[k]]) && Distinct([pool.shapes[k]])
      ensures Known(grammar, [pool.shapes[k]]) && Derives(grammar, ROOT, Erase(pool.shapes[k]))
    {
      hide Linked, Distinct, Derives, Erase, Known, WellFormed, IdConsistent;
      LinkedAt(pool.shapes, k);
      DistinctAt(pool.shapes, k);
      SoundTreeIsKnown(grammar, pool.shapes[k]);
    }

    lemma DonorNode(k: nat, node: TreeNode)
      requires Valid() && k < |pool.shapes| && node in IdSet([pool.shapes[k]])
      requires Find([pool.shapes[k]], node).tag != STRING
      ensures var osh := Find([pool.shapes[k]], node);
              && SubtreeAt(pool.shapes[k], node) == osh
              && Linked([osh]) && osh.id == node && IdSet([osh]) <= IdSet(pool.shapes)
              && node in IdSet(pool.shapes) && osh == Find(pool.shapes, node) && Derives(grammar, osh.text, Erase(osh))
    {
      hide Linked, Distinct, IdSet, Find, Derives, Erase, WellFormed, IdConsistent;
      var sh := pool.shapes[k];
      DonorTree(k);
      LinkedAt(pool.shapes, k);
      FindInTree(pool.shapes, k, node);
      FoundInMemory(sh, node);
      FoundIsTree(sh, node);
      FoundDerives(grammar, ROOT, sh, node);
    }

    /** Replaces a node by a copy of a node with the same symbol from another sample,
        taken at the same depth or above. */
    method Splice(tree: TreeNode, prng: PRNG, ghost sh: Shape)
        returns (ok: bool, ghost nsh: Shape, ghost n: TreeNode, ghost r: Shape)
      requires Valid() && Owned(tree, sh) && prng.Valid()
      requires candidates == Select(grammar, AnyNode(), [sh], 0, 1.0)
      modifies prng`next, `spliceCandidates, IdSet([sh])
      ensures Valid() && Owned(tree, nsh) && prng.Valid() && (forall x :: x in IdSet([nsh]) ==> x in IdSet([sh]) || fresh(x))
      ensures !ok ==> nsh == sh
      ensures ok ==> n in IdSet([sh]) && nsh == Graft(sh, n, r) && r.id == n && Donated(Find([sh], n).text, r)
      ensures ok ==> Rederived(sh, n, r)
      ensures pool.shapes != []
      ensures (if ok then Some(Edit(n, Erase(r))) else None, prng.Rest())
              == SpliceBy(grammar, mutationFalloff, pool.shapes, sh, old(prng.Rest()))
    {
      hide Linked, LinkedExcept, Distinct, IdSet, Outside, Find, Select, Derives, Erase, Graft, Chosen, DonorBy;
      hide WellFormed, IdConsistent, TreePool.Valid;
      nsh, n, r := sh, tree, sh;
      DonorsExist();
      SelectedFacts(grammar, AnyNode(), [sh], candidates);
      assert allocated(IdSet([sh])) && allocated(IdSet(pool.shapes));
      var picked := GetNodeToMutate(candidates, prng);
      if picked.None? {
        return false, sh, n, r;
      }
      var node := candidates[picked.value].node;
      ghost var t := Find([sh], node);
      FoundInMemory(sh, node);
      FoundIsTree(sh, node);
      FoundDerives(grammar, ROOT, sh, node);
      assert allocated(Outside([sh], node)) && allocated(IdSet([t]));
      var s := Search(Some(node.Text()), false, candidates[picked.value].depth, mutationFalloff);
      var donor, osh := PickDonor(s, prng);
      if donor.None? {
        return false, sh, n, r;
      }
      assert allocated(IdSet([t])) && allocated(IdSet(pool.shapes)) && allocated(Outside([sh], node));
      r := node.Assign(donor.value, t, osh);
      OpenTree(r);
      Grafted(grammar, ROOT, sh, node, r);
      ok, nsh, n := true, Graft(sh, node, r), node;
    }

    /** `r` is a copy of a donor's subtree for the symbol `text`. */
    ghost predicate Donated(text: string, r: Shape)
      reads pool`shapes
    {
      exists m ::
        && m in IdSet(pool.shapes) && Find(pool.shapes, m).text == text
        && Erase(Find(pool.shapes, m)) == Erase(r)
    }

    /** Trees for the repeated symbol; the chance to go on is `REPEAT_PROBABILITY`. */
    method GenerateSome(symbol: string, prng: PRNG, depth: nat) returns (kids: seq<TreeNode>, ghost f: seq<Shape>)
      requires Valid() && prng.Valid() && symbol in grammar
      modifies prng`next
      ensures prng.Valid() && AreTrees(kids, f) && fresh(IdSet(f))
      ensures forall i :: 0 <= i < |f| ==> Generated(grammar, symbol, depth, Erase(f[i]))
      ensures (EraseAll(f), prng.Rest()) == GrowSome(grammar, symbol, old(prng.Rest()), depth)
    {
      hide Linked, Distinct, IdSet, Erase, Generated, WellFormed, IdConsistent, TreePool.Valid, Grow, GrowSome;
      assert WellFormed(grammar);
      hide Valid;
      ghost var draws := prng.Rest();
      NothingYet([]);
      kids, f := [], [];
      assert EraseAll(f) == [];
      JoinedNothing([], GrowSome(grammar, symbol, draws, depth));
      hide Joined;
      while true
        invariant prng.Valid() && AreTrees(kids, f) && fresh(IdSet(f))
        invariant GrowSome(grammar, symbol, draws, depth)
                  == Joined(EraseAll(f), GrowSome(grammar, symbol, prng.Rest(), depth))
        invariant forall i :: 0 <= i < |f| ==> Generated(grammar, symbol, depth, Erase(f[i]))
        decreases |prng.draws| - prng.next
      {
        assert allocated(IdSet(f));
        ghost var before := EraseAll(f);
        GrowSomeStep(grammar, symbol, prng.Rest(), depth, before);
        var child, one := GenerateTree(grammar, symbol, prng, depth);
        if child != null {
          assert one == [one[0]];
          Append(f, one[0]);
          kids, f := kids + [child], f + one;
          assert EraseAll(f) == before + [Erase(one[0])];
        }
        assert allocated(IdSet(f));
        var p := prng.RandReal();
        if p > REPEAT_PROBABILITY {
          break;
        }
      }
    }

    /** Deletes children of `node` from position `at` on, one and then, with the chance
        `REPEAT_PROBABILITY` each time, one more. */
    method DeleteSome(node: TreeNode, at: nat, prng: PRNG, ghost f: seq<Shape>) returns (ghost k: nat)
      requires node.live && AreTrees(node.children, f) && node !in IdSet(f) && at <= |f| && prng.Valid()
      modifies prng`next, node`children, IdSet(f)
      ensures prng.Valid() && at <= k <= |f| && node.live
      ensures (k, prng.Rest()) == StretchTo(|f|, at, old(prng.Rest()))
      ensures forall x :: x in IdSet(f) && x !in IdSet(f[..at] + f[k..]) ==> !x.live
      ensures AreTrees(node.children, f[..at] + f[k..]) && IdSet(f[..at] + f[k..]) <= IdSet(f)
    {
      hide Linked, Distinct, IdSet, Unit, StretchTo;
      k := at;
      ghost var rest, draws := f, prng.Rest();
      assert f[..at] + f[at..] == f;
      while true
        invariant prng.Valid() && at <= k <= |f| && rest == f[..at] + f[k..]
        invariant StretchTo(|f|, at, draws) == StretchTo(|f|, k, prng.Rest())
        invariant node.live && AreTrees(node.children, rest) && IdSet(rest) <= IdSet(f)
        invariant forall x :: x in IdSet(f) && x !in IdSet(rest) ==> !x.live
        decreases |rest|
      {
        StretchStep(|f|, k, prng.Rest());
        if at == |node.Children()| {
          break;
        }
        ghost var less := rest[..at] + rest[at + 1..];
        EraseFrom(node.children, rest, at);
        assert less == f[..at] + f[k + 1..];
        assert allocated(IdSet(less)) && allocated(IdSet(rest)) && allocated(IdSet(f));
        node.Children()[at].Delete(rest[at]);
        assert allocated(IdSet(f)) && allocated(IdSet(less));
        node.SetChildren(node.Children()[..at] + node.Children()[at + 1..]);
        rest, k := less, k + 1;
        assert allocated(IdSet(rest)) && allocated(IdSet(f));
        var p := prng.RandReal();
        if p > REPEAT_PROBABILITY {
          break;
        }
      }
    }

    /** `r` is the repeat node `n` with a stretch of its children deleted and derivations
        of the repeated symbol inserted; its other children are as they were. */
    ghost predicate Remixed(sh: Shape, n: TreeNode, r: Shape)
      requires n in IdSet([sh])
    {
      exists mix: Mix :: RemixedBy(sh, n, r, mix)
    }

    ghost predicate RemixedBy(sh: Shape, n: TreeNode, r: Shape, mix: Mix)
      requires n in IdSet([sh])
    {
      && Find([sh], n).tag != STRING
      && IsRemix(grammar, Erase(Find([sh], n)), mix.at, mix.end, mix.more)
      && Erase(r) == Remix(Erase(Find([sh], n)), mix.at, mix.end, mix.more)
    }

    /** What was inserted below `n` was generated for the repeated symbol, one level below. */
    ghost predicate Grown(sh: Shape, n: TreeNode, more: seq<Value>)
      requires n in IdSet([sh])
      reads `repeatCandidates
    {
      exists i ::
        && 0 <= i < |repeatCandidates| && repeatCandidates[i].node == n
        && GeneratedAll(Find([sh], n).text, repeatCandidates[i].depth + 1, more)
    }

    ghost predicate GeneratedAll(text: string, depth: nat, more: seq<Value>) {
      text in grammar && forall j :: 0 <= j < |more| ==> Generated(grammar, grammar[text].repeatSymbol, depth, more[j])
    }

    /** What was inserted is a stretch of the children of a donor's node for `text`. */
    ghost predicate Borrowed(text: string, more: seq<Value>)
      reads pool`shapes
    {
      exists m, from: nat ::
        && m in IdSet(pool.shapes) && Find(pool.shapes, m).text == text
        && IsStretch(EraseAll(Find(pool.shapes, m).kids), from, more)
    }

    /** Picks a repeat node of our tree. */
    method PickRepeat(tree: TreeNode, prng: PRNG, ghost sh: Shape)
        returns (picked: Option<nat>, ghost t: Shape)
      requires Valid() && Owned(tree, sh) && prng.Valid()
      requires repeatCandidates == Select(grammar, RepeatNode(), [sh], 0, 1.0)
      modifies prng`next
      ensures Valid() && Owned(tree, sh) && prng.Valid()
      ensures picked == if repeatCandidates == [] then None else Some(Chosen(repeatCandidates, First(old(prng.Rest()))))
      ensures prng.Rest() == if repeatCandidates == [] then old(prng.Rest()) else Later(old(prng.Rest()))
      ensures picked.Some? ==>
        && picked.value < |repeatCandidates|
        && var node := repeatCandidates[picked.value].node;
        && Gap(sh, node, t) && Opened(node, t) && LinkedExcept([sh], node)
        && t.text in grammar && grammar[t.text].repeat && Derives(grammar, t.text, Erase(t))
    {
      hide Linked, LinkedExcept, Distinct, IdSet, Outside, Find, Select, Derives, Erase, Chosen;
      hide WellFormed, IdConsistent, TreePool.Valid;
      t := sh;
      SelectedFacts(grammar, RepeatNode(), [sh], repeatCandidates);
      assert allocated(IdSet([sh])) && allocated(IdSet(pool.shapes));
      picked := GetNodeToMutate(repeatCandidates, prng);
      if picked.None? {
        return;
      }
      var node := repeatCandidates[picked.value].node;
      t := Find([sh], node);
      FoundInMemory(sh, node);
      FoundIsTree(sh, node);
      OpenTree(t);
      FoundDerives(grammar, ROOT, sh, node);
      DerivesIsSymbol(grammar, t.text, t);
    }

    lemma ValidGrammar(text: string)
      requires Valid() && text in grammar && grammar[text].repeat
      ensures WellFormed(grammar) && IdConsistent(grammar) && grammar[text].repeatSymbol in grammar
    {
    }

    method PickPosition(size: nat, prng: PRNG) returns (at: nat)
      requires prng.Valid()
      modifies prng`next
      ensures prng.Valid() && prng.next >= old(prng.next) && at <= size && (size > 0 ==> at < size)
      ensures (at, prng.Rest()) == PositionIn(size, old(prng.Rest()))
    {
      at := 0;
      if size != 0 {
        var draw := prng.Rand();
        at := draw % size;
      }
    }

    /** Adds generated children to a repeat node, or deletes some, or both. */
    method RepeatMutator(tree: TreeNode, prng: PRNG, ghost sh: Shape)
        returns (ok: bool, ghost nsh: Shape, ghost n: TreeNode, ghost r: Shape, ghost mix: Mix)
      requires Valid() && Owned(tree, sh) && prng.Valid()
      requires repeatCandidates == Select(grammar, RepeatNode(), [sh], 0, 1.0)
      modifies prng`next, IdSet([sh])
      ensures Valid() && Owned(tree, nsh) && prng.Valid() && (forall x :: x in IdSet([nsh]) ==> x in IdSet([sh]) || fresh(x))
      ensures !ok ==> nsh == sh
      ensures ok ==> n in IdSet([sh]) && nsh == Graft(sh, n, r) && r.id == n
      ensures ok ==> RemixedBy(sh, n, r, mix) && Grown(sh, n, mix.more)
      ensures (if ok then Some(Edit(n, Erase(r))) else None, prng.Rest())
              == RegrowBy(grammar, mutationFalloff, sh, old(prng.Rest()))
    {
      hide Linked, LinkedExcept, Distinct, IdSet, Outside, Find, Select, Derives, Erase, Graft, Generated, Mixed;
      hide Chosen, RegrowAt, EditBy;
      hide WellFormed, IdConsistent, TreePool.Valid, Gap, IsRemix, RemixedBy, EraseAll, GeneratedAll;
      nsh, n, r, mix := sh, tree, sh, Mix(0, 0, []);
      var picked, t := PickRepeat(tree, prng, sh);
      if picked.None? {
        return false, sh, n, r, mix;
      }
      var node, depth := repeatCandidates[picked.value].node, repeatCandidates[picked.value].depth;
      GapParts(sh, node, t);
      GapIsFound(sh, node, t);
      ok, nsh, r, mix := RegrowChildren(tree, node, depth, prng, sh, t);
      n := node;
      NoEdit(sh, node);
      if ok {
        RemixedEdit(sh, node, r, mix);
      }
    }

    lemma RemixedEdit(sh: Shape, n: TreeNode, r: Shape, mix: Mix)
      requires n in IdSet([sh]) && RemixedBy(sh, n, r, mix)
      ensures EditBy(sh, n, Some(mix)) == Some(Edit(n, Erase(r)))
    {
      hide IdSet, Find, Erase, Remix;
    }

    lemma NoEdit(sh: Shape, n: TreeNode)
      ensures EditBy(sh, n, None) == None
      ensures n in IdSet([sh]) ==> SubtreeAt(sh, n) == Find([sh], n)
    {
    }

    method RegrowChildren(tree: TreeNode, node: TreeNode, depth: nat, prng: PRNG, ghost sh: Shape, ghost t: Shape)
        returns (ok: bool, ghost nsh: Shape, ghost r: Shape, ghost mix: Mix)
      requires Valid() && Owned(tree, sh) && prng.Valid() && Gap(sh, node, t) && Opened(node, t) && LinkedExcept([sh], node)
      requires t.text in grammar && grammar[t.text].repeat
      modifies prng`next, IdSet([sh])
      ensures Valid() && Owned(tree, nsh) && prng.Valid() && (forall x :: x in IdSet([nsh]) ==> x in IdSet([sh]) || fresh(x))
      ensures !ok ==> nsh == sh
      ensures ok ==> node in IdSet([sh]) && nsh == Graft(sh, node, r) && r.id == node
      ensures ok ==> RemixedBy(sh, node, r, mix) && GeneratedAll(t.text, depth + 1, mix.more)
      ensures (if ok then Some(mix) else None, prng.Rest()) == RegrowAt(grammar, t, depth, old(prng.Rest()))
    {
      hide Linked, LinkedExcept, Distinct, IdSet, Outside, Find, Derives, Erase, Graft, Generated;
      hide PlanBy, StretchTo, WellFormed;
      hide IdConsistent, Valid, Gap, IsRemix, RemixedBy, EraseAll;
      nsh, r, mix := sh, sh, Mix(0, 0, []);
      ValidGrammar(t.text);
      GapParts(sh, node, t);
      assert allocated(IdSet([sh])) && allocated(Outside([sh], node)) && allocated(IdSet(t.kids));
      assert allocated(IdSet(pool.shapes));
      var at, doDelete, more;
      ghost var f;
      ok, at, doDelete, more, f := PlanChildren(node, depth, prng, t);
      if !ok {
        return;
      }
      assert allocated(IdSet(f)) && allocated(IdSet([sh])) && allocated(Outside([sh], node)) && allocated(IdSet(pool.shapes));
      ghost var k;
      nsh, r, k := DeleteAndInsert(tree, node, at, doDelete, more, prng, sh, t, f);
      mix := Mix(at, k, EraseAll(f));
    }

    /** Where and whether to delete, and what to insert. */
    method PlanChildren(node: TreeNode, depth: nat, prng: PRNG, ghost t: Shape)
        returns (ok: bool, at: nat, doDelete: bool, more: seq<TreeNode>, ghost f: seq<Shape>)
      requires Valid() && prng.Valid() && node.live && node.text == t.text && node.children == Roots(t.kids)
      requires t.text in grammar && grammar[t.text].repeat
      modifies prng`next
      ensures prng.Valid() && AreTrees(more, f) && fresh(IdSet(f)) && at <= |t.kids|
      ensures GeneratedAll(t.text, depth + 1, EraseAll(f))
      ensures forall i :: 0 <= i < |EraseAll(f)| ==> Derives(grammar, grammar[t.text].repeatSymbol, EraseAll(f)[i])
      ensures (Plan(at, doDelete, if ok then Some(EraseAll(f)) else None), prng.Rest())
              == PlanBy(grammar, |t.kids|, t.text, depth, old(prng.Rest()))
    {
      hide Linked, Distinct, IdSet, Erase, EraseAll, Generated, Derives, GrowSome, PositionIn, Unit;
      hide IdConsistent, WellFormed, Valid, GeneratedAll;
      ValidGrammar(t.text);
      assert allocated(IdSet(pool.shapes));
      at := PickPosition(|node.Children()|, prng);
      var choice := prng.RandReal();
      var doInsert := choice >= 0.2;
      doDelete := choice < 0.4;
      more, f := [], [];
      NothingYet([]);
      NothingErased();
      if doInsert {
        more, f := GenerateSome(grammar[node.Text()].repeatSymbol, prng, depth + 1);
      }
      ok := !doInsert || more != [];
      AllGenerated(t.text, depth + 1, f);
    }

    lemma NothingErased()
      ensures EraseAll<TreeNode>([]) == []
    {
    }

    lemma AllGenerated(text: string, depth: nat, f: seq<Shape>)
      requires IdConsistent(grammar) && text in grammar
      requires forall i :: 0 <= i < |f| ==> Generated(grammar, grammar[text].repeatSymbol, depth, Erase(f[i]))
      ensures GeneratedAll(text, depth, EraseAll(f))
      ensures forall i :: 0 <= i < |EraseAll(f)| ==> Derives(grammar, grammar[text].repeatSymbol, EraseAll(f)[i])
    {
      hide IdConsistent, Generated, Derives, Erase;
      GeneratedAllDerive(grammar, grammar[text].repeatSymbol, depth, f);
    }

    /** Deletes a stretch of the node's children from `at` on, if asked to, and inserts
        `more`. */
    method DeleteAndInsert(tree: TreeNode, node: TreeNode, at: nat, doDelete: bool, more: seq<TreeNode>, prng: PRNG,
                           ghost sh: Shape, ghost t: Shape, ghost f: seq<Shape>)
        returns (ghost nsh: Shape, ghost r: Shape, ghost k: nat)
      requires Owned(tree, sh) && prng.Valid() && Gap(sh, node, t) && Opened(node, t) && LinkedExcept([sh], node)
      requires t.text in grammar && grammar[t.text].repeat && at <= |t.kids|
      requires forall i :: 0 <= i < |EraseAll(f)| ==> Derives(grammar, grammar[t.text].repeatSymbol, EraseAll(f)[i])
      requires AreTrees(more, f) && IdSet(f) !! IdSet([sh]) && IdSet(f) !! IdSet(pool.shapes)
      modifies prng`next, IdSet([sh])
      ensures prng.Valid() && Owned(tree, nsh) && IdSet([nsh]) <= IdSet([sh]) + IdSet(f)
      ensures node in IdSet([sh]) && nsh == Graft(sh, node, r) && r.id == node && RemixedBy(sh, node, r, Mix(at, k, EraseAll(f)))
      ensures (k, prng.Rest()) == if doDelete then StretchTo(|t.kids|, at, old(prng.Rest())) else (at, old(prng.Rest()))
    {
      hide Linked, LinkedExcept, Distinct, IdSet, Outside, Find, Derives, Erase, EraseAll, Graft;
      hide Gap, IsRemix, RemixedBy, StretchTo;
      GapParts(sh, node, t);
      assert allocated(IdSet([sh])) && allocated(Outside([sh], node)) && allocated(IdSet(t.kids)) && allocated(IdSet(f));
      assert allocated(IdSet(pool.shapes));
      k := at;
      assert t.kids[..at] + t.kids[at..] == t.kids;
      if doDelete {
        k := DeleteSome(node, at, prng, t.kids);
      }
      RemixOf(grammar, t, at, k, EraseAll(f));
      nsh, r := InsertAfterGap(tree, node, at, more, sh, t, k, f);
    }

    /** Inserts `more` one place after the gap at `at`, or at the end. */
    method InsertAfterGap(tree: TreeNode, node: TreeNode, at: nat, more: seq<TreeNode>,
                          ghost sh: Shape, ghost t: Shape, ghost k: nat, ghost f: seq<Shape>)
        returns (ghost nsh: Shape, ghost r: Shape)
      requires sh.id == tree && Distinct([sh]) && Derives(grammar, ROOT, Erase(sh)) && IdSet([sh]) !! IdSet(pool.shapes)
      requires LinkedExcept([sh], node) && Gap(sh, node, t)
      requires node.live && node.tag == t.tag && node.text == t.text
      requires at <= k <= |t.kids| && AreTrees(node.children, t.kids[..at] + t.kids[k..])
      requires IdSet(t.kids[..at] + t.kids[k..]) <= IdSet(t.kids)
      requires AreTrees(more, f) && IdSet(f) !! IdSet([sh]) && IdSet(f) !! IdSet(pool.shapes)
      requires IsRemix(grammar, Erase(t), at, k, EraseAll(f))
      modifies node`children
      ensures Owned(tree, nsh) && IdSet([nsh]) <= IdSet([sh]) + IdSet(f)
      ensures nsh == Graft(sh, node, r) && r.id == node && RemixedBy(sh, node, r, Mix(at, k, EraseAll(f)))
    {
      hide Linked, LinkedExcept, Distinct, IdSet, Outside, Find, Derives, Erase, Graft, Mixed, IsRemix, Remix;
      ghost var kept := t.kids[..at] + t.kids[k..];
      assert allocated(IdSet(kept)) && allocated(IdSet(f)) && allocated(Outside([sh], node));
      var i := if at != |node.Children()| then at + 1 else at;
      InsertInto(node.children, kept, more, f, i);
      node.SetChildren(node.Children()[..i] + more + node.Children()[i..]);
      MixedInMemory(node, t.kids, at, k, kept, f);
      Remade(grammar, sh, node, t, at, k, f);
      r := t.(kids := Mixed(t.kids, at, k, f));
      nsh := Graft(sh, node, r);
    }

    /** Copies of donor children from position `from` on, with the chance
        `REPEAT_PROBABILITY` each time for one more. */
    method CopySome(donor: TreeNode, from: nat, prng: PRNG, ghost osh: Shape) returns (more: seq<TreeNode>, ghost f: seq<Shape>)
      requires Linked([osh]) && osh.id == donor && from <= |osh.kids| && prng.Valid()
      modifies prng`next
      ensures prng.Valid() && AreTrees(more, f) && fresh(IdSet(f))
      ensures from + |f| <= |osh.kids| && EraseAll(f) == EraseAll(osh.kids[from..from + |f|])
      ensures (from + |f|, prng.Rest()) == StretchTo(|osh.kids|, from, old(prng.Rest()))
    {
      hide Linked, Distinct, IdSet, Erase, EraseAll, Unit, StretchTo;
      ghost var draws := prng.Rest();
      NothingYet([]);
      LinkedOne(osh);
      IdSetOne(osh);
      assert allocated(IdSet([osh]));
      more, f := [], [];
      NothingCopied(osh.kids, from);
      while true
        invariant prng.Valid() && AreTrees(more, f) && fresh(IdSet(f)) && Linked(osh.kids)
        invariant from + |f| <= |osh.kids| && EraseAll(f) == EraseAll(osh.kids[from..from + |f|])
        invariant StretchTo(|osh.kids|, from, draws) == StretchTo(|osh.kids|, from + |f|, prng.Rest())
        decreases |osh.kids| - |f|
      {
        var i := from + |more|;
        StretchStep(|osh.kids|, i, prng.Rest());
        if i == |donor.Children()| {
          break;
        }
        LinkedAt(osh.kids, i);
        assert allocated(IdSet(f)) && allocated(IdSet(osh.kids));
        var child, csh := TreeNode.Copy(donor.Children()[i], osh.kids[i]);
        Append(f, csh);
        OneMoreCopied(osh.kids, from, f, csh);
        more, f := more + [child], f + [csh];
        assert allocated(IdSet(f)) && allocated(IdSet(osh.kids));
        var p := prng.RandReal();
        if p > REPEAT_PROBABILITY {
          break;
        }
      }
    }

    /** Mixes children of a repeat node from another sample into a repeat node of ours. */
    method RepeatSplice(tree: TreeNode, prng: PRNG, ghost sh: Shape)
        returns (ok: bool, ghost nsh: Shape, ghost n: TreeNode, ghost r: Shape, ghost mix: Mix)
      requires Valid() && Owned(tree, sh) && prng.Valid()
      requires repeatCandidates == Select(grammar, RepeatNode(), [sh], 0, 1.0)
      modifies prng`next, `spliceCandidates, IdSet([sh])
      ensures Valid() && Owned(tree, nsh) && prng.Valid() && (forall x :: x in IdSet([nsh]) ==> x in IdSet([sh]) || fresh(x))
      ensures !ok ==> nsh == sh
      ensures ok ==> n in IdSet([sh]) && nsh == Graft(sh, n, r) && r.id == n
      ensures ok ==> RemixedBy(sh, n, r, mix) && Borrowed(Find([sh], n).text, mix.more)
      ensures pool.shapes != []
      ensures (if ok then Some(Edit(n, Erase(r))) else None, prng.Rest())
              == MixBy(grammar, mutationFalloff, pool.shapes, sh, old(prng.Rest()))
    {
      hide Linked, LinkedExcept, Distinct, IdSet, Outside, Find, Select, Derives, Erase, Graft, Generated, Mixed;
      hide Chosen, DonorBy, MixAt, EditBy;
      DonorsExist();
      hide WellFormed, IdConsistent, TreePool.Valid, Gap, IsRemix, RemixedBy, EraseAll, IsStretch;
      nsh, n, r, mix := sh, tree, sh, Mix(0, 0, []);
      var picked, t := PickRepeat(tree, prng, sh);
      if picked.None? {
        return false, sh, n, r, mix;
      }
      var node := repeatCandidates[picked.value].node;
      GapParts(sh, node, t);
      assert allocated(IdSet([sh])) && allocated(Outside([sh], node)) && allocated(IdSet(t.kids));
      var s := Search(Some(node.Text()), true, repeatCandidates[picked.value].depth, mutationFalloff);
      var donor, osh := PickDonor(s, prng);
      if donor.None? {
        return false, sh, n, r, mix;
      }
      GapIsFound(sh, node, t);
      ghost var from;
      NoEdit(sh, node);
      nsh, r, mix, from := SpliceChildren(tree, node, donor.value, prng, sh, t, osh);
      ok, n := true, node;
      RemixedEdit(sh, node, r, mix);
    }

    method SpliceChildren(tree: TreeNode, node: TreeNode, donor: TreeNode, prng: PRNG,
                          ghost sh: Shape, ghost t: Shape, ghost osh: Shape)
        returns (ghost nsh: Shape, ghost r: Shape, ghost mix: Mix, ghost from: nat)
      requires Valid() && Owned(tree, sh) && prng.Valid() && Gap(sh, node, t) && Opened(node, t) && LinkedExcept([sh], node)
      requires t.text in grammar && grammar[t.text].repeat
      requires Linked([osh]) && osh.id == donor && IdSet([osh]) <= IdSet(pool.shapes)
      requires Derives(grammar, t.text, Erase(osh))
      modifies prng`next, IdSet([sh])
      ensures Valid() && Owned(tree, nsh) && prng.Valid() && (forall x :: x in IdSet([nsh]) ==> x in IdSet([sh]) || fresh(x))
      ensures node in IdSet([sh]) && nsh == Graft(sh, node, r) && r.id == node && RemixedBy(sh, node, r, mix)
      ensures IsStretch(EraseAll(osh.kids), from, mix.more)
      ensures (mix, prng.Rest()) == MixAt(t, osh, old(prng.Rest()))
    {
      hide Linked, LinkedExcept, Distinct, IdSet, Outside, Find, Derives, Erase, Graft;
      hide Valid, Gap, IsRemix, RemixedBy, EraseAll, IsStretch, MixAt;
      GapParts(sh, node, t);
      assert allocated(IdSet([sh])) && allocated(Outside([sh], node)) && allocated(IdSet(t.kids));
      assert allocated(IdSet([osh])) && allocated(IdSet(pool.shapes));
      var at, more;
      ghost var k, f;
      at, k, more, f, from := TakeStretches(node, donor, prng, t, osh);
      DonorKidsDerive(grammar, t.text, osh, from, EraseAll(f));
      RemixOf(grammar, t, at, k, EraseAll(f));
      mix := Mix(at, k, EraseAll(f));
      EraseStretch(osh.kids, from, f);
      nsh, r := InsertAfterGap(tree, node, at, more, sh, t, k, f);
      assert IdSet([nsh]) - IdSet([sh]) <= IdSet(f);
    }

    /** Deletes a stretch of the node's children, perhaps, and copies one of the donor's. */
    method TakeStretches(node: TreeNode, donor: TreeNode, prng: PRNG, ghost t: Shape, ghost osh: Shape)
        returns (at: nat, ghost k: nat, more: seq<TreeNode>, ghost f: seq<Shape>, ghost from: nat)
      requires prng.Valid() && node.live && AreTrees(node.children, t.kids) && node !in IdSet(t.kids)
      requires Linked([osh]) && osh.id == donor && IdSet([osh]) !! IdSet(t.kids) && node !in IdSet([osh])
      modifies prng`next, node`children, IdSet(t.kids)
      ensures prng.Valid() && at <= k <= |t.kids| && node.live
      ensures AreTrees(node.children, t.kids[..at] + t.kids[k..]) && IdSet(t.kids[..at] + t.kids[k..]) <= IdSet(t.kids)
      ensures AreTrees(more, f) && fresh(IdSet(f))
      ensures from + |f| <= |osh.kids| && EraseAll(f) == EraseAll(osh.kids[from..from + |f|])
      ensures (Mix(at, k, EraseAll(f)), prng.Rest()) == MixAt(t, osh, old(prng.Rest()))
    {
      hide Linked, Distinct, IdSet, Erase, EraseAll, IsStretch, StretchTo, PositionIn, Unit;
      LinkedOne(osh);
      assert allocated(IdSet([osh])) && allocated(IdSet(t.kids));
      at := PickPosition(|node.Children()|, prng);
      var position := PickPosition(|donor.Children()|, prng);
      from := position;
      var choice := prng.RandReal();
      k := at;
      assert t.kids[..at] + t.kids[at..] == t.kids;
      if choice < 0.4 {
        k := DeleteSome(node, at, prng, t.kids);
      }
      assert allocated(IdSet(t.kids[..at] + t.kids[k..])) && allocated(IdSet([osh]));
      more, f := CopySome(donor, position, prng, osh);
      EraseStretch(osh.kids, from, f);
    }

    /** Remembers a sample with new coverage as a donor; null stands for the fatal error of
        a sample that does not decode. */
    method CreateSampleContext(sample: string) returns (tree: TreeNode?)
      requires pool.InMemory()
      modifies pool
      ensures pool.InMemory() && (tree == null <==> DecodeSample(grammar, sample).None?)
      ensures tree == null ==> pool.trees == old(pool.trees) && pool.shapes == old(pool.shapes)
      ensures tree != null ==>
        && pool.trees == old(pool.trees) + [tree] && |pool.shapes| == |pool.trees|
        && old(pool.shapes) < pool.shapes
        && DecodeSample(grammar, sample) == Some(Erase(pool.shapes[|pool.shapes| - 1]))
      ensures old(Valid()) && (tree != null ==> Derives(grammar, ROOT, DecodeSample(grammar, sample).value)) ==> Valid()
    {
      hide Linked, Distinct, IdSet, Derives, Erase, WellFormed, IdConsistent, DecodeSample;
      assert allocated(IdSet(pool.shapes));
      var t, f := DecodeSampleTree(grammar, sample);
      if t == null {
        return null;
      }
      assert f == [f[0]];
      Append(pool.shapes, f[0]);
      tree := t;
      pool.trees, pool.shapes := pool.trees + [t], pool.shapes + f;
    }

    /** Starts a round on a sample already remembered. */
    method InitRound(tree: TreeNode)
      requires Valid() && tree in pool.trees
      modifies `currentSample
      ensures Valid() && currentSample == tree
    {
      currentSample := tree;
    }

    /** The tree of the current sample. */
    ghost predicate IsCurrent(t: Value)
      reads this`currentSample, pool
    {
      exists k :: 0 <= k < |pool.trees| == |pool.shapes| && pool.trees[k] == currentSample && t == Erase(pool.shapes[k])
    }

    /** A mutated sample: whatever the random choices, it is written from a tree derived
        from the root symbol.  It is new, or comes from the current sample by edits that
        each replace one subtree by another derivation of the same symbol. */
    method Mutate(prng: PRNG) returns (sample: string, ghost t: Value, ghost edits: seq<Value>, ghost log: seq<Moment>)
      requires Valid() && prng.Valid()
      modifies prng`next, `candidates, `repeatCandidates, `spliceCandidates
      ensures Valid() && prng.Valid()
      ensures Derives(grammar, ROOT, t) && sample == EncodeSample(t)
      ensures 1 <= |edits| <= MAX_ATTEMPTS + 1
      ensures Generated(grammar, ROOT, 0, t) || (IsCurrent(edits[0]) && edits[|edits| - 1] == t)
      ensures IsChain(grammar, edits)
      ensures var (select, start) := (First(old(prng.Rest())), Later(old(prng.Rest())));
              var (tree, rest) := if Unit(select) < 0.1 then Grow(grammar, ROOT, start, 0) else (None, start);
              if tree.Some? then t == tree.value && prng.Rest() == rest
              else
                && pool.shapes != [] && IsSession(grammar, mutationFalloff, pool.shapes, log)
                && IsCurrent(Erase(log[0].tree)) && log[0].draws == rest
                && t == Erase(log[|log| - 1].tree) && prng.Rest() == log[|log| - 1].draws
    {
      hide Linked, Distinct, IdSet, Derives, Erase, WellFormed, IdConsistent, EncodeSample, Generated, TreePool.Valid;
      hide IsChain, IsCurrent, Encodable, Yield, Count, Grow, IsSession, Unit;
      assert allocated(IdSet(pool.shapes));
      var newSample := new TreeNode();
      assert newSample !in IdSet(pool.shapes);
      ghost var sh := Node(newSample, STRING, "", []);
      LeafTree(sh);
      assert allocated(IdSet([sh])) && allocated(IdSet(pool.shapes));
      var select := prng.RandReal();
      if select < 0.1 {
        var success;
        success, sh := GenerateInto(newSample, prng, sh);
        if success {
          sample := EncodeSampleOf(newSample, sh);
          EncodeSampleErase(sh);
          OneIsChain(grammar, Erase(sh));
          return sample, Erase(sh), [Erase(sh)], [];
        }
      }
      assert allocated(IdSet([sh])) && allocated(IdSet(pool.shapes));
      sample, t, edits, log := MutateCopy(newSample, prng, sh);
    }

    /** Makes `node` a copy of the current sample's tree and mutates that. */
    method MutateCopy(node: TreeNode, prng: PRNG, ghost sh: Shape)
        returns (sample: string, ghost t: Value, ghost edits: seq<Value>, ghost log: seq<Moment>)
      requires Valid() && prng.Valid() && IsTree(node, sh) && IdSet([sh]) !! IdSet(pool.shapes)
      modifies prng`next, `candidates, `repeatCandidates, `spliceCandidates, IdSet([sh])
      ensures Valid() && prng.Valid()
      ensures Derives(grammar, ROOT, t) && sample == EncodeSample(t)
      ensures 1 <= |edits| <= MAX_ATTEMPTS + 1 && IsCurrent(edits[0]) && edits[|edits| - 1] == t
      ensures IsChain(grammar, edits)
      ensures pool.shapes != [] && IsSession(grammar, mutationFalloff, pool.shapes, log)
      ensures IsCurrent(Erase(log[0].tree)) && log[0].draws == old(prng.Rest())
      ensures t == Erase(log[|log| - 1].tree) && prng.Rest() == log[|log| - 1].draws
    {
      hide Linked, Distinct, IdSet, Derives, Erase, WellFormed, IdConsistent, EncodeSample, Generated, TreePool.Valid;
      hide IsChain, IsCurrent, Encodable, Yield, Count, Grow, IsSession, Unit;
      assert allocated(IdSet([sh])) && allocated(IdSet(pool.shapes));
      ghost var nsh := CopyCurrent(node, sh);
      assert allocated(IdSet([nsh])) && allocated(IdSet(pool.shapes));
      nsh, edits, log := MutateRepeatedly(node, prng, nsh);
      sample := EncodeSampleOf(node, nsh);
      EncodeSampleErase(nsh);
      t := Erase(nsh);
    }

    /** Makes `node` a newly generated tree for the root symbol. */
    method GenerateInto(node: TreeNode, prng: PRNG, ghost sh: Shape) returns (ok: bool, ghost nsh: Shape)
      requires Valid() && prng.Valid() && IsTree(node, sh) && IdSet([sh]) !! IdSet(pool.shapes)
      modifies prng`next, IdSet([sh])
      ensures Valid() && prng.Valid() && IsTree(node, nsh)
      ensures ok ==> Generated(grammar, ROOT, 0, Erase(nsh)) && Derives(grammar, ROOT, Erase(nsh))
      ensures (if ok then Some(Erase(nsh)) else None, prng.Rest()) == Grow(grammar, ROOT, old(prng.Rest()), 0)
      ensures !ok ==> nsh == sh
    {
      hide Linked, Distinct, IdSet, Derives, Erase, WellFormed, IdConsistent, Generated, TreePool.Valid, Grow;
      assert allocated(IdSet([sh])) && allocated(IdSet(pool.shapes));
      var generated, f := GenerateTree(grammar, ROOT, prng, 0);
      if generated == null {
        return false, sh;
      }
      assert f == [f[0]];
      OpenTree(f[0]);
      GeneratedDerives(grammar, ROOT, 0, Erase(f[0]));
      assert allocated(IdSet([sh])) && allocated(IdSet(f)) && allocated(IdSet(pool.shapes));
      nsh := node.Replace(generated, sh, f[0]);
      EraseNode(nsh);
      EraseNode(f[0]);
      return true, nsh;
    }

    /** Attempts until a coin says stop after a success, or all attempts are used up. */
    method MutateRepeatedly(tree: TreeNode, prng: PRNG, ghost sh: Shape)
        returns (ghost nsh: Shape, ghost edits: seq<Value>, ghost log: seq<Moment>)
      requires Valid() && Owned(tree, sh) && prng.Valid()
      modifies prng`next, `candidates, `repeatCandidates, `spliceCandidates, IdSet([sh])
      ensures Valid() && prng.Valid() && Owned(tree, nsh) && (forall x :: x in IdSet([nsh]) ==> x in IdSet([sh]) || fresh(x))
      ensures 1 <= |edits| <= MAX_ATTEMPTS + 1 && edits[0] == Erase(sh) && edits[|edits| - 1] == Erase(nsh)
      ensures IsChain(grammar, edits)
      ensures pool.shapes != [] && IsSession(grammar, mutationFalloff, pool.shapes, log)
      ensures log[0] == Moment(sh, old(prng.Rest())) && log[|log| - 1] == Moment(nsh, prng.Rest())
    {
      hide Linked, Distinct, IdSet, Derives, Erase, WellFormed, IdConsistent, Generated, TreePool.Valid, Rewritten;
      hide AttemptBy, Unit, Follows, IsSession, IsRun, Stops, Valid, Owned, IsEdited;
      DonorsExist();
      nsh, edits, log := sh, [Erase(sh)], [Moment(sh, prng.Rest())];
      ghost var start, mine := log[0], IdSet([sh]);
      RunStarts(grammar, mutationFalloff, pool.shapes, start);
      NothingEdited(grammar, Erase(sh));
      for i := 0 to MAX_ATTEMPTS
        invariant Valid() && prng.Valid() && Owned(tree, nsh) && fresh(IdSet([nsh]) - mine)
        invariant IsEdited(grammar, edits, Erase(sh), Erase(nsh), i)
        invariant IsRun(grammar, mutationFalloff, pool.shapes, log, start, Moment(nsh, prng.Rest()), i)
      {
        assert allocated(IdSet([nsh])) && allocated(IdSet(pool.shapes));
        ghost var before, changed := nsh, false;
        ghost var m := Moment(nsh, prng.Rest());
        var stop;
        ghost var now := IdSet([nsh]);
        stop, nsh, changed := TryAndFlip(tree, prng, nsh);
        assert forall x :: x in IdSet([nsh]) - mine ==> x in now - mine || x !in now;
        ghost var n := Moment(nsh, prng.Rest());
        OneMoreEdit(grammar, edits, Erase(sh), Erase(before), Erase(nsh), i, changed);
        if changed {
          edits := edits + [Erase(nsh)];
        }
        RunGoesOn(grammar, mutationFalloff, pool.shapes, log, start, m, n, i);
        log := log + [n];
        if stop {
          EditsEnd(grammar, edits, Erase(sh), Erase(nsh), i + 1);
          return;
        }
      }
      EditsEnd(grammar, edits, Erase(sh), Erase(nsh), MAX_ATTEMPTS);
      RunEnds(grammar, mutationFalloff, pool.shapes, log, start, Moment(nsh, prng.Rest()));
    }

    /** One attempt and, after a success, the coin. */
    method TryAndFlip(tree: TreeNode, prng: PRNG, ghost sh: Shape)
        returns (stop: bool, ghost nsh: Shape, ghost changed: bool)
      requires Valid() && Owned(tree, sh) && prng.Valid() && pool.shapes != []
      modifies prng`next, `candidates, `repeatCandidates, `spliceCandidates, IdSet([sh])
      ensures Valid() && prng.Valid() && Owned(tree, nsh) && (forall x :: x in IdSet([nsh]) ==> x in IdSet([sh]) || fresh(x))
      ensures if changed then Rewritten(grammar, Erase(sh), Erase(nsh)) else nsh == sh
      ensures var m := Moment(sh, old(prng.Rest()));
              && Follows(grammar, mutationFalloff, pool.shapes, m, Moment(nsh, prng.Rest()))
              && (stop <==> Stops(grammar, mutationFalloff, pool.shapes, m))
    {
      hide Linked, IdSet, Derives, Erase, WellFormed, IdConsistent, Generated, TreePool.Valid, Rewritten, Distinct, Graft;
      hide AttemptBy, Unit, Follows, Stops, Find, Donated, Regenerated, Remixed, Rederived, Valid, Owned;
      DonorsExist();
      OwnedIsDistinct(tree, sh);
      ghost var n, r, m := tree, sh, Moment(sh, prng.Rest());
      var success;
      stop := false;
      success, nsh, n, r := MutateOnce(tree, prng, sh);
      changed := success;
      ghost var rest := prng.Rest();
      StopsIff(grammar, mutationFalloff, pool.shapes, m, rest);
      if success {
        OnceRewrites(sh, n, r);
        assert allocated(IdSet([nsh])) && allocated(IdSet(pool.shapes));
        var coin := prng.RandReal();
        stop := coin > MUTATOR_REPEAT_PROB;
      }
      AttemptFollows(grammar, mutationFalloff, pool.shapes, m, Moment(nsh, prng.Rest()), r, rest);
    }

    lemma OwnedIsDistinct(tree: TreeNode, sh: Shape)
      requires Owned(tree, sh)
      ensures Distinct([sh])
    {
    }

    lemma OnceRewrites(sh: Shape, n: TreeNode, r: Shape)
      requires Distinct([sh]) && n in IdSet([sh]) && Rederived(sh, n, r)
      ensures Rewritten(grammar, Erase(sh), Erase(Graft(sh, n, r)))
    {
      hide Rewritten, Distinct, Graft, Erase, Derives, Find;
      GraftRewrites(grammar, sh, n, r);
    }

    /** Makes `node` a copy of the current sample's tree. */
    method CopyCurrent(node: TreeNode, ghost sh: Shape) returns (ghost nsh: Shape)
      requires Valid() && IsTree(node, sh) && IdSet([sh]) !! IdSet(pool.shapes)
      modifies IdSet([sh])
      ensures Valid() && Owned(node, nsh) && (forall x :: x in IdSet([nsh]) ==> x in IdSet([sh]) || fresh(x))
      ensures IsCurrent(Erase(nsh))
    {
      hide Linked, Distinct, IdSet, Derives, Erase, WellFormed, IdConsistent;
      ghost var k :| 0 <= k < |pool.trees| && pool.trees[k] == currentSample;
      LinkedAt(pool.shapes, k);
      assert allocated(IdSet([sh])) && allocated(IdSet(pool.shapes)) && allocated(IdSet([pool.shapes[k]]));
      nsh := node.Assign(currentSample, sh, pool.shapes[k]);
      OpenTree(nsh);
      OpenTree(sh);
    }

    lemma RemixedDerives(sh: Shape, n: TreeNode, r: Shape, mix: Mix)
      requires n in IdSet([sh]) && Derives(grammar, ROOT, Erase(sh)) && RemixedBy(sh, n, r, mix)
      ensures Rederived(sh, n, r) && Remixed(sh, n, r)
    {
      var t := Find([sh], n);
      hide IdSet, Find, Derives, Mixed;
      EraseNode(t);
      FoundDerives(grammar, ROOT, sh, n);
      RemixDerives(grammar, Erase(t), mix.at, mix.end, mix.more);
    }

    method FindCandidates(tree: TreeNode, ghost sh: Shape)
      requires Valid() && Owned(tree, sh)
      modifies `candidates, `repeatCandidates
      ensures candidates == Select(grammar, AnyNode(), [sh], 0, 1.0)
      ensures repeatCandidates == Select(grammar, RepeatNode(), [sh], 0, 1.0)
    {
      hide Linked, Distinct, IdSet, Derives, Erase, Select, WellFormed, IdConsistent, TreePool.Valid;
      SoundTreeIsKnown(grammar, sh);
      assert allocated(IdSet([sh]));
      candidates := GetMutationCandidates(candidates, tree, Search(None, false, MAX_DEPTH, mutationFalloff), 0, 1.0, sh);
      repeatCandidates :=
        GetMutationCandidates(repeatCandidates, tree, Search(None, true, MAX_DEPTH, mutationFalloff), 0, 1.0, sh);
    }

    /** One attempt of one of the four mutators. */
    method MutateOnce(tree: TreeNode, prng: PRNG, ghost sh: Shape)
        returns (success: bool, ghost nsh: Shape, ghost n: TreeNode, ghost r: Shape)
      requires Valid() && Owned(tree, sh) && prng.Valid()
      modifies prng`next, `candidates, `repeatCandidates, `spliceCandidates, IdSet([sh])
      ensures Valid() && prng.Valid() && Owned(tree, nsh) && (forall x :: x in IdSet([nsh]) ==> x in IdSet([sh]) || fresh(x))
      ensures !success ==> nsh == sh
      ensures success ==>
        && n in IdSet([sh]) && nsh == Graft(sh, n, r) && r.id == n && Rederived(sh, n, r)
        && (Regenerated(sh, n, r) || Donated(Find([sh], n).text, r) || Remixed(sh, n, r))
      ensures pool.shapes != []
      ensures (if success then Some(Edit(n, Erase(r))) else None, prng.Rest())
              == AttemptBy(grammar, mutationFalloff, pool.shapes, sh, old(prng.Rest()))
    {
      DonorsExist();
      hide Linked, Distinct, IdSet, Derives, Erase, WellFormed, IdConsistent, TreePool.Valid, Select, Find;
      hide Unit, GrammarMutator.Valid, AnyNode, RepeatNode;
      hide Regenerated, Donated, RemixedBy, Rederived, Grown, Borrowed, Graft, AttemptBy;
      hide GrammarMutator.Remixed;
      assert allocated(IdSet([sh])) && allocated(IdSet(pool.shapes));
      FindCandidates(tree, sh);
      assert allocated(IdSet([sh])) && allocated(IdSet(pool.shapes));
      success, nsh, n, r := MutateOneOf(tree, prng, sh);
    }

    /** One of the four mutators, as the next draw says. */
    method MutateOneOf(tree: TreeNode, prng: PRNG, ghost sh: Shape)
        returns (success: bool, ghost nsh: Shape, ghost n: TreeNode, ghost r: Shape)
      requires Valid() && Owned(tree, sh) && prng.Valid() && pool.shapes != []
      requires candidates == Select(grammar, AnyNode(), [sh], 0, 1.0)
      requires repeatCandidates == Select(grammar, RepeatNode(), [sh], 0, 1.0)
      modifies prng`next, `spliceCandidates, IdSet([sh])
      ensures Valid() && prng.Valid() && Owned(tree, nsh) && (forall x :: x in IdSet([nsh]) ==> x in IdSet([sh]) || fresh(x))
      ensures !success ==> nsh == sh
      ensures success ==>
        && n in IdSet([sh]) && nsh == Graft(sh, n, r) && r.id == n && Rederived(sh, n, r)
        && (Regenerated(sh, n, r) || Donated(Find([sh], n).text, r) || Remixed(sh, n, r))
      ensures (if success then Some(Edit(n, Erase(r))) else None, prng.Rest())
              == AttemptBy(grammar, mutationFalloff, pool.shapes, sh, old(prng.Rest()))
    {
      hide Linked, Distinct, IdSet, Derives, Erase, WellFormed, IdConsistent, TreePool.Valid, Select, Find;
      hide ReplaceBy, SpliceBy, RegrowBy, MixBy, Unit, GrammarMutator.Valid, AnyNode, RepeatNode;
      hide Regenerated, Donated, RemixedBy, Rederived, Grown, Borrowed, Graft, AttemptBy;
      hide GrammarMutator.Remixed;
      AttemptCases(sh, prng.Rest());
      assert allocated(IdSet([sh])) && allocated(IdSet(pool.shapes));
      var choice := prng.RandReal();
      if choice < 0.5 {
        success, nsh, n, r := MutateNode(choice, tree, prng, sh);
      } else {
        success, nsh, n, r := MutateChildren(choice, tree, prng, sh);
      }
    }

    lemma AttemptCases(sh: Shape, draws: seq<nat>)
      requires Valid() && pool.shapes != []
      ensures WellFormed(grammar) && mutationFalloff > 0.0
      ensures var choice, rest := Unit(First(draws)), Later(draws);
              AttemptBy(grammar, mutationFalloff, pool.shapes, sh, draws)
              == if choice < 0.5 then
                   if choice < 0.3 then ReplaceBy(grammar, mutationFalloff, sh, rest)
                   else SpliceBy(grammar, mutationFalloff, pool.shapes, sh, rest)
                 else if choice < 0.8 then RegrowBy(grammar, mutationFalloff, sh, rest)
                 else MixBy(grammar, mutationFalloff, pool.shapes, sh, rest)
    {
      hide WellFormed, ReplaceBy, SpliceBy, RegrowBy, MixBy, Unit, TreePool.Valid;
    }

    /** One of the two mutators that exchange a subtree. */
    method MutateNode(choice: real, tree: TreeNode, prng: PRNG, ghost sh: Shape)
        returns (success: bool, ghost nsh: Shape, ghost n: TreeNode, ghost r: Shape)
      requires Valid() && Owned(tree, sh) && prng.Valid() && pool.shapes != []
      requires candidates == Select(grammar, AnyNode(), [sh], 0, 1.0)
      modifies prng`next, `spliceCandidates, IdSet([sh])
      ensures Valid() && prng.Valid() && Owned(tree, nsh) && (forall x :: x in IdSet([nsh]) ==> x in IdSet([sh]) || fresh(x))
      ensures !success ==> nsh == sh
      ensures success ==>
        && n in IdSet([sh]) && nsh == Graft(sh, n, r) && r.id == n && Rederived(sh, n, r)
        && (Regenerated(sh, n, r) || Donated(Find([sh], n).text, r))
      ensures (if success then Some(Edit(n, Erase(r))) else None, prng.Rest())
              == if choice < 0.3 then ReplaceBy(grammar, mutationFalloff, sh, old(prng.Rest()))
                 else SpliceBy(grammar, mutationFalloff, pool.shapes, sh, old(prng.Rest()))
    {
      hide Linked, Distinct, IdSet, Derives, Erase, WellFormed, IdConsistent, TreePool.Valid, Select, Find;
      hide Regenerated, Donated, Rederived, Graft, ReplaceBy, SpliceBy;
      if choice < 0.3 {
        success, nsh, n, r := ReplaceNode(tree, prng, sh);
      } else {
        success, nsh, n, r := Splice(tree, prng, sh);
      }
    }

    /** One of the two mutators that exchange children of a repeat node. */
    method MutateChildren(choice: real, tree: TreeNode, prng: PRNG, ghost sh: Shape)
        returns (success: bool, ghost nsh: Shape, ghost n: TreeNode, ghost r: Shape)
      requires Valid() && Owned(tree, sh) && prng.Valid() && pool.shapes != []
      requires repeatCandidates == Select(grammar, RepeatNode(), [sh], 0, 1.0)
      modifies prng`next, `spliceCandidates, IdSet([sh])
      ensures Valid() && prng.Valid() && Owned(tree, nsh) && (forall x :: x in IdSet([nsh]) ==> x in IdSet([sh]) || fresh(x))
      ensures !success ==> nsh == sh
      ensures success ==>
        && n in IdSet([sh]) && nsh == Graft(sh, n, r) && r.id == n && Rederived(sh, n, r) && Remixed(sh, n, r)
      ensures (if success then Some(Edit(n, Erase(r))) else None, prng.Rest())
              == if choice < 0.8 then RegrowBy(grammar, mutationFalloff, sh, old(prng.Rest()))
                 else MixBy(grammar, mutationFalloff, pool.shapes, sh, old(prng.Rest()))
    {
      hide Linked, Distinct, IdSet, Derives, Erase, WellFormed, IdConsistent, TreePool.Valid, Select, Find;
      hide RemixedBy, Rederived, Grown, Borrowed, Graft, RegrowBy, MixBy, Remixed;
      ghost var mix;
      if choice < 0.8 {
        success, nsh, n, r, mix := RepeatMutator(tree, prng, sh);
      } else {
        success, nsh, n, r, mix := RepeatSplice(tree, prng, sh);
      }
      if success {
        RemixedDerives(sh, n, r, mix);
      }
    }
  }

  /** `t` is the repeat node `n` of the tree, and its place in the tree. */
  ghost predicate Gap(sh: Shape, n: TreeNode, t: Shape) {
    && n in IdSet([sh]) && t == Find([sh], n) && t.id == n && t.tag == SYMBOL
    && Outside([sh], n) !! IdSet([t]) && IdSet([t]) == {n} + IdSet(t.kids) && n !in IdSet(t.kids)
    && IdSet([sh]) == Outside([sh], n) + IdSet([t])
  }

  /** A live node that holds `t`. */
  ghost predicate Opened(n: TreeNode, t: Shape)
    reads n, IdSet(t.kids)
  {
    n.live && n.tag == t.tag && n.text == t.text && AreTrees(n.children, t.kids)
  }

  lemma GapParts(sh: Shape, n: TreeNode, t: Shape)
    requires Gap(sh, n, t)
    ensures n in IdSet([sh]) && t.id == n && n !in IdSet(t.kids) && IdSet(t.kids) <= IdSet([sh])
    ensures Outside([sh], n) <= IdSet([sh]) && Outside([sh], n) !! IdSet(t.kids) && n !in Outside([sh], n)
  {
  }

  /** The children after deleting those from `at` to `k` and inserting `more` one place
      after the gap, or at the end. */
  function Mixed<T>(kids: seq<T>, at: nat, k: nat, more: seq<T>): seq<T>
    requires at <= k <= |kids|
  {
    var rest := kids[..at] + kids[k..];
    var i := if at < |rest| then at + 1 else at;
    rest[..i] + more + rest[i..]
  }

  /** The children from `at` to `end` are deleted, and `more` inserted. */
  datatype Mix = Mix(at: nat, end: nat, more: seq<Value>)

  ghost predicate IsStretch(kids: seq<Value>, from: nat, more: seq<Value>) {
    from + |more| <= |kids| && more == kids[from..from + |more|]
  }

  lemma EraseStretch(f: seq<Shape>, from: nat, more: seq<Shape>)
    requires from + |more| <= |f| && EraseAll(more) == EraseAll(f[from..from + |more|])
    ensures IsStretch(EraseAll(f), from, EraseAll(more)) && EraseAll(more) == EraseAll(f)[from..from + |more|]
  {
  }

  lemma NothingCopied(kids: seq<Shape>, from: nat)
    requires from <= |kids|
    ensures EraseAll<TreeNode>([]) == EraseAll(kids[from..from])
  {
  }

  lemma OneMoreCopied(kids: seq<Shape>, from: nat, f: seq<Shape>, csh: Shape)
    requires from + |f| < |kids| && EraseAll(f) == EraseAll(kids[from..from + |f|])
    requires Erase(csh) == Erase(kids[from + |f|])
    ensures EraseAll(f + [csh]) == EraseAll(kids[from..from + |f| + 1])
  {
    hide Erase;
    EraseConcat(f, [csh]);
    EraseConcat(kids[from..from + |f|], [kids[from + |f|]]);
    assert kids[from..from + |f| + 1] == kids[from..from + |f|] + [kids[from + |f|]];
  }

  lemma GapIsFound(sh: Shape, n: TreeNode, t: Shape)
    requires Gap(sh, n, t)
    ensures n in IdSet([sh]) && t == Find([sh], n)
  {
  }

  ghost predicate IsRemix(g: Grammar, t: Value, at: nat, k: nat, more: seq<Value>) {
    && at <= k <= |t.kids| && t.text in g && g[t.text].repeat
    && forall i :: 0 <= i < |more| ==> Derives(g, g[t.text].repeatSymbol, more[i])
  }

  lemma RemixOf<Id>(g: Grammar, t: Tree<Id>, at: nat, k: nat, more: seq<Value>)
    requires at <= k <= |t.kids| && t.text in g && g[t.text].repeat
    requires forall i :: 0 <= i < |more| ==> Derives(g, g[t.text].repeatSymbol, more[i])
    ensures IsRemix(g, Erase(t), at, k, more)
  {
  }

  function Remix(t: Value, at: nat, k: nat, more: seq<Value>): Value
    requires at <= k <= |t.kids|
  {
    t.(kids := Mixed(t.kids, at, k, more))
  }

  lemma GeneratedAllDerive(g: Grammar, symbol: string, depth: nat, f: seq<Shape>)
    requires IdConsistent(g) && forall i :: 0 <= i < |f| ==> Generated(g, symbol, depth, Erase(f[i]))
    ensures forall i :: 0 <= i < |EraseAll(f)| ==> Derives(g, symbol, EraseAll(f)[i])
  {
    forall i | 0 <= i < |f| ensures Derives(g, symbol, EraseAll(f)[i]) {
      GeneratedDerives(g, symbol, depth, Erase(f[i]));
    }
  }

  lemma RemixDerives(g: Grammar, t: Value, at: nat, k: nat, more: seq<Value>)
    requires IsRemix(g, t, at, k, more) && Derives(g, t.text, t)
    ensures Derives(g, t.text, Remix(t, at, k, more))
  {
    var kids := Remix(t, at, k, more).kids;
    forall i | 0 <= i < |kids| ensures Derives(g, g[t.text].repeatSymbol, kids[i]) {
      assert kids[i] in t.kids || kids[i] in more;
    }
  }

  lemma MixedInMemory(n: TreeNode, kids: seq<Shape>, at: nat, k: nat, kept: seq<Shape>, more: seq<Shape>)
    requires at <= k <= |kids| && kept == kids[..at] + kids[k..]
    requires IdSet(kept) <= IdSet(kids) && IdSet(kept) !! IdSet(more)
    requires var i := if at != |kept| then at + 1 else at;
      AreTrees(n.children, kept[..i] + more + kept[i..])
    ensures AreTrees(n.children, Mixed(kids, at, k, more))
    ensures IdSet(Mixed(kids, at, k, more)) <= IdSet(kids) + IdSet(more)
  {
    hide Linked, Distinct, IdSet;
    var i := if at != |kept| then at + 1 else at;
    assert kept == kept[..i] + kept[i..];
    IdSetConcat(kept[..i], kept[i..]);
    IdSetConcat(kept[..i], more);
    IdSetConcat(kept[..i] + more, kept[i..]);
  }

  /** Memory and grammar after an edit of the children of the repeat node `n`. */
  lemma Remade(g: Grammar, sh: Shape, n: TreeNode, t: Shape, at: nat, k: nat, more: seq<Shape>)
    requires Distinct([sh]) && LinkedExcept([sh], n) && Gap(sh, n, t) && IdSet([sh]) !! IdSet(more)
    requires n.live && n.tag == t.tag && n.text == t.text
    requires at <= k <= |t.kids| && AreTrees(n.children, Mixed(t.kids, at, k, more))
    requires IdSet(Mixed(t.kids, at, k, more)) <= IdSet(t.kids) + IdSet(more)
    requires Derives(g, ROOT, Erase(sh)) && IsRemix(g, Erase(t), at, k, EraseAll(more))
    ensures var r := t.(kids := Mixed(t.kids, at, k, more));
      && IsTree(sh.id, Graft(sh, n, r)) && Derives(g, ROOT, Erase(Graft(sh, n, r)))
      && IdSet([Graft(sh, n, r)]) <= IdSet([sh]) + IdSet(more)
      && Erase(r) == Remix(Erase(t), at, k, EraseAll(more))
  {
    hide Linked, LinkedExcept, Distinct, IdSet, Outside, Find, Derives, Erase, Graft, Mixed, IsRemix;
    var r := t.(kids := Mixed(t.kids, at, k, more));
    RepeatNodeInMemory(n, t, r.kids);
    FoundDerives(g, ROOT, sh, n);
    EraseNode(t);
    EraseNode(r);
    MixedErase(t.kids, at, k, more);
    RemixDerives(g, Erase(t), at, k, EraseAll(more));
    Grafted(g, ROOT, sh, n, r);
  }

  lemma MixedErase(f: seq<Shape>, at: nat, k: nat, more: seq<Shape>)
    requires at <= k <= |f|
    ensures EraseAll(Mixed(f, at, k, more)) == Mixed(EraseAll(f), at, k, EraseAll(more))
  {
    var rest := f[..at] + f[k..];
    var i := if at < |rest| then at + 1 else at;
    var erased := EraseAll(f)[..at] + EraseAll(f)[k..];
    assert EraseAll(rest) == erased;
    assert EraseAll(rest[..i]) == erased[..i] && EraseAll(rest[i..]) == erased[i..];
    EraseConcat(rest[..i], more);
    EraseConcat(rest[..i] + more, rest[i..]);
  }

  lemma SelectedFacts<Id>(g: Grammar, s: Search, f: seq<Tree<Id>>, found: seq<Candidate<Id>>)
    requires s.falloff > 0.0 && Distinct(f) && found == Select(g, s, f, 0, 1.0)
    ensures forall i :: 0 <= i < |found| ==>
      && found[i].p > 0.0 && found[i].depth <= s.maxDepth
      && found[i].node in IdSet(f)
      && Find(f, found[i].node).tag != STRING && Wanted(g, s, Find(f, found[i].node).text)
  {
    forall i | 0 <= i < |found|
      ensures found[i].p > 0.0 && found[i].depth <= s.maxDepth
      ensures found[i].node in IdSet(f)
      ensures Find(f, found[i].node).tag != STRING && Wanted(g, s, Find(f, found[i].node).text)
    {
      SelectedIsWanted(g, s, f, 0, 1.0, found[i]);
    }
  }

  /** The root of a sample is always a candidate. */
  lemma RootSelected<Id>(g: Grammar, s: Search, t: Tree<Id>)
    requires s.falloff > 0.0 && s.filter.None? && !s.justRepeat && t.tag != STRING
    ensures Select(g, s, [t], 0, 1.0) != []
  {
    SelectNode(g, s, t, 0, 1.0, Lowered(1.0, s.falloff));
  }

  lemma {:induction false} FindInTree<Id>(f: seq<Tree<Id>>, k: nat, n: Id)
    requires Distinct(f) && k < |f| && n in IdSet([f[k]])
    ensures n in IdSet(f) && Find(f, n) == Find([f[k]], n)
  {
    IdSetOne(f[k]);
    if k == 0 {
      assert [f[0]][1..] == [];
    } else {
      FindInTree(f[1..], k - 1, n);
    }
  }

  lemma DonorKidsDerive(g: Grammar, text: string, osh: Shape, from: nat, copies: seq<Value>)
    requires Derives(g, text, Erase(osh)) && text in g && g[text].repeat && from + |copies| <= |osh.kids|
    requires copies == EraseAll(osh.kids[from..from + |copies|])
    ensures forall i :: 0 <= i < |copies| ==> Derives(g, g[text].repeatSymbol, copies[i])
  {
    hide Derives, Erase;
    forall i | 0 <= i < |copies| ensures Derives(g, g[text].repeatSymbol, copies[i]) {
      RepeatKidDerives(g, text, osh, from + i);
      assert osh.kids[from..from + |copies|][i] == osh.kids[from + i];
    }
  }

  lemma RepeatKidDerives<Id>(g: Grammar, text: string, t: Tree<Id>, i: nat)
    requires Derives(g, text, Erase(t)) && g[text].repeat && i < |t.kids|
    ensures Derives(g, g[text].repeatSymbol, Erase(t.kids[i]))
  {
    assert Erase(t).kids[i] == Erase(t.kids[i]);
  }

  lemma SoundTreeIsKnown<Id>(g: Grammar, t: Tree<Id>)
    requires Derives(g, ROOT, Erase(t))
    ensures Known(g, [t])
  {
    SoundIsKnown(g, [t]);
  }

  lemma DerivesIsSymbol<Id>(g: Grammar, root: string, t: Tree<Id>)
    requires Derives(g, root, Erase(t))
    ensures t.tag == SYMBOL && t.text == root && root in g
  {
  }

  lemma FoundIsTree(sh: Shape, n: TreeNode)
    requires Linked([sh]) && Distinct([sh]) && n in IdSet([sh])
    ensures IsTree(n, Find([sh], n))
  {
    IdsAround([sh], n);
    CutLinked([sh], n);
    FindDistinct([sh], n);
  }

  lemma FoundDerives<Id>(g: Grammar, root: string, sh: Tree<Id>, n: Id)
    requires Derives(g, root, Erase(sh)) && n in IdSet([sh]) && Find([sh], n).tag != STRING
    ensures Derives(g, Find([sh], n).text, Erase(Find([sh], n)))
  {
    FindSound(g, [sh], n);
  }

  lemma KnownOne<Id>(g: Grammar, t: Tree<Id>)
    requires Known(g, [t])
    ensures (t.tag != STRING ==> t.text in g) && Known(g, t.kids)
  {
  }

  lemma {:induction false} KnownAt<Id>(g: Grammar, f: seq<Tree<Id>>, i: nat)
    requires Known(g, f) && i < |f|
    ensures Known(g, [f[i]])
  {
    if i == 0 {
      assert [f[0]][1..] == [];
    } else {
      KnownAt(g, f[1..], i - 1);
    }
  }

  lemma SelectNode<Id>(g: Grammar, s: Search, t: Tree<Id>, depth: nat, p: real, q: real)
    requires s.falloff > 0.0 && q == Lowered(p, s.falloff)
    ensures Select(g, s, [t], depth, p) ==
      if depth > s.maxDepth || t.tag == STRING then []
      else (if Wanted(g, s, t.text) then [Candidate(t.id, depth, p)] else []) + Select(g, s, t.kids, depth + 1, q)
  {
    assert [t][1..] == [];
  }

  lemma SelectNothing<Id>(own: seq<Candidate<Id>>, g: Grammar, s: Search, f: seq<Tree<Id>>, depth: nat, p: real)
    requires s.falloff > 0.0
    ensures own == own + Select(g, s, f[..0], depth, p)
  {
  }

  lemma Associates<T>(a: seq<T>, b: seq<T>, c: seq<T>)
    ensures a + b + c == a + (b + c) && a + [] == a
  {
  }

  lemma SelectTerminal<Id>(g: Grammar, s: Search, t: Tree<Id>, depth: nat, p: real)
    requires s.falloff > 0.0 && t.tag == STRING
    ensures Select(g, s, [t], depth, p) == []
  {
    assert [t][1..] == [];
  }

  lemma SelectExtends<Id>(own: seq<Candidate<Id>>, g: Grammar, s: Search, f: seq<Tree<Id>>, depth: nat, p: real, i: nat)
    requires s.falloff > 0.0 && i < |f|
    ensures own + Select(g, s, f[..i], depth, p) + Select(g, s, [f[i]], depth, p) == own + Select(g, s, f[..i + 1], depth, p)
  {
    hide Select;
    SelectConcat(g, s, f[..i], [f[i]], depth, p);
    assert f[..i + 1] == f[..i] + [f[i]];
  }
}
