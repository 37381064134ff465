/** Which cuts the grammar minimizer tries, and in which order, on values
    (mutators/grammar/grammarminimizer.cpp). */
module Attempts {
  import opened Trees
  import opened Grammars
  import opened Pruning

  /** A cut to try: at the node at this place in preorder, of the child at this position.
      A node that loses all children is tried at position 0. */
  datatype Attempt = Attempt(place: nat, pos: nat)

  /** How many cuts are tried at a node of that symbol that has `n` children to try. */
  function TriesOf(g: Grammar, name: string, n: nat): nat {
    if name in g && g[name].repeat then n else if n > 0 then 1 else 0
  }

  function AttemptsAt(place: nat, n: nat): (a: seq<Attempt>)
    ensures |a| == n
  {
    seq(n, pos requires 0 <= pos < n => Attempt(place, pos))
  }

  /** All cuts to try, in preorder; the minimizer takes them from the end. */
  function AttemptsOf<Id>(g: Grammar, f: seq<Tree<Id>>, base: nat): seq<Attempt> {
    if f == [] then []
    else AttemptsIn(g, f[0], base) + AttemptsOf(g, f[1..], base + 1 + |Ids(f[0].kids)|)
  }

  function AttemptsIn<Id>(g: Grammar, t: Tree<Id>, base: nat): seq<Attempt> {
    if t.tag == STRING then []
    else AttemptsAt(base, Width(g, t)) + AttemptsOf(g, t.kids, base + 1)
  }

  function Width<Id>(g: Grammar, t: Tree<Id>): nat {
    if IsCandidate(g, t) then TriesOf(g, t.text, |t.kids|) else 0
  }

  /** The forest after the cut. */
  function CutAt(g: Grammar, f: seq<Value>, a: Attempt): (r: seq<Value>)
    ensures |r| == |f|
    decreases f
  {
    if f == [] then []
    else
      var t, inside := f[0], |Ids(f[0].kids)|;
      if a.place == 0 then [if CanCut(g, t, a.pos) then Pruned(g, t, a.pos) else t] + f[1..]
      else if a.place <= inside then [t.(kids := CutAt(g, t.kids, Attempt(a.place - 1, a.pos)))] + f[1..]
      else [t] + CutAt(g, f[1..], Attempt(a.place - 1 - inside, a.pos))
  }

  // ---------- What is tried ----------

  /** The node at a place in preorder. */
  function NodeAt<Id>(f: seq<Tree<Id>>, k: nat): Tree<Id>
    requires k < |Ids(f)|
  {
    var inside := |Ids(f[0].kids)|;
    if k == 0 then f[0] else if k <= inside then NodeAt(f[0].kids, k - 1) else NodeAt(f[1..], k - 1 - inside)
  }

  lemma TriesAreCuts<Id>(g: Grammar, t: Tree<Id>, place: nat, a: Attempt)
    ensures a in AttemptsAt(place, Width(g, t)) <==> a.place == place && CanCut(g, t, a.pos)
  {
    var tries := AttemptsAt(place, Width(g, t));
    if a.place == place && CanCut(g, t, a.pos) {
      assert tries[a.pos] == a;
    }
  }

  /** Exactly the cuts that the grammar allows are tried. */
  lemma {:induction false} AttemptsAreCuts<Id>(g: Grammar, f: seq<Tree<Id>>, base: nat, a: Attempt)
    requires StringsAreLeaves(f)
    ensures a in AttemptsOf(g, f, base)
            <==> base <= a.place < base + |Ids(f)| && CanCut(g, NodeAt(f, a.place - base), a.pos)
  {
    hide CanCut, Width, AttemptsAt;
    if f != [] {
      var t, inside := f[0], |Ids(f[0].kids)|;
      TriesAreCuts(g, t, base, a);
      AttemptsAreCuts(g, t.kids, base + 1, a);
      AttemptsAreCuts(g, f[1..], base + 1 + inside, a);
      StringsCannotLose(g, t, a.pos);
    }
  }

  lemma StringsCannotLose<Id>(g: Grammar, t: Tree<Id>, pos: nat)
    ensures t.tag == STRING ==> !CanCut(g, t, pos)
  {
  }

  /** At places from `lo` up to `hi`, by place and then by position, each once. */
  ghost predicate InOrder(tries: seq<Attempt>, lo: nat, hi: nat) {
    && (forall i :: 0 <= i < |tries| ==> lo <= tries[i].place < hi)
    && forall i, j :: 0 <= i < j < |tries| ==>
         tries[i].place < tries[j].place || (tries[i].place == tries[j].place && tries[i].pos < tries[j].pos)
  }

  lemma InOrderConcat(a: seq<Attempt>, b: seq<Attempt>, lo: nat, mid: nat, hi: nat)
    requires InOrder(a, lo, mid) && InOrder(b, mid, hi) && lo <= mid <= hi
    ensures InOrder(a + b, lo, hi)
  {
  }

  /** The attempts are listed in preorder, and by position at one node. */
  lemma {:induction false} AttemptsInOrder<Id>(g: Grammar, f: seq<Tree<Id>>, base: nat)
    ensures InOrder(AttemptsOf(g, f, base), base, base + |Ids(f)|)
  {
    hide InOrder, AttemptsIn;
    if f == [] {
      TriesInOrder(base, 0, base);
    } else {
      var next := base + 1 + |Ids(f[0].kids)|;
      assert AttemptsOf(g, f, base) == AttemptsIn(g, f[0], base) + AttemptsOf(g, f[1..], next);
      assert |Ids(f)| == 1 + |Ids(f[0].kids)| + |Ids(f[1..])|;
      hide AttemptsOf, Ids;
      AttemptsInOrder(g, f[0].kids, base + 1);
      AttemptsInOrder(g, f[1..], next);
      NodeInOrder(g, f[0], base);
      InOrderConcat(AttemptsIn(g, f[0], base), AttemptsOf(g, f[1..], next), base, next, base + |Ids(f)|);
    }
  }

  lemma NodeInOrder<Id>(g: Grammar, t: Tree<Id>, base: nat)
    requires InOrder(AttemptsOf(g, t.kids, base + 1), base + 1, base + 1 + |Ids(t.kids)|)
    ensures InOrder(AttemptsIn(g, t, base), base, base + 1 + |Ids(t.kids)|)
  {
    hide InOrder, Width, AttemptsAt, AttemptsOf, Ids;
    var next := base + 1 + |Ids(t.kids)|;
    TriesInOrder(base, Width(g, t), next);
    if t.tag != STRING {
      InOrderConcat(AttemptsAt(base, Width(g, t)), AttemptsOf(g, t.kids, base + 1), base, base + 1, next);
    }
  }

  lemma TriesInOrder(base: nat, n: nat, hi: nat)
    ensures InOrder(AttemptsAt(base, n), base, base + 1) && InOrder([], base, hi)
  {
  }

  // ---------- Candidate by candidate ----------

  /** How many cuts are tried at each candidate. */
  function Widths<Id>(g: Grammar, f: seq<Tree<Id>>): seq<nat> {
    if f == [] then [] else WidthsIn(g, f[0]) + Widths(g, f[1..])
  }

  function WidthsIn<Id>(g: Grammar, t: Tree<Id>): seq<nat> {
    if t.tag == STRING then []
    else (if IsCandidate(g, t) then [Width(g, t)] else []) + Widths(g, t.kids)
  }

  function AllAttempts(at: seq<nat>, widths: seq<nat>): seq<Attempt>
    requires |at| == |widths|
  {
    if at == [] then []
    else AllAttempts(at[..|at| - 1], widths[..|at| - 1]) + AttemptsAt(at[|at| - 1], widths[|at| - 1])
  }

  lemma {:induction false} AllAttemptsConcat(at: seq<nat>, widths: seq<nat>, at': seq<nat>, widths': seq<nat>)
    requires |at| == |widths| && |at'| == |widths'|
    ensures AllAttempts(at + at', widths + widths') == AllAttempts(at, widths) + AllAttempts(at', widths')
    decreases |at'|
  {
    if at' == [] {
      assert at + at' == at && widths + widths' == widths;
    } else {
      var n := |at'| - 1;
      AllAttemptsConcat(at, widths, at'[..n], widths'[..n]);
      AllAttemptsLast(at', widths');
      AllAttemptsLast(at + at', widths + widths');
      hide AllAttempts;
      assert (at + at')[..|at| + n] == at + at'[..n] && (widths + widths')[..|at| + n] == widths + widths'[..n];
      var a, b, c := AllAttempts(at, widths), AllAttempts(at'[..n], widths'[..n]), AttemptsAt(at'[n], widths'[n]);
      assert (a + b) + c == a + (b + c);
    }
  }

  lemma AllAttemptsLast(at: seq<nat>, widths: seq<nat>)
    requires |at| == |widths| && at != []
    ensures var n := |at| - 1;
            AllAttempts(at, widths) == AllAttempts(at[..n], widths[..n]) + AttemptsAt(at[n], widths[n])
  {
  }

  lemma {:induction false} AttemptsAreAll<Id>(g: Grammar, f: seq<Tree<Id>>, base: nat)
    ensures |Positions(g, f, base)| == |Widths(g, f)| == |Candidates(g, f)|
    ensures AttemptsOf(g, f, base) == AllAttempts(Positions(g, f, base), Widths(g, f))
  {
    if f != [] {
      hide IsCandidate, Width;
      var next := base + 1 + |Ids(f[0].kids)|;
      AttemptsAreAll(g, f[1..], next);
      AttemptsAreAllIn(g, f[0], base);
      AllAttemptsConcat(PositionsAt(g, f[0], base), WidthsIn(g, f[0]), Positions(g, f[1..], next), Widths(g, f[1..]));
    }
  }

  lemma {:induction false} AttemptsAreAllIn<Id>(g: Grammar, t: Tree<Id>, base: nat)
    ensures |PositionsAt(g, t, base)| == |WidthsIn(g, t)| == |CandidatesAt(g, t)|
    ensures AttemptsIn(g, t, base) == AllAttempts(PositionsAt(g, t, base), WidthsIn(g, t))
  {
    if t.tag != STRING {
      AttemptsAreAll(g, t.kids, base + 1);
      var own, width := if IsCandidate(g, t) then [base] else [], if IsCandidate(g, t) then [Width(g, t)] else [];
      assert AllAttempts(own, width) == AttemptsAt(base, Width(g, t)) by {
        if own != [] {
          assert own[..0] == [] && width[..0] == [];
        }
      }
      AllAttemptsConcat(own, width, Positions(g, t.kids, base + 1), Widths(g, t.kids));
    }
  }

  /** The attempts depend on symbols and texts only. */
  lemma {:induction false} AttemptsErase<Id>(g: Grammar, f: seq<Tree<Id>>, base: nat)
    ensures AttemptsOf(g, EraseAll(f), base) == AttemptsOf(g, f, base)
  {
    if f != [] {
      var t := f[0];
      EraseCons(f);
      IdsErase(t.kids);
      AttemptsErase(g, t.kids, base + 1);
      AttemptsErase(g, f[1..], base + 1 + |Ids(t.kids)|);
      assert EraseAll(f)[1..] == EraseAll(f[1..]);
    }
  }

  lemma {:induction false} IdsErase<Id>(f: seq<Tree<Id>>)
    ensures |Ids(EraseAll(f))| == |Ids(f)|
  {
    if f != [] {
      EraseCons(f);
      IdsErase(f[0].kids);
      IdsErase(f[1..]);
      assert EraseAll(f)[1..] == EraseAll(f[1..]);
    }
  }

  /** For one tree, in terms of the grammar: any child of a repeat node, and all children of a
      node whose symbol has an empty rule. */
  lemma AttemptsAre<Id>(g: Grammar, t: Tree<Id>, a: Attempt)
    requires StringsAreLeaves([t])
    ensures a in AttemptsOf(g, [t], 0)
            <==> a.place < |Ids([t])|
                 && var n := NodeAt([t], a.place);
                    n.tag != STRING && n.text in g
                    && if g[n.text].repeat then a.pos < |n.kids| else g[n.text].canBeEmpty && n.kids != [] && a.pos == 0
  {
    AttemptsAreCuts(g, [t], 0, a);
    hide AttemptsOf, Ids, NodeAt;
  }

  /** The cut takes those children off the node at its place, which stays where it is. */
  lemma {:induction false} CutAtIs(g: Grammar, f: seq<Value>, a: Attempt)
    requires a.place < |Ids(f)| && CanCut(g, NodeAt(f, a.place), a.pos)
    ensures var n, h := NodeAt(f, a.place), CutAt(g, f, a);
            && a.place < |Ids(h)|
            && NodeAt(h, a.place)
               == n.(kids := if g[n.text].repeat then n.kids[..a.pos] + n.kids[a.pos + 1..] else [])
    decreases f
  {
    var t, rest := f[0], f[1..];
    var inside := |Ids(t.kids)|;
    assert f == [t] + rest && |Ids(f)| == 1 + inside + |Ids(rest)|;
    if a.place == 0 {
      CutAtFirst(g, t, rest, a.pos);
    } else if a.place <= inside {
      CutAtInside(g, t, rest, a);
      CutAtIs(g, t.kids, Attempt(a.place - 1, a.pos));
      hide CanCut, CutAt;
      FirstNode(t.(kids := CutAt(g, t.kids, Attempt(a.place - 1, a.pos))), rest, a.place);
    } else {
      CutAtAfter(g, t, rest, a);
      CutAtIs(g, rest, Attempt(a.place - 1 - inside, a.pos));
      hide CanCut, CutAt;
      LaterNode(t, CutAt(g, rest, Attempt(a.place - 1 - inside, a.pos)), a.place);
    }
  }

  lemma FirstNode<Id>(t: Tree<Id>, rest: seq<Tree<Id>>, k: nat)
    requires 0 < k <= |Ids(t.kids)|
    ensures k < |Ids([t] + rest)| && NodeAt([t] + rest, k) == NodeAt(t.kids, k - 1)
  {
    assert ([t] + rest)[0] == t && ([t] + rest)[1..] == rest;
  }

  lemma LaterNode<Id>(t: Tree<Id>, rest: seq<Tree<Id>>, k: nat)
    requires |Ids(t.kids)| < k && k - 1 - |Ids(t.kids)| < |Ids(rest)|
    ensures k < |Ids([t] + rest)| && NodeAt([t] + rest, k) == NodeAt(rest, k - 1 - |Ids(t.kids)|)
  {
    assert ([t] + rest)[0] == t && ([t] + rest)[1..] == rest;
  }

  lemma CutAtFirst(g: Grammar, t: Value, rest: seq<Value>, pos: nat)
    requires CanCut(g, t, pos)
    ensures CutAt(g, [t] + rest, Attempt(0, pos)) == [Pruned(g, t, pos)] + rest
  {
  }

  lemma CutAtInside(g: Grammar, t: Value, rest: seq<Value>, a: Attempt)
    requires 0 < a.place <= |Ids(t.kids)|
    ensures CutAt(g, [t] + rest, a) == [t.(kids := CutAt(g, t.kids, Attempt(a.place - 1, a.pos)))] + rest
  {
    hide Ids;
    var f := [t] + rest;
    assert f[0] == t && f[1..] == rest;
  }

  lemma CutAtAfter(g: Grammar, t: Value, rest: seq<Value>, a: Attempt)
    requires a.place > |Ids(t.kids)|
    ensures CutAt(g, [t] + rest, a) == [t] + CutAt(g, rest, Attempt(a.place - 1 - |Ids(t.kids)|, a.pos))
  {
    hide Ids;
    var f := [t] + rest;
    assert f[0] == t && f[1..] == rest;
  }

  /** Pruning the node at a place is, without the identities, the cut there. */
  lemma {:induction false} CutAtErases<Id>(g: Grammar, f: seq<Tree<Id>>, n: Id, a: Attempt)
    requires Distinct(f) && a.place < |Ids(f)| && Ids(f)[a.place] == n
    requires n in IdSet(f) && CanCut(g, Find(f, n), a.pos)
    ensures CutAt(g, EraseAll(f), a) == EraseAll(Subst(f, n, Pruned(g, Find(f, n), a.pos)))
  {
    var t, rest := f[0], f[1..];
    var inside, r := |Ids(t.kids)|, Pruned(g, Find(f, n), a.pos);
    var e := Node((), t.tag, t.text, EraseAll(t.kids));
    hide Pruned, CanCut, Erase, EraseAll, CutAt;
    EraseCons(f);
    EraseCons(Subst(f, n, r));
    IdsErase(t.kids);
    IdsListIdSet(t.kids, n);
    IdsListIdSet(rest, n);
    assert Subst(f, n, r)[1..] == Subst(rest, n, r);
    if a.place == 0 {
      SubstAbsent(rest, n, r);
      EraseNode(t);
      EraseNode(r);
      PrunedErases(g, t, a.pos);
      CutAtFirst(g, e, EraseAll(rest), a.pos);
    } else if a.place <= inside {
      assert Ids(f)[a.place] == Ids(t.kids)[a.place - 1];
      SubstAbsent(rest, n, r);
      CutAtErases(g, t.kids, n, Attempt(a.place - 1, a.pos));
      CutAtInside(g, e, EraseAll(rest), a);
    } else {
      assert Ids(f)[a.place] == Ids(rest)[a.place - 1 - inside];
      SubstAbsent(t.kids, n, r);
      CutAtErases(g, rest, n, Attempt(a.place - 1 - inside, a.pos));
      CutAtAfter(g, e, EraseAll(rest), a);
    }
  }

  // ---------- What is left to try ----------

  /** What is left when `left` cuts are left at candidate `i` and none behind it was tried. */
  function Todo(at: seq<nat>, widths: seq<nat>, i: int, left: nat): seq<Attempt>
    requires |at| == |widths| && i < |at|
  {
    if i < 0 then [] else AllAttempts(at[..i], widths[..i]) + AttemptsAt(at[i], left)
  }

  lemma TodoFromStart(at: seq<nat>, widths: seq<nat>)
    requires |at| == |widths|
    ensures AllAttempts(at, widths) == Todo(at, widths, |at| - 1, if at == [] then 0 else widths[|at| - 1])
  {
  }

  /** Nothing left at a candidate: on to the one before it. */
  lemma TodoBefore(at: seq<nat>, widths: seq<nat>, i: nat)
    requires |at| == |widths| && i < |at|
    ensures Todo(at, widths, i, 0) == if i == 0 then [] else Todo(at, widths, i - 1, widths[i - 1])
  {
    if i > 0 {
      assert at[..i][..i - 1] == at[..i - 1] && widths[..i][..i - 1] == widths[..i - 1];
    }
  }

  lemma TodoLast(at: seq<nat>, widths: seq<nat>, i: nat, left: nat)
    requires |at| == |widths| && i < |at| && left > 0
    ensures Todo(at, widths, i, left) == Todo(at, widths, i, left - 1) + [Attempt(at[i], left - 1)]
  {
    assert AttemptsAt(at[i], left) == AttemptsAt(at[i], left - 1) + [Attempt(at[i], left - 1)];
  }
}
