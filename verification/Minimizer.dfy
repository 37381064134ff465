/** The grammar minimizer (mutators/grammar/grammarminimizer.cpp) and the loop that
    drives it (fuzzer.cpp, MinimizeSample).

    The context keeps plain pointers into the tree it is cutting nodes out of.
    `Consistent` says why that is safe: the candidates that are still to be visited
    stand, in preorder, in the tree as it is now.  Cutting below one of them cannot
    remove it or an earlier one, and later ones are never looked at again. */
module Minimizer {
  import opened Wrappers
  import opened Trees
  import opened Grammars
  import opened TreeNodes
  import opened Codec
  import opened Serializer
  import opened Pruning
  import opened Attempts
  import opened Coverages

  class GrammarMinimizerContext {
    var tree: TreeNode
    var minimizationCandidates: seq<TreeNode>
    var removedChildren: seq<TreeNode>
    var currentCandidate: int       // -1 stands for (size_t)-1, no candidate left
    var currentCandidatePos: nat
    var numModesInitial: nat
    var numModesRemoved: nat

    ghost var shape: Shape          // the tree as it is
    ghost var removed: seq<Shape>   // what the last step cut off and nobody reported on yet
    ghost var at: seq<nat>          // where the candidates stand in preorder
    ghost var widths: seq<nat>      // how many cuts each candidate had at the start

    constructor (tree: TreeNode, ghost shape: Shape)
      ensures this.tree == tree && this.shape == shape
      ensures minimizationCandidates == [] && removedChildren == [] && removed == []
      ensures currentCandidate == -1 && currentCandidatePos == 0 && numModesInitial == 0 && numModesRemoved == 0
    {
      this.tree, this.shape := tree, shape;
      minimizationCandidates, removedChildren, removed, at, widths := [], [], [], [], [];
      currentCandidate, currentCandidatePos, numModesInitial, numModesRemoved := -1, 0, 0, 0;
    }

    ghost predicate HasCurrent()
      reads this
    {
      0 <= currentCandidate < |minimizationCandidates|
    }

    ghost function Current(): TreeNode
      requires HasCurrent()
      reads this
    {
      minimizationCandidates[currentCandidate]
    }
  }

  /** From candidate `i`, of which the first `left` children are still to be tried: the last
      candidate up to there that has children to try, and how many. */
  ghost function NextFrom(candidates: seq<TreeNode>, i: int, left: nat): Option<(nat, nat)>
    requires i < |candidates|
    reads candidates
    decreases i + 1
  {
    if i < 0 then None
    else if left > 0 then Some((i, left))
    else if i == 0 then None
    else NextFrom(candidates, i - 1, |candidates[i - 1].children|)
  }

  /** Candidates are consumed from the end: what is passed over has nothing to try. */
  lemma {:induction false} NextFromIsLast(candidates: seq<TreeNode>, i: nat, left: nat)
    requires i < |candidates|
    ensures match NextFrom(candidates, i, left)
            case None => left == 0 && forall k :: 0 <= k < i ==> candidates[k].children == []
            case Some((j, n)) =>
              && j <= i && 0 < n == (if j == i then left else |candidates[j].children|)
              && (j < i ==> left == 0 && forall k :: j < k < i ==> candidates[k].children == [])
    decreases i
  {
    if left == 0 && i > 0 {
      NextFromIsLast(candidates, i - 1, |candidates[i - 1].children|);
    }
  }

  /** `size_t` of an `int`. */
  function ToSize(i: int): int {
    if i < 0 then i + SIZE_LIMIT else i
  }

  class GrammarMinimizer {
    const grammar: Grammar
    const minimizationLimit: int

    constructor (grammar: Grammar, minimizationLimit: int)
      ensures this.grammar == grammar && this.minimizationLimit == minimizationLimit
    {
      this.grammar, this.minimizationLimit := grammar, minimizationLimit;
    }

    ghost predicate Consistent(c: GrammarMinimizerContext)
      reads c, IdSet([c.shape]), IdSet(c.removed)
    {
      && Steady(c)
      && c.removedChildren == Roots(c.removed)
      && Linked(c.removed) && Distinct(c.removed) && IdSet(c.removed) !! IdSet([c.shape])
      && c.numModesInitial == c.numModesRemoved + Count([c.shape]) + Count(c.removed)
    }

    /** The part of `Consistent` that does not speak of removed children. */
    ghost predicate Steady(c: GrammarMinimizerContext)
      reads c`tree, c`shape, c`minimizationCandidates, c`at, c`widths, c`currentCandidate, c`currentCandidatePos
      reads IdSet([c.shape])
    {
      && IsTree(c.tree, c.shape)
      && Encodable(grammar, [c.shape]) && |Yield([c.shape])| < SIZE_LIMIT
      && Cursor(c)
    }

    /** The candidates up to the current one are in the tree, in preorder, and those before
        it have all their children. */
    ghost predicate Cursor(c: GrammarMinimizerContext)
      reads c`shape, c`minimizationCandidates, c`at, c`widths, c`currentCandidate, c`currentCandidatePos
      reads IdSet([c.shape])
    {
      && -1 <= c.currentCandidate < |c.minimizationCandidates| == |c.at|
      && Increasing(c.at)
      && Present(c, c.currentCandidate)
      && Untouched(c, c.currentCandidate)
      && (c.currentCandidate >= 0 ==>
           c.currentCandidatePos <= |c.minimizationCandidates[c.currentCandidate].children|)
    }

    /** The candidates up to `k` are prunable nodes of the tree. */
    ghost predicate Present(c: GrammarMinimizerContext, k: int)
      reads c`shape, c`minimizationCandidates, c`at, IdSet([c.shape])
    {
      && k < |c.minimizationCandidates| == |c.at|
      && forall i :: 0 <= i <= k ==>
           && c.at[i] < |Ids([c.shape])| && Ids([c.shape])[c.at[i]] == c.minimizationCandidates[i]
           && c.minimizationCandidates[i] in IdSet([c.shape])
           && c.minimizationCandidates[i].tag != STRING
           && Prunable(grammar, c.minimizationCandidates[i].text)
    }

    /** The candidates before `k` have as many cuts to try as at the start. */
    ghost predicate Untouched(c: GrammarMinimizerContext, k: int)
      reads c`shape, c`minimizationCandidates, c`widths, IdSet([c.shape])
    {
      && k < |c.minimizationCandidates| == |c.widths|
      && forall i :: 0 <= i < k ==>
           && c.minimizationCandidates[i] in IdSet([c.shape])
           && c.widths[i] == TriesAt(c.minimizationCandidates[i])
    }

    /** How many cuts a node has to try. */
    ghost function TriesAt(n: TreeNode): nat
      reads n
    {
      TriesOf(grammar, n.text, |n.children|)
    }

    /** The cuts that are left to try; the last of them is the next. */
    ghost function ToTry(c: GrammarMinimizerContext): seq<Attempt>
      reads c`minimizationCandidates, c`at, c`widths, c`currentCandidate, c`currentCandidatePos
      reads c.minimizationCandidates
    {
      if 0 <= c.currentCandidate < |c.minimizationCandidates| == |c.at| == |c.widths| then
        var n := c.minimizationCandidates[c.currentCandidate];
        Todo(c.at, c.widths, c.currentCandidate, TriesOf(grammar, n.text, c.currentCandidatePos))
      else []
    }

    method CreateContext(sample: string) returns (c: GrammarMinimizerContext)
      requires Readable(grammar, sample)
      ensures fresh(c) && fresh(IdSet([c.shape])) && Consistent(c) && c.removed == []
      ensures DecodeSample(grammar, sample) == Some(Erase(c.shape))
      ensures c.minimizationCandidates == Candidates(grammar, [c.shape])
      ensures c.currentCandidate == |c.minimizationCandidates| - 1
      ensures c.HasCurrent() ==> c.currentCandidatePos == |c.Current().children|
      ensures c.numModesInitial == Count([c.shape]) && c.numModesRemoved == 0
      ensures ToTry(c) == AttemptsOf(grammar, [c.shape], 0)
    {
      ReadableDecodes(grammar, sample);
      hide *;
      var tree, f := DecodeSampleTree(grammar, sample);
      ghost var sh := f[0];
      assert f == [sh];
      InitialTree(grammar, sample, sh);
      assert allocated(IdSet(f));
      c := new GrammarMinimizerContext(tree, sh);
      assert IsTree(c.tree, c.shape);
      FindCandidates(c);
    }

    /** Sets the cursor to the last candidate, with all of its children to try. */
    method FindCandidates(c: GrammarMinimizerContext)
      requires IsTree(c.tree, c.shape) && Encodable(grammar, [c.shape]) && |Yield([c.shape])| < SIZE_LIMIT
      requires c.minimizationCandidates == [] && c.removedChildren == [] && c.removed == []
      requires c.currentCandidatePos == 0 && c.numModesRemoved == 0
      modifies c
      ensures Consistent(c) && c.shape == old(c.shape) && c.removed == []
      ensures c.minimizationCandidates == Candidates(grammar, [c.shape])
      ensures c.currentCandidate == |c.minimizationCandidates| - 1
      ensures c.HasCurrent() ==> c.currentCandidatePos == |c.Current().children|
      ensures c.numModesInitial == Count([c.shape]) && c.numModesRemoved == 0
      ensures ToTry(c) == AttemptsOf(grammar, [c.shape], 0)
    {
      hide Linked, Distinct, Encodable, Yield, IdSet, Ids, Count, Prunable, Candidates, Positions, Located, Consistent;
      hide AttemptsOf, Widths, AllAttempts, Todo, TriesOf, ToTry;
      ghost var f := [c.shape];
      NoneYet(grammar, f);
      assert allocated(IdSet(f));
      GetMinimizationCandidates(c.tree, c, c.shape);
      c.at, c.widths := Positions(grammar, f, 0), Widths(grammar, f);
      InitialCandidates(grammar, f);
      StartAtLast(c);
      c.numModesInitial := c.tree.NumNodes(c.shape);
      WidthsInMemory(grammar, f);
      AttemptsAreAll(grammar, f, 0);
      StartsConsistent(c);
      EverythingToTry(c);
    }

    lemma EverythingToTry(c: GrammarMinimizerContext)
      requires |c.at| == |c.widths| == |c.minimizationCandidates| && c.currentCandidate == |c.minimizationCandidates| - 1
      requires c.HasCurrent() ==>
        c.currentCandidatePos == |c.Current().children| && c.widths[c.currentCandidate] == TriesAt(c.Current())
      ensures ToTry(c) == AllAttempts(c.at, c.widths)
    {
      hide TriesOf;
      TodoFromStart(c.at, c.widths);
    }

    method StartAtLast(c: GrammarMinimizerContext)
      requires c.currentCandidatePos == 0
      requires forall n :: n in c.minimizationCandidates ==> n.live
      modifies c`currentCandidate, c`currentCandidatePos
      ensures c.currentCandidate == |c.minimizationCandidates| - 1
      ensures c.currentCandidatePos
              == if c.currentCandidate >= 0 then |c.minimizationCandidates[c.currentCandidate].children| else 0
    {
      c.currentCandidate := |c.minimizationCandidates| - 1;
      if c.currentCandidate != -1 {
        c.currentCandidatePos := |c.minimizationCandidates[c.currentCandidate].Children()|;
      }
    }

    /** A context as `CreateContext` sets it up. */
    lemma StartsConsistent(c: GrammarMinimizerContext)
      requires IsTree(c.tree, c.shape) && c.removedChildren == [] && c.removed == []
      requires Encodable(grammar, [c.shape]) && |Yield([c.shape])| < SIZE_LIMIT
      requires c.numModesRemoved == 0 && c.numModesInitial == Count([c.shape])
      requires Located(c.minimizationCandidates, c.at, Ids([c.shape]), 0)
      requires |c.widths| == |c.minimizationCandidates|
      requires forall i :: 0 <= i < |c.widths| ==> c.widths[i] == TriesAt(c.minimizationCandidates[i])
      requires forall n :: n in c.minimizationCandidates ==>
        n in IdSet([c.shape]) && n.tag != STRING && Prunable(grammar, n.text)
      requires c.currentCandidate == |c.minimizationCandidates| - 1
      requires c.currentCandidate >= 0 ==>
        c.currentCandidatePos <= |c.minimizationCandidates[c.currentCandidate].children|
      ensures Consistent(c)
    {
      hide Linked, Distinct, Encodable, Yield, IdSet, Ids, Count, Prunable, TriesAt;
      NothingRemoved();
    }

    method GetMinimizationCandidates(tree: TreeNode, context: GrammarMinimizerContext, ghost sh: Shape)
      requires Linked([sh]) && sh.id == tree && Encodable(grammar, [sh])
      modifies context`minimizationCandidates
      ensures context.minimizationCandidates == old(context.minimizationCandidates) + Candidates(grammar, [sh])
      decreases sh
    {
      hide Linked, Encodable, Candidates;
      LinkedOne(sh);
      OneCandidate(grammar, sh);
      if tree.Tag() == STRING {
        return;
      }
      assert allocated(IdSet(sh.kids));
      if (grammar[tree.Text()].canBeEmpty || grammar[tree.Text()].repeat) && tree.Children() != [] {
        context.minimizationCandidates := context.minimizationCandidates + [tree];
      }
      ghost var own := context.minimizationCandidates;
      assert Linked(sh.kids);
      NoCandidatesYet(own, grammar, sh.kids);
      for i := 0 to |tree.Children()|
        invariant Linked(sh.kids)
        invariant context.minimizationCandidates == own + Candidates(grammar, sh.kids[..i])
      {
        LinkedAt(sh.kids, i);
        EncodableAt(grammar, sh.kids, i);
        assert allocated(IdSet(sh.kids));
        GetMinimizationCandidates(tree.Children()[i], context, sh.kids[i]);
        CandidatesExtend(own, grammar, sh.kids, i);
      }
      assert sh.kids[..|tree.children|] == sh.kids;
    }

    /** Cuts the next piece off the tree and writes the sample that is left; None when
        there is nothing more to try.  The node it writes to is alive, and the cursor
        moves towards the front. */
    method MinimizeStep(c: GrammarMinimizerContext) returns (sample: Option<string>)
      requires Consistent(c) && c.removed == []
      modifies c, IdSet([c.shape])
      ensures Consistent(c)
      ensures var next := old(NextFrom(c.minimizationCandidates, c.currentCandidate, c.currentCandidatePos));
              if old(c.numModesInitial - c.numModesRemoved) <= ToSize(minimizationLimit) || next.None?
              then sample.None? && c.shape == old(c.shape) && c.removed == []
              else sample.Some? && c.minimizationCandidates == old(c.minimizationCandidates)
                   && c.currentCandidate == next.value.0 && c.Current().text in grammar
                   && c.currentCandidatePos == if grammar[c.Current().text].repeat then next.value.1 - 1 else 0
      ensures sample.None? ==>
        || c.numModesInitial - c.numModesRemoved <= ToSize(minimizationLimit)
        || NextFrom(c.minimizationCandidates, c.currentCandidate, c.currentCandidatePos).None?
      ensures sample.Some? ==>
        && c.HasCurrent()
        && Cuts(grammar, old(c.shape), c.Current(), c.currentCandidatePos, c.shape, c.removed)
        && sample.value == EncodeSample(c.shape)
      ensures sample.Some? ==>
        || c.currentCandidate < old(c.currentCandidate)
        || (c.currentCandidate == old(c.currentCandidate) && c.currentCandidatePos < old(c.currentCandidatePos))
      ensures IdSet([c.shape]) + IdSet(c.removed) == old(IdSet([c.shape]))
      ensures c.minimizationCandidates == old(c.minimizationCandidates) && c.numModesInitial == old(c.numModesInitial)
      ensures sample.None? ==>
        old(c.numModesInitial - c.numModesRemoved) <= ToSize(minimizationLimit) || old(ToTry(c)) == []
      ensures sample.Some? ==>
        && old(c.numModesInitial - c.numModesRemoved) > ToSize(minimizationLimit)
        && Tried(old(ToTry(c)), ToTry(c), Ids([old(c.shape)]), c.Current(), c.currentCandidatePos)
    {
      hide Linked, Distinct, Encodable, Encode, Yield, IdSet, Ids, Count, Cuts, EncodeSample, Prunable;
      hide ToTry, Tried, Todo;
      NothingRemoved();
      if c.numModesInitial - c.numModesRemoved <= ToSize(minimizationLimit) {
        return None;
      }
      if c.currentCandidate == -1 {
        NothingToTry(c);
        return None;
      }
      var found := SkipExhausted(c);
      if !found {
        return None;
      }
      ghost var todo, ids, pos := ToTry(c), Ids([c.shape]), c.currentCandidatePos;
      ToTryIs(c);
      CurrentPlace(c);
      Cut(c);
      OneTried(todo, c, ids, pos);
      assert allocated(IdSet([c.shape])) && allocated(IdSet(c.removed));
      var written := EncodeSampleOf(c.tree, c.shape);
      sample := Some(written);
    }

    /** One attempt was taken off the end: at node `n` of the preorder `ids`, at `pos`. */
    ghost predicate Tried(before: seq<Attempt>, after: seq<Attempt>, ids: seq<TreeNode>, n: TreeNode, pos: nat) {
      && before != [] && after == before[..|before| - 1]
      && var a := before[|before| - 1];
         a.pos == pos && a.place < |ids| && ids[a.place] == n
    }

    lemma NothingToTry(c: GrammarMinimizerContext)
      requires !c.HasCurrent()
      ensures ToTry(c) == []
    {
    }

    /** Moves the cursor back to the last candidate that still has children to try. */
    method SkipExhausted(c: GrammarMinimizerContext) returns (found: bool)
      requires Consistent(c) && c.currentCandidate >= 0
      modifies c`currentCandidate, c`currentCandidatePos
      ensures Consistent(c)
      ensures found ==>
        && c.HasCurrent() && c.currentCandidatePos > 0
        && c.currentCandidate <= old(c.currentCandidate)
        && (c.currentCandidate == old(c.currentCandidate) ==> c.currentCandidatePos == old(c.currentCandidatePos))
      ensures old(NextFrom(c.minimizationCandidates, c.currentCandidate, c.currentCandidatePos))
              == if found then Some((c.currentCandidate, c.currentCandidatePos)) else None
      ensures !found ==> NextFrom(c.minimizationCandidates, c.currentCandidate, c.currentCandidatePos).None?
      ensures forall i :: 0 <= i <= old(c.currentCandidate) ==> c.minimizationCandidates[i].live
      ensures ToTry(c) == old(ToTry(c)) && (!found ==> ToTry(c) == [])
    {
      hide Linked, Distinct, Encodable, Yield, IdSet, Ids, Count, Prunable, Increasing, NextFrom, ToTry, TriesAt;
      ghost var k := c.currentCandidate;
      PresentAreLive(c, k);
      UntouchedWidths(c, k);
      hide Present, Untouched;
      assert allocated(IdSet([c.shape])) && allocated(IdSet(c.removed));
      found := StepBack(c);
      PresentBefore(c, k, c.currentCandidate);
    }

    lemma UntouchedWidths(c: GrammarMinimizerContext, k: int)
      requires Untouched(c, k)
      ensures |c.widths| == |c.minimizationCandidates|
      ensures forall i :: 0 <= i < k ==> c.widths[i] == TriesAt(c.minimizationCandidates[i])
    {
    }

    /** Every candidate that the loop looks at has to be alive. */
    method StepBack(c: GrammarMinimizerContext) returns (found: bool)
      requires c.HasCurrent() && c.currentCandidatePos <= |c.Current().children|
      requires forall i :: 0 <= i <= c.currentCandidate ==> c.minimizationCandidates[i].live
      requires |c.at| == |c.widths| == |c.minimizationCandidates|
      requires forall i :: 0 <= i < c.currentCandidate ==> c.widths[i] == TriesAt(c.minimizationCandidates[i])
      modifies c`currentCandidate, c`currentCandidatePos
      ensures found <==> c.HasCurrent()
      ensures found ==> 0 < c.currentCandidatePos <= |c.Current().children|
      ensures -1 <= c.currentCandidate <= old(c.currentCandidate)
      ensures c.currentCandidate == old(c.currentCandidate) ==> c.currentCandidatePos == old(c.currentCandidatePos)
      ensures old(NextFrom(c.minimizationCandidates, c.currentCandidate, c.currentCandidatePos))
              == if found then Some((c.currentCandidate, c.currentCandidatePos)) else None
      ensures !found ==> NextFrom(c.minimizationCandidates, c.currentCandidate, c.currentCandidatePos).None?
      ensures ToTry(c) == old(ToTry(c)) && (!found ==> ToTry(c) == [])
    {
      hide ToTry, TriesAt;
      while c.currentCandidatePos == 0
        invariant 0 <= c.currentCandidate <= old(c.currentCandidate)
        invariant c.currentCandidatePos <= |c.Current().children|
        invariant c.currentCandidate == old(c.currentCandidate) ==> c.currentCandidatePos == old(c.currentCandidatePos)
        invariant NextFrom(c.minimizationCandidates, c.currentCandidate, c.currentCandidatePos)
                  == old(NextFrom(c.minimizationCandidates, c.currentCandidate, c.currentCandidatePos))
        invariant ToTry(c) == old(ToTry(c))
        decreases c.currentCandidate
      {
        ToTryBefore(c);
        c.currentCandidate := c.currentCandidate - 1;
        if c.currentCandidate == -1 {
          NothingToTry(c);
          return false;
        }
        c.currentCandidatePos := |c.minimizationCandidates[c.currentCandidate].Children()|;
        ToTryAll(c);
      }
      found := true;
    }

    lemma ToTryBefore(c: GrammarMinimizerContext)
      requires c.HasCurrent() && c.currentCandidatePos == 0 && |c.at| == |c.widths| == |c.minimizationCandidates|
      ensures ToTry(c) == if c.currentCandidate == 0 then []
                          else Todo(c.at, c.widths, c.currentCandidate - 1, c.widths[c.currentCandidate - 1])
    {
      TodoBefore(c.at, c.widths, c.currentCandidate);
    }

    lemma ToTryAll(c: GrammarMinimizerContext)
      requires c.HasCurrent() && |c.at| == |c.widths| == |c.minimizationCandidates|
      requires c.currentCandidatePos == |c.Current().children|
      ensures ToTry(c) == Todo(c.at, c.widths, c.currentCandidate, TriesAt(c.Current()))
    {
    }

    lemma PresentBefore(c: GrammarMinimizerContext, k: int, j: int)
      requires Present(c, k) && Untouched(c, k) && j <= k
      ensures Present(c, j) && Untouched(c, j)
    {
    }

    lemma PresentAreLive(c: GrammarMinimizerContext, k: int)
      requires Present(c, k) && Linked([c.shape])
      ensures forall i :: 0 <= i <= k ==> c.minimizationCandidates[i].live
    {
      hide Linked, IdSet, Ids, Prunable;
      forall i | 0 <= i <= k
        ensures c.minimizationCandidates[i].live
      {
        LinkedIsLive([c.shape], c.minimizationCandidates[i]);
      }
    }

    /** Removes children of the current candidate, which is a live node of the tree. */
    method Cut(c: GrammarMinimizerContext)
      requires Consistent(c) && c.HasCurrent() && c.currentCandidatePos > 0 && c.removed == []
      modifies c, IdSet([c.shape])
      ensures Consistent(c)
      ensures c.minimizationCandidates == old(c.minimizationCandidates)
      ensures c.currentCandidate == old(c.currentCandidate) && c.currentCandidatePos < old(c.currentCandidatePos)
      ensures c.Current().text in grammar
      ensures c.currentCandidatePos == if grammar[c.Current().text].repeat then old(c.currentCandidatePos) - 1 else 0
      ensures c.HasCurrent() && Cuts(grammar, old(c.shape), c.Current(), c.currentCandidatePos, c.shape, c.removed)
      ensures IdSet([c.shape]) + IdSet(c.removed) == old(IdSet([c.shape]))
      ensures c.numModesInitial == old(c.numModesInitial)
      ensures c.at == old(c.at) && c.widths == old(c.widths) && c.Current().text == old(c.Current().text)
    {
      hide Linked, LinkedExcept, Distinct, Encodable, Yield, IdSet, Ids, Count, Outside, Find, Subst, Increasing;
      hide Cuts, TriesAt, Prunable, Consistent, IsCandidate;
      BeforeCut(c);
      ghost var before, n := c.shape, c.Current();
      ghost var t := Find([before], n);
      assert allocated(IdSet([before])) && allocated(Outside([before], n)) && allocated(IdSet(t.kids));
      var node := c.minimizationCandidates[c.currentCandidate];
      RemoveChildren(c, node, t);
      c.removed := Lost(grammar, t, c.currentCandidatePos);
      c.shape := Subst([before], n, Pruned(grammar, t, c.currentCandidatePos))[0];
      CutDone(c, before, n, t);
    }

    /** What `Cut` relies on. */
    lemma BeforeCut(c: GrammarMinimizerContext)
      requires Consistent(c) && c.HasCurrent() && c.currentCandidatePos > 0 && c.removed == []
      ensures IsTreeShape(c.tree, c.shape) && Encodable(grammar, [c.shape]) && |Yield([c.shape])| < SIZE_LIMIT
      ensures c.numModesInitial == c.numModesRemoved + Count([c.shape])
      ensures Increasing(c.at) && |c.at| == |c.widths| == |c.minimizationCandidates|
      ensures forall i :: 0 <= i <= c.currentCandidate ==>
        && c.at[i] < |Ids([c.shape])| && Ids([c.shape])[c.at[i]] == c.minimizationCandidates[i]
        && c.minimizationCandidates[i].tag != STRING && Prunable(grammar, c.minimizationCandidates[i].text)
        && c.minimizationCandidates[i] in IdSet([c.shape])
      ensures forall i :: 0 <= i < c.currentCandidate ==>
        c.widths[i] == TriesAt(c.minimizationCandidates[i]) && c.minimizationCandidates[i] != c.Current()
      ensures var n := c.Current();
              && n.text in grammar && n in IdSet([c.shape]) && LinkedExcept([c.shape], n) && n !in Outside([c.shape], n)
              && var t := Find([c.shape], n);
                 && Linked(t.kids) && n !in IdSet(t.kids) && IsCandidate(grammar, t) && c.currentCandidatePos <= |t.kids|
                 && n.live && n.tag == t.tag && n.text == t.text && n.children == Roots(t.kids)
    {
      hide Linked, LinkedExcept, Distinct, Encodable, Yield, IdSet, Ids, Count, Outside, Find, Increasing, TriesAt;
      FoundInMemory(c.shape, c.Current());
      NothingRemoved();
      EarlierDiffer(c);
    }

    /** A candidate before the current one is another node. */
    lemma EarlierDiffer(c: GrammarMinimizerContext)
      requires Present(c, c.currentCandidate) && Increasing(c.at) && Distinct([c.shape])
      ensures forall i :: 0 <= i < c.currentCandidate ==> c.minimizationCandidates[i] != c.Current()
    {
      hide Distinct, IdSet, Ids, Prunable;
      var k := c.currentCandidate;
      forall i | 0 <= i < k
        ensures c.minimizationCandidates[i] != c.Current()
      {
        if c.minimizationCandidates[i] == c.Current() {
          PositionOf([c.shape], c.Current(), c.at[i]);
          PositionOf([c.shape], c.Current(), c.at[k]);
        }
      }
    }

    lemma CurrentPlace(c: GrammarMinimizerContext)
      requires Consistent(c) && c.HasCurrent()
      ensures |c.at| == |c.widths| == |c.minimizationCandidates|
      ensures c.at[c.currentCandidate] < |Ids([c.shape])| && Ids([c.shape])[c.at[c.currentCandidate]] == c.Current()
      ensures c.Current() in IdSet([c.shape])
    {
    }

    /** A cut at the current candidate, as `Cut` counts it. */
    lemma OneTried(before: seq<Attempt>, c: GrammarMinimizerContext, ids: seq<TreeNode>, pos: nat)
      requires c.HasCurrent() && |c.at| == |c.widths| == |c.minimizationCandidates|
      requires c.at[c.currentCandidate] < |ids| && ids[c.at[c.currentCandidate]] == c.Current()
      requires c.Current().text in grammar && pos > 0
      requires before == Todo(c.at, c.widths, c.currentCandidate, TriesOf(grammar, c.Current().text, pos))
      requires c.currentCandidatePos == if grammar[c.Current().text].repeat then pos - 1 else 0
      ensures Tried(before, ToTry(c), ids, c.Current(), c.currentCandidatePos)
    {
      hide Todo;
      TodoLast(c.at, c.widths, c.currentCandidate, TriesOf(grammar, c.Current().text, pos));
    }

    lemma ToTryIs(c: GrammarMinimizerContext)
      requires c.HasCurrent() && |c.at| == |c.widths| == |c.minimizationCandidates|
      ensures ToTry(c) == Todo(c.at, c.widths, c.currentCandidate, TriesOf(grammar, c.Current().text, c.currentCandidatePos))
    {
    }

    /** All children, or the one at the next position, move from the node to the context. */
    method RemoveChildren(c: GrammarMinimizerContext, node: TreeNode, ghost t: Shape)
      requires node.live && IsCandidate(grammar, t) && node.text == t.text && node.children == Roots(t.kids)
      requires 0 < c.currentCandidatePos <= |t.kids|
      modifies c`currentCandidatePos, c`removedChildren, node`children
      ensures c.currentCandidatePos < old(c.currentCandidatePos) && CanCut(grammar, t, c.currentCandidatePos)
      ensures c.currentCandidatePos == if grammar[node.text].repeat then old(c.currentCandidatePos) - 1 else 0
      ensures node.children == Roots(Kept(grammar, t, c.currentCandidatePos))
      ensures c.removedChildren == Roots(Lost(grammar, t, c.currentCandidatePos))
    {
      c.removedChildren := [];
      if grammar[node.Text()].repeat {
        c.currentCandidatePos := c.currentCandidatePos - 1;
        c.removedChildren := [node.Children()[c.currentCandidatePos]];
        node.SetChildren(node.Children()[..c.currentCandidatePos] + node.Children()[c.currentCandidatePos + 1..]);
      } else {
        c.removedChildren := node.Children();
        node.SetChildren([]);
        c.currentCandidatePos := 0;
      }
    }

    /** Memory and context after the edit of `Cut`. */
    lemma CutDone(c: GrammarMinimizerContext, before: Shape, n: TreeNode, t: Shape)
      requires n in IdSet([before]) && t == Find([before], n) && CanCut(grammar, t, c.currentCandidatePos)
      requires IsTreeShape(c.tree, before) && Encodable(grammar, [before]) && |Yield([before])| < SIZE_LIMIT
      requires c.numModesInitial == c.numModesRemoved + Count([before])
      requires c.HasCurrent() && c.Current() == n && |c.at| == |c.minimizationCandidates| && Increasing(c.at)
      requires forall i :: 0 <= i <= c.currentCandidate ==>
        && c.at[i] < |Ids([before])| && Ids([before])[c.at[i]] == c.minimizationCandidates[i]
        && c.minimizationCandidates[i].tag != STRING
        && Prunable(grammar, c.minimizationCandidates[i].text)
      requires |c.widths| == |c.at| && forall i :: 0 <= i < c.currentCandidate ==>
        c.widths[i] == TriesAt(c.minimizationCandidates[i])
      requires LinkedExcept([before], n) && Linked(t.kids)
      requires n.live && n.tag == t.tag && n.text == t.text && n.children == Roots(Kept(grammar, t, c.currentCandidatePos))
      requires c.removed == Lost(grammar, t, c.currentCandidatePos) && c.removedChildren == Roots(c.removed)
      requires c.shape == Subst([before], n, Pruned(grammar, t, c.currentCandidatePos))[0]
      ensures Consistent(c)
      ensures Cuts(grammar, before, n, c.currentCandidatePos, c.shape, c.removed)
      ensures IdSet([c.shape]) + IdSet(c.removed) == IdSet([before])
    {
      hide Linked, LinkedExcept, Distinct, Encodable, Encode, Yield, IdSet, Ids, Count, Outside, Find, Subst;
      hide Increasing, Prunable, Cursor, TriesAt;
      var pos := c.currentCandidatePos;
      var p := Pruned(grammar, t, pos);
      assert [c.shape] == Subst([before], n, p);
      assert Cuts(grammar, before, n, pos, c.shape, c.removed);
      hide Cuts, Kept, Lost;
      IdsAround([before], n);
      CutInMemory(grammar, before, n, pos, c.shape, c.removed);
      CutParts(grammar, before, n, pos, c.shape, c.removed);
      CutEncodable(grammar, before, n, pos, c.shape, c.removed);
      CursorKept(c, before, p);
    }

    /** Replacing the subtree at the current candidate keeps the cursor meaningful. */
    lemma CursorKept(c: GrammarMinimizerContext, before: Shape, r: Shape)
      requires c.HasCurrent() && c.currentCandidatePos <= |c.Current().children|
      requires Distinct([before]) && r.id == c.Current()
      requires [c.shape] == Subst([before], c.Current(), r)
      requires |c.at| == |c.minimizationCandidates| && Increasing(c.at)
      requires forall i :: 0 <= i <= c.currentCandidate ==>
        && c.at[i] < |Ids([before])| && Ids([before])[c.at[i]] == c.minimizationCandidates[i]
        && c.minimizationCandidates[i].tag != STRING
        && Prunable(grammar, c.minimizationCandidates[i].text)
      requires |c.widths| == |c.at| && forall i :: 0 <= i < c.currentCandidate ==>
        c.widths[i] == TriesAt(c.minimizationCandidates[i])
      ensures Cursor(c)
    {
      hide Ids, IdSet, Distinct, Subst, Prunable, TriesAt;
      var k := c.currentCandidate;
      PrefixKept([before], c.Current(), r, c.at[k]);
      forall i | 0 <= i <= k
        ensures c.at[i] < |Ids([c.shape])| && Ids([c.shape])[c.at[i]] == c.minimizationCandidates[i]
        ensures c.minimizationCandidates[i] in IdSet([c.shape])
      {
        assert c.at[i] <= c.at[k];
        assert Ids([c.shape])[c.at[i]] == Ids([c.shape])[..c.at[k] + 1][c.at[i]];
        assert Ids([before])[c.at[i]] == Ids([before])[..c.at[k] + 1][c.at[i]];
        IdsListIdSet([c.shape], c.minimizationCandidates[i]);
      }
    }

    /** The target still behaves: what was cut off is freed for good. */
    method ReportSuccess(c: GrammarMinimizerContext)
      requires Consistent(c)
      modifies c, IdSet(c.removed)
      ensures Consistent(c) && c.shape == old(c.shape) && c.removed == []
      ensures c.currentCandidate == old(c.currentCandidate) && c.currentCandidatePos == old(c.currentCandidatePos)
      ensures c.minimizationCandidates == old(c.minimizationCandidates) && c.numModesInitial == old(c.numModesInitial)
      ensures ToTry(c) == old(ToTry(c))
      ensures forall x :: x in old(IdSet(c.removed)) ==> !x.live
    {
      hide Linked, Distinct, Encodable, Yield, IdSet, Ids, Count, Cursor, Todo;
      NothingRemoved();
      CurrentInTree(c);
      assert allocated(IdSet([c.shape])) && allocated(IdSet(c.removed));
      FreeRemoved(c);
      c.removedChildren := [];
      c.removed := [];
    }

    /** Counts and deletes the children cut off. */
    method FreeRemoved(c: GrammarMinimizerContext)
      requires c.removedChildren == Roots(c.removed) && Linked(c.removed) && Distinct(c.removed)
      modifies c`numModesRemoved, IdSet(c.removed)
      ensures c.numModesRemoved == old(c.numModesRemoved) + Count(c.removed)
      ensures forall x :: x in IdSet(c.removed) ==> !x.live
    {
      hide Linked, Distinct, IdSet, Count;
      NothingRemoved();
      ghost var rest, gone := c.removed, IdSet(c.removed);
      assert allocated(gone);
      for i := 0 to |c.removedChildren|
        invariant rest == c.removed[i..] && Linked(rest) && Distinct(rest) && IdSet(rest) <= gone
        invariant c.numModesRemoved + Count(rest) == old(c.numModesRemoved) + Count(c.removed)
        invariant forall x :: x in gone && x !in IdSet(rest) ==> !x.live
      {
        FirstTree(rest);
        CountFirst(rest);
        assert allocated(IdSet(rest)) && allocated(IdSet(rest[1..]));
        var child := c.removedChildren[i];
        var k := child.NumNodes(rest[0]);
        c.numModesRemoved := c.numModesRemoved + k;
        child.Delete(rest[0]);
        rest := rest[1..];
      }
    }

    lemma CurrentInTree(c: GrammarMinimizerContext)
      requires Consistent(c)
      ensures c.HasCurrent() ==> c.Current() in IdSet([c.shape])
    {
    }

    /** The target behaves differently: what the last step cut off goes back where it
        was, and the tree is the one the step started from. */
    method ReportFail(c: GrammarMinimizerContext, ghost before: Shape)
      requires Consistent(c) && c.HasCurrent()
      requires Cuts(grammar, before, c.Current(), c.currentCandidatePos, c.shape, c.removed)
      requires Distinct([before]) && Encodable(grammar, [before]) && |Yield([before])| < SIZE_LIMIT
      modifies c, c.Current()
      ensures Consistent(c) && c.removed == [] && c.shape == before
      ensures c.currentCandidate == old(c.currentCandidate) && c.currentCandidatePos == old(c.currentCandidatePos)
      ensures c.minimizationCandidates == old(c.minimizationCandidates)
      ensures c.numModesInitial == old(c.numModesInitial) && c.numModesRemoved == old(c.numModesRemoved)
      ensures ToTry(c) == old(ToTry(c))
    {
      hide Linked, LinkedExcept, Distinct, Encodable, Yield, IdSet, Ids, Count, Outside, Find, Subst, Increasing, Prunable, Cuts;
      ghost var after, n, pos := c.shape, c.Current(), c.currentCandidatePos;
      ghost var t := Find([after], n);
      CutUndone(grammar, before, n, pos, after, c.removed);
      CutParts(grammar, before, n, pos, after, c.removed);
      FoundInMemory(after, n);
      EarlierDiffer(c);
      UntouchedWidths(c, c.currentCandidate);
      hide TriesAt, Todo;
      assert allocated(IdSet([after])) && allocated(Outside([after], n)) && allocated(IdSet(t.kids));
      assert allocated(IdSet(c.removed));
      var node := c.minimizationCandidates[c.currentCandidate];
      assert node.live;
      node.SetChildren(
        node.Children()[..c.currentCandidatePos] + c.removedChildren + node.Children()[c.currentCandidatePos..]);
      UndoInMemory(before, after, n, c.removed, pos);
      c.removedChildren := [];
      c.removed := [];
      c.shape := before;
      CursorKept(c, after, PutBack(t, old(c.removed), pos));
      NothingRemoved();
    }
  }

  /** Memory after an undo. */
  lemma UndoInMemory(before: Shape, after: Shape, n: TreeNode, lost: seq<Shape>, pos: nat)
    requires n in IdSet([after]) && pos <= |Find([after], n).kids|
    requires Subst([after], n, PutBack(Find([after], n), lost, pos)) == [before]
    requires LinkedExcept([after], n) && Linked(Find([after], n).kids) && Linked(lost)
    requires n.live && n.tag == Find([after], n).tag && n.text == Find([after], n).text
    requires n.children == Roots(Find([after], n).kids)[..pos] + Roots(lost) + Roots(Find([after], n).kids)[pos..]
    ensures Linked([before])
  {
    hide LinkedExcept, Linked, IdSet, Subst, Find;
    var t := Find([after], n);
    var q := PutBack(t, lost, pos);
    KidsPutBack(t.kids, lost, pos);
    IdsAround([after], n);
    hide Roots;
    LinkedOne(q);
    PasteLinked([after], n, q);
  }

  lemma KidsPutBack(kids: seq<Shape>, lost: seq<Shape>, pos: nat)
    requires pos <= |kids| && Linked(kids) && Linked(lost)
    ensures Linked(kids[..pos] + lost + kids[pos..])
    ensures Roots(kids[..pos] + lost + kids[pos..]) == Roots(kids)[..pos] + Roots(lost) + Roots(kids)[pos..]
  {
    hide Linked;
    assert kids == kids[..pos] + kids[pos..];
    LinkedConcat(kids[..pos], kids[pos..]);
    LinkedConcat(kids[..pos], lost);
    LinkedConcat(kids[..pos] + lost, kids[pos..]);
  }

  /** What `IsTree` says apart from memory. */
  ghost predicate IsTreeShape(n: TreeNode, sh: Shape) {
    sh.id == n && Distinct([sh])
  }

  /** Memory after a cut: the rest of the tree, and the pieces cut off. */
  lemma CutInMemory(g: Grammar, before: Shape, n: TreeNode, pos: nat, after: Shape, lost: seq<Shape>)
    requires Distinct([before]) && Cuts(g, before, n, pos, after, lost)
    requires LinkedExcept([before], n) && Linked(Find([before], n).kids)
    requires n.live && n.tag == Find([before], n).tag && n.text == Find([before], n).text
    requires n.children == Roots(Kept(g, Find([before], n), pos))
    ensures Linked([after]) && Linked(lost)
  {
    hide LinkedExcept, Distinct, IdSet, Subst, Find, Outside;
    var t := Find([before], n);
    var p := Pruned(g, t, pos);
    if g[t.text].repeat {
      assert t.kids == t.kids[..pos] + (lost + t.kids[pos + 1..]);
      LinkedConcat(t.kids[..pos], lost + t.kids[pos + 1..]);
      LinkedConcat(lost, t.kids[pos + 1..]);
      LinkedConcat(t.kids[..pos], t.kids[pos + 1..]);
    }
    IdsAround([before], n);
    LinkedOne(p);
    PasteLinked([before], n, p);
  }

  lemma CountFirst(f: seq<Shape>)
    requires f != []
    ensures Count(f) == Count([f[0]]) + Count(f[1..])
  {
    assert [f[0]][1..] == [];
  }

  lemma NothingRemoved()
    ensures Linked([]) && Distinct<TreeNode>([]) && IdSet<TreeNode>([]) == {} && Count<TreeNode>([]) == 0
  {
  }

  /** What a decoded sample promises of the tree in memory. */
  lemma ReadableDecodes(g: Grammar, sample: string)
    requires Readable(g, sample)
    ensures DecodeSample(g, sample).Some?
  {
  }

  lemma InitialTree(g: Grammar, sample: string, sh: Shape)
    requires Readable(g, sample) && DecodeSample(g, sample) == Some(Erase(sh))
    ensures Encodable(g, [sh]) && |Yield([sh])| < SIZE_LIMIT
  {
    assert EraseAll([sh]) == [Erase(sh)];
    EncodableErase(g, [sh]);
    YieldErase([sh]);
  }

  /** To begin with, every candidate is a prunable node of the tree. */
  lemma InitialCandidates(g: Grammar, f: seq<Shape>)
    requires Linked(f) && Distinct(f)
    ensures Located(Candidates(g, f), Positions(g, f, 0), Ids(f), 0)
    ensures forall n :: n in Candidates(g, f) ==> n in IdSet(f) && n.live && n.tag != STRING && Prunable(g, n.text)
  {
    hide Linked, Distinct, IdSet, Ids, Candidates, Positions;
    CandidatesInPreorder(g, f, 0);
    forall n | n in Candidates(g, f)
      ensures n in IdSet(f) && n.live && n.tag != STRING && Prunable(g, n.text)
    {
      CandidatesArePrunable(g, f, n);
      CutLinked(f, n);
      IdsAround(f, n);
      LinkedOne(Find(f, n));
    }
  }

  ghost predicate AreWidths(g: Grammar, nodes: seq<TreeNode>, widths: seq<nat>)
    reads nodes
  {
    |widths| == |nodes| && forall i :: 0 <= i < |widths| ==> widths[i] == TriesOf(g, nodes[i].text, |nodes[i].children|)
  }

  lemma AreWidthsConcat(g: Grammar, nodes: seq<TreeNode>, widths: seq<nat>, more: seq<TreeNode>, others: seq<nat>)
    requires AreWidths(g, nodes, widths) && AreWidths(g, more, others)
    ensures AreWidths(g, nodes + more, widths + others)
  {
    hide TriesOf;
  }

  lemma {:induction false} WidthsInMemory(g: Grammar, f: seq<Shape>)
    requires Linked(f)
    ensures AreWidths(g, Candidates(g, f), Widths(g, f))
  {
    hide AreWidths, TriesOf, IsCandidate;
    NoWidths(g);
    if f != [] {
      var t := f[0];
      WidthsInMemory(g, t.kids);
      WidthsInMemory(g, f[1..]);
      if t.tag != STRING {
        OneWidth(g, t);
        var own, width := if IsCandidate(g, t) then [t.id] else [], if IsCandidate(g, t) then [Width(g, t)] else [];
        AreWidthsConcat(g, own, width, Candidates(g, t.kids), Widths(g, t.kids));
      }
      AreWidthsConcat(g, CandidatesAt(g, t), WidthsIn(g, t), Candidates(g, f[1..]), Widths(g, f[1..]));
    }
  }

  lemma NoWidths(g: Grammar)
    ensures AreWidths(g, [], [])
  {
  }

  lemma OneWidth(g: Grammar, t: Shape)
    requires t.id.text == t.text && t.id.children == Roots(t.kids)
    ensures IsCandidate(g, t) ==> AreWidths(g, [t.id], [Width(g, t)])
  {
  }

  lemma OneCandidate<Id>(g: Grammar, t: Tree<Id>)
    requires Encodable(g, [t])
    ensures Candidates(g, [t]) == CandidatesAt(g, t)
    ensures t.tag != STRING ==> t.text in g
    ensures Encodable(g, t.kids)
  {
    assert [t][1..] == [];
  }

  lemma NoneYet<Id>(g: Grammar, f: seq<Tree<Id>>)
    ensures [] + Candidates(g, f) == Candidates(g, f)
  {
  }

  lemma NoCandidatesYet<Id>(own: seq<Id>, g: Grammar, f: seq<Tree<Id>>)
    ensures own == own + Candidates(g, f[..0])
  {
  }

  lemma {:induction false} CandidatesConcat<Id>(g: Grammar, a: seq<Tree<Id>>, b: seq<Tree<Id>>)
    ensures Candidates(g, a + b) == Candidates(g, a) + Candidates(g, b)
  {
    if a == [] {
      assert a + b == b;
    } else {
      assert (a + b)[1..] == a[1..] + b;
      CandidatesConcat(g, a[1..], b);
    }
  }

  lemma CandidatesExtend<Id>(own: seq<Id>, g: Grammar, f: seq<Tree<Id>>, i: nat)
    requires i < |f|
    ensures own + Candidates(g, f[..i]) + Candidates(g, [f[i]]) == own + Candidates(g, f[..i + 1])
  {
    hide Candidates;
    CandidatesConcat(g, f[..i], [f[i]]);
    assert f[..i + 1] == f[..i] + [f[i]];
  }

  lemma {:induction false} EncodableAt<Id>(g: Grammar, f: seq<Tree<Id>>, i: nat)
    requires Encodable(g, f) && i < |f|
    ensures Encodable(g, [f[i]])
  {
    if i == 0 {
      assert [f[0]][1..] == [];
    } else {
      EncodableAt(g, f[1..], i - 1);
    }
  }

  /** A run that the minimizer may accept. */
  predicate Accepts(o: Outcome, stable: Coverage) {
    o.ok && o.interesting && stable <= o.coverage
  }

  /** The sample of the last run that was accepted, or the first sample. */
  function LastAccepted(sample: string, runs: seq<(string, Outcome)>, stable: Coverage): string {
    if runs == [] then sample
    else
      var last := runs[|runs| - 1];
      if Accepts(last.1, stable) then last.0 else LastAccepted(sample, runs[..|runs| - 1], stable)
  }

  /** Accepted is the last sample whose run ended well, was interesting and still had the
      stable coverage. */
  lemma {:induction false} LastAcceptedIs(sample: string, runs: seq<(string, Outcome)>, stable: Coverage)
    returns (i: int)
    ensures -1 <= i < |runs| && LastAccepted(sample, runs, stable) == if i == -1 then sample else runs[i].0
    ensures i >= 0 ==> runs[i].1.ok && runs[i].1.interesting && forall x :: x in stable ==> x in runs[i].1.coverage
    ensures forall j :: i < j < |runs| ==>
              !runs[j].1.ok || !runs[j].1.interesting || exists x :: x in stable && x !in runs[j].1.coverage
  {
    if runs == [] {
      i := -1;
    } else {
      var n := |runs| - 1;
      if Accepts(runs[n].1, stable) {
        i := n;
      } else {
        i := LastAcceptedIs(sample, runs[..n], stable);
        assert forall j :: 0 <= j < n ==> runs[..n][j] == runs[j];
      }
    }
  }

  /** Every run was of a cut of the tree accepted before it, and only the last may fail. */
  ghost predicate RunsCuts(g: Grammar, sample: string, runs: seq<(string, Outcome)>, stable: Coverage) {
    forall i :: 0 <= i < |runs| ==>
      && (i < |runs| - 1 ==> runs[i].1.ok)
      && RunsACut(g, LastAccepted(sample, runs[..i], stable), runs[i].0)
  }

  ghost predicate RunsACut(g: Grammar, accepted: string, tried: string) {
    match (DecodeSample(g, accepted), DecodeSample(g, tried))
    case (Some(t), Some(u)) => IsCut(g, t, u) && tried == EncodeSample(u)
    case _ => false
  }

  /** Every symbol the one tree is derived from, the other is derived from as well. */
  ghost predicate DerivesAsMuch(g: Grammar, t: Value, u: Value) {
    forall root :: Derives(g, root, t) ==> Derives(g, root, u)
  }

  /** The one tree derives what the other does, and is not larger. */
  ghost predicate LeavesAsMuch(g: Grammar, t: Value, u: Value) {
    DerivesAsMuch(g, t, u) && Count([u]) <= Count([t])
  }

  lemma LeavesLess(g: Grammar, t: Value, u: Value, v: Value)
    requires LeavesAsMuch(g, t, u) && LeavesAsMuch(g, u, v)
    ensures LeavesAsMuch(g, t, v)
  {
    hide Derives, Count;
  }

  lemma LeavesSame(g: Grammar, t: Value)
    ensures LeavesAsMuch(g, t, t)
  {
  }

  lemma NoRuns(g: Grammar, limit: int, sample: string, stable: Coverage, all: seq<Attempt>)
    ensures RunsCuts(g, sample, [], stable) && LastAccepted(sample, [], stable) == sample
    ensures RunsInOrder(g, limit, sample, [], stable, all)
  {
  }

  /** Between two rounds: the sample accepted so far decodes to exactly the tree in memory. */
  ghost predicate InStep(minimizer: GrammarMinimizer, c: GrammarMinimizerContext, accepted: string)
    reads c, IdSet([c.shape]), IdSet(c.removed)
  {
    minimizer.Consistent(c) && c.removed == [] && DecodeSample(minimizer.grammar, accepted) == Some(Erase(c.shape))
  }

  /** The run is of the sample accepted so far with the given cut made in its tree, which
      has more nodes than the limit. */
  ghost predicate RunsAttempt(g: Grammar, limit: int, accepted: string, a: Attempt, tried: string) {
    match DecodeSample(g, accepted)
    case None => false
    case Some(t) => Count([t]) > limit && tried == EncodeSample(CutAt(g, [t], a)[0])
  }

  /** The runs make the attempts in order, from the last one on. */
  ghost predicate RunsInOrder(g: Grammar, limit: int, sample: string, runs: seq<(string, Outcome)>, stable: Coverage,
                              all: seq<Attempt>)
  {
    && |runs| <= |all|
    && forall i :: 0 <= i < |runs| ==>
         RunsAttempt(g, limit, LastAccepted(sample, runs[..i], stable), all[|all| - 1 - i], runs[i].0)
  }

  lemma OneMoreInOrder(g: Grammar, limit: int, sample: string, runs: seq<(string, Outcome)>, run: (string, Outcome),
                       stable: Coverage, all: seq<Attempt>)
    requires RunsInOrder(g, limit, sample, runs, stable, all) && |runs| < |all|
    requires RunsAttempt(g, limit, LastAccepted(sample, runs, stable), all[|all| - 1 - |runs|], run.0)
    ensures RunsInOrder(g, limit, sample, runs + [run], stable, all)
  {
    hide RunsAttempt;
    var longer := runs + [run];
    assert longer[..|runs|] == runs;
    forall i | 0 <= i < |longer|
      ensures RunsAttempt(g, limit, LastAccepted(sample, longer[..i], stable), all[|all| - 1 - i], longer[i].0)
    {
      if i < |runs| {
        assert longer[..i] == runs[..i];
      }
    }
  }

  /** Minimizes `sample`.  At the head of the loop the sample accepted so far always
      decodes to exactly the tree in memory; the loop ends because the cursor moves. */
  method MinimizeSample(minimizer: GrammarMinimizer, target: Target, sample: string, stable: Coverage)
      returns (result: string)
    requires WellFormed(minimizer.grammar)
    requires Readable(minimizer.grammar, sample)
    modifies target`next, target`log
    ensures DecodeSample(minimizer.grammar, result).Some?
    ensures LeavesAsMuch(minimizer.grammar, DecodeSample(minimizer.grammar, sample).value,
                         DecodeSample(minimizer.grammar, result).value)
    ensures old(target.log) <= target.log
    ensures var runs := target.log[|old(target.log)|..];
      && result == LastAccepted(sample, runs, stable)
      && RunsCuts(minimizer.grammar, sample, runs, stable)
      && (result == sample || exists i ::
            && 0 <= i < |runs| && runs[i].0 == result
            && runs[i].1.ok && runs[i].1.interesting && stable <= runs[i].1.coverage)
    ensures var g, limit, runs := minimizer.grammar, ToSize(minimizer.minimizationLimit), target.log[|old(target.log)|..];
      var all := AttemptsOf(g, [DecodeSample(g, sample).value], 0);
      && RunsInOrder(g, limit, sample, runs, stable, all)
      && ((runs == [] || runs[|runs| - 1].1.ok) ==>
            |runs| == |all| || Count([DecodeSample(g, result).value]) <= limit)
  {
    hide Linked, Distinct, IdSet, Count, Erase, DecodeSample, GrammarMinimizer.Consistent, LeavesAsMuch;
    hide RunsACut, LastAccepted, RunsCuts, RunsAttempt, RunsInOrder, GrammarMinimizer.ToTry, AttemptsOf, Readable;
    ReadableDecodes(minimizer.grammar, sample);
    var g := minimizer.grammar;
    ghost var t, limit := DecodeSample(g, sample).value, ToSize(minimizer.minimizationLimit);
    var context := minimizer.CreateContext(sample);
    ghost var all := AttemptsOf(g, [t], 0);
    AttemptsOfTree(g, context.shape);
    NoRuns(g, limit, sample, stable, all);
    LeavesSame(g, t);
    result := sample;
    ghost var runs := [];
    var goOn := true;
    while goOn
      invariant fresh(context) && fresh(IdSet([context.shape]))
      invariant goOn ==> InStep(minimizer, context, result)
      invariant DecodeSample(g, result).Some? && LeavesAsMuch(g, t, DecodeSample(g, result).value)
      invariant target.log == old(target.log) + runs
      invariant result == LastAccepted(sample, runs, stable) && RunsCuts(g, sample, runs, stable)
      invariant |runs| <= |all| && RunsInOrder(g, limit, sample, runs, stable, all)
      invariant goOn ==> forall r :: r in runs ==> r.1.ok
      invariant goOn ==> minimizer.ToTry(context) == all[..|all| - |runs|]
      invariant !goOn && (runs == [] || runs[|runs| - 1].1.ok) ==>
        |runs| == |all| || Count([DecodeSample(g, result).value]) <= limit
      decreases goOn, |all| - |runs|
    {
      ghost var before, accepted, u := target.log, result, DecodeSample(g, result).value;
      assert allocated(IdSet([context.shape]));
      goOn, result := TryCut(minimizer, context, target, result, stable);
      LeavesLess(g, t, u, DecodeSample(g, result).value);
      if target.log != before {
        ghost var run := target.log[|before|];
        OneRunMore(g, sample, runs, run, stable);
        OneMoreInOrder(g, limit, sample, runs, run, stable, all);
        OneLess(all, |runs|);
        runs := runs + [run];
      }
    }
    assert target.log[|old(target.log)|..] == runs;
    ghost var i := LastAcceptedIs(sample, runs, stable);
    assert i >= 0 ==> runs[i].0 == result && stable <= runs[i].1.coverage;
  }

  lemma AttemptsOfTree(g: Grammar, sh: Shape)
    ensures AttemptsOf(g, [Erase(sh)], 0) == AttemptsOf(g, [sh], 0)
  {
    AttemptsErase(g, [sh], 0);
    assert EraseAll([sh]) == [Erase(sh)];
  }

  lemma OneLess(all: seq<Attempt>, k: nat)
    requires k < |all|
    ensures var left := all[..|all| - k];
            left != [] && left[|left| - 1] == all[|all| - 1 - k] && left[..|left| - 1] == all[..|all| - (k + 1)]
  {
  }

  /** One round: either nothing is left to do, or the next cut is run and reported. */
  method TryCut(minimizer: GrammarMinimizer, c: GrammarMinimizerContext, target: Target, accepted: string, stable: Coverage)
      returns (goOn: bool, result: string)
    requires WellFormed(minimizer.grammar) && InStep(minimizer, c, accepted)
    modifies c, IdSet([c.shape]), target`next, target`log
    ensures forall x :: x in IdSet([c.shape]) ==> x in old(IdSet([c.shape]))
    ensures DecodeSample(minimizer.grammar, result).Some?
    ensures LeavesAsMuch(minimizer.grammar, DecodeSample(minimizer.grammar, accepted).value,
                         DecodeSample(minimizer.grammar, result).value)
    ensures var g, todo := minimizer.grammar, old(minimizer.ToTry(c));
            if target.log == old(target.log)
            then
              && !goOn && result == accepted
              && (todo == [] || Count([DecodeSample(g, accepted).value]) <= ToSize(minimizer.minimizationLimit))
            else
              && |target.log| == |old(target.log)| + 1 && old(target.log) <= target.log && todo != []
              && var run := target.log[|old(target.log)|];
                 && RunsACut(g, accepted, run.0) && goOn == run.1.ok
                 && RunsAttempt(g, ToSize(minimizer.minimizationLimit), accepted, todo[|todo| - 1], run.0)
                 && result == if run.1.ok && run.1.interesting && stable <= run.1.coverage then run.0 else accepted
    ensures goOn ==>
      && InStep(minimizer, c, result)
      && var todo := old(minimizer.ToTry(c)); todo != [] && minimizer.ToTry(c) == todo[..|todo| - 1]
  {
    hide Linked, Encodable, Encode, Yield, IdSet, Ids, Count, Derives, Erase, EncodeSample, DecodeSample, Cuts, Distinct;
    hide DerivesAsMuch, LeavesAsMuch, GrammarMinimizer.Cursor, NextFrom, IsCut, GrammarMinimizer.ToTry, CutAt;
    ghost var before := c.shape;
    LeavesSame(minimizer.grammar, Erase(before));
    CountTree(before);
    NothingRemoved();
    assert allocated(IdSet([before]));
    var step := minimizer.MinimizeStep(c);
    if step.None? {
      return false, accepted;
    }
    ghost var todo := old(minimizer.ToTry(c));
    var outcome := target.Run(step.value);
    CutAccepted(minimizer.grammar, before, c.Current(), c.currentCandidatePos, c.shape, c.removed);
    CutAttempted(minimizer.grammar, before, c.Current(), todo[|todo| - 1], c.shape, c.removed);
    if !outcome.ok {
      return false, accepted;
    }
    if !outcome.interesting || !(stable <= outcome.coverage) {
      minimizer.ReportFail(c, before);
      return true, accepted;
    } else {
      minimizer.ReportSuccess(c);
      return true, step.value;
    }
  }

  /** The cut in memory is the attempted cut of the tree as a value. */
  lemma CutAttempted(g: Grammar, before: Shape, n: TreeNode, a: Attempt, after: Shape, lost: seq<Shape>)
    requires Distinct([before]) && Cuts(g, before, n, a.pos, after, lost)
    requires a.place < |Ids([before])| && Ids([before])[a.place] == n
    ensures CutAt(g, [Erase(before)], a)[0] == Erase(after)
  {
    hide CutAt, Erase, Subst, Distinct, IdSet, Ids, Find;
    CutAtErases(g, [before], n, a);
    assert EraseAll([before]) == [Erase(before)] && EraseAll([after]) == [Erase(after)];
  }

  lemma OneRunMore(g: Grammar, sample: string, runs: seq<(string, Outcome)>, run: (string, Outcome), stable: Coverage)
    requires RunsCuts(g, sample, runs, stable) && (forall r :: r in runs ==> r.1.ok)
    requires RunsACut(g, LastAccepted(sample, runs, stable), run.0)
    ensures RunsCuts(g, sample, runs + [run], stable)
    ensures LastAccepted(sample, runs + [run], stable)
            == if Accepts(run.1, stable) then run.0 else LastAccepted(sample, runs, stable)
  {
    hide RunsACut;
    var longer := runs + [run];
    assert longer[..|runs|] == runs;
    forall i | 0 <= i < |longer|
      ensures (i < |longer| - 1 ==> longer[i].1.ok) && RunsACut(g, LastAccepted(sample, longer[..i], stable), longer[i].0)
    {
      if i < |runs| {
        assert longer[..i] == runs[..i] && runs[i] in runs;
      }
    }
  }

  /** What a cut tree keeps, and its sample. */
  lemma CutAccepted(g: Grammar, before: Shape, n: TreeNode, pos: nat, after: Shape, lost: seq<Shape>)
    requires WellFormed(g) && Distinct([before]) && Cuts(g, before, n, pos, after, lost)
    requires Encodable(g, [after]) && |Yield([after])| < SIZE_LIMIT
    ensures DecodeSample(g, EncodeSample(after)) == Some(Erase(after))
    ensures LeavesAsMuch(g, Erase(before), Erase(after)) && n in IdSet([before])
    ensures IsCut(g, Erase(before), Erase(after)) && EncodeSample(after) == EncodeSample(Erase(after))
  {
    hide Encodable, Yield, IdSet, Count, Derives, Erase, EncodeSample, DecodeSample, Distinct, IsCut;
    CutsIsCut(g, before, n, pos, after, lost);
    EncodeSampleErase(after);
    DecodeInvertsEncodeSample(g, after);
    CutParts(g, before, n, pos, after, lost);
    CountTree(before);
    CountTree(after);
    forall root | Derives(g, root, Erase(before)) ensures Derives(g, root, Erase(after)) {
      CutDerives(g, root, before, n, pos, after, lost);
    }
  }

  lemma CountTree(sh: Shape)
    ensures Count([Erase(sh)]) == Count([sh])
  {
    CountErase([sh]);
    assert EraseAll([sh]) == [Erase(sh)];
  }
}
