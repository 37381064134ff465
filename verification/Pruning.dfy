/** What the grammar minimizer may take out of a tree, on values
    (mutators/grammar/grammarminimizer.cpp). */
module Pruning {
  import opened Trees
  import opened Grammars
  import opened Codec

  /** Symbols whose children may be removed: all of them, or any of them. */
  predicate Prunable(g: Grammar, name: string) {
    name in g && (g[name].canBeEmpty || g[name].repeat)
  }

  predicate IsCandidate<Id>(g: Grammar, t: Tree<Id>) {
    t.tag != STRING && Prunable(g, t.text) && t.kids != []
  }

  /** The nodes the minimizer will try, in preorder. */
  function Candidates<Id>(g: Grammar, f: seq<Tree<Id>>): seq<Id> {
    if f == [] then []
    else CandidatesAt(g, f[0]) + Candidates(g, f[1..])
  }

  function CandidatesAt<Id>(g: Grammar, t: Tree<Id>): seq<Id> {
    if t.tag == STRING then []
    else (if IsCandidate(g, t) then [t.id] else []) + Candidates(g, t.kids)
  }

  /** Where the candidates stand in the preorder of a forest that starts at `base`. */
  ghost function Positions<Id>(g: Grammar, f: seq<Tree<Id>>, base: nat): seq<nat> {
    if f == [] then []
    else PositionsAt(g, f[0], base) + Positions(g, f[1..], base + 1 + |Ids(f[0].kids)|)
  }

  ghost function PositionsAt<Id>(g: Grammar, t: Tree<Id>, base: nat): seq<nat> {
    if t.tag == STRING then []
    else (if IsCandidate(g, t) then [base] else []) + Positions(g, t.kids, base + 1)
  }

  ghost predicate Increasing(s: seq<nat>) {
    forall i, j :: 0 <= i < j < |s| ==> s[i] < s[j]
  }

  /** `c` lists what stands at the places `at` of `ids`, in order of place. */
  ghost predicate Located<Id>(c: seq<Id>, at: seq<nat>, ids: seq<Id>, base: nat) {
    && |at| == |c| && Increasing(at)
    && forall i :: 0 <= i < |at| ==> base <= at[i] < base + |ids| && ids[at[i] - base] == c[i]
  }

  lemma LocatedConcat<Id>(c: seq<Id>, at: seq<nat>, ids: seq<Id>, base: nat,
                          c': seq<Id>, at': seq<nat>, ids': seq<Id>)
    requires Located(c, at, ids, base) && Located(c', at', ids', base + |ids|)
    ensures Located(c + c', at + at', ids + ids', base)
  {
  }

  /** Candidates are listed in preorder. */
  lemma {:induction false} CandidatesInPreorder<Id>(g: Grammar, f: seq<Tree<Id>>, base: nat)
    ensures Located(Candidates(g, f), Positions(g, f, base), Ids(f), base)
  {
    hide Located;
    LocatedNone<Id>(Ids(f), base);
    if f != [] {
      var t := f[0];
      var head := [t.id] + Ids(t.kids);
      CandidatesInPreorder(g, f[1..], base + |head|);
      CandidatesInPreorder(g, t.kids, base + 1);
      LocatedNode(g, t, base);
      LocatedConcat(CandidatesAt(g, t), PositionsAt(g, t, base), head, base,
                    Candidates(g, f[1..]), Positions(g, f[1..], base + |head|), Ids(f[1..]));
    }
  }

  lemma LocatedNone<Id>(ids: seq<Id>, base: nat)
    ensures Located([], [], ids, base)
  {
  }

  lemma LocatedNode<Id>(g: Grammar, t: Tree<Id>, base: nat)
    requires Located(Candidates(g, t.kids), Positions(g, t.kids, base + 1), Ids(t.kids), base + 1)
    ensures Located(CandidatesAt(g, t), PositionsAt(g, t, base), [t.id] + Ids(t.kids), base)
  {
    hide Candidates, Positions, Ids, Located, IsCandidate;
    if t.tag == STRING {
      LocatedNone<Id>([t.id] + Ids(t.kids), base);
    } else {
      var own := if IsCandidate(g, t) then [t.id] else [];
      var place := if IsCandidate(g, t) then [base] else [];
      LocatedNone<Id>([t.id], base);
      LocatedFirst(t.id, base);
      LocatedConcat(own, place, [t.id], base,
                    Candidates(g, t.kids), Positions(g, t.kids, base + 1), Ids(t.kids));
    }
  }

  lemma LocatedFirst<Id>(id: Id, base: nat)
    ensures Located([id], [base], [id], base)
  {
  }

  /** Every candidate is a node of the forest, and prunable. */
  lemma {:induction false} CandidatesArePrunable<Id>(g: Grammar, f: seq<Tree<Id>>, n: Id)
    requires n in Candidates(g, f) && Distinct(f)
    ensures n in IdSet(f) && IsCandidate(g, Find(f, n))
  {
    if n in Candidates(g, f[1..]) {
      CandidatesArePrunable(g, f[1..], n);
    } else if n in Candidates(g, f[0].kids) {
      CandidatesArePrunable(g, f[0].kids, n);
    }
  }

  /** In a tree whose terminals are leaves no node is missed. */
  lemma {:induction false} CandidatesAreAll<Id>(g: Grammar, f: seq<Tree<Id>>, n: Id)
    requires n in IdSet(f) && IsCandidate(g, Find(f, n)) && StringsAreLeaves(f)
    ensures n in Candidates(g, f)
  {
    if f[0].id == n {
      assert n in CandidatesAt(g, f[0]);
    } else if n in IdSet(f[0].kids) {
      CandidatesAreAll(g, f[0].kids, n);
    } else {
      CandidatesAreAll(g, f[1..], n);
    }
  }

  /** The children a node keeps, and those it loses, when it is pruned at `pos`. */
  function Kept<Id>(g: Grammar, t: Tree<Id>, pos: nat): seq<Tree<Id>>
    requires Prunable(g, t.text) && pos <= |t.kids|
  {
    if g[t.text].repeat && pos < |t.kids| then t.kids[..pos] + t.kids[pos + 1..] else []
  }

  function Lost<Id>(g: Grammar, t: Tree<Id>, pos: nat): seq<Tree<Id>>
    requires Prunable(g, t.text) && pos <= |t.kids|
  {
    if g[t.text].repeat && pos < |t.kids| then [t.kids[pos]] else t.kids
  }

  function Pruned<Id>(g: Grammar, t: Tree<Id>, pos: nat): Tree<Id>
    requires Prunable(g, t.text) && pos <= |t.kids|
  {
    t.(kids := Kept(g, t, pos))
  }

  /** Where the lost children go when they are put back. */
  function PutBack<Id>(t: Tree<Id>, lost: seq<Tree<Id>>, pos: nat): Tree<Id>
    requires pos <= |t.kids|
  {
    t.(kids := t.kids[..pos] + lost + t.kids[pos..])
  }

  /** The undo: putting back what pruning took, where it took it, is the identity. */
  lemma PutBackUndoes<Id>(g: Grammar, t: Tree<Id>, pos: nat)
    requires Prunable(g, t.text) && pos <= |t.kids|
    requires if g[t.text].repeat then pos < |t.kids| else pos == 0
    ensures PutBack(Pruned(g, t, pos), Lost(g, t, pos), pos) == t
  {
    var p := Pruned(g, t, pos);
    if g[t.text].repeat {
      assert p.kids[..pos] == t.kids[..pos] && p.kids[pos..] == t.kids[pos + 1..];
    }
    assert p.kids[..pos] + Lost(g, t, pos) + p.kids[pos..] == t.kids;
  }

  lemma TakeOut<Id>(a: seq<Tree<Id>>, lost: seq<Tree<Id>>, b: seq<Tree<Id>>)
    ensures var all, kept := a + (lost + b), a + b;
      && IdSet(all) == IdSet(kept) + IdSet(lost)
      && (Distinct(all) ==> Distinct(kept) && Distinct(lost) && IdSet(kept) !! IdSet(lost))
      && Count(all) == Count(kept) + Count(lost)
      && |Yield(kept)| <= |Yield(all)|
  {
    hide IdSet, Distinct, Count, Yield;
    IdSetConcat(a, lost + b);
    IdSetConcat(lost, b);
    IdSetConcat(a, b);
    DistinctConcat(a, lost + b);
    DistinctConcat(lost, b);
    DistinctConcat(a, b);
    CountConcat(a, lost + b);
    CountConcat(lost, b);
    CountConcat(a, b);
    YieldConcat(a, lost + b);
    YieldConcat(lost, b);
    YieldConcat(a, b);
  }

  /** The pieces of a pruned node: nothing is created, nothing kept is lost. */
  lemma PrunedParts<Id>(g: Grammar, t: Tree<Id>, pos: nat)
    requires Prunable(g, t.text) && pos <= |t.kids| && Distinct([t])
    ensures var p, lost := Pruned(g, t, pos), Lost(g, t, pos);
      && Distinct([p]) && Distinct(lost) && IdSet([p]) !! IdSet(lost)
      && IdSet([t]) == IdSet([p]) + IdSet(lost)
      && Count([t]) == Count([p]) + Count(lost)
      && |Yield([p])| <= |Yield([t])|
  {
    var p, lost := Pruned(g, t, pos), Lost(g, t, pos);
    var a, b := [], [];
    if g[t.text].repeat && pos < |t.kids| {
      a, b := t.kids[..pos], t.kids[pos + 1..];
    }
    assert t.kids == a + (lost + b) && p.kids == a + b;
    hide Kept, Lost, IdSet, Distinct, Count, Yield;
    TakeOut(a, lost, b);
    OneNode(t);
    OneNode(p);
  }

  lemma OneNode<Id>(t: Tree<Id>)
    ensures IdSet([t]) == {t.id} + IdSet(t.kids)
    ensures Distinct([t]) <==> t.id !in IdSet(t.kids) && Distinct(t.kids)
    ensures Count([t]) == 1 + Count(t.kids)
    ensures Yield([t]) == if t.tag == STRING then t.text else Yield(t.kids)
  {
    assert [t][1..] == [];
  }

  /** A pruned derivation derives the same symbol. */
  lemma PrunedDerives<Id>(g: Grammar, t: Tree<Id>, pos: nat)
    requires WellFormed(g) && Prunable(g, t.text) && pos <= |t.kids|
    requires Derives(g, t.text, Erase(t))
    ensures Derives(g, t.text, Erase(Pruned(g, t, pos)))
  {
    var p := Pruned(g, t, pos);
    var before, after := Erase(t).kids, Erase(p).kids;
    if g[t.text].repeat {
      forall i | 0 <= i < |after| ensures Derives(g, g[t.text].repeatSymbol, after[i]) {
        var j := if i < pos then i else i + 1;
        assert after[i] == before[j];
      }
    } else {
      var r :| 0 <= r < |g[t.text].generators| && g[t.text].generators[r].parts == [];
      assert Matches(g, g[t.text].generators[r].parts, after);
    }
  }

  // ---------- One step on the whole tree ----------

  /** `after` is `before` with the node `n` pruned at `pos`, and `lost` is what it lost. */
  ghost predicate Cuts<Id>(g: Grammar, before: Tree<Id>, n: Id, pos: nat, after: Tree<Id>, lost: seq<Tree<Id>>) {
    && n in IdSet([before])
    && CanCut(g, Find([before], n), pos)
    && [after] == Subst([before], n, Pruned(g, Find([before], n), pos))
    && lost == Lost(g, Find([before], n), pos)
  }

  predicate CanCut<Id>(g: Grammar, t: Tree<Id>, pos: nat) {
    IsCandidate(g, t) && if g[t.text].repeat then pos < |t.kids| else pos == 0
  }

  /** `u` is `t` with children cut off one node that the grammar lets lose them. */
  ghost predicate IsCut(g: Grammar, t: Value, u: Value) {
    Changed(t, u, Prunes(g))
  }

  ghost function Prunes(g: Grammar): (Value, Value) -> bool {
    (t: Value, u: Value) => exists pos: nat :: CanCut(g, t, pos) && u == Pruned(g, t, pos)
  }

  /** What may be cut off a node: any one child of a repeat node, or all children of a node
      whose symbol has an empty rule. */
  lemma PrunesIff(g: Grammar, t: Value, u: Value)
    ensures Prunes(g)(t, u)
            <==> && t.tag != STRING && t.text in g && u == t.(kids := u.kids) && t.kids != []
                 && if g[t.text].repeat then exists pos :: 0 <= pos < |t.kids| && u.kids == t.kids[..pos] + t.kids[pos + 1..]
                    else g[t.text].canBeEmpty && u.kids == []
  {
    if t.tag != STRING && t.text in g && t.kids != [] {
      if g[t.text].repeat {
        forall pos | 0 <= pos < |t.kids|
          ensures CanCut(g, t, pos) && Pruned(g, t, pos) == t.(kids := t.kids[..pos] + t.kids[pos + 1..])
        {
        }
      } else if g[t.text].canBeEmpty {
        assert CanCut(g, t, 0) && Pruned(g, t, 0) == t.(kids := []);
      }
    }
  }

  lemma PrunedErases<Id>(g: Grammar, t: Tree<Id>, pos: nat)
    requires CanCut(g, t, pos)
    ensures CanCut(g, Erase(t), pos) && Erase(Pruned(g, t, pos)) == Pruned(g, Erase(t), pos)
  {
    EraseNode(t);
    EraseNode(Pruned(g, t, pos));
    if g[t.text].repeat {
      EraseConcat(t.kids[..pos], t.kids[pos + 1..]);
    }
  }

  /** Taking a node's children off in memory is, on the tree as a value, a cut. */
  lemma CutsIsCut<Id>(g: Grammar, before: Tree<Id>, n: Id, pos: nat, after: Tree<Id>, lost: seq<Tree<Id>>)
    requires Cuts(g, before, n, pos, after, lost) && Distinct([before])
    ensures IsCut(g, Erase(before), Erase(after))
  {
    var t := Find([before], n);
    PrunedErases(g, t, pos);
    assert [before][1..] == [];
    assert after == SubstTree(before, n, Pruned(g, t, pos));
    assert Prunes(g)(Erase(t), Erase(Pruned(g, t, pos)));
    hide Erase, Changed, Distinct, IdSet, Find, Pruned;
    SubstChangesTree(before, n, Pruned(g, t, pos), Prunes(g));
  }

  /** What a cut does to size, text and node identities. */
  lemma CutParts<Id>(g: Grammar, before: Tree<Id>, n: Id, pos: nat, after: Tree<Id>, lost: seq<Tree<Id>>)
    requires Cuts(g, before, n, pos, after, lost) && Distinct([before])
    ensures Distinct([after]) && Distinct(lost) && IdSet([after]) !! IdSet(lost)
    ensures IdSet([before]) == IdSet([after]) + IdSet(lost) && after.id == before.id && lost != []
    ensures Count([before]) == Count([after]) + Count(lost)
    ensures |Yield([after])| <= |Yield([before])|
  {
    hide Distinct, IdSet, Count, Yield, Outside;
    var t := Find([before], n);
    var p := Pruned(g, t, pos);
    FindDistinct([before], n);
    IdsAround([before], n);
    PrunedParts(g, t, pos);
    OutsideIsDisjoint([before], n);
    OutsideSubst([before], n, p);
    DistinctSubst([before], n, p);
    CountAround([before], n, p);
    YieldSubst([before], n, p);
    assert Roots([after]) == Roots([before]) by {
      RootsSubst([before], n, p);
    }
    assert Roots([after])[0] == after.id && Roots([before])[0] == before.id;
  }

  /** A cut tree derives whatever the tree derived, and can be written if it could. */
  lemma CutDerives<Id>(g: Grammar, root: string, before: Tree<Id>, n: Id, pos: nat, after: Tree<Id>, lost: seq<Tree<Id>>)
    requires WellFormed(g) && Distinct([before]) && Derives(g, root, Erase(before))
    requires Cuts(g, before, n, pos, after, lost)
    ensures Derives(g, root, Erase(after))
  {
    var t := Find([before], n);
    FindSound(g, [before], n);
    FoundIsLabelled([before], n);
    PrunedDerives(g, t, pos);
    SubstDerives(g, root, before, n, t.text, Pruned(g, t, pos));
  }

  lemma CutEncodable<Id>(g: Grammar, before: Tree<Id>, n: Id, pos: nat, after: Tree<Id>, lost: seq<Tree<Id>>)
    requires Cuts(g, before, n, pos, after, lost) && Encodable(g, [before])
    ensures Encodable(g, [after])
  {
    FindEncodable(g, [before], n);
    PrunedEncodable(g, Find([before], n), pos);
    EncodableSubst(g, [before], n, Pruned(g, Find([before], n), pos));
  }

  /** Undo: putting the lost children back where they were cut gives the tree back. */
  lemma CutUndone<Id>(g: Grammar, before: Tree<Id>, n: Id, pos: nat, after: Tree<Id>, lost: seq<Tree<Id>>)
    requires Cuts(g, before, n, pos, after, lost) && Distinct([before])
    ensures n in IdSet([after]) && pos <= |Find([after], n).kids|
    ensures Subst([after], n, PutBack(Find([after], n), lost, pos)) == [before]
  {
    var t := Find([before], n);
    var p := Pruned(g, t, pos);
    IdsAround([before], n);
    FindSubst([before], n, p);
    PutBackUndoes(g, t, pos);
    SubstTwice([before], n, p, t);
    SubstFound([before], n);
  }

  lemma {:induction false} EncodableConcat<Id>(g: Grammar, a: seq<Tree<Id>>, b: seq<Tree<Id>>)
    ensures Encodable(g, a + b) <==> Encodable(g, a) && Encodable(g, b)
  {
    if a == [] {
      assert a + b == b;
    } else {
      assert (a + b)[1..] == a[1..] + b;
      EncodableConcat(g, a[1..], b);
    }
  }

  lemma PrunedEncodable<Id>(g: Grammar, t: Tree<Id>, pos: nat)
    requires Prunable(g, t.text) && pos <= |t.kids| && Encodable(g, [t])
    ensures Encodable(g, [Pruned(g, t, pos)])
  {
    assert [t][1..] == [] && [Pruned(g, t, pos)][1..] == [];
    if g[t.text].repeat && pos < |t.kids| {
      var a, lost, b := t.kids[..pos], Lost(g, t, pos), t.kids[pos + 1..];
      assert t.kids == a + (lost + b);
      EncodableConcat(g, a, lost + b);
      EncodableConcat(g, lost, b);
      EncodableConcat(g, a, b);
    }
  }

  lemma {:induction false} EncodableSubst<Id>(g: Grammar, f: seq<Tree<Id>>, n: Id, r: Tree<Id>)
    requires Encodable(g, f) && Encodable(g, [r])
    ensures Encodable(g, Subst(f, n, r))
  {
    if f != [] {
      assert Subst(f, n, r)[1..] == Subst(f[1..], n, r);
      EncodableSubst(g, f[0].kids, n, r);
      EncodableSubst(g, f[1..], n, r);
    }
  }

  lemma {:induction false} FindEncodable<Id>(g: Grammar, f: seq<Tree<Id>>, n: Id)
    requires Encodable(g, f) && n in IdSet(f)
    ensures Encodable(g, [Find(f, n)])
  {
    if f[0].id == n {
      assert [f[0]][1..] == [];
    } else if n in IdSet(f[0].kids) {
      FindEncodable(g, f[0].kids, n);
    } else {
      FindEncodable(g, f[1..], n);
    }
  }

  lemma {:induction false} EncodableErase<Id>(g: Grammar, f: seq<Tree<Id>>)
    ensures Encodable(g, EraseAll(f)) <==> Encodable(g, f)
  {
    if f != [] {
      EraseCons(f);
      EncodableErase(g, f[0].kids);
      EncodableErase(g, f[1..]);
      assert EraseAll(f)[1..] == EraseAll(f[1..]);
    }
  }
}
