/** Grammar trees as values (mutators/grammar/grammar.h, class TreeNode).

    A tree carries an identity at every node.  `Value` trees carry none and are what
    encoding, decoding and derivation speak of; the heap module instantiates the
    identity with the node object, so that one definition of "preorder", "subtree"
    and "replace this subtree" serves both.  A `seq` of trees is a forest, and every
    recursion below is a recursion on forests. */
module Trees {

  /** `tag` is the node type byte: STRING for a terminal, anything else for a symbol.
      `text` is the terminal's text, or the symbol's name. */
  datatype Tree<Id> = Node(id: Id, tag: char, text: string, kids: seq<Tree<Id>>)

  type Value = Tree<()>

  const STRING: char := '\0'
  const SYMBOL: char := 1 as char

  function Leaf(text: string): Value {
    Node((), STRING, text, [])
  }

  // ---------- Forgetting identities ----------

  function Erase<Id>(t: Tree<Id>): Value {
    Node((), t.tag, t.text, seq(|t.kids|, i requires 0 <= i < |t.kids| => Erase(t.kids[i])))
  }

  function EraseAll<Id>(f: seq<Tree<Id>>): (e: seq<Value>)
    ensures |e| == |f|
  {
    seq(|f|, i requires 0 <= i < |f| => Erase(f[i]))
  }

  lemma EraseNode<Id>(t: Tree<Id>)
    ensures Erase(t) == Node((), t.tag, t.text, EraseAll(t.kids))
  {
    assert Erase(t).kids == EraseAll(t.kids);
  }

  lemma EraseConcat<Id>(a: seq<Tree<Id>>, b: seq<Tree<Id>>)
    ensures EraseAll(a + b) == EraseAll(a) + EraseAll(b)
  {
  }

  lemma EraseCons<Id>(f: seq<Tree<Id>>)
    requires f != []
    ensures EraseAll(f) == [Node((), f[0].tag, f[0].text, EraseAll(f[0].kids))] + EraseAll(f[1..])
  {
    EraseNode(f[0]);
  }

  lemma EraseOne<Id>(t: Tree<Id>)
    ensures EraseAll([t]) == [Node((), t.tag, t.text, EraseAll(t.kids))]
  {
    EraseNode(t);
  }

  /** A value has no identities to forget. */
  lemma {:induction false} EraseValues(f: seq<Value>)
    ensures EraseAll(f) == f
  {
    if f != [] {
      EraseValues(f[0].kids);
      EraseValues(f[1..]);
      EraseCons(f);
      OneUnit(f[0].id);
      assert f == [f[0]] + f[1..];
    }
  }

  lemma OneUnit(u: ())
    ensures u == ()
  {
    match u {
      case () =>
    }
  }

  // ---------- Preorder, size and yield ----------

  function Roots<Id>(f: seq<Tree<Id>>): seq<Id> {
    seq(|f|, i requires 0 <= i < |f| => f[i].id)
  }

  /** The node identities in preorder. */
  function Ids<Id>(f: seq<Tree<Id>>): seq<Id> {
    if f == [] then [] else [f[0].id] + Ids(f[0].kids) + Ids(f[1..])
  }

  ghost function IdSet<Id>(f: seq<Tree<Id>>): set<Id> {
    if f == [] then {} else {f[0].id} + IdSet(f[0].kids) + IdSet(f[1..])
  }

  function Count<Id>(f: seq<Tree<Id>>): nat {
    if f == [] then 0 else 1 + Count(f[0].kids) + Count(f[1..])
  }

  /** The text a forest prints. */
  function Yield<Id>(f: seq<Tree<Id>>): string {
    if f == [] then ""
    else (if f[0].tag == STRING then f[0].text else Yield(f[0].kids)) + Yield(f[1..])
  }

  /** The text of a forest is that of its trees one after the other, and of a node its own if it
      is a terminal, and otherwise that of its children. */
  lemma YieldIs<Id>(t: Tree<Id>, a: seq<Tree<Id>>, b: seq<Tree<Id>>)
    ensures Yield<Id>([]) == "" && Yield(a + b) == Yield(a) + Yield(b)
    ensures Yield([t]) == if t.tag == STRING then t.text else Yield(t.kids)
  {
    YieldConcat(a, b);
    assert [t][1..] == [];
  }

  /** Where no node occurs twice, counting counts the nodes. */
  lemma {:induction false} CountIsSize<Id>(f: seq<Tree<Id>>)
    requires Distinct(f)
    ensures Count(f) == |IdSet(f)|
  {
    if f != [] {
      CountIsSize(f[0].kids);
      CountIsSize(f[1..]);
      var a, b := IdSet(f[0].kids), IdSet(f[1..]);
      assert |{f[0].id} + a| == 1 + |a|;
      assert |{f[0].id} + a + b| == |{f[0].id} + a| + |b|;
    }
  }

  lemma {:induction false} IdsConcat<Id>(a: seq<Tree<Id>>, b: seq<Tree<Id>>)
    ensures Ids(a + b) == Ids(a) + Ids(b)
  {
    if a == [] {
      assert a + b == b;
    } else {
      assert (a + b)[1..] == a[1..] + b;
      IdsConcat(a[1..], b);
    }
  }

  lemma {:induction false} CountConcat<Id>(a: seq<Tree<Id>>, b: seq<Tree<Id>>)
    ensures Count(a + b) == Count(a) + Count(b)
  {
    if a == [] {
      assert a + b == b;
    } else {
      assert (a + b)[1..] == a[1..] + b;
      CountConcat(a[1..], b);
    }
  }

  lemma {:induction false} YieldConcat<Id>(a: seq<Tree<Id>>, b: seq<Tree<Id>>)
    ensures Yield(a + b) == Yield(a) + Yield(b)
  {
    if a == [] {
      assert a + b == b;
    } else {
      assert (a + b)[1..] == a[1..] + b;
      YieldConcat(a[1..], b);
    }
  }

  lemma {:induction false} CountErase<Id>(f: seq<Tree<Id>>)
    ensures Count(EraseAll(f)) == Count(f)
  {
    if f != [] {
      EraseNode(f[0]);
      CountErase(f[0].kids);
      CountErase(f[1..]);
      assert EraseAll(f)[1..] == EraseAll(f[1..]);
    }
  }

  lemma {:induction false} YieldErase<Id>(f: seq<Tree<Id>>)
    ensures Yield(EraseAll(f)) == Yield(f)
  {
    if f != [] {
      EraseNode(f[0]);
      YieldErase(f[0].kids);
      YieldErase(f[1..]);
      assert EraseAll(f)[1..] == EraseAll(f[1..]);
    }
  }

  /** The preorder lists exactly the identities. */
  lemma {:induction false} IdsListIdSet<Id>(f: seq<Tree<Id>>, x: Id)
    ensures x in Ids(f) <==> x in IdSet(f)
  {
    if f != [] {
      IdsListIdSet(f[0].kids, x);
      IdsListIdSet(f[1..], x);
    }
  }

  lemma {:induction false} IdSetConcat<Id>(a: seq<Tree<Id>>, b: seq<Tree<Id>>)
    ensures IdSet(a + b) == IdSet(a) + IdSet(b)
  {
    if a == [] {
      assert a + b == b;
    } else {
      assert (a + b)[1..] == a[1..] + b;
      IdSetConcat(a[1..], b);
    }
  }

  lemma IdSetOne<Id>(t: Tree<Id>)
    ensures IdSet([t]) == {t.id} + IdSet(t.kids)
  {
    assert [t][1..] == [];
  }

  // ---------- Distinct identities ----------

  /** No identity occurs twice. */
  ghost predicate Distinct<Id>(f: seq<Tree<Id>>) {
    f == [] ||
    (&& Distinct(f[0].kids)
     && Distinct(f[1..])
     && f[0].id !in IdSet(f[0].kids)
     && f[0].id !in IdSet(f[1..])
     && IdSet(f[0].kids) !! IdSet(f[1..]))
  }

  lemma {:induction false} DistinctConcat<Id>(a: seq<Tree<Id>>, b: seq<Tree<Id>>)
    ensures Distinct(a + b) <==> Distinct(a) && Distinct(b) && IdSet(a) !! IdSet(b)
  {
    if a == [] {
      assert a + b == b;
    } else {
      assert (a + b)[1..] == a[1..] + b;
      DistinctConcat(a[1..], b);
      IdSetConcat(a[1..], b);
    }
  }

  lemma DistinctOne<Id>(t: Tree<Id>)
    ensures Distinct([t]) <==> Distinct(t.kids) && t.id !in IdSet(t.kids)
  {
    assert [t][1..] == [];
  }

  lemma {:induction false} DistinctAt<Id>(f: seq<Tree<Id>>, i: nat)
    requires Distinct(f) && i < |f|
    ensures Distinct([f[i]]) && IdSet([f[i]]) <= IdSet(f)
  {
    if i == 0 {
      DistinctOne(f[0]);
      IdSetOne(f[0]);
    } else {
      DistinctAt(f[1..], i - 1);
    }
  }

  // ---------- Subtrees: finding one, replacing one ----------

  ghost function Find<Id>(f: seq<Tree<Id>>, n: Id): Tree<Id>
    requires n in IdSet(f)
  {
    if f[0].id == n then f[0]
    else if n in IdSet(f[0].kids) then Find(f[0].kids, n)
    else Find(f[1..], n)
  }

  /** The forest with every subtree rooted at `n` replaced by `r`. */
  function Subst<Id(==)>(f: seq<Tree<Id>>, n: Id, r: Tree<Id>): (g: seq<Tree<Id>>)
    ensures |g| == |f|
  {
    if f == [] then []
    else [SubstTree(f[0], n, r)] + Subst(f[1..], n, r)
  }

  function SubstTree<Id(==)>(t: Tree<Id>, n: Id, r: Tree<Id>): Tree<Id> {
    if t.id == n then r else t.(kids := Subst(t.kids, n, r))
  }

  /** The identities before, and those after, the subtree at `n`. */
  ghost function Before<Id>(f: seq<Tree<Id>>, n: Id): seq<Id>
    requires n in IdSet(f)
  {
    if f[0].id == n then []
    else if n in IdSet(f[0].kids) then [f[0].id] + Before(f[0].kids, n)
    else [f[0].id] + Ids(f[0].kids) + Before(f[1..], n)
  }

  ghost function After<Id>(f: seq<Tree<Id>>, n: Id): seq<Id>
    requires n in IdSet(f)
  {
    if f[0].id == n then Ids(f[1..])
    else if n in IdSet(f[0].kids) then After(f[0].kids, n) + Ids(f[1..])
    else After(f[1..], n)
  }

  lemma {:induction false} SubstAt<Id>(f: seq<Tree<Id>>, n: Id, r: Tree<Id>, i: nat)
    requires i < |f|
    ensures Subst(f, n, r)[i] == SubstTree(f[i], n, r)
  {
    if i > 0 {
      SubstAt(f[1..], n, r, i - 1);
    }
  }

  lemma {:induction false} SubstAbsent<Id>(f: seq<Tree<Id>>, n: Id, r: Tree<Id>)
    requires n !in IdSet(f)
    ensures Subst(f, n, r) == f
  {
    if f != [] {
      SubstAbsent(f[0].kids, n, r);
      SubstAbsent(f[1..], n, r);
    }
  }

  lemma RootsSubst<Id>(f: seq<Tree<Id>>, n: Id, r: Tree<Id>)
    requires r.id == n
    ensures Roots(Subst(f, n, r)) == Roots(f)
  {
    forall i | 0 <= i < |f| ensures Subst(f, n, r)[i].id == f[i].id {
      SubstAt(f, n, r, i);
    }
  }

  /** Preorder around the subtree at `n`: replacing the subtree replaces exactly its
      own stretch of the preorder. */
  lemma Regroup<T>(p: seq<T>, a: seq<T>, b: seq<T>, c: seq<T>, q: seq<T>)
    ensures p + (a + b + c) + q == (p + a) + b + (c + q)
  {
  }

  lemma {:induction false} IdsAround<Id>(f: seq<Tree<Id>>, n: Id)
    requires n in IdSet(f)
    ensures Find(f, n).id == n
    ensures Ids(f) == Before(f, n) + Ids([Find(f, n)]) + After(f, n)
  {
    if f[0].id == n {
      assert [f[0]][1..] == [];
    } else if n in IdSet(f[0].kids) {
      IdsAround(f[0].kids, n);
      var k, one := f[0].kids, Ids([Find(f, n)]);
      assert Ids(f) == [f[0].id] + (Before(k, n) + one + After(k, n)) + Ids(f[1..]);
      Regroup([f[0].id], Before(k, n), one, After(k, n), Ids(f[1..]));
    } else {
      IdsAround(f[1..], n);
      var k, one := f[1..], Ids([Find(f, n)]);
      var p := [f[0].id] + Ids(f[0].kids);
      assert Ids(f) == p + (Before(k, n) + one + After(k, n)) + [];
      Regroup(p, Before(k, n), one, After(k, n), []);
    }
  }

  /** Replacing the subtree at `n` moves nothing else. */
  lemma {:induction false} FindSubst<Id>(f: seq<Tree<Id>>, n: Id, r: Tree<Id>)
    requires n in IdSet(f) && Distinct(f) && r.id == n
    ensures n in IdSet(Subst(f, n, r)) && Find(Subst(f, n, r), n) == r
    ensures Before(Subst(f, n, r), n) == Before(f, n)
    ensures After(Subst(f, n, r), n) == After(f, n)
  {
    var g := Subst(f, n, r);
    assert g[1..] == Subst(f[1..], n, r);
    if f[0].id == n {
      SubstAbsent(f[1..], n, r);
    } else if n in IdSet(f[0].kids) {
      FindSubst(f[0].kids, n, r);
      SubstAbsent(f[1..], n, r);
    } else {
      FindSubst(f[1..], n, r);
      SubstAbsent(f[0].kids, n, r);
    }
  }

  lemma IdsSubst<Id>(f: seq<Tree<Id>>, n: Id, r: Tree<Id>)
    requires n in IdSet(f) && Distinct(f) && r.id == n
    ensures Ids(Subst(f, n, r)) == Before(f, n) + Ids([r]) + After(f, n)
  {
    FindSubst(f, n, r);
    IdsAround(Subst(f, n, r), n);
  }

  lemma {:induction false} CountAround<Id>(f: seq<Tree<Id>>, n: Id, r: Tree<Id>)
    requires n in IdSet(f) && Distinct(f) && r.id == n
    ensures Count(Subst(f, n, r)) + Count([Find(f, n)]) == Count(f) + Count([r])
  {
    assert Subst(f, n, r)[1..] == Subst(f[1..], n, r);
    if f[0].id == n {
      assert [f[0]][1..] == [] && [r][1..] == [];
      SubstAbsent(f[1..], n, r);
    } else if n in IdSet(f[0].kids) {
      CountAround(f[0].kids, n, r);
      SubstAbsent(f[1..], n, r);
    } else {
      CountAround(f[1..], n, r);
      SubstAbsent(f[0].kids, n, r);
    }
  }

  /** The identities that are not in a subtree rooted at `n`. */
  ghost function Outside<Id>(f: seq<Tree<Id>>, n: Id): (o: set<Id>)
    ensures o <= IdSet(f) && n !in o
  {
    if f == [] then {}
    else (if f[0].id == n then {} else {f[0].id} + Outside(f[0].kids, n)) + Outside(f[1..], n)
  }

  lemma {:induction false} OutsideIsDisjoint<Id>(f: seq<Tree<Id>>, n: Id)
    requires n in IdSet(f) && Distinct(f)
    ensures Outside(f, n) !! IdSet([Find(f, n)])
    ensures IdSet(f) == Outside(f, n) + IdSet([Find(f, n)])
  {
    assert [f[0]][1..] == [];
    if f[0].id == n {
      OutsideAbsent(f[1..], n);
    } else if n in IdSet(f[0].kids) {
      OutsideIsDisjoint(f[0].kids, n);
      OutsideAbsent(f[1..], n);
    } else {
      OutsideAbsent(f[0].kids, n);
      OutsideIsDisjoint(f[1..], n);
    }
  }

  lemma {:induction false} OutsideAbsent<Id>(f: seq<Tree<Id>>, n: Id)
    requires n !in IdSet(f)
    ensures Outside(f, n) == IdSet(f)
  {
    if f != [] {
      OutsideAbsent(f[0].kids, n);
      OutsideAbsent(f[1..], n);
    }
  }

  lemma {:induction false} OutsideSubst<Id>(f: seq<Tree<Id>>, n: Id, r: Tree<Id>)
    requires r.id == n
    ensures Outside(f, n) <= IdSet(Subst(f, n, r)) <= Outside(f, n) + IdSet([r])
    ensures n in IdSet(f) ==> IdSet(Subst(f, n, r)) == Outside(f, n) + IdSet([r])
  {
    if f != [] {
      assert Subst(f, n, r)[1..] == Subst(f[1..], n, r);
      IdSetOne(r);
      OutsideSubst(f[0].kids, n, r);
      OutsideSubst(f[1..], n, r);
    }
  }

  lemma {:induction false} DistinctSubst<Id>(f: seq<Tree<Id>>, n: Id, r: Tree<Id>)
    requires Distinct(f) && Distinct([r]) && r.id == n
    requires Outside(f, n) !! IdSet([r])
    ensures Distinct(Subst(f, n, r))
  {
    if f != [] {
      assert Subst(f, n, r)[1..] == Subst(f[1..], n, r);
      DistinctOne(r);
      IdSetOne(r);
      DistinctSubst(f[1..], n, r);
      if f[0].id == n {
        SubstAbsent(f[1..], n, r);
        OutsideAbsent(f[1..], n);
      } else {
        DistinctSubst(f[0].kids, n, r);
        OutsideSubst(f[0].kids, n, r);
        if n in IdSet(f[0].kids) {
          SubstAbsent(f[1..], n, r);
          OutsideAbsent(f[1..], n);
        } else {
          SubstAbsent(f[0].kids, n, r);
          OutsideAbsent(f[0].kids, n);
          OutsideSubst(f[1..], n, r);
        }
      }
    }
  }

  lemma {:induction false} FindDistinct<Id>(f: seq<Tree<Id>>, n: Id)
    requires n in IdSet(f) && Distinct(f)
    ensures Distinct([Find(f, n)])
  {
    if f[0].id == n {
      DistinctOne(f[0]);
    } else if n in IdSet(f[0].kids) {
      FindDistinct(f[0].kids, n);
    } else {
      FindDistinct(f[1..], n);
    }
  }

  /** A node stands at one place in the preorder: right after what comes before it. */
  lemma {:induction false} PositionOf<Id>(f: seq<Tree<Id>>, n: Id, p: nat)
    requires Distinct(f) && p < |Ids(f)| && Ids(f)[p] == n
    ensures n in IdSet(f) && p == |Before(f, n)|
  {
    IdsListIdSet(f, n);
    var k := |Ids(f[0].kids)|;
    IdsListIdSet(f[0].kids, n);
    IdsListIdSet(f[1..], n);
    if p == 0 {
    } else if p <= k {
      assert Ids(f[0].kids)[p - 1] == n;
      PositionOf(f[0].kids, n, p - 1);
    } else {
      assert Ids(f[1..])[p - 1 - k] == n;
      PositionOf(f[1..], n, p - 1 - k);
    }
  }

  /** Replacing a subtree leaves the preorder as it was up to the subtree's root. */
  lemma PrefixKept<Id>(f: seq<Tree<Id>>, n: Id, r: Tree<Id>, p: nat)
    requires Distinct(f) && p < |Ids(f)| && Ids(f)[p] == n && r.id == n
    ensures p < |Ids(Subst(f, n, r))|
    ensures Ids(Subst(f, n, r))[..p + 1] == Ids(f)[..p + 1]
  {
    PositionOf(f, n, p);
    IdsAround(f, n);
    IdsSubst(f, n, r);
    assert Ids([r])[0] == n && Ids([Find(f, n)])[0] == n;
  }

  /** Replacing by the subtree that is there changes nothing. */
  lemma {:induction false} SubstFound<Id>(f: seq<Tree<Id>>, n: Id)
    requires n in IdSet(f) && Distinct(f)
    ensures Subst(f, n, Find(f, n)) == f
  {
    if f[0].id == n {
      SubstAbsent(f[1..], n, f[0]);
    } else if n in IdSet(f[0].kids) {
      SubstFound(f[0].kids, n);
      SubstAbsent(f[1..], n, Find(f, n));
    } else {
      SubstFound(f[1..], n);
      SubstAbsent(f[0].kids, n, Find(f, n));
    }
  }

  /** The later of two replacements at the same node wins. */
  lemma {:induction false} SubstTwice<Id>(f: seq<Tree<Id>>, n: Id, r: Tree<Id>, q: Tree<Id>)
    requires r.id == n
    ensures Subst(Subst(f, n, r), n, q) == Subst(f, n, q)
  {
    if f != [] {
      SubstTwice(f[0].kids, n, r, q);
      SubstTwice(f[1..], n, r, q);
      assert Subst(f, n, r)[1..] == Subst(f[1..], n, r);
    }
  }

  lemma {:induction false} YieldSubst<Id>(f: seq<Tree<Id>>, n: Id, r: Tree<Id>)
    requires n in IdSet(f) && Distinct(f) && r.id == n
    requires |Yield([r])| <= |Yield([Find(f, n)])|
    ensures |Yield(Subst(f, n, r))| <= |Yield(f)|
  {
    assert Subst(f, n, r)[1..] == Subst(f[1..], n, r);
    if f[0].id == n {
      assert [f[0]][1..] == [] && [r][1..] == [];
      SubstAbsent(f[1..], n, r);
    } else if n in IdSet(f[0].kids) {
      YieldSubst(f[0].kids, n, r);
      SubstAbsent(f[1..], n, r);
    } else {
      YieldSubst(f[1..], n, r);
      SubstAbsent(f[0].kids, n, r);
    }
  }

  // ---------- Changes at one place ----------

  /** `u` is `t` with one subtree changed as `p` says. */
  ghost predicate Changed(t: Value, u: Value, p: (Value, Value) -> bool)
    decreases t
  {
    p(t, u) || (t.tag == u.tag && t.text == u.text && exists i :: ChangedAt(t.kids, u.kids, i, p))
  }

  ghost predicate ChangedAt(f: seq<Value>, h: seq<Value>, i: int, p: (Value, Value) -> bool)
    decreases f, 0
  {
    0 <= i < |f| == |h| && h == f[i := h[i]] && Changed(f[i], h[i], p)
  }

  /** Replacing the subtree at a node is, without the identities, a change at one place. */
  lemma {:induction false} SubstChanges<Id>(f: seq<Tree<Id>>, n: Id, r: Tree<Id>, p: (Value, Value) -> bool)
    returns (i: nat)
    requires Distinct(f) && n in IdSet(f) && p(Erase(Find(f, n)), Erase(r))
    ensures ChangedAt(EraseAll(f), EraseAll(Subst(f, n, r)), i, p)
  {
    hide Changed, EraseAll, Erase;
    var t, rest := f[0], f[1..];
    var h := Subst(f, n, r);
    EraseCons(f);
    EraseCons(h);
    EraseNode(t);
    EraseNode(h[0]);
    if t.id == n {
      SubstAbsent(rest, n, r);
      ChangedHere(Erase(t), Erase(r), p);
      i := 0;
    } else if n in IdSet(t.kids) {
      var j := SubstChanges(t.kids, n, r, p);
      SubstAbsent(rest, n, r);
      ChangedBelow(Erase(t), Erase(h[0]), j, p);
      i := 0;
    } else {
      SubstAbsent(t.kids, n, r);
      var j := SubstChanges(rest, n, r, p);
      i := j + 1;
    }
  }

  lemma ChangedHere(t: Value, u: Value, p: (Value, Value) -> bool)
    requires p(t, u)
    ensures Changed(t, u, p)
  {
  }

  lemma ChangedBelow(t: Value, u: Value, i: nat, p: (Value, Value) -> bool)
    requires t.tag == u.tag && t.text == u.text && ChangedAt(t.kids, u.kids, i, p)
    ensures Changed(t, u, p)
  {
  }

  /** The same for one tree. */
  lemma SubstChangesTree<Id>(t: Tree<Id>, n: Id, r: Tree<Id>, p: (Value, Value) -> bool)
    requires Distinct([t]) && n in IdSet([t]) && p(Erase(Find([t], n)), Erase(r))
    ensures Changed(Erase(t), Erase(SubstTree(t, n, r)), p)
  {
    hide Changed;
    assert [t][1..] == [];
    assert Subst([t], n, r) == [SubstTree(t, n, r)];
    var i := SubstChanges([t], n, r, p);
    assert EraseAll([t]) == [Erase(t)] && EraseAll([SubstTree(t, n, r)]) == [Erase(SubstTree(t, n, r))];
  }
}
