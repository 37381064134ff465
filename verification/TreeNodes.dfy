/** The tree nodes of a sample in memory (mutators/grammar/grammar.h, grammar.cpp,
    class TreeNode): objects that own their children, are edited in place and are
    deleted by hand.

    A `Shape` is the ghost record of a whole tree of objects: which node sits where,
    with which contents.  `Linked` says that memory agrees with it and that no node in
    it has been deleted, so a method that asks for a `Linked` shape and reads or writes
    only nodes of that shape never touches freed memory. */
module TreeNodes {
  import opened Trees

  type Shape = Tree<TreeNode>

  /** Memory agrees with the forest `f`, all of whose nodes are alive. */
  ghost predicate Linked(f: seq<Shape>)
    reads IdSet(f)
  {
    f == [] ||
    (&& f[0].id.live
     && f[0].id.tag == f[0].tag
     && f[0].id.text == f[0].text
     && f[0].id.children == Roots(f[0].kids)
     && Linked(f[0].kids)
     && Linked(f[1..]))
  }

  /** A tree in memory, rooted at `n`: linked, and no node occurs in it twice. */
  ghost predicate IsTree(n: TreeNode, sh: Shape)
    reads IdSet([sh])
  {
    sh.id == n && Linked([sh]) && Distinct([sh])
  }

  lemma {:induction false} LinkedConcat(a: seq<Shape>, b: seq<Shape>)
    ensures Linked(a + b) <==> Linked(a) && Linked(b)
  {
    if a == [] {
      assert a + b == b;
    } else {
      assert (a + b)[1..] == a[1..] + b;
      LinkedConcat(a[1..], b);
    }
  }

  lemma {:induction false} LinkedAt(f: seq<Shape>, i: nat)
    requires Linked(f) && i < |f|
    ensures Linked([f[i]])
    ensures IdSet([f[i]]) <= IdSet(f)
  {
    if i == 0 {
      assert [f[0]][1..] == [];
    } else {
      LinkedAt(f[1..], i - 1);
    }
  }

  /** Memory agrees with `f` wherever it is not in a subtree rooted at `n`. */
  ghost predicate LinkedExcept(f: seq<Shape>, n: TreeNode)
    reads Outside(f, n)
  {
    f == [] ||
    (&& (f[0].id == n ||
         (&& f[0].id.live
          && f[0].id.tag == f[0].tag
          && f[0].id.text == f[0].text
          && f[0].id.children == Roots(f[0].kids)
          && LinkedExcept(f[0].kids, n)))
     && LinkedExcept(f[1..], n))
  }

  lemma {:induction false} CutLinked(f: seq<Shape>, n: TreeNode)
    requires Linked(f)
    ensures LinkedExcept(f, n)
    ensures n in IdSet(f) ==> Linked([Find(f, n)])
  {
    if f != [] {
      CutLinked(f[0].kids, n);
      CutLinked(f[1..], n);
      assert [f[0]][1..] == [];
    }
  }

  /** Changing memory at `n` only, to what `r` says, is `Subst` on the shape. */
  lemma {:induction false} PasteLinked(f: seq<Shape>, n: TreeNode, r: Shape)
    requires LinkedExcept(f, n) && Linked([r]) && r.id == n
    ensures Linked(Subst(f, n, r))
  {
    if f != [] {
      assert Subst(f, n, r)[1..] == Subst(f[1..], n, r);
      PasteLinked(f[1..], n, r);
      if f[0].id == n {
        LinkedOne(r);
      } else {
        PasteLinked(f[0].kids, n, r);
        RootsSubst(f[0].kids, n, r);
      }
    }
  }

  lemma LinkedOne(sh: Shape)
    ensures Linked([sh]) <==>
      && sh.id.live && sh.id.tag == sh.tag && sh.id.text == sh.text
      && sh.id.children == Roots(sh.kids) && Linked(sh.kids)
  {
    assert [sh][1..] == [];
  }

  /** A tree is a live node over trees that it is not part of. */
  lemma OpenTree(sh: Shape)
    ensures IsTree(sh.id, sh) <==>
      && sh.id.live && sh.id.tag == sh.tag && sh.id.text == sh.text && sh.id.children == Roots(sh.kids)
      && Linked(sh.kids) && Distinct(sh.kids) && sh.id !in IdSet(sh.kids)
    ensures IdSet([sh]) == {sh.id} + IdSet(sh.kids)
  {
    LinkedOne(sh);
    DistinctOne(sh);
    IdSetOne(sh);
  }

  /** The first of several disjoint trees. */
  lemma FirstTree(f: seq<Shape>)
    requires f != [] && Linked(f) && Distinct(f)
    ensures IsTree(f[0].id, f[0]) && Linked(f[1..]) && Distinct(f[1..])
    ensures IdSet(f) == IdSet([f[0]]) + IdSet(f[1..]) && IdSet([f[0]]) !! IdSet(f[1..])
  {
    OpenTree(f[0]);
  }

  lemma NothingYet(f: seq<Shape>)
    ensures Linked([]) && Distinct<TreeNode>([]) && IdSet<TreeNode>([]) == {}
    ensures EraseAll<TreeNode>([]) == [] == EraseAll(f[..0])
  {
  }

  lemma EraseExtends(g: seq<Shape>, t: Shape, f: seq<Shape>, i: nat)
    requires i < |f| && EraseAll(g) == EraseAll(f[..i]) && Erase(t) == Erase(f[i])
    ensures EraseAll(g + [t]) == EraseAll(f[..i + 1])
  {
    EraseConcat(g, [t]);
    EraseConcat(f[..i], [f[i]]);
    assert EraseAll([t]) == [Erase(t)] && EraseAll([f[i]]) == [Erase(f[i])];
    assert f[..i + 1] == f[..i] + [f[i]];
  }

  lemma Append(f: seq<Shape>, sh: Shape)
    requires Linked(f) && Distinct(f) && IsTree(sh.id, sh) && IdSet(f) !! IdSet([sh])
    ensures Linked(f + [sh]) && Distinct(f + [sh])
    ensures IdSet(f + [sh]) == IdSet(f) + IdSet([sh]) && Roots(f + [sh]) == Roots(f) + [sh.id]
  {
    LinkedConcat(f, [sh]);
    DistinctConcat(f, [sh]);
    IdSetConcat(f, [sh]);
  }

  /** A node of a tree in memory is alive and holds what the shape says. */
  lemma FoundInMemory(sh: Shape, n: TreeNode)
    requires Linked([sh]) && Distinct([sh]) && n in IdSet([sh])
    ensures var t := Find([sh], n);
      && t.id == n && n.live && n.tag == t.tag && n.text == t.text && n.children == Roots(t.kids)
      && Linked(t.kids) && n !in IdSet(t.kids) && Outside([sh], n) !! IdSet([t])
      && IdSet([sh]) == Outside([sh], n) + IdSet([t]) && IdSet([t]) == {n} + IdSet(t.kids)
    ensures LinkedExcept([sh], n)
  {
    IdsAround([sh], n);
    CutLinked([sh], n);
    LinkedOne(Find([sh], n));
    FindDistinct([sh], n);
    DistinctOne(Find([sh], n));
    IdSetOne(Find([sh], n));
    OutsideIsDisjoint([sh], n);
  }

  /** Every node of a tree in memory is alive. */
  lemma {:induction false} LinkedIsLive(f: seq<Shape>, n: TreeNode)
    requires Linked(f) && n in IdSet(f)
    ensures n.live
  {
    if n in IdSet(f[0].kids) {
      LinkedIsLive(f[0].kids, n);
    } else if n in IdSet(f[1..]) {
      LinkedIsLive(f[1..], n);
    }
  }

  class TreeNode {
    var tag: char
    var text: string
    var children: seq<TreeNode>
    ghost var live: bool

    constructor ()
      ensures tag == STRING && text == "" && children == [] && live
    {
      tag, text, children, live := STRING, "", [], true;
    }

    // The program reads and edits the nodes of a tree through these only: a node that was
    // freed must not be touched.

    function Tag(): (r: char)
      requires live
      reads this`tag, this`live
      ensures r == tag
    {
      tag
    }

    function Text(): (r: string)
      requires live
      reads this`text, this`live
      ensures r == text
    {
      text
    }

    function Children(): (r: seq<TreeNode>)
      requires live
      reads this`children, this`live
      ensures r == children
    {
      children
    }

    method SetChildren(nodes: seq<TreeNode>)
      requires live
      modifies this`children
      ensures children == nodes
    {
      children := nodes;
    }

    /** The copy constructor. */
    static method Copy(other: TreeNode, ghost sh: Shape) returns (c: TreeNode, ghost csh: Shape)
      requires Linked([sh]) && sh.id == other
      ensures IsTree(c, csh) && Erase(csh) == Erase(sh)
      ensures fresh(IdSet([csh]))
      decreases sh, 1
    {
      LinkedOne(sh);
      var kids, f := CopyAll(other.Children(), sh.kids);
      assert allocated(IdSet(f));
      c := new TreeNode();
      c.tag, c.text, c.children := other.Tag(), other.Text(), kids;
      csh := Node(c, c.tag, c.text, f);
      OpenTree(csh);
      EraseNode(csh);
      EraseNode(sh);
    }

    /** The number of nodes of the tree. */
    method NumNodes(ghost sh: Shape) returns (ret: nat)
      requires Linked([sh]) && sh.id == this
      ensures ret == Count([sh])
      decreases sh
    {
      LinkedOne(sh);
      ret := 1;
      for i := 0 to |Children()|
        invariant ret == 1 + Count(sh.kids[..i]) && Linked(sh.kids)
      {
        LinkedAt(sh.kids, i);
        assert allocated(IdSet(sh.kids));
        var k := Children()[i].NumNodes(sh.kids[i]);
        ret := ret + k;
        CountConcat(sh.kids[..i], [sh.kids[i]]);
        assert sh.kids[..i + 1] == sh.kids[..i] + [sh.kids[i]];
      }
      assert sh.kids[..|children|] == sh.kids;
      assert [sh][1..] == [];
    }

    /** The destructor: every node of the tree is freed, and freed once. */
    method Delete(ghost sh: Shape)
      requires IsTree(this, sh)
      modifies IdSet([sh])
      ensures forall x :: x in IdSet([sh]) ==> !x.live
      decreases sh, 1
    {
      OpenTree(sh);
      Clear(sh);
      live := false;
    }

    /** Frees the children and leaves an empty terminal. */
    method Clear(ghost sh: Shape)
      requires IsTree(this, sh)
      modifies IdSet([sh])
      ensures live && tag == STRING && text == "" && children == []
      ensures forall x :: x in IdSet(sh.kids) ==> !x.live
      decreases sh, 0
    {
      OpenTree(sh);
      tag, text := STRING, "";
      DeleteAll(Children(), sh.kids);
      assert allocated(IdSet(sh.kids));
      SetChildren([]);
    }

    /** Makes this node the root of `other`'s tree; `other` itself is freed. */
    method Replace(other: TreeNode, ghost sh: Shape, ghost osh: Shape) returns (ghost nsh: Shape)
      requires IsTree(this, sh) && IsTree(other, osh) && IdSet([sh]) !! IdSet([osh])
      modifies IdSet([sh]), other
      ensures nsh == osh.(id := this) && IsTree(this, nsh)
      ensures forall x :: x in IdSet(sh.kids) ==> !x.live
      ensures !other.live
    {
      hide Linked, Distinct, IdSet;
      OpenTree(sh);
      OpenTree(osh);
      assert allocated(IdSet([sh])) && allocated(IdSet([osh]));
      Clear(sh);
      tag, text, children := other.Tag(), other.Text(), other.Children();
      other.SetChildren([]);
      ghost var bare := osh.(kids := []);
      NothingYet([]);
      OpenTree(bare);
      other.Delete(bare);
      nsh := osh.(id := this);
      OpenTree(nsh);
    }

    /** The assignment operator: this node becomes the root of a copy of `other`. */
    method Assign(other: TreeNode, ghost sh: Shape, ghost osh: Shape) returns (ghost nsh: Shape)
      requires IsTree(this, sh) && Linked([osh]) && osh.id == other && IdSet([sh]) !! IdSet([osh])
      modifies IdSet([sh])
      ensures IsTree(this, nsh) && Erase(nsh) == Erase(osh)
      ensures fresh(IdSet(nsh.kids))
      ensures forall x :: x in IdSet(sh.kids) ==> !x.live
    {
      hide Linked, Distinct, IdSet, Erase, EraseAll;
      OpenTree(sh);
      LinkedOne(osh);
      IdSetOne(osh);
      assert allocated(IdSet([sh])) && allocated(IdSet([osh]));
      Clear(sh);
      tag, text := other.Tag(), other.Text();
      var kids, f := CopyAll(other.Children(), osh.kids);
      assert allocated(IdSet(f)) && allocated(IdSet(sh.kids));
      SetChildren(kids);
      nsh := Node(this, tag, text, f);
      OpenTree(nsh);
      EraseNode(nsh);
      EraseNode(osh);
    }
  }

  /** Copies of the nodes, in order. */
  method CopyAll(nodes: seq<TreeNode>, ghost f: seq<Shape>) returns (copies: seq<TreeNode>, ghost g: seq<Shape>)
    requires nodes == Roots(f) && Linked(f)
    ensures copies == Roots(g) && Linked(g) && Distinct(g) && fresh(IdSet(g))
    ensures EraseAll(g) == EraseAll(f)
    decreases f
  {
    hide Linked, Distinct, IdSet, Erase, EraseAll;
    copies, g := [], [];
    NothingYet(f);
    for i := 0 to |nodes|
      invariant Linked(f)
      invariant copies == Roots(g) && Linked(g) && Distinct(g) && fresh(IdSet(g))
      invariant EraseAll(g) == EraseAll(f[..i])
    {
      LinkedAt(f, i);
      assert allocated(IdSet(f)) && allocated(IdSet(g));
      var c, csh := TreeNode.Copy(nodes[i], f[i]);
      Append(g, csh);
      EraseExtends(g, csh, f, i);
      copies, g := copies + [c], g + [csh];
    }
    assert f[..|nodes|] == f;
  }

  /** `delete` on each of the nodes, in order. */
  method DeleteAll(nodes: seq<TreeNode>, ghost f: seq<Shape>)
    requires nodes == Roots(f) && Linked(f) && Distinct(f)
    modifies IdSet(f)
    ensures forall x :: x in IdSet(f) ==> !x.live
    decreases f
  {
    ghost var rest := f;
    for i := 0 to |nodes|
      invariant rest == f[i..] && Linked(rest) && Distinct(rest) && IdSet(rest) <= IdSet(f)
      invariant forall x :: x in IdSet(f) && x !in IdSet(rest) ==> !x.live
    {
      FirstTree(rest);
      assert allocated(IdSet(f)) && allocated(IdSet(rest[1..]));
      nodes[i].Delete(rest[0]);
      rest := rest[1..];
    }
  }
}
