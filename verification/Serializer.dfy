/** Writing trees to, and reading them from, a growing byte buffer
    (mutators/grammar/grammar.cpp, BinaryRW, EncodeTree, DecodeTree, ToString,
    EncodeSample, DecodeSample). */
module Serializer {
  import opened Wrappers
  import opened Trees
  import opened Grammars
  import opened TreeNodes
  import opened Codec

  const BINARY_RW_INITIAL_SIZE: nat := 128

  class BinaryRW {
    var bytes: array<char>
    var sizeCurrent: nat
    var readPos: nat

    ghost predicate Valid()
      reads this
    {
      readPos <= sizeCurrent <= bytes.Length
    }

    ghost function Written(): string
      reads this, bytes
      requires Valid()
    {
      bytes[..sizeCurrent]
    }

    ghost function Unread(): string
      reads this, bytes
      requires Valid()
    {
      bytes[readPos..sizeCurrent]
    }

    constructor ()
      ensures Valid() && Written() == "" && bytes.Length > 0 && fresh(bytes)
    {
      bytes := new char[BINARY_RW_INITIAL_SIZE];
      sizeCurrent, readPos := 0, 0;
    }

    constructor FromData(data: string)
      ensures Valid() && Unread() == data && fresh(bytes)
    {
      bytes := new char[|data|](i requires 0 <= i < |data| => data[i]);
      sizeCurrent, readPos := |data|, 0;
      new;
      assert bytes[..] == data;
    }

    method WriteData(data: string)
      requires Valid() && bytes.Length > 0
      modifies this, bytes
      ensures Valid() && bytes.Length > 0 && (bytes == old(bytes) || fresh(bytes))
      ensures Written() == old(Written()) + data
    {
      var sizeAllocated := bytes.Length;
      while sizeCurrent + |data| > sizeAllocated
        invariant sizeAllocated >= bytes.Length > 0
        decreases sizeCurrent + |data| - sizeAllocated
      {
        sizeAllocated := sizeAllocated * 2;
      }
      if sizeAllocated > bytes.Length {
        var grown := new char[sizeAllocated];
        forall i | 0 <= i < sizeCurrent {
          grown[i] := bytes[i];
        }
        assert grown[..sizeCurrent] == bytes[..sizeCurrent];
        bytes := grown;
      }
      ghost var before := bytes[..sizeCurrent];
      forall i | 0 <= i < |data| {
        bytes[sizeCurrent + i] := data[i];
      }
      assert bytes[..sizeCurrent] == before;
      assert bytes[sizeCurrent..sizeCurrent + |data|] == data;
      sizeCurrent := sizeCurrent + |data|;
      assert bytes[..sizeCurrent] == before + data;
    }

    method WriteSize(size: nat)
      requires Valid() && bytes.Length > 0
      modifies this, bytes
      ensures Valid() && bytes.Length > 0 && (bytes == old(bytes) || fresh(bytes))
      ensures Written() == old(Written()) + U64(size)
    {
      WriteData(U64(size));
    }

    method WriteString(s: string)
      requires Valid() && bytes.Length > 0
      modifies this, bytes
      ensures Valid() && bytes.Length > 0 && (bytes == old(bytes) || fresh(bytes))
      ensures Written() == old(Written()) + EncodeString(s)
    {
      WriteSize(|s|);
      WriteData(s);
      assert Written() == old(Written()) + (U64(|s|) + s);
    }

    method ReadData(size: nat) returns (data: Option<string>)
      requires Valid()
      modifies this`readPos
      ensures Valid()
      ensures data.Some? <==> size <= |old(Unread())|
      ensures data.Some? ==> data.value == old(Unread())[..size] && Unread() == old(Unread())[size..]
      ensures data.None? ==> readPos == old(readPos)
    {
      if readPos + size > sizeCurrent {
        return None;
      }
      data := Some(bytes[readPos..readPos + size]);
      readPos := readPos + size;
    }

    method ReadSize() returns (size: Option<nat>)
      requires Valid()
      modifies this`readPos
      ensures Valid()
      ensures size.Some? <==> 8 <= |old(Unread())|
      ensures size.Some? ==> size.value == FromLittleEndian(old(Unread())[..8]) && Unread() == old(Unread())[8..]
    {
      var data := ReadData(8);
      if data.None? {
        return None;
      }
      size := Some(FromLittleEndian(data.value));
    }

    method ReadString() returns (s: Option<string>)
      requires Valid()
      modifies this`readPos
      ensures Valid()
      ensures s.Some? <==> DecodeString(old(Unread())).Some?
      ensures s.Some? ==> DecodeString(old(Unread())) == Some((s.value, Unread()))
    {
      var size := ReadSize();
      if size.None? {
        return None;
      }
      ghost var b := old(Unread());
      if 8 + size.value <= |b| {
        assert b[8..][..size.value] == b[8..8 + size.value];
        assert b[8..][size.value..] == b[8 + size.value..];
      }
      s := ReadData(size.value);
    }

    method WriteHeader(tag: char, text: string, nchildren: nat)
      requires Valid() && bytes.Length > 0
      modifies this, bytes
      ensures Valid() && bytes.Length > 0 && (bytes == old(bytes) || fresh(bytes))
      ensures Written() == old(Written()) + EncodeHeader(Header(tag, text, nchildren))
    {
      hide EncodeString, U64;
      WriteData([tag]);
      WriteString(text);
      WriteSize(nchildren);
    }

    method ReadHeader(g: Grammar) returns (h: Option<Header>)
      requires Valid()
      modifies this`readPos
      ensures Valid()
      ensures h.Some? <==> DecodeHeader(g, old(Unread())).Some?
      ensures h.Some? ==> DecodeHeader(g, old(Unread())) == Some((h.value, Unread()))
    {
      hide DecodeString, FromLittleEndian;
      var ty := ReadData(1);
      if ty.None? {
        return None;
      }
      var text := ReadString();
      if text.None? {
        return None;
      }
      if ty.value[0] != STRING && text.value !in g {
        return None;
      }
      var nchildren := ReadSize();
      if nchildren.None? {
        return None;
      }
      h := Some(Header(ty.value[0], text.value, nchildren.value));
    }
  }

  /** Appends the text of the tree to `out`. */
  method ToString(tree: TreeNode, out: string, ghost sh: Shape) returns (r: string)
    requires Linked([sh]) && sh.id == tree
    ensures r == out + Yield([sh])
    decreases sh
  {
    hide Yield, Linked, IdSet;
    LinkedOne(sh);
    YieldNode(sh);
    if tree.Tag() == STRING {
      r := out + tree.Text();
    } else {
      r := out;
      for i := 0 to |tree.Children()|
        invariant Linked(sh.kids) && r == out + Yield(sh.kids[..i])
      {
        LinkedAt(sh.kids, i);
        assert allocated(IdSet(sh.kids));
        r := ToString(tree.Children()[i], r, sh.kids[i]);
        YieldExtends(out, sh.kids, i);
      }
      assert sh.kids[..|tree.children|] == sh.kids;
    }
  }

  lemma YieldNode<Id>(t: Tree<Id>)
    ensures Yield([t]) == if t.tag == STRING then t.text else Yield(t.kids)
    ensures Yield(t.kids[..0]) == ""
  {
    assert [t][1..] == [];
  }

  lemma YieldExtends<Id>(out: string, f: seq<Tree<Id>>, i: nat)
    requires i < |f|
    ensures out + Yield(f[..i]) + Yield([f[i]]) == out + Yield(f[..i + 1])
  {
    hide Yield;
    YieldConcat(f[..i], [f[i]]);
    assert f[..i + 1] == f[..i] + [f[i]];
  }

  method EncodeTree(tree: TreeNode, rw: BinaryRW, ghost sh: Shape)
    requires Linked([sh]) && sh.id == tree
    requires rw.Valid() && rw.bytes.Length > 0
    modifies rw, rw.bytes
    ensures rw.Valid() && rw.bytes.Length > 0 && (rw.bytes == old(rw.bytes) || fresh(rw.bytes))
    ensures rw.Written() == old(rw.Written()) + Encode([sh])
    decreases sh, 1
  {
    hide EncodeHeader, Encode, Linked, IdSet;
    LinkedOne(sh);
    EncodeNode(sh);
    assert allocated(IdSet(sh.kids));
    rw.WriteHeader(tree.Tag(), tree.Text(), |tree.Children()|);
    EncodeTrees(tree.Children(), rw, sh.kids);
  }

  method EncodeTrees(nodes: seq<TreeNode>, rw: BinaryRW, ghost f: seq<Shape>)
    requires Linked(f) && nodes == Roots(f)
    requires rw.Valid() && rw.bytes.Length > 0
    modifies rw, rw.bytes
    ensures rw.Valid() && rw.bytes.Length > 0 && (rw.bytes == old(rw.bytes) || fresh(rw.bytes))
    ensures rw.Written() == old(rw.Written()) + Encode(f)
    decreases f, 0
  {
    hide Encode, Linked, IdSet;
    ghost var w := rw.Written();
    EncodeNothing(w, f);
    for i := 0 to |nodes|
      invariant Linked(f)
      invariant rw.Valid() && rw.bytes.Length > 0 && (rw.bytes == old(rw.bytes) || fresh(rw.bytes))
      invariant rw.Written() == w + Encode(f[..i])
    {
      LinkedAt(f, i);
      assert allocated(IdSet(f));
      EncodeTree(nodes[i], rw, f[i]);
      EncodeExtends(w, f, i);
    }
    assert f[..|nodes|] == f;
  }

  lemma EncodeNothing<Id>(w: string, f: seq<Tree<Id>>)
    ensures w == w + Encode(f[..0])
  {
  }

  lemma EncodeExtends<Id>(w: string, f: seq<Tree<Id>>, i: nat)
    requires i < |f|
    ensures w + Encode(f[..i]) + Encode([f[i]]) == w + Encode(f[..i + 1])
  {
    hide Encode;
    EncodeConcat(f[..i], [f[i]]);
    assert f[..i + 1] == f[..i] + [f[i]];
  }

  lemma EncodeNode<Id>(t: Tree<Id>)
    ensures Encode([t]) == EncodeHeader(HeaderOf(t)) + Encode(t.kids)
  {
    assert [t][1..] == [];
  }

  /** Reads one tree; a null result is a decoding error. */
  method DecodeTree(g: Grammar, rw: BinaryRW) returns (tree: TreeNode?, ghost f: seq<Shape>)
    requires rw.Valid()
    modifies rw`readPos
    ensures rw.Valid() && fresh(IdSet(f))
    ensures tree == null <==> Decode(g, old(rw.Unread()), 1).None?
    ensures tree != null ==>
      && |f| == 1 && IsTree(tree, f[0])
      && Decode(g, old(rw.Unread()), 1) == Some((EraseAll(f), rw.Unread()))
    decreases rw.sizeCurrent - rw.readPos
  {
    hide DecodeHeader, Decode, Resume, Linked, Distinct, Erase, EraseAll, IdSet;
    NothingYet([]);
    f := [];
    ghost var b := rw.Unread();
    var header := rw.ReadHeader(g);
    if header.None? {
      DecodeFailsAtHeader(g, b);
      return null, [];
    }
    var h := header.value;
    DecodeHeaderShorter(g, b);
    ghost var b1 := rw.Unread();
    var kids: seq<TreeNode> := [];
    ghost var done: seq<Shape> := [];
    assert Resume([], Decode(g, b1, h.nkids)) == Decode(g, b1, h.nkids) by {
      ResumeNothing(Decode(g, b1, h.nkids));
    }
    for i := 0 to h.nkids
      invariant rw.Valid() && |rw.Unread()| <= |b1| && rw.sizeCurrent == old(rw.sizeCurrent)
      invariant kids == Roots(done) && Linked(done) && Distinct(done) && fresh(IdSet(done))
      invariant Resume(EraseAll(done), Decode(g, rw.Unread(), h.nkids - i)) == Decode(g, b1, h.nkids)
    {
      DecodeOneMore(g, rw.Unread(), h.nkids - i);
      assert allocated(IdSet(done));
      var child, one := DecodeTree(g, rw);
      if child == null {
        ResumeFails(EraseAll(done));
        DecodeFails(g, b, h, b1);
        return null, [];
      }
      assert one == [one[0]];
      Append(done, one[0]);
      EraseConcat(done, one);
      ResumeTwice(EraseAll(done), EraseAll(one), Decode(g, rw.Unread(), h.nkids - i - 1));
      kids, done := kids + [child], done + one;
    }
    ResumeEnd(EraseAll(done), g, rw.Unread());
    assert allocated(IdSet(done));
    var node := new TreeNode();
    node.tag, node.text, node.children := h.tag, h.text, kids;
    ghost var sh := Node(node, node.tag, node.text, done);
    OpenTree(sh);
    tree, f := node, [sh];
    DecodeOne(g, b, h, b1, EraseAll(done), rw.Unread());
    EraseOne(sh);
  }

  /** What reading the remaining trees adds to those already read. */
  ghost function Resume(done: seq<Value>, more: Option<(seq<Value>, string)>): Option<(seq<Value>, string)> {
    match more
    case None => None
    case Some((f, rest)) => Some((done + f, rest))
  }

  lemma ResumeNothing(more: Option<(seq<Value>, string)>)
    ensures Resume([], more) == more
  {
    if more.Some? {
      assert [] + more.value.0 == more.value.0;
    }
  }

  lemma ResumeFails(done: seq<Value>)
    ensures Resume(done, None) == None
  {
  }

  lemma ResumeEnd(done: seq<Value>, g: Grammar, b: string)
    ensures Resume(done, Decode(g, b, 0)) == Some((done, b))
  {
    assert done + [] == done;
  }

  lemma ResumeTwice(done: seq<Value>, one: seq<Value>, more: Option<(seq<Value>, string)>)
    ensures Resume(done, Resume(one, more)) == Resume(done + one, more)
  {
    if more.Some? {
      assert done + (one + more.value.0) == (done + one) + more.value.0;
    }
  }

  lemma DecodeOneMore(g: Grammar, b: string, n: nat)
    requires n > 0
    ensures Decode(g, b, n) ==
      match Decode(g, b, 1)
      case None => None
      case Some((one, rest)) => Resume(one, Decode(g, rest, n - 1))
  {
    hide DecodeHeader;
    match DecodeHeader(g, b)
    case None =>
    case Some((h, b1)) =>
      match Decode(g, b1, h.nkids)
      case None =>
      case Some((kids, b2)) =>
        DecodeOne(g, b, h, b1, kids, b2);
  }

  lemma DecodeOne(g: Grammar, b: string, h: Header, b1: string, kids: seq<Value>, b2: string)
    requires DecodeHeader(g, b) == Some((h, b1)) && Decode(g, b1, h.nkids) == Some((kids, b2))
    ensures Decode(g, b, 1) == Some(([Node((), h.tag, h.text, kids)], b2))
  {
    hide DecodeHeader;
    var one := Node((), h.tag, h.text, kids);
    assert Decode(g, b2, 0) == Some(([], b2));
    assert [one] + [] == [one];
  }

  lemma DecodeHeaderShorter(g: Grammar, b: string)
    ensures DecodeHeader(g, b).Some? ==> |DecodeHeader(g, b).value.1| < |b|
  {
  }

  lemma DecodeFailsAtHeader(g: Grammar, b: string)
    requires DecodeHeader(g, b).None?
    ensures Decode(g, b, 1).None?
  {
  }

  lemma DecodeFails(g: Grammar, b: string, h: Header, b1: string)
    requires DecodeHeader(g, b) == Some((h, b1)) && Decode(g, b1, h.nkids).None?
    ensures Decode(g, b, 1).None?
  {
    hide DecodeHeader;
  }

  lemma {:induction false} EncodeConcat<Id>(a: seq<Tree<Id>>, b: seq<Tree<Id>>)
    ensures Encode(a + b) == Encode(a) + Encode(b)
  {
    if a == [] {
      assert a + b == b;
    } else {
      assert (a + b)[1..] == a[1..] + b;
      EncodeConcat(a[1..], b);
    }
  }

  /** The sample made of a tree, as its bytes. */
  method EncodeSampleOf(tree: TreeNode, ghost sh: Shape) returns (sample: string)
    requires Linked([sh]) && sh.id == tree
    ensures sample == EncodeSample(sh)
  {
    hide Encode, Yield, EncodeString, Linked, IdSet;
    assert allocated(IdSet([sh]));
    var text := ToString(tree, "", sh);
    var rw := new BinaryRW();
    rw.WriteString(text);
    EncodeTree(tree, rw, sh);
    sample := rw.bytes[..rw.sizeCurrent];
    assert "" + text == text && "" + Yield([sh]) == Yield([sh]);
    assert "" + EncodeString(text) == EncodeString(text);
  }

  /** The tree a sample was made of; null when its bytes are not accepted. */
  method DecodeSampleTree(g: Grammar, sample: string) returns (tree: TreeNode?, ghost f: seq<Shape>)
    ensures tree == null <==> DecodeSample(g, sample).None?
    ensures tree != null ==> |f| == 1 && IsTree(tree, f[0]) && DecodeSample(g, sample) == Some(Erase(f[0]))
    ensures fresh(IdSet(f))
  {
    var rw := new BinaryRW.FromData(sample);
    var text := rw.ReadString();
    if text.None? {
      return null, [];
    }
    tree, f := DecodeTree(g, rw);
  }
}
