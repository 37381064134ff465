/** Where a sample first differs from the samples seen so far (sample.cpp). */
module Prefixes {
  /** The length of the longest common prefix. */
  function CommonPrefix(a: string, b: string): (k: nat)
    ensures k <= |a| && k <= |b|
  {
    if a == "" || b == "" || a[0] != b[0] then 0 else 1 + CommonPrefix(a[1..], b[1..])
  }

  /** Its defining property: `b[..k]` is a prefix of `a` exactly for `k` up to it. */
  lemma {:induction false} CommonPrefixIs(a: string, b: string, k: nat)
    requires k <= |b|
    ensures b[..k] <= a <==> k <= CommonPrefix(a, b)
  {
    if k > 0 && a != "" && a[0] == b[0] {
      CommonPrefixIs(a[1..], b[1..], k - 1);
      assert b[..k] == [b[0]] + b[1..][..k - 1] && a == [a[0]] + a[1..];
      if b[..k] <= a {
        assert b[1..][..k - 1] == b[..k][1..] && b[..k][1..] <= a[1..];
      }
    }
  }

  /** The longest prefix that a sample shares with any earlier one. */
  function LongestShared(earlier: seq<string>, sample: string): (k: nat)
    ensures k <= |sample|
  {
    if earlier == [] then 0
    else
      var rest := LongestShared(earlier[1..], sample);
      var first := CommonPrefix(earlier[0], sample);
      if first > rest then first else rest
  }

  /** It is the one length up to which some earlier sample agrees and beyond which none does. */
  lemma {:induction false} LongestSharedIs(earlier: seq<string>, sample: string, k: nat)
    requires k <= |sample|
    requires k > 0 ==> exists a :: a in earlier && sample[..k] <= a
    requires forall a :: a in earlier && k < |sample| ==> !(sample[..k + 1] <= a)
    ensures LongestShared(earlier, sample) == k
  {
    forall a | a in earlier
      ensures CommonPrefix(a, sample) <= k
    {
      if k < |sample| {
        CommonPrefixIs(a, sample, k + 1);
      }
    }
    if k > 0 {
      var a :| a in earlier && sample[..k] <= a;
      CommonPrefixIs(a, sample, k);
    }
    LongestSharedIsMax(earlier, sample);
  }

  lemma {:induction false} LongestSharedIsMax(earlier: seq<string>, sample: string)
    ensures forall a :: a in earlier ==> CommonPrefix(a, sample) <= LongestShared(earlier, sample)
    ensures LongestShared(earlier, sample) == 0
            || exists a :: a in earlier && CommonPrefix(a, sample) == LongestShared(earlier, sample)
  {
    if earlier != [] {
      var rest := earlier[1..];
      LongestSharedIsMax(rest, sample);
      assert earlier == [earlier[0]] + rest;
      var k := LongestShared(earlier, sample);
      if k > 0 && k != CommonPrefix(earlier[0], sample) {
        var a :| a in rest && CommonPrefix(a, sample) == LongestShared(rest, sample);
        assert a in earlier;
      } else {
        assert earlier[0] in earlier;
      }
    }
  }

  /** The first place where two samples differ (Sample::FindFirstDiff). */
  method FindFirstDiff(a: string, b: string) returns (k: nat)
    ensures k == CommonPrefix(a, b)
  {
    var minsize := if |b| < |a| then |b| else |a|;
    for i := 0 to minsize
      invariant CommonPrefix(a, b) == i + CommonPrefix(a[i..], b[i..])
    {
      assert a[i..][1..] == a[i + 1..] && b[i..][1..] == b[i + 1..];
      if a[i] != b[i] {
        return i;
      }
    }
    return minsize;
  }
}

/** Path-compressed tries as values: what each node holds, and the text on the way to it. */
module TrieImages {
  import opened Prefixes

  datatype Node<Id> = Node(path: string, constantPart: string, children: map<char, Id>) {
    /** The node reads the texts from its path through its constant part. */
    ghost predicate Reads(s: string) {
      path <= s && s <= path + constantPart
    }
  }

  /** Children continue their parent's text by one character, and every node but the root
      has a parent. */
  ghost predicate IsTrie<Id>(t: map<Id, Node>, root: Id) {
    && root in t && t[root].path == ""
    && (forall n :: n in t ==> ChildrenContinue(t, n))
    && (forall n :: n in t && n != root ==> HasParent(t, n))
  }

  ghost predicate ChildrenContinue<Id>(t: map<Id, Node>, n: Id)
    requires n in t
  {
    forall c :: c in t[n].children ==>
      t[n].children[c] in t && Follows(t[n], c, t[t[n].children[c]].path)
  }

  /** The text of a child is the text of its parent and the character that leads to it. */
  ghost predicate Follows<Id>(parent: Node<Id>, c: char, path: string) {
    path == parent.path + parent.constantPart + [c]
  }

  ghost predicate HasParent<Id>(t: map<Id, Node>, n: Id) {
    exists p, c :: p in t && c in t[p].children && t[p].children[c] == n
  }

  ghost predicate Readable<Id>(t: map<Id, Node>, s: string) {
    exists n :: n in t && t[n].Reads(s)
  }

  lemma Parent<Id>(t: map<Id, Node>, root: Id, n: Id) returns (p: Id)
    requires IsTrie(t, root) && n in t && n != root
    ensures p in t && t[n].path != ""
    ensures var c := t[n].path[|t[n].path| - 1];
            c in t[p].children && t[p].children[c] == n && t[n].path == t[p].path + t[p].constantPart + [c]
  {
    assert HasParent(t, n);
    var q, c :| q in t && c in t[q].children && t[q].children[c] == n;
    assert ChildrenContinue(t, q);
    assert t[n].path == t[q].path + t[q].constantPart + [c];
    assert t[n].path[|t[n].path| - 1] == c;
    p := q;
  }

  /** The node that reads a text without its last character: the same node, or its parent
      when the text has only just reached the node. */
  lemma Back<Id>(t: map<Id, Node>, root: Id, s: string, n: Id) returns (p: Id)
    requires IsTrie(t, root) && n in t && t[n].Reads(s) && s != ""
    ensures p in t && t[p].Reads(s[..|s| - 1])
    ensures t[n].path != s ==> p == n
    ensures t[n].path == s ==> var c := s[|s| - 1];
                               c in t[p].children && t[p].children[c] == n && s == t[p].path + t[p].constantPart + [c]
  {
    if t[n].path == s {
      p := Parent(t, root, n);
      assert s[..|s| - 1] == t[p].path + t[p].constantPart;
    } else {
      p := n;
    }
  }

  /** A text is read by one node only. */
  lemma {:induction false} OneReader<Id>(t: map<Id, Node>, root: Id, s: string, m: Id, n: Id)
    requires IsTrie(t, root) && m in t && n in t && t[m].Reads(s) && t[n].Reads(s)
    ensures m == n
    decreases |s|
  {
    if s == "" {
      if m != root {
        var p := Parent(t, root, m);
      }
      if n != root {
        var p := Parent(t, root, n);
      }
    } else {
      var p := Back(t, root, s, m);
      var q := Back(t, root, s, n);
      hide IsTrie;
      OneReader(t, root, s[..|s| - 1], p, q);
    }
  }

  lemma ChildContinues<Id>(t: map<Id, Node>, root: Id, n: Id, c: char)
    requires IsTrie(t, root) && n in t && c in t[n].children
    ensures t[n].children[c] in t && t[t[n].children[c]].path == t[n].path + t[n].constantPart + [c]
  {
    assert ChildrenContinue(t, n);
  }

  /** When the trie reads one more character: the reader's constant part has it next, or
      the reader has it as a child at the end of its constant part. */
  lemma Extends<Id>(t: map<Id, Node>, root: Id, cur: Id, s: string, c: char)
    requires IsTrie(t, root) && cur in t && t[cur].Reads(s)
    ensures Readable(t, s + [c])
            <==> t[cur].Reads(s + [c]) || (s == t[cur].path + t[cur].constantPart && c in t[cur].children)
  {
    hide IsTrie;
    if n :| n in t && t[n].Reads(s + [c]) {
      ReaderAfter(t, root, cur, s, c, n);
    }
    if s == t[cur].path + t[cur].constantPart && c in t[cur].children {
      ChildContinues(t, root, cur, c);
      assert t[t[cur].children[c]].Reads(s + [c]);
    }
  }

  lemma ReaderAfter<Id>(t: map<Id, Node>, root: Id, cur: Id, s: string, c: char, n: Id)
    requires IsTrie(t, root) && cur in t && t[cur].Reads(s) && n in t && t[n].Reads(s + [c])
    ensures n == cur || (s == t[cur].path + t[cur].constantPart && c in t[cur].children)
  {
    var r := s + [c];
    assert r[..|r| - 1] == s && r[|r| - 1] == c;
    var p := Back(t, root, r, n);
    OneReader(t, root, s, cur, p);
    hide IsTrie, Node.Reads;
    if n != cur {
      var end := t[cur].path + t[cur].constantPart;
      assert r == end + [c];
      assert r[..|r| - 1] == end;
    }
  }

  /** The texts the trie reads are the prefixes of the non-empty samples. */
  ghost predicate Describes<Id>(t: map<Id, Node>, samples: seq<string>) {
    forall s :: Readable(t, s) <==> exists a :: a in samples && a != "" && s <= a
  }

  /** A sample whose longest readable prefix ends before its last character. */
  lemma Stopped<Id>(t: map<Id, Node>, samples: seq<string>, sample: string, k: nat)
    requires Describes(t, samples) && k < |sample|
    requires Readable(t, sample[..k]) && !Readable(t, sample[..k + 1])
    ensures LongestShared(samples, sample) == k
  {
    var a :| a in samples && a != "" && sample[..k] <= a;
    LongestSharedIs(samples, sample, k);
  }

  /** A trie that also reads the rest of such a sample describes one sample more. */
  lemma DescribesMore<Id>(t: map<Id, Node>, u: map<Id, Node>, samples: seq<string>, sample: string, k: nat)
    requires Describes(t, samples) && k < |sample| && Readable(t, sample[..k])
    requires forall s :: Readable(u, s) <==> Readable(t, s) || (sample[..k + 1] <= s && s <= sample)
    ensures Describes(u, samples + [sample])
  {
    hide Readable;
    var b :| b in samples && b != "" && sample[..k] <= b;
    forall s
      ensures Readable(u, s) <==> exists a :: a in samples + [sample] && a != "" && s <= a
    {
      if s <= sample && |s| <= k {
        assert s == sample[..k][..|s|] && s <= b;
      }
      if Readable(t, s) {
        var a :| a in samples && a != "" && s <= a;
        assert a in samples + [sample];
      } else if a :| a in samples + [sample] && a != "" && s <= a {
        assert a == sample;
        assert sample[..k + 1] <= s;
      } else {
        assert sample in samples + [sample];
      }
    }
  }

  lemma RootPath<Id>(t: map<Id, Node>, root: Id)
    requires IsTrie(t, root)
    ensures root in t && t[root].path == ""
  {
  }

  /** One node replaced and one added. */
  lemma TwoChanges<Id>(h: map<Id, Node>, t: map<Id, Node>, cur: Id, a: Node<Id>, other: Id, b: Node<Id>)
    requires cur in t && other !in t && h.Keys == t.Keys + {other}
    requires h[cur] == a && h[other] == b && forall n :: n in t && n != cur ==> h[n] == t[n]
    ensures h == t[cur := a][other := b]
  {
  }

  /** A leaf added under `cur`, which reads `rest` after its character. */
  ghost function Attached<Id>(t: map<Id, Node>, cur: Id, c: char, leaf: Id, rest: string): map<Id, Node>
    requires cur in t
  {
    var parent := t[cur];
    t[cur := parent.(children := parent.children[c := leaf])]
     [leaf := Node(parent.path + parent.constantPart + [c], rest, map[])]
  }

  lemma AttachedIsTrie<Id>(t: map<Id, Node>, root: Id, cur: Id, c: char, leaf: Id, rest: string)
    requires IsTrie(t, root) && cur in t && leaf !in t && c !in t[cur].children
    ensures IsTrie(Attached(t, cur, c, leaf, rest), root)
  {
    var u := Attached(t, cur, c, leaf, rest);
    forall n | n in u
      ensures ChildrenContinue(u, n)
    {
      AttachedContinues(t, cur, c, leaf, rest, n);
    }
    forall n | n in u && n != root
      ensures HasParent(u, n)
    {
      AttachedParent(t, cur, c, leaf, rest, n);
    }
    hide HasParent, ChildrenContinue;
  }

  lemma AttachedContinues<Id>(t: map<Id, Node>, cur: Id, c: char, leaf: Id, rest: string, n: Id)
    requires cur in t && leaf !in t && c !in t[cur].children
    requires n != leaf ==> n in t && ChildrenContinue(t, n)
    ensures ChildrenContinue(Attached(t, cur, c, leaf, rest), n)
  {
    var u := Attached(t, cur, c, leaf, rest);
    if n == cur {
      assert Follows(u[n], c, u[leaf].path);
    }
    forall d | d in u[n].children && n != leaf && !(n == cur && d == c)
      ensures u[n].children[d] in u && Follows(u[n], d, u[u[n].children[d]].path)
    {
      assert d in t[n].children && Follows(t[n], d, t[t[n].children[d]].path);
    }
  }

  lemma AttachedParent<Id>(t: map<Id, Node>, cur: Id, c: char, leaf: Id, rest: string, n: Id)
    requires cur in t && leaf !in t && c !in t[cur].children
    requires n != leaf ==> n in t && HasParent(t, n)
    ensures HasParent(Attached(t, cur, c, leaf, rest), n)
  {
    var u := Attached(t, cur, c, leaf, rest);
    if n == leaf {
      assert c in u[cur].children && u[cur].children[c] == n;
    } else {
      var p, d :| p in t && d in t[p].children && t[p].children[d] == n;
      assert d in u[p].children && u[p].children[d] == n;
    }
  }

  lemma AttachedReads<Id>(t: map<Id, Node>, cur: Id, c: char, leaf: Id, rest: string, s: string)
    requires cur in t && leaf !in t
    ensures var p := t[cur].path + t[cur].constantPart + [c];
            Readable(Attached(t, cur, c, leaf, rest), s) <==> Readable(t, s) || (p <= s && s <= p + rest)
  {
    var u := Attached(t, cur, c, leaf, rest);
    assert forall n :: n in t ==> (u[n].Reads(s) <==> t[n].Reads(s));
    assert leaf in u;
    if n :| n in t && t[n].Reads(s) {
      assert u[n].Reads(s);
    }
  }

  /** A node whose constant part is cut after `k` characters; the rest moves to a new child. */
  ghost function Divided<Id>(t: map<Id, Node>, cur: Id, k: nat, lower: Id): map<Id, Node>
    requires cur in t && k < |t[cur].constantPart|
  {
    var Node(path, constantPart, children) := t[cur];
    var c := constantPart[k];
    t[cur := Node(path, constantPart[..k], map[c := lower])]
     [lower := Node(path + constantPart[..k] + [c], constantPart[k + 1..], children)]
  }

  lemma DividedIsTrie<Id>(t: map<Id, Node>, root: Id, cur: Id, k: nat, lower: Id)
    requires IsTrie(t, root) && cur in t && lower !in t && k < |t[cur].constantPart|
    ensures IsTrie(Divided(t, cur, k, lower), root)
  {
    var u := Divided(t, cur, k, lower);
    forall n | n in u
      ensures ChildrenContinue(u, n)
    {
      DividedContinues(t, cur, k, lower, n);
    }
    forall n | n in u && n != root
      ensures HasParent(u, n)
    {
      DividedParent(t, cur, k, lower, n);
    }
    hide HasParent, ChildrenContinue;
  }

  lemma DividedContinues<Id>(t: map<Id, Node>, cur: Id, k: nat, lower: Id, n: Id)
    requires cur in t && lower !in t && k < |t[cur].constantPart|
    requires ChildrenContinue(t, cur) && (n != lower ==> n in t && ChildrenContinue(t, n))
    ensures ChildrenContinue(Divided(t, cur, k, lower), n)
  {
    var u := Divided(t, cur, k, lower);
    if n == lower {
      assert t[cur].path + t[cur].constantPart == u[n].path + u[n].constantPart;
      forall d | d in u[n].children
        ensures u[n].children[d] in u && Follows(u[n], d, u[u[n].children[d]].path)
      {
        assert d in t[cur].children && Follows(t[cur], d, t[t[cur].children[d]].path);
      }
    } else if n != cur {
      forall d | d in u[n].children
        ensures u[n].children[d] in u && Follows(u[n], d, u[u[n].children[d]].path)
      {
        assert d in t[n].children && Follows(t[n], d, t[t[n].children[d]].path);
      }
    }
  }

  lemma DividedParent<Id>(t: map<Id, Node>, cur: Id, k: nat, lower: Id, n: Id)
    requires cur in t && lower !in t && k < |t[cur].constantPart|
    requires n != lower ==> n in t && HasParent(t, n)
    ensures HasParent(Divided(t, cur, k, lower), n)
  {
    var u, c := Divided(t, cur, k, lower), t[cur].constantPart[k];
    if n == lower {
      assert c in u[cur].children && u[cur].children[c] == n;
    } else {
      var p, d :| p in t && d in t[p].children && t[p].children[d] == n;
      var q := if p == cur then lower else p;
      assert d in u[q].children && u[q].children[d] == n;
    }
  }

  /** Dividing a node changes nothing of what the trie reads. */
  lemma DividedReads<Id>(t: map<Id, Node>, cur: Id, k: nat, lower: Id, s: string)
    requires cur in t && lower !in t && k < |t[cur].constantPart|
    ensures Readable(Divided(t, cur, k, lower), s) <==> Readable(t, s)
  {
    var u := Divided(t, cur, k, lower);
    var Node(path, constantPart, children) := t[cur];
    assert constantPart == constantPart[..k] + [constantPart[k]] + constantPart[k + 1..];
    assert t[cur].Reads(s) <==> u[cur].Reads(s) || u[lower].Reads(s) by {
      SplitReads(path, constantPart[..k], constantPart[k], constantPart[k + 1..], s);
    }
    if n :| n in t && t[n].Reads(s) {
      assert n != cur ==> u[n].Reads(s);
    }
    if n :| n in u && u[n].Reads(s) {
      assert n != cur && n != lower ==> t[n].Reads(s);
    }
  }

  lemma SplitReads(p: string, a: string, c: char, b: string, s: string)
    ensures (p <= s && s <= p + (a + [c] + b))
            <==> (p <= s && s <= p + a) || (p + a + [c] <= s && s <= p + a + [c] + b)
  {
    assert p + (a + [c] + b) == p + a + [c] + b;
  }

  /** A new leaf for a sample that leaves the trie at the end of a node. */
  lemma LeafDescribes<Id>(t: map<Id, Node>, root: Id, samples: seq<string>, cur: Id, sample: string, k: nat, leaf: Id)
    requires IsTrie(t, root) && Describes(t, samples) && cur in t && leaf !in t && k < |sample|
    requires t[cur].path + t[cur].constantPart == sample[..k] && sample[k] !in t[cur].children
    ensures var u := Attached(t, cur, sample[k], leaf, sample[k + 1..]);
            IsTrie(u, root) && Describes(u, samples + [sample])
    ensures LongestShared(samples, sample) == k
  {
    hide IsTrie, Readable, Describes, Attached;
    var u := Attached(t, cur, sample[k], leaf, sample[k + 1..]);
    AttachedIsTrie(t, root, cur, sample[k], leaf, sample[k + 1..]);
    assert sample[..k + 1] == sample[..k] + [sample[k]];
    assert sample == sample[..k] + [sample[k]] + sample[k + 1..];
    ReaderReads(t, cur, sample[..k]);
    Extends(t, root, cur, sample[..k], sample[k]);
    Stopped(t, samples, sample, k);
    forall s
      ensures Readable(u, s) <==> Readable(t, s) || (sample[..k + 1] <= s && s <= sample)
    {
      AttachedReads(t, cur, sample[k], leaf, sample[k + 1..], s);
    }
    DescribesMore(t, u, samples, sample, k);
  }

  lemma ReaderReads<Id>(t: map<Id, Node>, cur: Id, s: string)
    requires cur in t && t[cur].Reads(s)
    ensures Readable(t, s)
  {
  }

  lemma DividedDescribes<Id>(t: map<Id, Node>, root: Id, samples: seq<string>, cur: Id, k: nat, lower: Id)
    requires IsTrie(t, root) && Describes(t, samples)
    requires cur in t && lower !in t && k < |t[cur].constantPart|
    ensures var u := Divided(t, cur, k, lower);
            && IsTrie(u, root) && Describes(u, samples)
            && cur in u && u[cur].path == t[cur].path && u[cur].constantPart == t[cur].constantPart[..k]
            && u[cur].children.Keys == {t[cur].constantPart[k]}
  {
    hide IsTrie, Readable;
    DividedIsTrie(t, root, cur, k, lower);
    var u := Divided(t, cur, k, lower);
    assert u[cur] == Node(t[cur].path, t[cur].constantPart[..k], map[t[cur].constantPart[k] := lower]);
    hide Divided;
    forall s
      ensures Readable(u, s) <==> Readable(t, s)
    {
      DividedReads(t, cur, k, lower, s);
    }
  }

  lemma EndReads<Id>(t: map<Id, Node>, cur: Id, sample: string, k: nat)
    requires cur in t && k <= |t[cur].constantPart| && t[cur].path + t[cur].constantPart[..k] == sample
    ensures t[cur].Reads(sample)
  {
    assert t[cur].path + t[cur].constantPart == sample + t[cur].constantPart[k..];
  }

  /** A sample the trie reads to its end. */
  lemma ReadToTheEnd<Id>(t: map<Id, Node>, samples: seq<string>, cur: Id, sample: string)
    requires Describes(t, samples) && cur in t && t[cur].Reads(sample) && sample != ""
    ensures Describes(t, samples + [sample])
    ensures LongestShared(samples, sample) == |sample|
  {
    ReaderReads(t, cur, sample);
    hide Readable;
    var b :| b in samples && b != "" && sample <= b;
    assert sample[..|sample|] == sample;
    LongestSharedIs(samples, sample, |sample|);
    forall s
      ensures Readable(t, s) <==> exists a :: a in samples + [sample] && a != "" && s <= a
    {
      if a :| a in samples + [sample] && a != "" && s <= a {
        assert a in samples || (a == sample && s <= b);
      }
      if a :| a in samples && a != "" && s <= a {
        assert a in samples + [sample];
      }
    }
  }

  /** The empty sample describes nothing. */
  lemma EmptySample<Id>(t: map<Id, Node>, samples: seq<string>)
    requires Describes(t, samples)
    ensures Describes(t, samples + [""])
  {
    hide Readable;
    forall s
      ensures Readable(t, s) <==> exists a :: a in samples + [""] && a != "" && s <= a
    {
      if a :| a in samples && a != "" && s <= a {
        assert a in samples + [""];
      }
    }
  }

  /** The first non-empty sample becomes the root. */
  lemma FirstSample<Id>(t: map<Id, Node>, u: map<Id, Node>, root: Id, samples: seq<string>, sample: string)
    requires t == map[] && Describes(t, samples) && sample != ""
    requires u == map[root := Node("", sample, map[])]
    ensures IsTrie(u, root) && Describes(u, samples + [sample])
    ensures LongestShared(samples, sample) == 0
  {
    assert forall a :: a in samples ==> a == "" by {
      forall a | a in samples
        ensures a == ""
      {
        assert !Readable(t, a);
      }
    }
    LongestSharedIs(samples, sample, 0);
    forall s
      ensures Readable(u, s) <==> exists a :: a in samples + [sample] && a != "" && s <= a
    {
      assert root in u && (u[root].Reads(s) <==> s <= sample) by {
        assert "" + sample == sample;
      }
      assert sample in samples + [sample];
    }
  }
}

module SampleTries {
  import opened Prefixes
  import opened TrieImages

  class TrieNode {
    var constantPart: string
    var children: map<char, TrieNode>

    constructor (constantPart: string, children: map<char, TrieNode>)
      ensures this.constantPart == constantPart && this.children == children
    {
      this.constantPart, this.children := constantPart, children;
    }
  }

  class SampleTrie {
    var root: TrieNode?
    ghost var nodes: set<TrieNode>
    ghost var path: map<TrieNode, string>
    ghost var added: seq<string>

    constructor ()
      ensures Valid() && added == [] && fresh(nodes)
    {
      root, nodes, path, added := null, {}, map[], [];
    }

    /** What the nodes hold. */
    ghost function Image(): map<TrieNode, Node<TrieNode>>
      requires path.Keys == nodes
      reads this`nodes, this`path, nodes
    {
      map n | n in nodes :: Node(path[n], n.constantPart, n.children)
    }

    /** The texts the trie reads are the prefixes of the non-empty samples added. */
    ghost predicate Valid()
      reads this, nodes
    {
      && path.Keys == nodes
      && (root == null ==> nodes == {})
      && (root != null ==> root in nodes && IsTrie(Image(), root))
      && Describes(Image(), added)
    }

    /** Adds a leaf under `cur` that reads `rest` after its character. */
    method Attach(cur: TrieNode, c: char, rest: string) returns (ghost leaf: TrieNode)
      requires path.Keys == nodes && cur in nodes
      modifies this`nodes, this`path, cur`children
      ensures path.Keys == nodes && nodes > old(nodes) && fresh(nodes - old(nodes))
      ensures leaf !in old(nodes) && Image() == Attached(old(Image()), cur, c, leaf, rest)
    {
      ghost var before := Image();
      ghost var was := before[cur];
      var newNode := new TrieNode(rest, map[]);
      leaf := newNode;
      ghost var p := path[cur] + cur.constantPart + [c];
      cur.children := cur.children[c := newNode];
      nodes, path := nodes + {leaf}, path[leaf := p];
      TwoChanges(Image(), before, cur, was.(children := was.children[c := leaf]), leaf, Node(p, rest, map[]));
    }

    /** Cuts the constant part of `cur` after `k` characters; what follows moves to a new
        child. */
    method Split(cur: TrieNode, k: nat) returns (ghost lower: TrieNode)
      requires path.Keys == nodes && cur in nodes && k < |cur.constantPart|
      modifies this`nodes, this`path, cur
      ensures path.Keys == nodes && nodes > old(nodes) && fresh(nodes - old(nodes))
      ensures lower !in old(nodes) && Image() == Divided(old(Image()), cur, k, lower)
    {
      ghost var before := Image();
      ghost var was := before[cur];
      var c := cur.constantPart[k];
      var newNode := new TrieNode(cur.constantPart[k + 1..], cur.children);
      lower := newNode;
      cur.constantPart, cur.children := cur.constantPart[..k], map[c := newNode];
      ghost var p := path[cur] + cur.constantPart + [c];
      nodes, path := nodes + {lower}, path[lower := p];
      TwoChanges(Image(), before, cur, Node(was.path, was.constantPart[..k], map[c := lower]),
                 lower, Node(p, was.constantPart[k + 1..], was.children));
    }

    /** The rest of the sample becomes a leaf under the node that reads its first `pos`
        characters. */
    method AddLeaf(cur: TrieNode, sample: string, pos: nat, ghost samples: seq<string>)
      requires root != null && root in nodes && path.Keys == nodes && cur in nodes
      requires IsTrie(Image(), root) && Describes(Image(), samples) && added == samples + [sample]
      requires pos < |sample| && path[cur] + cur.constantPart == sample[..pos] && sample[pos] !in cur.children
      modifies this`nodes, this`path, cur`children
      ensures Valid() && nodes >= old(nodes) && fresh(nodes - old(nodes))
      ensures pos == LongestShared(samples, sample)
    {
      hide IsTrie, Describes, Attached, LongestShared;
      ghost var t := Image();
      ghost var leaf := Attach(cur, sample[pos], sample[pos + 1..]);
      LeafDescribes(t, root, samples, cur, sample, pos, leaf);
    }

    /** The node is split where the sample leaves its constant part, and takes the leaf. */
    method Branch(cur: TrieNode, k: nat, sample: string, pos: nat, ghost samples: seq<string>)
      requires root != null && root in nodes && path.Keys == nodes && cur in nodes
      requires IsTrie(Image(), root) && Describes(Image(), samples) && added == samples + [sample]
      requires k < |cur.constantPart| && pos < |sample| && sample[pos] != cur.constantPart[k]
      requires path[cur] + cur.constantPart[..k] == sample[..pos]
      modifies this`nodes, this`path, cur
      ensures Valid() && nodes >= old(nodes) && fresh(nodes - old(nodes))
      ensures pos == LongestShared(samples, sample)
    {
      hide IsTrie, Describes, Divided, LongestShared;
      ghost var t := Image();
      ghost var lower := Split(cur, k);
      DividedDescribes(t, root, samples, cur, k, lower);
      assert Image()[cur] == Node(path[cur], cur.constantPart, cur.children);
      AddLeaf(cur, sample, pos, samples);
    }

    /** Where the sample first differs from every sample added before. */
    method AddSample(sample: string) returns (k: nat)
      requires Valid()
      modifies this, nodes
      ensures Valid() && nodes >= old(nodes) && fresh(nodes - old(nodes))
      ensures added == old(added) + [sample]
      ensures k == LongestShared(old(added), sample)
    {
      hide IsTrie, Describes, Attached, Divided, LongestShared, Readable, Node.Reads;
      ghost var t, samples := Image(), added;
      added := added + [sample];
      if sample == "" {
        EmptySample(t, samples);
        return 0;
      }
      if root == null {
        root := new TrieNode(sample, map[]);
        nodes, path := {root}, map[root := ""];
        FirstSample(t, Image(), root, samples, sample);
        return 0;
      }
      var cur, pos, constantPos := root, 0, 0;
      RootPath(t, root);
      while pos < |sample|
        invariant root == old(root) && nodes == old(nodes) && path == old(path) && added == samples + [sample]
        invariant Image() == t
        invariant cur in nodes && pos <= |sample| && constantPos <= |cur.constantPart|
        invariant path[cur] + cur.constantPart[..constantPos] == sample[..pos]
        decreases |sample| - pos
      {
        var c := sample[pos];
        assert sample[..pos + 1] == sample[..pos] + [c];
        if constantPos == |cur.constantPart| {
          assert cur.constantPart[..constantPos] == cur.constantPart;
          if c in cur.children {
            ChildContinues(t, root, cur, c);
            cur, pos, constantPos := cur.children[c], pos + 1, 0;
          } else {
            AddLeaf(cur, sample, pos, samples);
            return pos;
          }
        } else if cur.constantPart[constantPos] == c {
          assert cur.constantPart[..constantPos + 1] == cur.constantPart[..constantPos] + [c];
          pos, constantPos := pos + 1, constantPos + 1;
        } else {
          Branch(cur, constantPos, sample, pos, samples);
          return pos;
        }
      }
      assert sample[..pos] == sample;
      EndReads(t, cur, sample, constantPos);
      ReadToTheEnd(t, samples, cur, sample);
      return |sample|;
    }
  }
}
