/** Consolidation of the ranges of a sample that the target used (rangetracker.cpp). */
module Ranges {
  datatype Range = Range(from: nat, to: nat)

  ghost predicate Covers(rs: seq<Range>, x: nat) {
    exists r :: r in rs && r.from <= x < r.to
  }

  ghost predicate Sorted(rs: seq<Range>) {
    forall i, j :: 0 <= i < j < |rs| ==> rs[i].from <= rs[j].from
  }

  /** There is a gap between any two consecutive ranges. */
  ghost predicate Separated(rs: seq<Range>) {
    forall i :: 0 <= i < |rs| - 1 ==> rs[i].to < rs[i + 1].from
  }

  ghost predicate Proper(rs: seq<Range>) {
    forall r :: r in rs ==> r.from < r.to
  }

  /** `std::sort` by `from`: the order of equal ones is not defined. */
  method Sort(rs: seq<Range>) returns (sorted: seq<Range>)
    ensures Sorted(sorted) && multiset(sorted) == multiset(rs)
  {
    sorted := [];
    for i := 0 to |rs|
      invariant Sorted(sorted) && multiset(sorted) == multiset(rs[..i])
    {
      assert rs[..i + 1] == rs[..i] + [rs[i]];
      sorted := Insert(sorted, rs[i]);
    }
    assert rs[..|rs|] == rs;
  }

  method Insert(sorted: seq<Range>, r: Range) returns (more: seq<Range>)
    requires Sorted(sorted)
    ensures Sorted(more) && multiset(more) == multiset(sorted) + multiset{r}
  {
    var k := 0;
    while k < |sorted| && sorted[k].from <= r.from
      invariant k <= |sorted| && forall j :: 0 <= j < k ==> sorted[j].from <= r.from
    {
      k := k + 1;
    }
    assert sorted == sorted[..k] + sorted[k..];
    return sorted[..k] + [r] + sorted[k..];
  }

  /** The consolidated ranges follow those that were in the output. */
  method ConsolidateRanges(inranges: seq<Range>, outranges: seq<Range>) returns (sorted: seq<Range>, out: seq<Range>)
    ensures multiset(sorted) == multiset(inranges) && Sorted(sorted)
    ensures outranges <= out
    ensures var added := out[|outranges|..];
            && Sorted(added) && Separated(added)
            && (forall x: nat :: Covers(added, x) <==> Covers(inranges, x))
            && (Proper(inranges) ==> Proper(added))
  {
    if inranges == [] {
      return [], outranges;
    }
    sorted := Sort(inranges);
    SameElements(sorted, inranges);
    SameCover(sorted, inranges);
    ghost var added := [sorted[0]];
    out := outranges + [sorted[0]];
    assert sorted[..1] == added;
    hide Separated, Covers, Proper;
    FirstConsolidated(sorted[0]);
    for i := 1 to |sorted|
      invariant added != [] && out == outranges + added
      invariant Consolidated(added, sorted[..i])
    {
      var last, cur := out[|out| - 1], sorted[i];
      ghost var before := added;
      assert last == added[|added| - 1];
      assert sorted[..i + 1] == sorted[..i] + [cur];
      if cur.from <= last.to {
        if cur.to > last.to {
          out := out[|out| - 1 := last.(to := cur.to)];
          added := added[|added| - 1 := last.(to := cur.to)];
        }
      } else {
        out := out + [cur];
        added := added + [cur];
      }
      OneMore(before, sorted[..i], cur, added);
    }
    assert sorted[..|sorted|] == sorted;
    assert out[|outranges|..] == added;
  }

  lemma FirstConsolidated(r: Range)
    ensures Consolidated([r], [r])
  {
  }

  lemma SameElements(a: seq<Range>, b: seq<Range>)
    requires multiset(a) == multiset(b)
    ensures |a| == |b| && forall r :: r in a <==> r in b
  {
    assert |multiset(a)| == |a| && |multiset(b)| == |b|;
    assert forall r :: r in a <==> r in multiset(a);
    assert forall r :: r in b <==> r in multiset(b);
  }

  lemma SameCover(a: seq<Range>, b: seq<Range>)
    requires forall r :: r in a <==> r in b
    ensures forall x: nat :: Covers(a, x) <==> Covers(b, x)
    ensures Proper(a) <==> Proper(b)
  {
  }

  /** The first ranges of the input, consolidated. */
  ghost predicate Consolidated(out: seq<Range>, rs: seq<Range>) {
    && Sorted(out) && Separated(out) && out != [] && rs != []
    && out[|out| - 1].from <= rs[|rs| - 1].from
    && (forall x: nat :: Covers(out, x) <==> Covers(rs, x))
    && (Proper(rs) ==> Proper(out))
  }

  lemma OneMore(out: seq<Range>, rs: seq<Range>, cur: Range, out': seq<Range>)
    requires Consolidated(out, rs) && rs[|rs| - 1].from <= cur.from
    requires var last := out[|out| - 1];
             out' == if cur.from > last.to then out + [cur]
                     else out[|out| - 1 := last.(to := if cur.to > last.to then cur.to else last.to)]
    ensures Consolidated(out', rs + [cur])
  {
    assert forall r :: r in rs ==> r in rs + [cur];
    assert cur in rs + [cur] && out[|out| - 1] in out;
    OneMoreSorted(out, rs, cur, out');
    forall x: nat
      ensures Covers(out', x) <==> Covers(rs + [cur], x)
    {
      hide *;
      OneMoreCover(out, rs, cur, out', x);
    }
    hide Covers, Sorted, Separated;
    forall r | Proper(rs + [cur]) && r in out'
      ensures r.from < r.to
    {
      assert r in out || r == out'[|out'| - 1];
    }
  }

  lemma OneMoreSorted(out: seq<Range>, rs: seq<Range>, cur: Range, out': seq<Range>)
    requires Consolidated(out, rs) && rs[|rs| - 1].from <= cur.from
    requires var last := out[|out| - 1];
             out' == if cur.from > last.to then out + [cur]
                     else out[|out| - 1 := last.(to := if cur.to > last.to then cur.to else last.to)]
    ensures Sorted(out') && Separated(out')
  {
    hide Covers, Proper;
    forall i | 0 <= i < |out'| - 1
      ensures out'[i].to < out'[i + 1].from
    {
      assert i < |out| - 1 ==> out[i].to < out[i + 1].from;
    }
    assert forall i :: 0 <= i < |out| ==> out[i].from <= out[|out| - 1].from;
  }

  lemma OneMoreCover(out: seq<Range>, rs: seq<Range>, cur: Range, out': seq<Range>, x: nat)
    requires Consolidated(out, rs) && rs[|rs| - 1].from <= cur.from
    requires var last := out[|out| - 1];
             out' == if cur.from > last.to then out + [cur]
                     else out[|out| - 1 := last.(to := if cur.to > last.to then cur.to else last.to)]
    ensures Covers(out', x) <==> Covers(rs + [cur], x)
  {
    assert Covers(out, x) <==> Covers(rs, x);
    var n := |out| - 1;
    var last := out[n];
    assert last.from <= cur.from;
    hide Covers, Consolidated;
    assert out == out[..n] + [last];
    CoversAppend(rs, cur, x);
    CoversAppend(out[..n], last, x);
    if cur.from > last.to {
      CoversAppend(out, cur, x);
    } else {
      assert out' == out[..n] + [out'[n]];
      CoversAppend(out[..n], out'[n], x);
    }
  }

  lemma CoversAppend(rs: seq<Range>, r: Range, x: nat)
    ensures Covers(rs + [r], x) <==> Covers(rs, x) || r.from <= x < r.to
  {
    if Covers(rs, x) {
      var q :| q in rs && q.from <= x < q.to;
      assert q in rs + [r];
    }
    assert r in rs + [r];
  }

  // ---------- The consolidated form is the only one ----------

  lemma {:induction false} FromsIncrease(rs: seq<Range>, k: nat)
    requires Separated(rs) && Proper(rs) && 0 < k < |rs|
    ensures rs[0].to < rs[k].from
  {
    if k > 1 {
      FromsIncrease(rs, k - 1);
      assert rs[k - 1] in rs;
    }
    assert rs[k - 1].to < rs[k - 1 + 1].from;
  }

  /** Non-empty ranges with gaps between them are determined by the offsets they cover. */
  lemma {:induction false} CoverDetermines(a: seq<Range>, b: seq<Range>)
    requires Separated(a) && Proper(a) && Separated(b) && Proper(b)
    requires forall x: nat :: Covers(a, x) <==> Covers(b, x)
    ensures a == b
  {
    if a == [] || b == [] {
      assert a != [] ==> Covers(b, a[0].from);
      assert b != [] ==> Covers(a, b[0].from);
    } else {
      FirstRange(a, b);
      FirstRange(b, a);
      assert a[0] == b[0];
      forall x: nat
        ensures Covers(a[1..], x) <==> Covers(b[1..], x)
      {
        CoversRest(a, x);
        CoversRest(b, x);
      }
      RestSeparated(a);
      RestSeparated(b);
      CoverDetermines(a[1..], b[1..]);
      assert a == [a[0]] + a[1..] && b == [b[0]] + b[1..];
    }
  }

  lemma RestSeparated(rs: seq<Range>)
    requires Separated(rs) && Proper(rs) && rs != []
    ensures Separated(rs[1..]) && Proper(rs[1..])
  {
    forall i | 0 <= i < |rs[1..]| - 1
      ensures rs[1..][i].to < rs[1..][i + 1].from
    {
      assert rs[i + 1].to < rs[i + 1 + 1].from;
    }
  }

  /** The ranges after the first cover what lies beyond it. */
  lemma CoversRest(rs: seq<Range>, x: nat)
    requires Separated(rs) && Proper(rs) && rs != []
    ensures Covers(rs[1..], x) <==> Covers(rs, x) && x > rs[0].to
  {
    if Covers(rs[1..], x) {
      var r :| r in rs[1..] && r.from <= x < r.to;
      var k :| 0 <= k < |rs[1..]| && rs[1..][k] == r;
      FromsIncrease(rs, k + 1);
      assert r in rs;
    }
    if Covers(rs, x) && x > rs[0].to {
      var r :| r in rs && r.from <= x < r.to;
      assert r in rs[1..];
    }
  }

  lemma FirstRange(a: seq<Range>, b: seq<Range>)
    requires Separated(a) && Proper(a) && Separated(b) && Proper(b) && a != [] && b != []
    requires forall x: nat :: Covers(a, x) <==> Covers(b, x)
    ensures a[0].from >= b[0].from
    ensures a[0].from == b[0].from ==> a[0].to >= b[0].to
  {
    assert a[0] in a && Covers(b, a[0].from);
    var r :| r in b && r.from <= a[0].from < r.to;
    var k :| 0 <= k < |b| && b[k] == r;
    if k > 0 {
      FromsIncrease(b, k);
      assert b[0] in b;
    }
    if a[0].from == b[0].from && a[0].to < b[0].to {
      assert Covers(b, a[0].to);
      var q :| q in a && q.from <= a[0].to < q.to;
      var j :| 0 <= j < |a| && a[j] == q;
      if j > 0 {
        FromsIncrease(a, j);
      }
    }
  }
}
