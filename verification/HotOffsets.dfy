/** Deterministic mutation around hot offsets (mutator.cpp, BaseDeterministicContext): the
    regions of bytes to work through, and the order in which they are worked through. */
module HotOffsets {
  import opened Wrappers

  const BYTES_PREVIOUS: nat := 3
  const BYTES_NEXT: nat := 20

  /** The bytes from `start` up to `end`; those before `cur` are done, and so are the
      first `progress` values of `cur` itself. */
  datatype Region = Region(start: nat, end: nat, cur: nat, progress: nat)

  function WindowStart(offset: nat): nat {
    if offset < BYTES_PREVIOUS then 0 else offset - BYTES_PREVIOUS
  }

  function WindowEnd(offset: nat): nat {
    offset + BYTES_NEXT
  }

  ghost predicate InWindow(offset: nat, x: nat) {
    WindowStart(offset) <= x < WindowEnd(offset)
  }

  // ---------- Adding a window ----------

  /** Inserts a region cut short at the next one, or stretches the one it starts in. */
  function AddWindow(rs: seq<Region>, a: nat, b: nat): seq<Region> {
    if rs == [] then [Region(a, b, a, 0)]
    else if a < rs[0].start then [Region(a, if rs[0].start > b then b else rs[0].start, a, 0)] + rs
    else if a <= rs[0].end then
      if b <= rs[0].end then rs else [rs[0].(end := b)] + rs[1..]
    else [rs[0]] + AddWindow(rs[1..], a, b)
  }

  ghost predicate Covered(rs: seq<Region>, x: nat) {
    exists i :: 0 <= i < |rs| && rs[i].start <= x < rs[i].end
  }

  ghost predicate Sorted(rs: seq<Region>) {
    && (forall i :: 0 <= i < |rs| ==> rs[i].start < rs[i].end)
    && (forall i, j :: 0 <= i < j < |rs| ==> rs[i].start < rs[j].start)
  }

  /** The bytes after a region's start are covered for the length of a full window, if not
      by the region itself then by those after it. */
  ghost predicate Supported(rs: seq<Region>, all: seq<Region>) {
    forall i, x :: 0 <= i < |rs| && 0 < rs[i].start <= x < rs[i].start + BYTES_PREVIOUS + BYTES_NEXT ==> Covered(all, x)
  }

  lemma CoveredCons(r: Region, rs: seq<Region>, x: nat)
    ensures Covered([r] + rs, x) <==> r.start <= x < r.end || Covered(rs, x)
  {
    var all := [r] + rs;
    if r.start <= x < r.end {
      assert all[0] == r;
    }
    if Covered(rs, x) {
      var i :| 0 <= i < |rs| && rs[i].start <= x < rs[i].end;
      assert all[i + 1] == rs[i];
    }
    if Covered(all, x) {
      var i :| 0 <= i < |all| && all[i].start <= x < all[i].end;
      if i > 0 {
        assert rs[i - 1] == all[i];
      }
    }
  }

  /** Nothing is lost, and nothing beyond the window is gained. */
  lemma {:induction false} AddWindowCovers(rs: seq<Region>, all: seq<Region>, a: nat, b: nat, x: nat)
    requires Sorted(rs) && Supported(rs, all) && b <= a + BYTES_PREVIOUS + BYTES_NEXT
    ensures Covered(rs, x) ==> Covered(AddWindow(rs, a, b), x)
    ensures Covered(AddWindow(rs, a, b), x) ==> Covered(rs, x) || a <= x < b
    ensures a <= x < b ==> Covered(AddWindow(rs, a, b), x) || Covered(all, x)
  {
    hide Covered;
    var out := AddWindow(rs, a, b);
    if rs == [] {
      CoveredCons(Region(a, b, a, 0), [], x);
      assert [Region(a, b, a, 0)] + [] == out;
    } else {
      assert rs == [rs[0]] + rs[1..];
      CoveredCons(rs[0], rs[1..], x);
      if a < rs[0].start {
        CoveredCons(out[0], rs, x);
      } else if a <= rs[0].end {
        if b > rs[0].end {
          CoveredCons(rs[0].(end := b), rs[1..], x);
        }
      } else {
        AddWindowCovers(rs[1..], all, a, b, x);
        CoveredCons(rs[0], AddWindow(rs[1..], a, b), x);
      }
    }
  }

  lemma SortedCons(r: Region, rs: seq<Region>)
    ensures Sorted([r] + rs) <==> r.start < r.end && Sorted(rs) && forall q :: q in rs ==> r.start < q.start
  {
    var all := [r] + rs;
    if Sorted(all) {
      forall i, j | 0 <= i < j < |rs| ensures rs[i].start < rs[j].start {
        assert all[i + 1] == rs[i] && all[j + 1] == rs[j];
      }
      forall i | 0 <= i < |rs| ensures r.start < rs[i].start && rs[i].start < rs[i].end {
        assert all[0] == r && all[i + 1] == rs[i];
      }
    }
  }

  lemma {:induction false} AddWindowStarts(rs: seq<Region>, a: nat, b: nat, r: Region)
    requires r in AddWindow(rs, a, b)
    ensures r.start == a || exists q :: q in rs && q.start == r.start
  {
    if rs == [] {
    } else if rs[0].start <= a && a > rs[0].end {
      if r in AddWindow(rs[1..], a, b) {
        AddWindowStarts(rs[1..], a, b, r);
      }
    } else if rs[0].start <= a && b > rs[0].end {
      if r == rs[0].(end := b) {
        assert rs[0] in rs;
      }
    }
  }

  lemma {:induction false} AddWindowSorted(rs: seq<Region>, a: nat, b: nat)
    requires Sorted(rs) && a < b
    ensures Sorted(AddWindow(rs, a, b))
  {
    hide Sorted;
    SortedNone();
    var added := Region(a, b, a, 0);
    SortedCons(added, []);
    assert [added] + [] == [added];
    if rs != [] {
      assert rs == [rs[0]] + rs[1..];
      SortedCons(rs[0], rs[1..]);
      if a < rs[0].start {
        SortedCons(AddWindow(rs, a, b)[0], rs);
      } else if a <= rs[0].end {
        SortedCons(rs[0].(end := b), rs[1..]);
      } else {
        AddWindowSorted(rs[1..], a, b);
        forall r | r in AddWindow(rs[1..], a, b) ensures rs[0].start < r.start {
          AddWindowStarts(rs[1..], a, b, r);
        }
        SortedCons(rs[0], AddWindow(rs[1..], a, b));
      }
    }
  }

  lemma SortedNone()
    ensures Sorted([])
  {
  }

  /** What the regions are at any time. */
  ghost predicate Good(rs: seq<Region>) {
    Sorted(rs) && Supported(rs, rs)
  }

  /** The cover is exact: adding the window of an offset covers the window's bytes and no
      others, and keeps the regions sorted by start. */
  lemma AddWindowIsExact(rs: seq<Region>, offset: nat)
    requires Good(rs)
    ensures var out := AddWindow(rs, WindowStart(offset), WindowEnd(offset));
      Good(out) && forall x: nat :: Covered(out, x) <==> Covered(rs, x) || InWindow(offset, x)
  {
    var a, b := WindowStart(offset), WindowEnd(offset);
    var out := AddWindow(rs, a, b);
    forall x: nat ensures Covered(out, x) <==> Covered(rs, x) || InWindow(offset, x) {
      AddWindowCovers(rs, rs, a, b, x);
    }
    AddWindowSorted(rs, a, b);
    forall i, x | 0 <= i < |out| && 0 < out[i].start <= x < out[i].start + BYTES_PREVIOUS + BYTES_NEXT
      ensures Covered(out, x)
    {
      assert out[i] in out;
      AddWindowStarts(rs, a, b, out[i]);
      if out[i].start == a {
        assert InWindow(offset, x);
      } else {
        var q :| q in rs && q.start == out[i].start;
        assert Covered(rs, x);
      }
    }
  }
}
