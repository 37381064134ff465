/** Working through the regions, byte by byte and value by value, across interruptions
    and new hot offsets (mutator.cpp, GetNextByteToMutate). */
module Enumeration {
  import opened Wrappers
  import opened HotOffsets

  datatype Context = Context(regions: seq<Region>, curRegion: nat)

  /** One deterministic mutation: the region it belongs to (by its start), the byte, and
      the number of the value to put there. */
  datatype Emit = Emit(region: nat, pos: nat, value: nat)

  const EMPTY: Context := Context([], 0)

  function AddHot(c: Context, offset: nat): Context {
    Context(AddWindow(c.regions, WindowStart(offset), WindowEnd(offset)), 0)
  }

  /** Moves on to the next byte when all values of this one are used up. */
  function Advance(r: Region, max: nat): Region {
    if r.progress >= max then r.(cur := r.cur + 1, progress := 0) else r
  }

  function Next(c: Context, max: nat): (Context, Option<Emit>)
    decreases |c.regions| - c.curRegion
  {
    if c.curRegion >= |c.regions| then (c, None)
    else
      var r := Advance(c.regions[c.curRegion], max);
      if r.cur >= r.end then
        Next(Context(c.regions[c.curRegion := r], c.curRegion + 1), max)
      else
        (Context(c.regions[c.curRegion := r.(progress := r.progress + 1)], c.curRegion),
         Some(Emit(r.start, r.cur, r.progress)))
  }

  // ---------- Counting what is done ----------

  /** How many mutations of the region are done, and how many there are. */
  function Done(r: Region, max: nat): int {
    (r.cur - r.start) * max + r.progress
  }

  function Total(r: Region, max: nat): int {
    (r.end - r.start) * max
  }

  /** A region's cursor is within the region, and at rest at its end. */
  predicate CursorOk(r: Region, max: nat) {
    r.start <= r.cur <= r.end && r.progress <= max && (r.cur == r.end ==> r.progress == 0)
  }

  ghost predicate InOrder(c: Context, max: nat) {
    && Good(c.regions) && c.curRegion <= |c.regions|
    && (forall i :: 0 <= i < |c.regions| ==> CursorOk(c.regions[i], max))
    && (forall i :: 0 <= i < c.curRegion ==> c.regions[i].cur == c.regions[i].end)
  }

  /** The same regions with the same work done, perhaps counted differently. */
  ghost predicate SameWork(rs: seq<Region>, qs: seq<Region>, max: nat) {
    |rs| == |qs| && forall i :: 0 <= i < |rs| ==>
      rs[i].start == qs[i].start && rs[i].end == qs[i].end && Done(rs[i], max) == Done(qs[i], max)
  }

  /** The same regions, with one more mutation done in region `k`. */
  ghost predicate OneMore(rs: seq<Region>, qs: seq<Region>, k: nat, max: nat) {
    && |rs| == |qs| && k < |rs|
    && forall i :: 0 <= i < |rs| ==>
         rs[i].start == qs[i].start && rs[i].end == qs[i].end &&
         Done(qs[i], max) == Done(rs[i], max) + (if i == k then 1 else 0)
  }

  lemma AdvanceOk(r: Region, max: nat)
    requires CursorOk(r, max) && r.start < r.end && max > 0
    ensures var q := Advance(r, max);
      q.start == r.start && q.end == r.end && CursorOk(q, max) && q.progress < max && Done(q, max) == Done(r, max)
  {
    if r.progress >= max {
      assert (r.cur + 1 - r.start) * max == (r.cur - r.start) * max + max;
    }
  }

  lemma GoodStays(rs: seq<Region>, qs: seq<Region>)
    requires Good(rs) && |rs| == |qs| && forall i :: 0 <= i < |rs| ==> rs[i].start == qs[i].start && rs[i].end == qs[i].end
    ensures Good(qs)
    ensures forall x: nat :: Covered(rs, x) <==> Covered(qs, x)
  {
    forall x: nat ensures Covered(rs, x) <==> Covered(qs, x) {
      if Covered(rs, x) {
        var i :| 0 <= i < |rs| && rs[i].start <= x < rs[i].end;
        assert qs[i].start <= x < qs[i].end;
      }
      if Covered(qs, x) {
        var i :| 0 <= i < |qs| && qs[i].start <= x < qs[i].end;
        assert rs[i].start <= x < rs[i].end;
      }
    }
  }

  lemma TakeOne(r: Region, max: nat)
    requires CursorOk(r, max) && r.progress < max && r.cur < r.end
    ensures var q := r.(progress := r.progress + 1);
      CursorOk(q, max) && Done(q, max) == Done(r, max) + 1 && Done(r, max) == (r.cur - r.start) * max + r.progress
  {
  }

  /** What one call did, by its result. */
  ghost predicate CallDid(c: Context, d: Context, e: Option<Emit>, max: nat) {
    match e
    case None => SameWork(c.regions, d.regions, max) && AllDone(d.regions)
    case Some(m) =>
      && c.curRegion <= d.curRegion < |c.regions| && OneMore(c.regions, d.regions, d.curRegion, max)
      && IsNextOf(c.regions[d.curRegion], m, max)
  }

  ghost predicate AllDone(rs: seq<Region>) {
    forall i :: 0 <= i < |rs| ==> rs[i].cur == rs[i].end
  }

  /** `m` is the next mutation of region `r`. */
  predicate IsNextOf(r: Region, m: Emit, max: nat) {
    && m.region == r.start <= m.pos < r.end && m.value < max
    && (m.pos - m.region) * max + m.value == Done(r, max)
  }

  /** One call: either everything is done, or the next mutation of one region is emitted,
      and nothing else changes. */
  lemma {:induction false} NextDoes(c: Context, max: nat)
    requires InOrder(c, max) && max > 0
    ensures var (d, e) := Next(c, max); InOrder(d, max) && CallDid(c, d, e, max)
    decreases |c.regions| - c.curRegion
  {
    hide Good, Done, InOrder, CallDid;
    if c.curRegion >= |c.regions| {
      NoneIsLeft(c, max);
    } else {
      var k := c.curRegion;
      var r := Advance(c.regions[k], max);
      if r.cur >= r.end {
        var passed := Context(c.regions[k := r], k + 1);
        RegionPassed(c, max);
        NextDoes(passed, max);
        var (d, e) := Next(passed, max);
        DidAfterPass(c, passed, d, e, max);
      } else {
        RegionEmits(c, max);
      }
    }
  }

  lemma NoneIsLeft(c: Context, max: nat)
    requires InOrder(c, max) && c.curRegion >= |c.regions|
    ensures CallDid(c, c, None, max)
  {
  }

  lemma RegionPassed(c: Context, max: nat)
    requires InOrder(c, max) && max > 0 && c.curRegion < |c.regions|
    requires var r := Advance(c.regions[c.curRegion], max); r.cur >= r.end
    ensures var passed := Context(c.regions[c.curRegion := Advance(c.regions[c.curRegion], max)], c.curRegion + 1);
            InOrder(passed, max) && SameWork(c.regions, passed.regions, max)
  {
    hide Good, Done;
    var k := c.curRegion;
    OpenGood(c.regions, k);
    AdvanceOk(c.regions[k], max);
    GoodStays(c.regions, c.regions[k := Advance(c.regions[k], max)]);
  }

  lemma DidAfterPass(c: Context, passed: Context, d: Context, e: Option<Emit>, max: nat)
    requires SameWork(c.regions, passed.regions, max) && passed.curRegion == c.curRegion + 1
    requires CallDid(passed, d, e, max)
    ensures CallDid(c, d, e, max)
  {
    hide Done;
  }

  lemma RegionEmits(c: Context, max: nat)
    requires InOrder(c, max) && max > 0 && c.curRegion < |c.regions|
    requires var r := Advance(c.regions[c.curRegion], max); r.cur < r.end
    ensures var (d, e) := Next(c, max); InOrder(d, max) && CallDid(c, d, e, max)
  {
    hide Good, Done;
    var k := c.curRegion;
    var r := Advance(c.regions[k], max);
    OpenGood(c.regions, k);
    AdvanceOk(c.regions[k], max);
    TakeOne(r, max);
    var rs := c.regions[k := r.(progress := r.progress + 1)];
    GoodStays(c.regions, rs);
    assert OneMore(c.regions, rs, k, max);
  }

  lemma OpenGood(rs: seq<Region>, k: nat)
    requires Good(rs) && k < |rs|
    ensures rs[k].start < rs[k].end
  {
  }

  // ---------- Remaining work ----------

  function Remaining(rs: seq<Region>, max: nat): int {
    if rs == [] then 0 else Total(rs[0], max) - Done(rs[0], max) + Remaining(rs[1..], max)
  }

  lemma DoneWithinTotal(r: Region, max: nat)
    requires CursorOk(r, max)
    ensures 0 <= Done(r, max) <= Total(r, max)
    ensures r.cur == r.end ==> Done(r, max) == Total(r, max)
  {
    SplitProduct(r.cur - r.start, r.end - r.cur, max);
  }

  lemma SplitProduct(x: nat, y: nat, m: nat)
    ensures (x + y) * m == x * m + y * m
    ensures x * m >= 0 && (y == 0 ==> y * m == 0) && (y >= 1 ==> y * m >= m)
  {
    if y >= 1 {
      assert y * m == (y - 1) * m + m;
    }
  }

  lemma {:induction false} RemainingSame(rs: seq<Region>, qs: seq<Region>, max: nat)
    requires SameWork(rs, qs, max)
    ensures Remaining(rs, max) == Remaining(qs, max)
  {
    hide Done;
    if rs != [] {
      RemainingSame(rs[1..], qs[1..], max);
    }
  }

  lemma {:induction false} RemainingOneLess(rs: seq<Region>, qs: seq<Region>, k: nat, max: nat)
    requires OneMore(rs, qs, k, max)
    ensures Remaining(rs, max) == Remaining(qs, max) + 1
  {
    hide Done;
    if k == 0 {
      RemainingSame(rs[1..], qs[1..], max);
    } else {
      RemainingOneLess(rs[1..], qs[1..], k - 1, max);
    }
  }

  lemma {:induction false} RemainingIsCount(rs: seq<Region>, max: nat)
    requires forall i :: 0 <= i < |rs| ==> CursorOk(rs[i], max)
    ensures Remaining(rs, max) >= 0
    ensures AllDone(rs) ==> Remaining(rs, max) == 0
  {
    hide Done, Total;
    if rs != [] {
      DoneWithinTotal(rs[0], max);
      RemainingIsCount(rs[1..], max);
    }
  }

  /** Between hot offsets the remaining work counts the calls: a call succeeds exactly
      when some is left, and uses up one unit. */
  lemma NextUsesOneUnit(c: Context, max: nat)
    requires InOrder(c, max) && max > 0
    ensures var (d, e) := Next(c, max);
      && (e.Some? <==> Remaining(c.regions, max) > 0)
      && Remaining(d.regions, max) == Remaining(c.regions, max) - (if e.Some? then 1 else 0) >= 0
  {
    NextDoes(c, max);
    var (d, e) := Next(c, max);
    RemainingIsCount(d.regions, max);
    if e.Some? {
      RemainingOneLess(c.regions, d.regions, d.curRegion, max);
    } else {
      RemainingSame(c.regions, d.regions, max);
    }
  }

  /** The bound on the value matters: with no values at all the first success hands out a
      value that does not exist. */
  lemma ValueExistsIff(c: Context, max: nat)
    requires InOrder(c, max) && Next(c, max).1.Some?
    ensures Next(c, max).1.value.value < max <==> max > 0
  {
    if max > 0 {
      NextDoes(c, max);
    }
  }

  /** And such a success is reached: without values the first call after any first hot
      offset still hands out a value, for the second byte of the window. */
  lemma NoValuesReached(offset: nat)
    ensures Next(AddHot(EMPTY, offset), 0).1 == Some(Emit(WindowStart(offset), WindowStart(offset) + 1, 0))
  {
    var r := Region(WindowStart(offset), WindowEnd(offset), WindowStart(offset), 0);
    assert AddHot(EMPTY, offset).regions == [r];
    assert Advance(r, 0).cur == r.start + 1 < r.end;
  }

  // ---------- Whole runs ----------

  datatype Op = Hot(offset: nat) | Call

  /** The context after a run from the empty one, and everything emitted, in order. */
  function Run(ops: seq<Op>, max: nat): (Context, seq<Emit>) {
    if ops == [] then (EMPTY, [])
    else
      var (c, t) := Run(ops[..|ops| - 1], max);
      match ops[|ops| - 1]
      case Hot(offset) => (AddHot(c, offset), t)
      case Call =>
        match Next(c, max)
        case (d, None) => (d, t)
        case (d, Some(m)) => (d, t + [m])
  }

  /** What was emitted for the region that starts at `start`. */
  function EmittedBy(t: seq<Emit>, start: nat): seq<Emit> {
    if t == [] then []
    else
      var last := t[|t| - 1];
      EmittedBy(t[..|t| - 1], start) + (if last.region == start then [last] else [])
  }

  /** The emitted mutations of a region are numbered from 0 without gap or repeat. */
  ghost predicate Numbered(s: seq<Emit>, r: Region, max: nat) {
    && |s| == Done(r, max)
    && forall i :: 0 <= i < |s| ==> IsNumber(s[i], i, r, max)
  }

  predicate IsNumber(m: Emit, i: nat, r: Region, max: nat) {
    m.region == r.start <= m.pos && m.value < max && (m.pos - r.start) * max + m.value == i
  }

  /** The trace holds exactly the done part of every region. */
  ghost predicate Tracked(c: Context, t: seq<Emit>, max: nat) {
    && (forall i :: 0 <= i < |c.regions| ==> Numbered(EmittedBy(t, c.regions[i].start), c.regions[i], max))
    && (forall start :: (forall i :: 0 <= i < |c.regions| ==> c.regions[i].start != start) ==> EmittedBy(t, start) == [])
  }

  /** A region after adding a window: an old one, perhaps longer, or a new one at rest. */
  ghost predicate FromOld(rs: seq<Region>, a: nat, r: Region) {
    || (r.start == r.cur == a && r.progress == 0 && r.start < r.end && forall q :: q in rs ==> q.start != a)
    || exists q :: q in rs && q.end <= r.end && r == q.(end := r.end)
  }

  lemma {:induction false} AddWindowKeepsCursors(rs: seq<Region>, a: nat, b: nat)
    requires Sorted(rs) && a < b
    ensures forall r :: r in AddWindow(rs, a, b) ==> FromOld(rs, a, r)
    ensures forall q :: q in rs ==> exists r :: r in AddWindow(rs, a, b) && r.start == q.start
  {
    var out := AddWindow(rs, a, b);
    if rs == [] {
    } else if a < rs[0].start {
      forall r | r in out ensures FromOld(rs, a, r) {
        if r != out[0] {
          assert r == r.(end := r.end);
        }
      }
    } else if a <= rs[0].end {
      forall r | r in out ensures FromOld(rs, a, r) {
        if b > rs[0].end && r == out[0] {
          assert r == rs[0].(end := r.end) && rs[0] in rs;
        } else {
          assert r in rs && r == r.(end := r.end);
        }
      }
      forall q | q in rs ensures exists r :: r in out && r.start == q.start {
        if q == rs[0] {
          assert out[0] in out;
        } else {
          assert q in out;
        }
      }
    } else {
      AddWindowKeepsCursors(rs[1..], a, b);
      var rest := AddWindow(rs[1..], a, b);
      assert out == [rs[0]] + rest;
      forall r | r in out ensures FromOld(rs, a, r) {
        if r in rest {
          assert FromOld(rs[1..], a, r);
          if exists q :: q in rs[1..] && q.end <= r.end && r == q.(end := r.end) {
            var q :| q in rs[1..] && q.end <= r.end && r == q.(end := r.end);
            assert q in rs;
          } else {
            assert forall q :: q in rs ==> q == rs[0] || q in rs[1..];
          }
        } else {
          assert r == rs[0] && r == r.(end := r.end);
        }
      }
      forall q | q in rs ensures exists r :: r in out && r.start == q.start {
        if q == rs[0] {
          assert out[0] in out;
        } else {
          assert q in rs[1..];
          var r :| r in rest && r.start == q.start;
          assert r in out;
        }
      }
    }
  }

  lemma RegionFromOld(c: Context, t: seq<Emit>, a: nat, r: Region, max: nat)
    requires InOrder(c, max) && Tracked(c, t, max) && FromOld(c.regions, a, r)
    ensures CursorOk(r, max) && Numbered(EmittedBy(t, r.start), r, max)
  {
    hide Good, EmittedBy, Done;
    if exists q :: q in c.regions && q.end <= r.end && r == q.(end := r.end) {
      var q :| q in c.regions && q.end <= r.end && r == q.(end := r.end);
      var j :| 0 <= j < |c.regions| && c.regions[j] == q;
      assert Numbered(EmittedBy(t, q.start), q, max);
      DoneIgnoresEnd(q, r.end, max);
    } else {
      assert forall j :: 0 <= j < |c.regions| ==> c.regions[j] in c.regions;
      assert EmittedBy(t, r.start) == [];
      DoneAtStart(r, max);
    }
  }

  lemma DoneIgnoresEnd(r: Region, end: nat, max: nat)
    ensures Done(r.(end := end), max) == Done(r, max)
  {
  }

  lemma DoneAtStart(r: Region, max: nat)
    requires r.cur == r.start && r.progress == 0
    ensures Done(r, max) == 0
  {
  }

  lemma NoNewStart(c: Context, t: seq<Emit>, rs: seq<Region>, start: nat, max: nat)
    requires Tracked(c, t, max)
    requires forall q :: q in c.regions ==> exists r :: r in rs && r.start == q.start
    requires forall i :: 0 <= i < |rs| ==> rs[i].start != start
    ensures EmittedBy(t, start) == []
  {
    hide EmittedBy, Numbered;
    forall j | 0 <= j < |c.regions| ensures c.regions[j].start != start {
      assert c.regions[j] in c.regions;
      var r :| r in rs && r.start == c.regions[j].start;
      var i :| 0 <= i < |rs| && rs[i] == r;
    }
  }

  lemma AddHotKeeps(c: Context, offset: nat, t: seq<Emit>, max: nat)
    requires InOrder(c, max) && Tracked(c, t, max) && max > 0
    ensures InOrder(AddHot(c, offset), max) && Tracked(AddHot(c, offset), t, max)
  {
    var a, b := WindowStart(offset), WindowEnd(offset);
    var d := AddHot(c, offset);
    AddWindowIsExact(c.regions, offset);
    AddWindowKeepsCursors(c.regions, a, b);
    hide AddWindow, Good, EmittedBy, Numbered, FromOld;
    forall i | 0 <= i < |d.regions|
      ensures CursorOk(d.regions[i], max) && Numbered(EmittedBy(t, d.regions[i].start), d.regions[i], max)
    {
      assert d.regions[i] in d.regions;
      RegionFromOld(c, t, a, d.regions[i], max);
    }
    forall start | forall i :: 0 <= i < |d.regions| ==> d.regions[i].start != start
      ensures EmittedBy(t, start) == []
    {
      NoNewStart(c, t, d.regions, start, max);
    }
  }

  lemma OfAppend(t: seq<Emit>, m: Emit, start: nat)
    ensures EmittedBy(t + [m], start) == EmittedBy(t, start) + (if m.region == start then [m] else [])
  {
    assert (t + [m])[..|t|] == t;
  }

  lemma NumberedNext(s: seq<Emit>, r: Region, q: Region, m: Emit, max: nat)
    requires Numbered(s, r, max) && q.start == r.start
    ensures Done(q, max) == Done(r, max) ==> Numbered(s, q, max)
    ensures Done(q, max) == Done(r, max) + 1 && IsNextOf(r, m, max) ==> Numbered(s + [m], q, max)
  {
  }

  lemma NextKeeps(c: Context, t: seq<Emit>, max: nat)
    requires InOrder(c, max) && Tracked(c, t, max) && max > 0
    ensures var (d, e) := Next(c, max);
      InOrder(d, max) && Tracked(d, if e.None? then t else t + [e.value], max)
  {
    NextDoes(c, max);
    var (d, e) := Next(c, max);
    hide Next, Done, EmittedBy, Numbered, IsNextOf, Good, CursorOk;
    if e.None? {
      forall i | 0 <= i < |d.regions|
        ensures Numbered(EmittedBy(t, d.regions[i].start), d.regions[i], max)
      {
        NumberedNext(EmittedBy(t, c.regions[i].start), c.regions[i], d.regions[i], Emit(0, 0, 0), max);
      }
    } else {
      var m := e.value;
      EmitsStart(c.regions[d.curRegion], m, max);
      forall i | 0 <= i < |d.regions|
        ensures Numbered(EmittedBy(t + [m], d.regions[i].start), d.regions[i], max)
      {
        StartsDiffer(c, i, d.curRegion);
        OfAppend(t, m, c.regions[i].start);
        NumberedNext(EmittedBy(t, c.regions[i].start), c.regions[i], d.regions[i], m, max);
      }
      forall start | forall i :: 0 <= i < |d.regions| ==> d.regions[i].start != start
        ensures EmittedBy(t + [m], start) == []
      {
        OfAppend(t, m, start);
        assert d.regions[d.curRegion].start != start;
        assert forall i :: 0 <= i < |c.regions| ==> c.regions[i].start == d.regions[i].start;
      }
    }
  }

  lemma EmitsStart(r: Region, m: Emit, max: nat)
    requires IsNextOf(r, m, max)
    ensures m.region == r.start
  {
  }

  lemma StartsDiffer(c: Context, i: nat, k: nat)
    requires Good(c.regions) && i < |c.regions|
    ensures k < |c.regions| && k != i ==> c.regions[i].start != c.regions[k].start
  {
  }

  /** In every run the trace holds exactly the done part of every region: each mutation of
      each region once, in order. */
  lemma {:induction false} RunTracks(ops: seq<Op>, max: nat)
    requires max > 0
    ensures var (c, t) := Run(ops, max); InOrder(c, max) && Tracked(c, t, max)
  {
    if ops != [] {
      RunTracks(ops[..|ops| - 1], max);
      var (c, t) := Run(ops[..|ops| - 1], max);
      match ops[|ops| - 1]
      case Hot(offset) => AddHotKeeps(c, offset, t, max);
      case Call => NextKeeps(c, t, max);
    }
  }

  lemma {:induction false} EmittedByIn(t: seq<Emit>, start: nat, m: Emit)
    requires m in EmittedBy(t, start)
    ensures m in t
  {
    if m != t[|t| - 1] {
      EmittedByIn(t[..|t| - 1], start, m);
    }
  }

  /** A byte and a value are determined by their number. */
  lemma NumberIsUnique(x: nat, v: nat, y: nat, w: nat, max: nat)
    requires v < max && w < max && x * max + v == y * max + w
    ensures x == y && v == w
  {
    if x < y {
      SplitProduct(x, y - x, max);
    } else if y < x {
      SplitProduct(y, x - y, max);
    }
  }

  lemma NumberGrows(x: nat, v: nat, y: nat, w: nat, max: nat)
    requires v < max && w < max && x * max + v < y * max + w
    ensures x < y || (x == y && v < w)
  {
    if y < x {
      SplitProduct(y, x - y, max);
    }
  }

  /** In every run a region's mutations come byte by byte and value by value, none twice. */
  lemma RunIsOrdered(ops: seq<Op>, max: nat, start: nat, i: nat, j: nat)
    requires max > 0
    requires var s := EmittedBy(Run(ops, max).1, start); i < j < |s|
    ensures var s := EmittedBy(Run(ops, max).1, start);
      s[i].pos < s[j].pos || (s[i].pos == s[j].pos && s[i].value < s[j].value)
  {
    RunTracks(ops, max);
    var (c, t) := Run(ops, max);
    hide Run, EmittedBy;
    var s := EmittedBy(t, start);
    var k :| 0 <= k < |c.regions| && c.regions[k].start == start;
    assert Numbered(s, c.regions[k], max);
    NumberGrows(s[i].pos - start, s[i].value, s[j].pos - start, s[j].value, max);
  }

  /** In every run the regions cover exactly the windows of the hot offsets so far. */
  lemma {:induction false} RunCovers(ops: seq<Op>, max: nat, x: nat)
    requires max > 0
    ensures Covered(Run(ops, max).0.regions, x) <==> exists o :: Hot(o) in ops && InWindow(o, x)
  {
    if ops != [] {
      var before, last := ops[..|ops| - 1], ops[|ops| - 1];
      RunCovers(before, max, x);
      RunTracks(before, max);
      var (c, t) := Run(before, max);
      assert ops == before + [last];
      match last
      case Hot(offset) =>
        AddWindowIsExact(c.regions, offset);
        assert Hot(offset) in ops;
      case Call =>
        NextDoes(c, max);
        GoodStays(c.regions, Next(c, max).0.regions);
    }
  }

  /** When a call fails, every byte of every window so far has had every value. */
  lemma FailureMeansComplete(ops: seq<Op>, max: nat, offset: nat, x: nat, v: nat)
    requires max > 0 && Next(Run(ops, max).0, max).1.None?
    requires Hot(offset) in ops && InWindow(offset, x) && v < max
    ensures exists m :: m in Run(ops, max).1 && m.pos == x && m.value == v
  {
    RunCovers(ops, max, x);
    RunTracks(ops, max);
    var (c, t) := Run(ops, max);
    hide Run;
    NextDoes(c, max);
    var i :| 0 <= i < |c.regions| && c.regions[i].start <= x < c.regions[i].end;
    var r := c.regions[i];
    DoneIsTotal(c, i, max);
    assert Numbered(EmittedBy(t, r.start), r, max);
    hide EmittedBy, Numbered, Done, Total, Next;
    var m := Emitted(EmittedBy(t, r.start), r, x, v, max);
    EmittedByIn(t, r.start, m);
  }

  lemma Emitted(s: seq<Emit>, r: Region, x: nat, v: nat, max: nat) returns (m: Emit)
    requires Numbered(s, r, max) && Done(r, max) == Total(r, max) && r.start <= x < r.end && v < max
    ensures m in s && m.pos == x && m.value == v
  {
    SplitProduct(x - r.start, r.end - x, max);
    m := s[(x - r.start) * max + v];
    NumberIsUnique(x - r.start, v, m.pos - r.start, m.value, max);
  }

  lemma DoneIsTotal(c: Context, i: nat, max: nat)
    requires InOrder(c, max) && max > 0 && Next(c, max).1.None? && i < |c.regions|
    ensures Done(c.regions[i], max) == Total(c.regions[i], max)
  {
    NextDoes(c, max);
    DoneWithinTotal(Next(c, max).0.regions[i], max);
  }
}
