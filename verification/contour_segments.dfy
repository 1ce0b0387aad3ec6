/**
  The run splitter of the feasible-region diagram: from every path of a contour
  set it keeps the maximal runs of consecutive vertices that pass the condition
  test, dropping runs of a single vertex.
*/
module ContourSegments {
  import opened Geometry

  /** The vertices of one contour path, in drawing order. */
  type Path = seq<Point>

  /** An emitted piece of a path: a run of its vertices. */
  type Segment = seq<Point>

  /** The half-open index range [lo, hi) of a path's vertices. */
  datatype Span = Span(lo: nat, hi: nat)

  /** Where an emitted segment came from: which path, and which vertices of it. */
  datatype Origin = Origin(path: nat, span: Span)

  /** The vertex threshold: a vertex passes when its condition value is at least this. */
  const Threshold: real := 0.01

  /** The validity mask of a path: vertex k passes when `cond` at it reaches `threshold`. */
  function Mask(verts: Path, cond: Point -> real, threshold: real): (m: seq<bool>)
    ensures |m| == |verts|
    ensures forall k :: 0 <= k < |verts| ==> (m[k] <==> cond(verts[k]) >= threshold)
  {
    seq(|verts|, k requires 0 <= k < |verts| => cond(verts[k]) >= threshold)
  }

  /** `s` is a run of valid vertices that cannot be extended on either side. */
  predicate IsMaximalRun(valid: seq<bool>, s: Span) {
    && s.lo < s.hi <= |valid|
    && (forall k :: s.lo <= k < s.hi ==> valid[k])
    && (s.lo == 0 || !valid[s.lo - 1])
    && (s.hi == |valid| || !valid[s.hi])
  }

  /** The runs the splitter emits: maximal runs of at least two vertices. */
  predicate Emitted(valid: seq<bool>, s: Span) {
    IsMaximalRun(valid, s) && s.hi - s.lo >= 2
  }

  /** Spans listed left to right, each ending before the next begins. */
  predicate Ordered(spans: seq<Span>) {
    forall i, j :: 0 <= i < j < |spans| ==> spans[i].hi < spans[j].lo
  }

  /** Exactly the emitted runs of `valid`, each listed once, left to right. */
  ghost predicate IsRunPartition(valid: seq<bool>, spans: seq<Span>) {
    && (forall j :: 0 <= j < |spans| ==> Emitted(valid, spans[j]))
    && Ordered(spans)
    && (forall s :: Emitted(valid, s) ==> s in spans)
  }

  /** Two origins in output order: an earlier path, or an earlier run of the same path. */
  predicate Precedes(a: Origin, b: Origin) {
    a.path < b.path || (a.path == b.path && a.span.hi < b.span.lo)
  }

  /** [start, i) is all valid and cannot be extended to the left: the run `seg` holds. */
  predicate OpenRun(valid: seq<bool>, start: nat, i: nat) {
    && start <= i <= |valid|
    && (forall k :: start <= k < i ==> valid[k])
    && (start == 0 || !valid[start - 1])
  }

  /** Every listed span is emitted and ends before `bound`. */
  predicate EmittedBefore(valid: seq<bool>, spans: seq<Span>, bound: nat) {
    forall j :: 0 <= j < |spans| ==> Emitted(valid, spans[j]) && spans[j].hi < bound
  }

  /** Every emitted run ending before `bound` is listed. */
  ghost predicate CoversBefore(valid: seq<bool>, spans: seq<Span>, bound: nat) {
    forall s :: Emitted(valid, s) && s.hi < bound ==> s in spans
  }

  /** Each segment is the slice of the path its span names. */
  predicate SlicesOf(verts: Path, segs: seq<Segment>, spans: seq<Span>) {
    && |segs| == |spans|
    && forall j :: 0 <= j < |spans| ==>
      spans[j].lo <= spans[j].hi <= |verts| && segs[j] == verts[spans[j].lo..spans[j].hi]
  }

  /**
    Splits one path into its maximal valid runs of length two or more. The loop
    mirrors the source: `seg` collects the current run and `inSegment` says
    whether one is open; a run is flushed when an invalid vertex closes it or
    when the path ends. `spans` records the vertex range of each segment.
  */
  method SplitPath(verts: Path, valid: seq<bool>) returns (segs: seq<Segment>, spans: seq<Span>)
    requires |valid| == |verts|
    ensures |segs| == |spans|
    ensures IsRunPartition(valid, spans)
    ensures forall j :: 0 <= j < |spans| ==> segs[j] == verts[spans[j].lo..spans[j].hi]
  {
    segs, spans := [], [];
    var inSegment := false;
    var seg: Segment := [];
    ghost var start := 0;
    var i := 0;
    while i < |verts|
      invariant OpenRun(valid, start, i)
      invariant inSegment <==> |seg| > 0
      invariant seg == verts[start..i]
      invariant SlicesOf(verts, segs, spans)
      invariant EmittedBefore(valid, spans, start)
      invariant Ordered(spans)
      invariant CoversBefore(valid, spans, i)
    {
      if valid[i] {
        ExtendRun(valid, spans, start, i);
        seg := seg + [verts[i]];
        inSegment := true;
      } else {
        ghost var before := spans;
        if inSegment && |seg| > 1 {
          segs := segs + [seg];
          spans := spans + [Span(i - |seg|, i)];
        }
        CloseRun(valid, before, spans, start, i);
        seg := [];
        inSegment := false;
        start := i + 1;
      }
      i := i + 1;
    }
    ghost var before := spans;
    if inSegment && |seg| > 1 {
      segs := segs + [seg];
      spans := spans + [Span(|verts| - |seg|, |verts|)];
    }
    CloseRun(valid, before, spans, start, |verts|);
    CoverIsPartition(valid, spans);
  }

  /** Once every emitted run is listed, the listed spans form the run partition. */
  lemma CoverIsPartition(valid: seq<bool>, spans: seq<Span>)
    requires EmittedBefore(valid, spans, |valid| + 1) && Ordered(spans)
    requires CoversBefore(valid, spans, |valid| + 1)
    ensures IsRunPartition(valid, spans)
  {
  }

  /** Extending the open run by a valid vertex keeps every list property. */
  lemma ExtendRun(valid: seq<bool>, spans: seq<Span>, start: nat, i: nat)
    requires OpenRun(valid, start, i) && i < |valid| && valid[i]
    requires CoversBefore(valid, spans, i)
    ensures OpenRun(valid, start, i + 1)
    ensures CoversBefore(valid, spans, i + 1)
  {
  }

  /**
    Closing the open run [start, i), at an invalid vertex or at the end of the
    path, lists it exactly when it has two or more vertices; afterwards every
    emitted run ending at or before i is listed.
  */
  lemma CloseRun(valid: seq<bool>, before: seq<Span>, after: seq<Span>, start: nat, i: nat)
    requires OpenRun(valid, start, i) && (i == |valid| || !valid[i])
    requires EmittedBefore(valid, before, start) && Ordered(before)
    requires CoversBefore(valid, before, i)
    requires after == if i - start > 1 then before + [Span(start, i)] else before
    ensures EmittedBefore(valid, after, i + 1) && Ordered(after)
    ensures CoversBefore(valid, after, i + 1)
    ensures i < |valid| ==> OpenRun(valid, i + 1, i + 1)
  {
    CloseRunSound(valid, before, after, start, i);
    CloseRunCovers(valid, before, after, start, i);
  }

  /** The span that closing lists, if any, is emitted and follows the earlier ones. */
  lemma CloseRunSound(valid: seq<bool>, before: seq<Span>, after: seq<Span>, start: nat, i: nat)
    requires OpenRun(valid, start, i) && (i == |valid| || !valid[i])
    requires EmittedBefore(valid, before, start) && Ordered(before)
    requires after == if i - start > 1 then before + [Span(start, i)] else before
    ensures EmittedBefore(valid, after, i + 1) && Ordered(after)
  {
    if i - start > 1 {
      assert Emitted(valid, Span(start, i));
      forall a, b | 0 <= a < b < |after|
        ensures after[a].hi < after[b].lo
      {
        if b == |before| {
          assert after[a] == before[a] && after[b] == Span(start, i);
        }
      }
    }
  }

  /** After closing, no emitted run ending at or before i is missing. */
  lemma CloseRunCovers(valid: seq<bool>, before: seq<Span>, after: seq<Span>, start: nat, i: nat)
    requires OpenRun(valid, start, i)
    requires CoversBefore(valid, before, i)
    requires after == if i - start > 1 then before + [Span(start, i)] else before
    ensures CoversBefore(valid, after, i + 1)
  {
    forall s | Emitted(valid, s) && s.hi < i + 1
      ensures s in after
    {
      if s.hi == i {
        RunEndingAt(valid, start, i);
        assert s == Span(start, i);
      }
    }
  }

  /**
    If [start, hi) is all valid and cannot be extended to the left, then it is
    the only maximal run ending at hi.
  */
  lemma RunEndingAt(valid: seq<bool>, start: nat, hi: nat)
    requires start <= hi <= |valid|
    requires forall k :: start <= k < hi ==> valid[k]
    requires start == 0 || !valid[start - 1]
    ensures forall s :: IsMaximalRun(valid, s) && s.hi == hi ==> s.lo == start
  {
  }

  /** The listed origins name emitted runs of paths before `p`, and slice them out. */
  predicate OriginsBefore(contour: seq<Path>, cond: Point -> real, threshold: real,
                          segs: seq<Segment>, origin: seq<Origin>, p: nat)
  {
    && |segs| == |origin|
    && forall j :: 0 <= j < |origin| ==>
      && origin[j].path < p
      && origin[j].path < |contour|
      && Emitted(Mask(contour[origin[j].path], cond, threshold), origin[j].span)
      && segs[j] == contour[origin[j].path][origin[j].span.lo..origin[j].span.hi]
  }

  /** Origins in output order. */
  predicate InOutputOrder(origin: seq<Origin>) {
    forall i, j :: 0 <= i < j < |origin| ==> Precedes(origin[i], origin[j])
  }

  /** Every emitted run of every path before `p` is listed. */
  ghost predicate CompleteBefore(contour: seq<Path>, cond: Point -> real, threshold: real,
                                 origin: seq<Origin>, p: nat)
  {
    forall q, s :: 0 <= q < p && q < |contour| && Emitted(Mask(contour[q], cond, threshold), s) ==>
      Origin(q, s) in origin
  }

  /**
    `get_feasible_contour_segments`: the segments of every path of the contour
    set, path by path, each vertex tested against the fixed `Threshold`.
    Paths of fewer than two vertices are skipped. `origin` says which path
    and which vertices each segment was cut from.
  */
  method GetFeasibleContourSegments(contour: seq<Path>, cond: Point -> real)
    returns (segs: seq<Segment>, origin: seq<Origin>)
    ensures |segs| == |origin|
    ensures forall j :: 0 <= j < |origin| ==>
      && origin[j].path < |contour|
      && Emitted(Mask(contour[origin[j].path], cond, Threshold), origin[j].span)
      && segs[j] == contour[origin[j].path][origin[j].span.lo..origin[j].span.hi]
    ensures forall i, j :: 0 <= i < j < |origin| ==> Precedes(origin[i], origin[j])
    ensures forall p, s :: 0 <= p < |contour| && Emitted(Mask(contour[p], cond, Threshold), s) ==>
      Origin(p, s) in origin
    ensures forall j :: 0 <= j < |segs| ==>
      |segs[j]| >= 2 && forall v :: v in segs[j] ==> cond(v) >= Threshold
  {
    segs, origin := [], [];
    var p := 0;
    while p < |contour|
      invariant p <= |contour|
      invariant OriginsBefore(contour, cond, Threshold, segs, origin, p)
      invariant InOutputOrder(origin)
      invariant CompleteBefore(contour, cond, Threshold, origin, p)
    {
      var verts := contour[p];
      if |verts| < 2 {
        ShortPathHasNoRuns(contour, cond, Threshold, origin, p);
        p := p + 1;
        continue;
      }
      var valid := Mask(verts, cond, Threshold);
      var pathSegs, spans := SplitPath(verts, valid);
      var pathOrigin := seq(|spans|, k requires 0 <= k < |spans| => Origin(p, spans[k]));
      AppendPath(contour, cond, Threshold, segs, origin, p, pathSegs, spans, pathOrigin);
      segs := segs + pathSegs;
      origin := origin + pathOrigin;
      p := p + 1;
    }
    forall j | 0 <= j < |segs|
      ensures |segs[j]| >= 2 && forall v :: v in segs[j] ==> cond(v) >= Threshold
    {
      var o := origin[j];
      RunVerticesPass(contour[o.path], cond, Threshold, o.span);
    }
  }

  /** A path of fewer than two vertices has no emitted run, so skipping it loses nothing. */
  lemma ShortPathHasNoRuns(contour: seq<Path>, cond: Point -> real, threshold: real,
                           origin: seq<Origin>, p: nat)
    requires p < |contour| && |contour[p]| < 2
    requires CompleteBefore(contour, cond, threshold, origin, p)
    ensures CompleteBefore(contour, cond, threshold, origin, p + 1)
  {
  }

  /** Appending the segments of path `p` keeps the output lists sound, ordered and complete. */
  lemma AppendPath(contour: seq<Path>, cond: Point -> real, threshold: real,
                   segs: seq<Segment>, origin: seq<Origin>, p: nat,
                   pathSegs: seq<Segment>, spans: seq<Span>, pathOrigin: seq<Origin>)
    requires p < |contour|
    requires OriginsBefore(contour, cond, threshold, segs, origin, p)
    requires InOutputOrder(origin)
    requires CompleteBefore(contour, cond, threshold, origin, p)
    requires |pathSegs| == |spans|
    requires IsRunPartition(Mask(contour[p], cond, threshold), spans)
    requires forall j :: 0 <= j < |spans| ==> pathSegs[j] == contour[p][spans[j].lo..spans[j].hi]
    requires pathOrigin == seq(|spans|, k requires 0 <= k < |spans| => Origin(p, spans[k]))
    ensures OriginsBefore(contour, cond, threshold, segs + pathSegs, origin + pathOrigin, p + 1)
    ensures InOutputOrder(origin + pathOrigin)
    ensures CompleteBefore(contour, cond, threshold, origin + pathOrigin, p + 1)
  {
    AppendSound(contour, cond, threshold, segs, origin, p, pathSegs, spans, pathOrigin);
    AppendOrdered(contour, cond, threshold, segs, origin, p, spans, pathOrigin);
    AppendComplete(contour, cond, threshold, origin, p, spans, pathOrigin);
  }

  lemma AppendSound(contour: seq<Path>, cond: Point -> real, threshold: real,
                    segs: seq<Segment>, origin: seq<Origin>, p: nat,
                    pathSegs: seq<Segment>, spans: seq<Span>, pathOrigin: seq<Origin>)
    requires p < |contour|
    requires OriginsBefore(contour, cond, threshold, segs, origin, p)
    requires |pathSegs| == |spans|
    requires forall j :: 0 <= j < |spans| ==>
      Emitted(Mask(contour[p], cond, threshold), spans[j]) && pathSegs[j] == contour[p][spans[j].lo..spans[j].hi]
    requires pathOrigin == seq(|spans|, k requires 0 <= k < |spans| => Origin(p, spans[k]))
    ensures OriginsBefore(contour, cond, threshold, segs + pathSegs, origin + pathOrigin, p + 1)
  {
    var allSegs, all := segs + pathSegs, origin + pathOrigin;
    forall j | 0 <= j < |all|
      ensures all[j].path < p + 1 && all[j].path < |contour|
      ensures Emitted(Mask(contour[all[j].path], cond, threshold), all[j].span)
      ensures allSegs[j] == contour[all[j].path][all[j].span.lo..all[j].span.hi]
    {
      if j >= |origin| {
        var k := j - |origin|;
        assert all[j] == Origin(p, spans[k]) && allSegs[j] == pathSegs[k];
      }
    }
  }

  lemma AppendOrdered(contour: seq<Path>, cond: Point -> real, threshold: real,
                      segs: seq<Segment>, origin: seq<Origin>, p: nat,
                      spans: seq<Span>, pathOrigin: seq<Origin>)
    requires OriginsBefore(contour, cond, threshold, segs, origin, p)
    requires InOutputOrder(origin)
    requires Ordered(spans)
    requires pathOrigin == seq(|spans|, k requires 0 <= k < |spans| => Origin(p, spans[k]))
    ensures InOutputOrder(origin + pathOrigin)
  {
  }

  lemma AppendComplete(contour: seq<Path>, cond: Point -> real, threshold: real,
                       origin: seq<Origin>, p: nat, spans: seq<Span>, pathOrigin: seq<Origin>)
    requires p < |contour|
    requires CompleteBefore(contour, cond, threshold, origin, p)
    requires forall s :: Emitted(Mask(contour[p], cond, threshold), s) ==> s in spans
    requires pathOrigin == seq(|spans|, k requires 0 <= k < |spans| => Origin(p, spans[k]))
    ensures CompleteBefore(contour, cond, threshold, origin + pathOrigin, p + 1)
  {
    forall s | Emitted(Mask(contour[p], cond, threshold), s)
      ensures Origin(p, s) in pathOrigin
    {
      var k :| 0 <= k < |spans| && spans[k] == s;
      assert pathOrigin[k] == Origin(p, s);
    }
  }

  /** Every vertex of an emitted run passes the condition test. */
  lemma RunVerticesPass(verts: Path, cond: Point -> real, threshold: real, s: Span)
    requires Emitted(Mask(verts, cond, threshold), s)
    ensures |verts[s.lo..s.hi]| >= 2
    ensures forall v :: v in verts[s.lo..s.hi] ==> cond(v) >= threshold
  {
    forall v | v in verts[s.lo..s.hi]
      ensures cond(v) >= threshold
    {
      var k :| s.lo <= k < s.hi && verts[k] == v;
    }
  }

  /**
    The run partition of a mask is unique: the contract of `SplitPath` leaves
    exactly one possible list of spans.
  */
  lemma RunPartitionUnique(valid: seq<bool>, a: seq<Span>, b: seq<Span>)
    requires IsRunPartition(valid, a) && IsRunPartition(valid, b)
    ensures a == b
  {
    OrderedSpansEqual(a, b);
  }

  /** Two ordered lists of non-empty spans with the same elements are equal. */
  lemma {:induction false} OrderedSpansEqual(a: seq<Span>, b: seq<Span>)
    requires Ordered(a) && Ordered(b)
    requires forall j :: 0 <= j < |a| ==> a[j].lo < a[j].hi
    requires forall j :: 0 <= j < |b| ==> b[j].lo < b[j].hi
    requires forall s :: s in a <==> s in b
    ensures a == b
    decreases |a|
  {
    if |a| > 0 { assert a[0] in b; }
    if |b| > 0 { assert b[0] in a; }
    if |a| > 0 && |b| > 0 {
      FirstIsLeast(a);
      FirstIsLeast(b);
      assert a[0] == b[0];
      TailSameElements(a);
      TailSameElements(b);
      OrderedSpansEqual(a[1..], b[1..]);
      assert a == [a[0]] + a[1..];
      assert b == [b[0]] + b[1..];
    }
  }

  /** In an ordered list the first span lies before every other element. */
  lemma FirstIsLeast(a: seq<Span>)
    requires |a| > 0 && Ordered(a)
    requires forall j :: 0 <= j < |a| ==> a[j].lo < a[j].hi
    ensures forall s :: s in a ==> a[0].lo <= s.lo && (s != a[0] ==> a[0].hi < s.lo)
  {
  }

  /** The tail of an ordered list holds every element but the first. */
  lemma TailSameElements(a: seq<Span>)
    requires |a| > 0 && Ordered(a)
    requires forall j :: 0 <= j < |a| ==> a[j].lo < a[j].hi
    ensures Ordered(a[1..])
    ensures forall s :: s in a[1..] <==> s in a && s != a[0]
  {
    assert a == [a[0]] + a[1..];
  }
}
