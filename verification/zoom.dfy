/** `HeatmapCollection.collectFramesForZoom` of simple_heatmap.js: the
    blocks from..to of one zoom level are gathered from the coarsest levels
    that fit. Block j of level z + 1 merges the blocks j * g .. j * g + g - 1
    of level z, g being `zoomToGroupSize[z + 1]`. A decoding context is
    named here by its block and its level; the contexts themselves (built
    lazily and cached) are not part of this model. */
module Zoom {
  import opened Common

  /** `context(i, zoom)`. */
  datatype Ctx = Ctx(index: int, zoom: nat)

  /** Every group size the viewer divides by is positive. */
  predicate GroupsOk(groups: seq<int>, maxZoom: nat)
  {
    |groups| > maxZoom && forall z :: 0 < z <= maxZoom ==> groups[z] >= 1
  }

  /** `collectFramesImpl(from, to, zoom)`: the contexts from..to of one level. */
  function Range(from: int, to: int, zoom: nat): (r: seq<Ctx>)
    ensures |r| == if from > to then 0 else to - from + 1
    ensures forall k :: 0 <= k < |r| ==> r[k] == Ctx(from + k, zoom)
  {
    if from > to then [] else seq(to - from + 1, k requires 0 <= k < to - from + 1 => Ctx(from + k, zoom))
  }

  /** `Math.floor((from - 1) / groupSize) + 1`: the first block of the next
      level that starts at or after from (division by a positive number
      rounds down in both languages here). */
  function FromNext(from: int, g: int): int
    requires g >= 1
  {
    (from - 1) / g + 1
  }

  /** `Math.floor((to - (groupSize - 1)) / groupSize)`: the last block of the
      next level that ends at or before to. */
  function ToNext(to: int, g: int): int
    requires g >= 1
  {
    (to - (g - 1)) / g
  }

  /** `collectFramesForZoom(from, to, zoom)` as written: the coarse middle,
      then the head from..fromNext * g, then the tail toNext * g..to. */
  function Collect(groups: seq<int>, maxZoom: nat, from: int, to: int, zoom: nat): seq<Ctx>
    requires GroupsOk(groups, maxZoom) && zoom <= maxZoom
    decreases maxZoom - zoom
  {
    if zoom < maxZoom && FromNext(from, groups[zoom + 1]) <= ToNext(to, groups[zoom + 1]) then
      var g := groups[zoom + 1];
      var f, t := FromNext(from, g), ToNext(to, g);
      Collect(groups, maxZoom, f, t, zoom + 1) + Range(from, f * g, zoom) + Range(t * g, to, zoom)
    else Range(from, to, zoom)
  }

  /** The same with the head ending before the middle's first block and the
      tail starting after its last one. */
  function CollectFixed(groups: seq<int>, maxZoom: nat, from: int, to: int, zoom: nat): seq<Ctx>
    requires GroupsOk(groups, maxZoom) && zoom <= maxZoom
    decreases maxZoom - zoom
  {
    if zoom < maxZoom && FromNext(from, groups[zoom + 1]) <= ToNext(to, groups[zoom + 1]) then
      var g := groups[zoom + 1];
      var f, t := FromNext(from, g), ToNext(to, g);
      CollectFixed(groups, maxZoom, f, t, zoom + 1) + Range(from, f * g - 1, zoom) + Range((t + 1) * g, to, zoom)
    else Range(from, to, zoom)
  }

  // ---- Coverage ----

  /** The context c, of level zoom or coarser, holds block k of level zoom. */
  predicate Covers(groups: seq<int>, maxZoom: nat, c: Ctx, zoom: nat, k: int)
    requires GroupsOk(groups, maxZoom) && zoom <= c.zoom <= maxZoom
    decreases c.zoom - zoom
  {
    if c.zoom == zoom then c.index == k
    else Covers(groups, maxZoom, c, zoom + 1, k / groups[zoom + 1])
  }

  predicate AllAtLeast(cs: seq<Ctx>, zoom: nat, maxZoom: nat)
  {
    forall i :: 0 <= i < |cs| ==> zoom <= cs[i].zoom <= maxZoom
  }

  /** How many of the contexts hold block k of level zoom. */
  function Hits(groups: seq<int>, maxZoom: nat, cs: seq<Ctx>, zoom: nat, k: int): nat
    requires GroupsOk(groups, maxZoom) && AllAtLeast(cs, zoom, maxZoom)
  {
    if |cs| == 0 then 0
    else Hits(groups, maxZoom, cs[..|cs| - 1], zoom, k)
         + (if Covers(groups, maxZoom, cs[|cs| - 1], zoom, k) then 1 else 0)
  }

  lemma {:induction false} HitsAppend(groups: seq<int>, maxZoom: nat, a: seq<Ctx>, b: seq<Ctx>, zoom: nat, k: int)
    requires GroupsOk(groups, maxZoom) && AllAtLeast(a, zoom, maxZoom) && AllAtLeast(b, zoom, maxZoom)
    ensures AllAtLeast(a + b, zoom, maxZoom)
    ensures Hits(groups, maxZoom, a + b, zoom, k) == Hits(groups, maxZoom, a, zoom, k) + Hits(groups, maxZoom, b, zoom, k)
    decreases |b|
  {
    if |b| == 0 {
      assert a + b == a;
    } else {
      var b' := b[..|b| - 1];
      assert (a + b)[..|a + b| - 1] == a + b';
      HitsAppend(groups, maxZoom, a, b', zoom, k);
    }
  }

  /** Block k lies in the range exactly once when from <= k <= to. */
  lemma {:induction false} RangeHits(groups: seq<int>, maxZoom: nat, from: int, to: int, zoom: nat, k: int)
    requires GroupsOk(groups, maxZoom) && zoom <= maxZoom
    ensures AllAtLeast(Range(from, to, zoom), zoom, maxZoom)
    ensures Hits(groups, maxZoom, Range(from, to, zoom), zoom, k) == (if from <= k <= to then 1 else 0)
    decreases if from <= to then to - from + 1 else 0
  {
    if from <= to {
      var r := Range(from, to, zoom);
      assert r[..|r| - 1] == Range(from, to - 1, zoom);
      RangeHits(groups, maxZoom, from, to - 1, zoom, k);
    }
  }

  /** A context of a coarser level holds block k exactly when it holds the
      block of the next level that k merges into. */
  lemma {:induction false} CoarseHits(groups: seq<int>, maxZoom: nat, cs: seq<Ctx>, zoom: nat, k: int)
    requires GroupsOk(groups, maxZoom) && zoom < maxZoom && AllAtLeast(cs, zoom + 1, maxZoom)
    ensures AllAtLeast(cs, zoom, maxZoom)
    ensures Hits(groups, maxZoom, cs, zoom, k) == Hits(groups, maxZoom, cs, zoom + 1, k / groups[zoom + 1])
    decreases |cs|
  {
    if |cs| > 0 {
      CoarseHits(groups, maxZoom, cs[..|cs| - 1], zoom, k);
    }
  }

  lemma {:induction false} MulMonotone(a: int, b: int, g: int)
    requires a <= b && g >= 1
    ensures a * g <= b * g
  {
    assert b * g == a * g + (b - a) * g;
  }

  lemma {:induction false} MulNext(a: int, g: int)
    ensures (a + 1) * g == a * g + g
  {
  }

  /** Division by g rounds down. */
  lemma {:induction false} DivRounds(a: int, g: int)
    requires g >= 1
    ensures (a / g) * g <= a < (a / g) * g + g
  {
    assert a == g * (a / g) + a % g;
  }

  /** Where the next level's blocks start and end. */
  lemma {:induction false} NextBounds(from: int, to: int, g: int)
    requires g >= 1
    ensures var f, t := FromNext(from, g), ToNext(to, g);
            from <= f * g < from + g && to - g < t * g + g - 1 <= to
  {
    var f, t := FromNext(from, g), ToNext(to, g);
    DivRounds(from - 1, g);
    MulNext((from - 1) / g, g);
    DivRounds(to - (g - 1), g);
  }

  /** Block k of a level lies in the next-level blocks f..t exactly when it
      lies in f * g .. t * g + g - 1. */
  lemma {:induction false} InBlocks(k: int, g: int, f: int, t: int)
    requires g >= 1
    ensures f <= k / g <= t <==> f * g <= k <= t * g + g - 1
  {
    var q := k / g;
    DivRounds(k, g);
    MulNext(q, g);
    if f <= q {
      MulMonotone(f, q, g);
    } else {
      MulMonotone(q + 1, f, g);
    }
    if q <= t {
      MulMonotone(q, t, g);
    } else {
      MulMonotone(t + 1, q, g);
      MulNext(t, g);
    }
  }

  /** The hits of a coarse middle followed by a head and a tail of level
      zoom. */
  lemma {:induction false} ThreeHits(groups: seq<int>, maxZoom: nat, mid: seq<Ctx>, head: seq<Ctx>, tail: seq<Ctx>, zoom: nat, k: int)
    requires GroupsOk(groups, maxZoom) && zoom < maxZoom
    requires AllAtLeast(mid, zoom + 1, maxZoom) && AllAtLeast(head, zoom, maxZoom) && AllAtLeast(tail, zoom, maxZoom)
    ensures AllAtLeast(mid + head + tail, zoom, maxZoom)
    ensures Hits(groups, maxZoom, mid + head + tail, zoom, k)
            == Hits(groups, maxZoom, mid, zoom + 1, k / groups[zoom + 1])
               + Hits(groups, maxZoom, head, zoom, k) + Hits(groups, maxZoom, tail, zoom, k)
  {
    CoarseHits(groups, maxZoom, mid, zoom, k);
    HitsAppend(groups, maxZoom, mid, head, zoom, k);
    HitsAppend(groups, maxZoom, mid + head, tail, zoom, k);
  }

  /** The counting step of FixedExact, in plain arithmetic: a middle
      covering lo..hi inside from..to, a head before it and a tail after it
      hold k once when from <= k <= to. */
  lemma {:induction false} ExactSum(from: int, to: int, k: int, lo: int, hi: int, mid: nat, head: nat, tail: nat)
    requires from <= lo <= hi <= to
    requires mid == (if lo <= k <= hi then 1 else 0)
    requires head == (if from <= k <= lo - 1 then 1 else 0) && tail == (if hi + 1 <= k <= to then 1 else 0)
    ensures mid + head + tail == (if from <= k <= to then 1 else 0)
  {
  }

  /** The corrected decomposition holds every block from..to exactly once
      and nothing else. */
  lemma {:induction false} FixedExact(groups: seq<int>, maxZoom: nat, from: int, to: int, zoom: nat, k: int)
    requires GroupsOk(groups, maxZoom) && zoom <= maxZoom
    ensures var cs := CollectFixed(groups, maxZoom, from, to, zoom);
            AllAtLeast(cs, zoom, maxZoom)
            && Hits(groups, maxZoom, cs, zoom, k) == (if from <= k <= to then 1 else 0)
    decreases maxZoom - zoom
  {
    if zoom < maxZoom && FromNext(from, groups[zoom + 1]) <= ToNext(to, groups[zoom + 1]) {
      var g := groups[zoom + 1];
      FixedExact(groups, maxZoom, FromNext(from, g), ToNext(to, g), zoom + 1, k / g);
      FixedStep(groups, maxZoom, from, to, zoom, k);
    } else {
      FixedBase(groups, maxZoom, from, to, zoom, k);
    }
  }

  /** At the coarsest level, or when no whole block of the next level fits,
      the range itself. */
  lemma {:induction false} FixedBase(groups: seq<int>, maxZoom: nat, from: int, to: int, zoom: nat, k: int)
    requires GroupsOk(groups, maxZoom) && zoom <= maxZoom
    requires !(zoom < maxZoom && FromNext(from, groups[zoom + 1]) <= ToNext(to, groups[zoom + 1]))
    ensures var cs := CollectFixed(groups, maxZoom, from, to, zoom);
            AllAtLeast(cs, zoom, maxZoom)
            && Hits(groups, maxZoom, cs, zoom, k) == (if from <= k <= to then 1 else 0)
  {
    assert CollectFixed(groups, maxZoom, from, to, zoom) == Range(from, to, zoom);
    RangeHits(groups, maxZoom, from, to, zoom, k);
  }

  /** Where the next level's blocks f..t lie in level zoom, and which of
      them holds k. */
  lemma {:induction false} StepBounds(from: int, to: int, k: int, g: int, f: int, t: int, lo: int, hi: int)
    requires g >= 1 && f == FromNext(from, g) && t == ToNext(to, g) && f <= t
    requires lo == f * g && hi == t * g + g - 1
    ensures from <= lo <= hi - g + 1 && hi <= to && hi + 1 == (t + 1) * g
    ensures f <= k / g <= t <==> lo <= k <= hi
  {
    NextBounds(from, to, g);
    MulMonotone(f, t, g);
    InBlocks(k, g, f, t);
    MulNext(t, g);
  }

  /** The step of FixedExact that splits from..to, given what the coarser
      levels hold. */
  lemma {:induction false} FixedStep(groups: seq<int>, maxZoom: nat, from: int, to: int, zoom: nat, k: int)
    requires GroupsOk(groups, maxZoom) && zoom < maxZoom
    requires var g := groups[zoom + 1];
             var f, t := FromNext(from, g), ToNext(to, g);
             var mid := CollectFixed(groups, maxZoom, f, t, zoom + 1);
             f <= t && AllAtLeast(mid, zoom + 1, maxZoom)
             && Hits(groups, maxZoom, mid, zoom + 1, k / g) == (if f <= k / g <= t then 1 else 0)
    ensures var cs := CollectFixed(groups, maxZoom, from, to, zoom);
            AllAtLeast(cs, zoom, maxZoom)
            && Hits(groups, maxZoom, cs, zoom, k) == (if from <= k <= to then 1 else 0)
  {
    var g := groups[zoom + 1];
    var f, t := FromNext(from, g), ToNext(to, g);
    var lo, hi := f * g, t * g + g - 1;
    StepBounds(from, to, k, g, f, t, lo, hi);
    var mid := CollectFixed(groups, maxZoom, f, t, zoom + 1);
    FixedUnfold(groups, maxZoom, from, to, zoom, f, t, lo, hi);
    FixedCount(groups, maxZoom, from, to, zoom, k, mid, lo, hi);
  }

  /** One level of the corrected decomposition, with the middle's extent
      lo..hi given. */
  lemma {:induction false} FixedUnfold(groups: seq<int>, maxZoom: nat, from: int, to: int, zoom: nat, f: int, t: int, lo: int, hi: int)
    requires GroupsOk(groups, maxZoom) && zoom < maxZoom
    requires f == FromNext(from, groups[zoom + 1]) && t == ToNext(to, groups[zoom + 1]) && f <= t
    requires lo == f * groups[zoom + 1] && hi + 1 == (t + 1) * groups[zoom + 1]
    ensures CollectFixed(groups, maxZoom, from, to, zoom)
            == CollectFixed(groups, maxZoom, f, t, zoom + 1) + Range(from, lo - 1, zoom) + Range(hi + 1, to, zoom)
  {
  }

  /** The counting half of FixedStep, with the middle's extent lo..hi given. */
  lemma {:induction false} FixedCount(groups: seq<int>, maxZoom: nat, from: int, to: int, zoom: nat, k: int,
                   mid: seq<Ctx>, lo: int, hi: int)
    requires GroupsOk(groups, maxZoom) && zoom < maxZoom && from <= lo <= hi <= to
    requires AllAtLeast(mid, zoom + 1, maxZoom)
    requires Hits(groups, maxZoom, mid, zoom + 1, k / groups[zoom + 1]) == (if lo <= k <= hi then 1 else 0)
    ensures var cs := mid + Range(from, lo - 1, zoom) + Range(hi + 1, to, zoom);
            AllAtLeast(cs, zoom, maxZoom)
            && Hits(groups, maxZoom, cs, zoom, k) == (if from <= k <= to then 1 else 0)
  {
    var head, tail := Range(from, lo - 1, zoom), Range(hi + 1, to, zoom);
    RangeHits(groups, maxZoom, from, lo - 1, zoom, k);
    RangeHits(groups, maxZoom, hi + 1, to, zoom, k);
    ThreeHits(groups, maxZoom, mid, head, tail, zoom, k);
    ExactSum(from, to, k, lo, hi, Hits(groups, maxZoom, mid, zoom + 1, k / groups[zoom + 1]),
             Hits(groups, maxZoom, head, zoom, k), Hits(groups, maxZoom, tail, zoom, k));
  }

  /** The counting step of CollectCovers: the head runs to lo and the tail
      starts at hi - g + 1. */
  lemma {:induction false} CoverSum(from: int, to: int, k: int, lo: int, hi: int, g: int, mid: nat, head: nat, tail: nat)
    requires from <= lo <= hi - g + 1 && hi <= to && g >= 1
    requires mid == (if lo <= k <= hi then 1 else 0)
    requires head == (if from <= k <= lo then 1 else 0) && tail == (if hi - g + 1 <= k <= to then 1 else 0)
    ensures from <= k <= to ==> mid + head + tail >= 1
    ensures !(from <= k <= to) ==> mid + head + tail == 0
  {
  }

  /** The decomposition as written holds every block from..to at least once
      and nothing outside it. */
  lemma {:induction false} CollectCovers(groups: seq<int>, maxZoom: nat, from: int, to: int, zoom: nat, k: int)
    requires GroupsOk(groups, maxZoom) && zoom <= maxZoom
    ensures var cs := Collect(groups, maxZoom, from, to, zoom);
            AllAtLeast(cs, zoom, maxZoom)
            && (from <= k <= to ==> Hits(groups, maxZoom, cs, zoom, k) >= 1)
            && (!(from <= k <= to) ==> Hits(groups, maxZoom, cs, zoom, k) == 0)
    decreases maxZoom - zoom
  {
    if zoom < maxZoom && FromNext(from, groups[zoom + 1]) <= ToNext(to, groups[zoom + 1]) {
      var g := groups[zoom + 1];
      CollectCovers(groups, maxZoom, FromNext(from, g), ToNext(to, g), zoom + 1, k / g);
      CoverStep(groups, maxZoom, from, to, zoom, k);
    } else {
      RangeHits(groups, maxZoom, from, to, zoom, k);
    }
  }

  /** The step of CollectCovers that splits from..to. */
  lemma {:induction false} CoverStep(groups: seq<int>, maxZoom: nat, from: int, to: int, zoom: nat, k: int)
    requires GroupsOk(groups, maxZoom) && zoom < maxZoom
    requires var g := groups[zoom + 1];
             var f, t := FromNext(from, g), ToNext(to, g);
             var mid := Collect(groups, maxZoom, f, t, zoom + 1);
             f <= t && AllAtLeast(mid, zoom + 1, maxZoom)
             && (f <= k / g <= t ==> Hits(groups, maxZoom, mid, zoom + 1, k / g) >= 1)
             && (!(f <= k / g <= t) ==> Hits(groups, maxZoom, mid, zoom + 1, k / g) == 0)
    ensures var cs := Collect(groups, maxZoom, from, to, zoom);
            AllAtLeast(cs, zoom, maxZoom)
            && (from <= k <= to ==> Hits(groups, maxZoom, cs, zoom, k) >= 1)
            && (!(from <= k <= to) ==> Hits(groups, maxZoom, cs, zoom, k) == 0)
  {
    var g := groups[zoom + 1];
    var f, t := FromNext(from, g), ToNext(to, g);
    var lo, hi := f * g, t * g + g - 1;
    StepBounds(from, to, k, g, f, t, lo, hi);
    var mid := Collect(groups, maxZoom, f, t, zoom + 1);
    assert Collect(groups, maxZoom, from, to, zoom) == mid + Range(from, lo, zoom) + Range(hi - g + 1, to, zoom);
    CoverCount(groups, maxZoom, from, to, zoom, k, mid, lo, hi, g);
  }

  /** The counting half of CoverStep. */
  lemma {:induction false} CoverCount(groups: seq<int>, maxZoom: nat, from: int, to: int, zoom: nat, k: int,
                   mid: seq<Ctx>, lo: int, hi: int, g: int)
    requires GroupsOk(groups, maxZoom) && zoom < maxZoom && g == groups[zoom + 1]
    requires from <= lo <= hi - g + 1 && hi <= to
    requires AllAtLeast(mid, zoom + 1, maxZoom)
    requires lo <= k <= hi ==> Hits(groups, maxZoom, mid, zoom + 1, k / g) >= 1
    requires !(lo <= k <= hi) ==> Hits(groups, maxZoom, mid, zoom + 1, k / g) == 0
    ensures var cs := mid + Range(from, lo, zoom) + Range(hi - g + 1, to, zoom);
            AllAtLeast(cs, zoom, maxZoom)
            && (from <= k <= to ==> Hits(groups, maxZoom, cs, zoom, k) >= 1)
            && (!(from <= k <= to) ==> Hits(groups, maxZoom, cs, zoom, k) == 0)
  {
    var head, tail := Range(from, lo, zoom), Range(hi - g + 1, to, zoom);
    RangeHits(groups, maxZoom, from, lo, zoom, k);
    RangeHits(groups, maxZoom, hi - g + 1, to, zoom, k);
    ThreeHits(groups, maxZoom, mid, head, tail, zoom, k);
    var m := Hits(groups, maxZoom, mid, zoom + 1, k / g);
    if lo <= k <= hi {
      assert m + Hits(groups, maxZoom, head, zoom, k) + Hits(groups, maxZoom, tail, zoom, k) >= 1;
    } else {
      CoverSum(from, to, k, lo, hi, g, 0, Hits(groups, maxZoom, head, zoom, k), Hits(groups, maxZoom, tail, zoom, k));
    }
  }

  /** With groups of two, blocks 0..3 of level 0 come back as blocks 0 and 1
      of level 1, then block 0 and blocks 2 and 3 of level 0: block 0 is
      gathered twice, and so are blocks 2 and 3, so `renderTraces` adds
      their samples twice to the root. */
  lemma {:induction false} CollectTwice()
    ensures Collect([1, 2], 1, 0, 3, 0) == [Ctx(0, 1), Ctx(1, 1), Ctx(0, 0), Ctx(2, 0), Ctx(3, 0)]
    ensures Hits([1, 2], 1, Collect([1, 2], 1, 0, 3, 0), 0, 0) == 2
    ensures CollectFixed([1, 2], 1, 0, 3, 0) == [Ctx(0, 1), Ctx(1, 1)]
  {
    var groups := [1, 2];
    assert FromNext(0, 2) == 0 && ToNext(3, 2) == 1;
    assert Collect(groups, 1, 0, 1, 1) == [Ctx(0, 1), Ctx(1, 1)];
    assert Range(0, 0, 0) == [Ctx(0, 0)];
    assert Range(2, 3, 0) == [Ctx(2, 0), Ctx(3, 0)];
    var cs := [Ctx(0, 1), Ctx(1, 1), Ctx(0, 0), Ctx(2, 0), Ctx(3, 0)];
    assert Collect(groups, 1, 0, 3, 0) == [Ctx(0, 1), Ctx(1, 1)] + [Ctx(0, 0)] + [Ctx(2, 0), Ctx(3, 0)];
    assert Collect(groups, 1, 0, 3, 0) == cs;
    TwiceHits(cs);
    assert Range(0, -1, 0) == [] && Range(4, 3, 0) == [];
    assert CollectFixed(groups, 1, 0, 1, 1) == [Ctx(0, 1), Ctx(1, 1)];
    assert CollectFixed(groups, 1, 0, 3, 0) == [Ctx(0, 1), Ctx(1, 1)] + [] + [];
  }

  /** The count behind CollectTwice, one context at a time. */
  lemma {:induction false} TwiceHits(cs: seq<Ctx>)
    requires cs == [Ctx(0, 1), Ctx(1, 1), Ctx(0, 0), Ctx(2, 0), Ctx(3, 0)]
    ensures GroupsOk([1, 2], 1) && AllAtLeast(cs, 0, 1) && Hits([1, 2], 1, cs, 0, 0) == 2
  {
    var groups := [1, 2];
    assert Covers(groups, 1, Ctx(0, 1), 0, 0);
    assert !Covers(groups, 1, Ctx(1, 1), 0, 0);
    assert cs[..1] == [Ctx(0, 1)];
    assert Hits(groups, 1, cs[..1], 0, 0) == 1 by { assert cs[..1][..0] == []; }
    assert cs[..2][..1] == cs[..1];
    assert Hits(groups, 1, cs[..2], 0, 0) == 1;
    assert cs[..3][..2] == cs[..2];
    assert Hits(groups, 1, cs[..3], 0, 0) == 2;
    assert cs[..4][..3] == cs[..3];
    assert Hits(groups, 1, cs[..4], 0, 0) == 2;
    assert cs[..4] == cs[..|cs| - 1];
  }
}
