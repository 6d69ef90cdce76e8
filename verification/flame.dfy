/** The pure helpers of flame.js, the flame-graph viewer: the binary search
    that finds the frame under the mouse, the sample-count label, the
    percentage, and the bookkeeping behind "matched" (`mark` and
    `totalMarked`). A frame is placed by its `left` and `width`, both
    counted in samples. */
module Flame {
  import opened Common

  datatype Frame = Frame(left: int, width: int)

  function End(f: Frame): int { f.left + f.width }

  /** The frame spans the point x. */
  predicate Contains(f: Frame, x: real)
  {
    f.left as real <= x < End(f) as real
  }

  /** The frames of one level: none has a negative width, and each ends at
      or before the next one starts. */
  predicate Sorted(frames: seq<Frame>)
  {
    (forall i :: 0 <= i < |frames| ==> frames[i].width >= 0)
    && forall i, j :: 0 <= i < j < |frames| ==> End(frames[i]) <= frames[j].left
  }

  /** What `findFrame` settles on: the frame at an index, or the bounds the
      search stopped at (where the half-pixel fallback looks next). */
  datatype Found = Hit(index: int) | Miss(left: int, right: int)

  /** The `while (left <= right)` search of `findFrame(frames, x)`, with
      `mid = (left + right) >>> 1`. A frame it returns spans x; on a level
      laid out in order it returns one exactly when some frame spans x, and
      otherwise stops between the frames that end by x and those that start
      after it. */
  method FindFrame(frames: seq<Frame>, x: real) returns (r: Found)
    requires |frames| <= TWO_31
    ensures r.Hit? ==> 0 <= r.index < |frames| && Contains(frames[r.index], x)
    ensures r.Miss? ==> 0 <= r.left <= |frames| && r.right == r.left - 1
    ensures Sorted(frames) ==> (r.Hit? <==> exists i :: 0 <= i < |frames| && Contains(frames[i], x))
    ensures Sorted(frames) && r.Miss? ==>
              (forall k :: 0 <= k < r.left ==> End(frames[k]) as real <= x)
              && (forall k :: r.left <= k < |frames| ==> x < frames[k].left as real)
  {
    var left, right := 0, |frames| - 1;
    while left <= right
      invariant 0 <= left <= right + 1 <= |frames|
      invariant Sorted(frames) ==> forall k :: 0 <= k < left ==> End(frames[k]) as real <= x
      invariant Sorted(frames) ==> forall k :: right < k < |frames| ==> x < frames[k].left as real
      decreases right + 1 - left
    {
      var mid := ToUint32(left + right) / 2;
      var f := frames[mid];
      if f.left as real > x {
        right := mid - 1;
      } else if End(f) as real <= x {
        left := mid + 1;
      } else {
        return Hit(mid);
      }
    }
    r := Miss(left, right);
    if Sorted(frames) {
      forall i | 0 <= i < |frames|
        ensures !Contains(frames[i], x)
      {
        if i < left {
          assert End(frames[i]) as real <= x;
        } else {
          assert x < frames[i].left as real;
        }
      }
    }
  }

  // ---- samples(n) ----

  function Digit(d: int): char
    requires 0 <= d < 10
  {
    "0123456789"[d]
  }

  predicate IsDigit(ch: char) { '0' <= ch <= '9' }

  predicate AllDigits(s: string) { forall k :: 0 <= k < |s| ==> IsDigit(s[k]) }

  /** `n.toString()` for a whole number. */
  function Decimal(n: nat): (r: string)
    decreases n
  {
    if n < 10 then [Digit(n)] else Decimal(n / 10) + [Digit(n % 10)]
  }

  /** The number a string of digits spells. */
  function Value(s: string): int
    requires AllDigits(s)
    decreases |s|
  {
    if |s| == 0 then 0 else Value(s[..|s| - 1]) * 10 + (s[|s| - 1] as int - '0' as int)
  }

  /** `toString` writes n back: digits only, no leading zero. */
  lemma {:induction false} DecimalRoundTrip(n: nat)
    ensures var s := Decimal(n);
            |s| > 0 && AllDigits(s) && Value(s) == n && (|s| > 1 ==> s[0] != '0')
    decreases n
  {
    if n >= 10 {
      DecimalRoundTrip(n / 10);
      var s := Decimal(n);
      assert s[..|s| - 1] == Decimal(n / 10);
      assert Decimal(n / 10)[0] == s[0];
      assert Digit(n % 10) as int - '0' as int == n % 10;
    } else {
      assert Digit(n) as int - '0' as int == n;
      assert Decimal(n)[..0] == [];
    }
  }

  /** The `replace(/\B(?=(\d{3})+(?!\d))/g, ',')` of a digit string: a comma
      at every inner position followed by a multiple of three digits. */
  function Group(ds: string): (r: string)
    decreases |ds|
  {
    if |ds| <= 3 then ds else Group(ds[..|ds| - 3]) + [','] + ds[|ds| - 3..]
  }

  /** The string without its commas. */
  function Strip(s: string): string
    decreases |s|
  {
    if |s| == 0 then [] else Strip(s[..|s| - 1]) + (if s[|s| - 1] == ',' then [] else [s[|s| - 1]])
  }

  lemma {:induction false} StripAppend(a: string, b: string)
    ensures Strip(a + b) == Strip(a) + Strip(b)
    decreases |b|
  {
    if |b| == 0 {
      assert a + b == a;
    } else {
      assert (a + b)[..|a + b| - 1] == a + b[..|b| - 1];
      StripAppend(a, b[..|b| - 1]);
    }
  }

  lemma {:induction false} StripDigits(s: string)
    requires AllDigits(s)
    ensures Strip(s) == s
    decreases |s|
  {
    if |s| > 0 {
      StripDigits(s[..|s| - 1]);
    }
  }

  /** Grouping only inserts commas, never first, and one exactly four places
      from the end, eight places, and so on: groups of three digits. */
  lemma {:induction false} GroupMeaning(ds: string)
    requires AllDigits(ds) && |ds| > 0
    ensures var r := Group(ds);
            Strip(r) == ds && r[0] != ',' && |r| == |ds| + (|ds| - 1) / 3
            && forall k :: 0 <= k < |r| ==> (r[k] == ',' <==> (|r| - k) % 4 == 0)
    decreases |ds|
  {
    if |ds| <= 3 {
      GroupShort(ds);
    } else {
      var a, b := ds[..|ds| - 3], ds[|ds| - 3..];
      assert AllDigits(a) && AllDigits(b) by {
        assert forall k :: 0 <= k < |a| ==> a[k] == ds[k];
        assert forall k :: 0 <= k < |b| ==> b[k] == ds[|ds| - 3 + k];
      }
      GroupMeaning(a);
      GroupLong(ds, a, b);
    }
  }

  /** Up to three digits are left as they are. */
  lemma {:induction false} GroupShort(ds: string)
    requires AllDigits(ds) && 0 < |ds| <= 3
    ensures var r := Group(ds);
            Strip(r) == ds && r[0] != ',' && |r| == |ds| + (|ds| - 1) / 3
            && forall k :: 0 <= k < |r| ==> (r[k] == ',' <==> (|r| - k) % 4 == 0)
  {
    StripDigits(ds);
    assert Group(ds) == ds;
    forall k | 0 <= k < |ds|
      ensures ds[k] != ',' && (|ds| - k) % 4 != 0
    {
      assert IsDigit(ds[k]);
    }
  }

  /** The step: a grouped prefix, a comma and the last three digits. */
  lemma {:induction false} GroupLong(ds: string, a: string, b: string)
    requires AllDigits(ds) && |ds| > 3 && a == ds[..|ds| - 3] && b == ds[|ds| - 3..]
    requires AllDigits(b)
    requires var g := Group(a);
             Strip(g) == a && |g| > 0 && g[0] != ',' && |g| == |a| + (|a| - 1) / 3
             && forall k :: 0 <= k < |g| ==> (g[k] == ',' <==> (|g| - k) % 4 == 0)
    ensures var r := Group(ds);
            Strip(r) == ds && r[0] != ',' && |r| == |ds| + (|ds| - 1) / 3
            && forall k :: 0 <= k < |r| ==> (r[k] == ',' <==> (|r| - k) % 4 == 0)
  {
    var g := Group(a);
    var r := Group(ds);
    assert r == g + [','] + b;
    GroupStrip(g, b);
    assert a + b == ds;
    GroupCommas(g, b, r);
    ThirdsStep(|ds|);
  }

  /** Three more digits add one more comma. */
  lemma {:induction false} ThirdsStep(n: int)
    requires n > 3
    ensures (n - 1) / 3 == (n - 4) / 3 + 1
  {
    var q, m := (n - 4) / 3, (n - 4) % 3;
    assert n - 4 == 3 * q + m && 0 <= m < 3;
    assert n - 1 == 3 * (q + 1) + m;
    DivModUnique(n - 1, 3, q + 1, m);
  }

  /** Stripping a group, a comma and three digits. */
  lemma {:induction false} GroupStrip(g: string, b: string)
    requires AllDigits(b)
    ensures Strip(g + [','] + b) == Strip(g) + b
  {
    StripAppend(g + [','], b);
    StripAppend(g, [',']);
    assert Strip([',']) == [] by { assert [','][..0] == []; }
    StripDigits(b);
  }

  /** Appending a comma and three digits keeps every comma a multiple of four
      places from the end. */
  lemma {:induction false} GroupCommas(g: string, b: string, r: string)
    requires |b| == 3 && AllDigits(b) && r == g + [','] + b && |g| > 0 && g[0] != ','
    requires forall k :: 0 <= k < |g| ==> (g[k] == ',' <==> (|g| - k) % 4 == 0)
    ensures r[0] != ','
    ensures forall k :: 0 <= k < |r| ==> (r[k] == ',' <==> (|r| - k) % 4 == 0)
  {
    forall k | 0 <= k < |r|
      ensures r[k] == ',' <==> (|r| - k) % 4 == 0
    {
      if k < |g| {
        assert r[k] == g[k];
        assert |r| - k == (|g| - k) + 4;
      } else if k > |g| {
        assert r[k] == b[k - |g| - 1];
        assert IsDigit(b[k - |g| - 1]);
      }
    }
  }

  /** `samples(n)`. */
  function Samples(n: nat): string
  {
    if n == 1 then "1 sample" else Group(Decimal(n)) + " samples"
  }

  /** The label reads back as n: "1 sample", or n's digits in groups of
      three followed by " samples". */
  lemma {:induction false} SamplesParse(n: nat)
    ensures var r := Samples(n);
            (n == 1 ==> r == "1 sample")
            && (n != 1 ==>
                  |r| > 8 && r[|r| - 8..] == " samples"
                  && var g := r[..|r| - 8];
                     (forall k :: 0 <= k < |g| ==> (g[k] == ',' <==> (|g| - k) % 4 == 0))
                     && AllDigits(Strip(g)) && Value(Strip(g)) == n)
  {
    if n != 1 {
      DecimalRoundTrip(n);
      GroupMeaning(Decimal(n));
      var g := Group(Decimal(n));
      var r := Samples(n);
      assert r[..|r| - 8] == g;
    }
  }

  // ---- pct(a, b) ----

  /** What `pct` formats: the string "100", or the number 100 * a / b that
      `toFixed(2)` then renders; a division by zero gives -Infinity. */
  datatype Percent = Hundred | Fraction(value: real) | NegInfinity

  function Pct(a: int, b: int): Percent
  {
    if a >= b then Hundred
    else if b == 0 then NegInfinity
    else Fraction(100.0 * a as real / b as real)
  }

  /** At least the whole reads as "100"; a part of a positive whole is a
      percentage in [0, 100) with value * b == 100 * a. */
  lemma {:induction false} PctMeaning(a: int, b: int)
    ensures Pct(a, b) == Hundred <==> a >= b
    ensures 0 <= a < b ==> var p := Pct(a, b);
              p.Fraction? && 0.0 <= p.value < 100.0 && p.value * b as real == 100.0 * a as real
  {
    if 0 <= a < b {
      var v := 100.0 * a as real / b as real;
      assert v * b as real == 100.0 * a as real;
      assert v < 100.0 by {
        assert 100.0 * a as real < 100.0 * b as real;
      }
    }
  }

  // ---- mark and totalMarked ----

  /** The `marked` array: a slot per left edge, undefined where no frame
      with that left edge has been marked. */
  type Marked = seq<Option<int>>

  function At(marked: Marked, k: int): Option<int>
  {
    if 0 <= k < |marked| then marked[k] else None
  }

  /** `marked[k] = w`, the array growing with holes when k is past its end. */
  function Put(marked: Marked, k: nat, w: int): (r: Marked)
    ensures |r| == if k < |marked| then |marked| else k + 1
  {
    if k < |marked| then marked[k := Some(w)]
    else marked + seq(k - |marked|, _ => None) + [Some(w)]
  }

  /** `mark(f)`: whether the frame is drawn as matched, and the array after.
      A slot at least as wide as the frame is left alone and answers true;
      otherwise the frame's width is stored and the answer is the width's
      truthiness. */
  function Mark(marked: Marked, f: Frame): (bool, Marked)
    requires f.left >= 0
  {
    var prior := At(marked, f.left);
    if prior.Some? && prior.value >= f.width then (true, marked)
    else (f.width != 0, Put(marked, f.left, f.width))
  }

  /** After a mark the frame's slot holds the wider of what it held and the
      frame's width, and nothing else changes; the answer is false only for
      a frame of width 0 over a narrower (or no) slot. */
  lemma {:induction false} MarkMeaning(marked: Marked, f: Frame)
    requires f.left >= 0
    ensures var r := Mark(marked, f);
            var prior := At(marked, f.left);
            At(r.1, f.left) == Some(if prior.Some? && prior.value >= f.width then prior.value else f.width)
            && (forall k :: k != f.left ==> At(r.1, k) == At(marked, k))
            && (r.0 <==> (prior.Some? && prior.value >= f.width) || f.width != 0)
  {
    var r := Mark(marked, f);
    forall k | k != f.left
      ensures At(r.1, k) == At(marked, k)
    {
      if f.left >= |marked| && |marked| <= k < f.left {
        assert r.1[k] == None;
      }
    }
  }

  /** The value of every counted slot. */
  function CountedSum(marked: Marked, counted: seq<int>): int
    requires forall i :: 0 <= i < |counted| ==> At(marked, counted[i]).Some?
  {
    if |counted| == 0 then 0
    else CountedSum(marked, counted[..|counted| - 1]) + At(marked, counted[|counted| - 1]).value
  }

  /** Slot k lies inside the interval of some counted slot. */
  predicate Inside(marked: Marked, counted: seq<int>, k: int)
    requires forall i :: 0 <= i < |counted| ==> At(marked, counted[i]).Some?
  {
    exists i :: 0 <= i < |counted| && counted[i] <= k < counted[i] + At(marked, counted[i]).value
  }

  /** `totalMarked()`: the marked left edges in increasing order, each
      counted when it starts at or after the end of the last counted one.
      The total is the sum of the counted widths; the counted intervals
      follow one another without overlap; and every marked slot not counted
      lies inside a counted interval, so a matched frame nested in a wider
      matched one adds nothing. The counted left edges, which the loop only
      keeps implicitly in `left`, are returned alongside the total so that
      the contract can name them. */
  method TotalMarked(marked: Marked) returns (total: int, counted: seq<int>)
    ensures forall i :: 0 <= i < |counted| ==> 0 <= counted[i] < |marked| && marked[counted[i]].Some?
    ensures total == CountedSum(marked, counted)
    ensures forall i :: 0 < i < |counted| ==> counted[i - 1] + At(marked, counted[i - 1]).value <= counted[i]
    ensures forall k :: 0 <= k < |marked| && marked[k].Some? ==> k in counted || Inside(marked, counted, k)
  {
    total := 0;
    counted := [];
    var left := 0;
    for x := 0 to |marked|
      invariant Greedy(marked, x, counted, total, left)
    {
      var next := Visit(marked, x, counted, total, left);
      counted, total, left := next.0, next.1, next.2;
    }
  }

  /** One iteration of the `totalMarked` loop, at slot x: a marked slot at or
      past `left` is counted and moves `left` to its end; any other slot is
      skipped. */
  function Visit(marked: Marked, x: int, counted: seq<int>, total: int, left: int): (r: (seq<int>, int, int))
    requires Greedy(marked, x, counted, total, left) && x < |marked|
    ensures Greedy(marked, x + 1, r.0, r.1, r.2)
  {
    if marked[x].Some? && x >= left then
      CountStep(marked, x, counted, total, left);
      (counted + [x], total + marked[x].value, x + marked[x].value)
    else
      SkipStep(marked, x, counted, total, left);
      (counted, total, left)
  }

  /** The state of `totalMarked` once the slots before x are walked: the
      counted slots so far, their total, and `left`, the end of the last
      counted interval. */
  predicate Greedy(marked: Marked, x: int, counted: seq<int>, total: int, left: int)
  {
    0 <= x <= |marked|
    && (forall i :: 0 <= i < |counted| ==> 0 <= counted[i] < x && marked[counted[i]].Some?)
    && total == CountedSum(marked, counted)
    && (forall i :: 0 < i < |counted| ==> counted[i - 1] + At(marked, counted[i - 1]).value <= counted[i])
    && left == (if |counted| == 0 then 0 else counted[|counted| - 1] + At(marked, counted[|counted| - 1]).value)
    && forall k :: 0 <= k < x && marked[k].Some? ==> k in counted || Inside(marked, counted, k)
  }

  /** A marked slot at or past `left` is counted. */
  lemma {:induction false} CountStep(marked: Marked, x: int, counted: seq<int>, total: int, left: int)
    requires Greedy(marked, x, counted, total, left) && x < |marked| && marked[x].Some? && x >= left
    ensures Greedy(marked, x + 1, counted + [x], total + marked[x].value, x + marked[x].value)
  {
    CountedGrows(marked, counted, x);
    var c := counted + [x];
    assert forall i :: 0 <= i < |counted| ==> c[i] == counted[i];
  }

  /** A hole, or a slot before `left`, is skipped. */
  lemma {:induction false} SkipStep(marked: Marked, x: int, counted: seq<int>, total: int, left: int)
    requires Greedy(marked, x, counted, total, left) && x < |marked| && !(marked[x].Some? && x >= left)
    ensures Greedy(marked, x + 1, counted, total, left)
  {
    if marked[x].Some? {
      LastInside(marked, counted, x);
    }
  }

  /** Counting one more slot adds its width and keeps every slot that was
      inside a counted interval inside one. */
  lemma {:induction false} CountedGrows(marked: Marked, counted: seq<int>, x: int)
    requires forall i :: 0 <= i < |counted| ==> At(marked, counted[i]).Some?
    requires At(marked, x).Some?
    ensures var c := counted + [x];
            (forall i :: 0 <= i < |c| ==> At(marked, c[i]).Some?)
            && CountedSum(marked, c) == CountedSum(marked, counted) + At(marked, x).value
            && forall k :: Inside(marked, counted, k) ==> Inside(marked, c, k)
  {
    var c := counted + [x];
    assert c[..|c| - 1] == counted;
    forall k | Inside(marked, counted, k)
      ensures Inside(marked, c, k)
    {
      var i :| 0 <= i < |counted| && counted[i] <= k < counted[i] + At(marked, counted[i]).value;
      assert c[i] == counted[i];
    }
  }

  /** A slot before the end of the last counted interval, and after its
      start, is inside it. */
  lemma {:induction false} LastInside(marked: Marked, counted: seq<int>, x: int)
    requires forall i :: 0 <= i < |counted| ==> At(marked, counted[i]).Some?
    requires |counted| > 0 && counted[|counted| - 1] <= x
    requires x < counted[|counted| - 1] + At(marked, counted[|counted| - 1]).value
    ensures Inside(marked, counted, x)
  {
  }
}
