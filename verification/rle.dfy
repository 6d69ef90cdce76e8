/** The zero-run encoding of stack records in `Heatmap.stacks` and its
    reader `RleData` in heatmap.js. A stack is a sequence of child indices,
    one per frame along the path from the root; most of them are 0 (the
    first child). A record is the stack length, then every nonzero index as
    itself, and every maximal run of n zeros as 0 followed by n. All numbers
    are varints. */
module Rle {
  import opened Common
  import opened Symbols
  import opened DataBuffer

  /** The number of zeros at the front of ids. */
  function LeadingZeros(ids: seq<nat>): (n: nat)
    ensures n <= |ids|
    decreases |ids|
  {
    if |ids| == 0 || ids[0] != 0 then 0 else 1 + LeadingZeros(ids[1..])
  }

  /** The leading zeros are zeros, and the run is maximal. */
  lemma {:induction false} LeadingZerosRun(ids: seq<nat>)
    ensures forall i :: 0 <= i < LeadingZeros(ids) ==> ids[i] == 0
    ensures LeadingZeros(ids) < |ids| ==> ids[LeadingZeros(ids)] != 0
    ensures |ids| > 0 && ids[0] == 0 ==> LeadingZeros(ids) >= 1
    decreases |ids|
  {
    if |ids| > 0 && ids[0] == 0 {
      LeadingZerosRun(ids[1..]);
    }
  }

  function Zeros(n: nat): (r: seq<nat>)
    ensures |r| == n
  {
    if n == 0 then [] else [0] + Zeros(n - 1)
  }

  /** Every element of Zeros(n) is 0. */
  lemma {:induction false} ZerosAreZero(n: nat)
    ensures forall i :: 0 <= i < n ==> Zeros(n)[i] == 0
  {
    if n > 0 {
      ZerosAreZero(n - 1);
      assert forall i :: 1 <= i < n ==> Zeros(n)[i] == Zeros(n - 1)[i - 1];
    }
  }

  /** The body of the frame loop in `Heatmap.stacks`, from frame 0 on with
      `zeroCount` zc: a zero opens a run by writing 0 and is counted; a
      nonzero index first closes the open run by writing its length; the
      run still open at the end is closed after the loop. */
  function RleLoop(ids: seq<nat>, zc: nat): (r: seq<nat>)
    decreases |ids|
  {
    if |ids| == 0 then (if zc != 0 then [zc] else [])
    else if ids[0] == 0 then (if zc == 0 then [0] else []) + RleLoop(ids[1..], zc + 1)
    else (if zc != 0 then [zc] else []) + [ids[0]] + RleLoop(ids[1..], 0)
  }

  function RleEncode(ids: seq<nat>): seq<nat>
  {
    RleLoop(ids, 0)
  }

  /** The record of one stack: its length, then the run-length indices. */
  function StackRecord(ids: seq<nat>): seq<nat>
  {
    [|ids|] + RleEncode(ids)
  }

  /** The layout by runs: each nonzero index as itself, each maximal run of
      zeros as 0 and the run's length. */
  function Runs(ids: seq<nat>): (r: seq<nat>)
    decreases |ids|
  {
    if |ids| == 0 then []
    else if ids[0] != 0 then [ids[0]] + Runs(ids[1..])
    else
      LeadingZerosRun(ids);
      var n := LeadingZeros(ids);
      [0, n] + Runs(ids[n..])
  }

  /** The single-pass loop writes the layout by runs; with a run of zc zeros
      open, the next thing it writes is the run's full length. */
  lemma {:induction false} RleLoopRuns(ids: seq<nat>, zc: nat)
    ensures zc == 0 ==> RleLoop(ids, zc) == Runs(ids)
    ensures zc > 0 ==> RleLoop(ids, zc) == [zc + LeadingZeros(ids)] + Runs(ids[LeadingZeros(ids)..])
    decreases |ids|
  {
    if |ids| > 0 {
      if ids[0] == 0 {
        RleLoopRuns(ids[1..], zc + 1);
        ZeroStep(ids, zc);
      } else {
        RleLoopRuns(ids[1..], 0);
        NonzeroStep(ids, zc);
      }
    }
  }

  /** RleLoopRuns at a zero, given the rest. */
  lemma {:induction false} ZeroStep(ids: seq<nat>, zc: nat)
    requires |ids| > 0 && ids[0] == 0
    requires RleLoop(ids[1..], zc + 1) == [zc + 1 + LeadingZeros(ids[1..])] + Runs(ids[1..][LeadingZeros(ids[1..])..])
    ensures zc == 0 ==> RleLoop(ids, zc) == Runs(ids)
    ensures zc > 0 ==> RleLoop(ids, zc) == [zc + LeadingZeros(ids)] + Runs(ids[LeadingZeros(ids)..])
  {
    var k := LeadingZeros(ids[1..]);
    var rest := Runs(ids[k + 1..]);
    ZeroUnfold(ids, zc, k, rest);
    if zc == 0 {
      RunsZeroUnfold(ids, k + 1);
    }
  }

  lemma ZeroUnfold(ids: seq<nat>, zc: nat, k: nat, rest: seq<nat>)
    requires |ids| > 0 && ids[0] == 0 && k == LeadingZeros(ids[1..]) && rest == Runs(ids[k + 1..])
    requires RleLoop(ids[1..], zc + 1) == [zc + 1 + k] + Runs(ids[1..][k..])
    ensures LeadingZeros(ids) == k + 1
    ensures RleLoop(ids, zc) == (if zc == 0 then [0] else []) + [zc + k + 1] + rest
  {
    assert ids[1..][k..] == ids[k + 1..];
  }

  lemma RunsZeroUnfold(ids: seq<nat>, n: nat)
    requires |ids| > 0 && ids[0] == 0 && n == LeadingZeros(ids)
    ensures Runs(ids) == [0, n] + Runs(ids[n..])
  {
  }

  /** RleLoopRuns at a nonzero index, given the rest. */
  lemma {:induction false} NonzeroStep(ids: seq<nat>, zc: nat)
    requires |ids| > 0 && ids[0] != 0
    requires RleLoop(ids[1..], 0) == Runs(ids[1..])
    ensures zc == 0 ==> RleLoop(ids, zc) == Runs(ids)
    ensures zc > 0 ==> RleLoop(ids, zc) == [zc + LeadingZeros(ids)] + Runs(ids[LeadingZeros(ids)..])
  {
    assert LeadingZeros(ids) == 0 && ids[0..] == ids;
    assert Runs(ids) == [ids[0]] + Runs(ids[1..]);
  }

  /** The broken-stack record written for a missing stack trace is the
      record of the one-frame stack [index]. */
  lemma {:induction false} BrokenStackRecord(index: nat)
    ensures StackRecord([index]) == if index == 0 then [1, 0, 1] else [1, index]
  {
    assert [index][1..] == [];
    assert RleLoop([], 1) == [1] && RleLoop([], 0) == [];
  }

  /** The state of an `RleData` reader: the index of the next value in the
      underlying buffer and `zeroCount`, the zeros still owed from the
      current run. */
  datatype RleState = RleState(pos: int, zeroCount: int)

  /** `RleData.nextVarInt()`: an owed zero, or the next value; a 0 in the
      stream is followed by the run length, of which this call delivers the
      first zero. */
  function RleNext(toks: seq<int>, s: RleState): (r: (int, RleState))
  {
    if s.zeroCount > 0 then (0, RleState(s.pos, s.zeroCount - 1))
    else if Tok(toks, s.pos) != 0 then (Tok(toks, s.pos), RleState(s.pos + 1, s.zeroCount))
    else (0, RleState(s.pos + 2, Tok(toks, s.pos + 1) - 1))
  }

  /** n successive reads. */
  function RleRead(toks: seq<int>, s: RleState, n: nat): (r: (seq<int>, RleState))
    ensures |r.0| == n
    decreases n
  {
    if n == 0 then ([], s)
    else
      var x := RleNext(toks, s);
      var xs := RleRead(toks, x.1, n - 1);
      ([x.0] + xs.0, xs.1)
  }

  /** Reading a + b values is reading a, then b from where that left off. */
  lemma {:induction false} RleReadSplit(toks: seq<int>, s: RleState, a: nat, b: nat)
    ensures RleRead(toks, s, a + b).0 == RleRead(toks, s, a).0 + RleRead(toks, RleRead(toks, s, a).1, b).0
    ensures RleRead(toks, s, a + b).1 == RleRead(toks, RleRead(toks, s, a).1, b).1
    decreases a
  {
    if a > 0 {
      var s1 := RleNext(toks, s).1;
      RleReadSplit(toks, s1, a - 1, b);
      assert a + b - 1 == (a - 1) + b;
    }
  }

  /** Owed zeros are delivered without touching the buffer. */
  lemma {:induction false} OwedZeros(toks: seq<int>, p: int, k: int, m: nat)
    requires m <= k
    ensures RleRead(toks, RleState(p, k), m) == (Zeros(m), RleState(p, k - m))
    decreases m
  {
    if m > 0 {
      OwedZeros(toks, p, k - 1, m - 1);
      assert Zeros(m) == [0] + Zeros(m - 1);
    }
  }

  /** A zero run at the front: one zero, then the rest of the run. */
  lemma {:induction false} ZeroRunSplit(ids: seq<nat>)
    requires |ids| > 0 && ids[0] == 0
    ensures LeadingZeros(ids) >= 1
    ensures ids == Zeros(LeadingZeros(ids)) + ids[LeadingZeros(ids)..]
  {
    LeadingZerosRun(ids);
    ZeroPrefix(ids, LeadingZeros(ids));
  }

  /** A prefix of n zeros. */
  lemma {:induction false} ZeroPrefix(ids: seq<nat>, n: nat)
    requires n <= |ids| && forall i :: 0 <= i < n ==> ids[i] == 0
    ensures ids == Zeros(n) + ids[n..]
  {
    ZerosAreZero(n);
    assert ids[..n] == Zeros(n);
    assert ids == ids[..n] + ids[n..];
  }

  /** The stream holds the layout by runs of ids from index p on. */
  predicate RunsAt(toks: seq<int>, p: int, ids: seq<nat>)
  {
    HoldsAt(toks, p, Runs(ids))
  }

  /** Reading |ids| values at p yields ids and leaves nothing owed, right
      after the layout. */
  predicate ReadsBack(toks: seq<int>, p: int, ids: seq<nat>)
  {
    RleRead(toks, RleState(p, 0), |ids|) == (ids, RleState(p + |Runs(ids)|, 0))
  }

  /** The value in front of an occurrence, and where the rest occurs. */
  lemma {:induction false} HoldsAtOne(toks: seq<int>, p: int, x: int, t: seq<int>)
    requires HoldsAt(toks, p, [x] + t)
    ensures Tok(toks, p) == x && HoldsAt(toks, p + 1, t)
  {
    HoldsAtSplit(toks, p, [x], t);
    assert toks[p + 0] == ([x] + t)[0];
  }

  /** The two values in front of an occurrence, and where the rest occurs. */
  lemma {:induction false} HoldsAtTwo(toks: seq<int>, p: int, x: int, y: int, t: seq<int>)
    requires HoldsAt(toks, p, [x, y] + t)
    ensures Tok(toks, p) == x && Tok(toks, p + 1) == y && HoldsAt(toks, p + 2, t)
  {
    HoldsAtSplit(toks, p, [x, y], t);
    assert toks[p + 0] == ([x, y] + t)[0];
    assert toks[p + 1] == ([x, y] + t)[1];
  }

  /** The layout by runs of a stream that starts with a zero run. */
  lemma {:induction false} RunsZeroFront(ids: seq<nat>)
    requires |ids| > 0 && ids[0] == 0
    ensures LeadingZeros(ids) >= 1
    ensures Runs(ids) == [0, LeadingZeros(ids)] + Runs(ids[LeadingZeros(ids)..])
  {
    LeadingZerosRun(ids);
  }

  /** One read, then the reads of the rest. */
  lemma {:induction false} ReadFirst(toks: seq<int>, s0: RleState, x: int, s1: RleState, rest: seq<int>, sEnd: RleState)
    requires RleNext(toks, s0) == (x, s1)
    requires RleRead(toks, s1, |rest|) == (rest, sEnd)
    ensures RleRead(toks, s0, 1 + |rest|) == ([x] + rest, sEnd)
  {
  }

  /** A nonzero index is read as itself, then the rest follows. */
  lemma {:induction false} ReadsBackNonZero(toks: seq<int>, p: int, ids: seq<nat>)
    requires RunsAt(toks, p, ids) && |ids| > 0 && ids[0] != 0
    ensures RunsAt(toks, p + 1, ids[1..])
    ensures ReadsBack(toks, p + 1, ids[1..]) ==> ReadsBack(toks, p, ids)
  {
    var tail := ids[1..];
    assert Runs(ids) == [ids[0]] + Runs(tail);
    HoldsAtOne(toks, p, ids[0], Runs(tail));
    if ReadsBack(toks, p + 1, tail) {
      ReadFirst(toks, RleState(p, 0), ids[0], RleState(p + 1, 0), tail, RleState(p + 1 + |Runs(tail)|, 0));
      assert ids == [ids[0]] + tail;
    }
  }

  /** The first zero of a run with n - 1 owed, then the rest: the run's
      zeros, then the rest. */
  lemma {:induction false} ZeroRunReads(toks: seq<int>, p: int, n: nat, rest: seq<int>, sEnd: RleState)
    requires n >= 1
    requires RleNext(toks, RleState(p, 0)) == (0, RleState(p + 2, n - 1))
    requires RleRead(toks, RleState(p + 2, 0), |rest|) == (rest, sEnd)
    ensures RleRead(toks, RleState(p, 0), n + |rest|) == (Zeros(n) + rest, sEnd)
  {
    OwedZeros(toks, p + 2, n - 1, n - 1);
    var s0 := RleState(p, 0);
    var s1 := RleState(p + 2, 0);
    ReadFirst(toks, s0, 0, RleState(p + 2, n - 1), Zeros(n - 1), s1);
    assert RleRead(toks, s0, n) == (Zeros(n), s1) by {
      assert 1 + |Zeros(n - 1)| == n;
      assert Zeros(n) == [0] + Zeros(n - 1);
    }
    RleReadSplit(toks, s0, n, |rest|);
    var a := RleRead(toks, s0, n);
    var b := RleRead(toks, a.1, |rest|);
    assert a.0 == Zeros(n) && a.1 == s1;
    assert b == (rest, sEnd);
    var whole := RleRead(toks, s0, n + |rest|);
    assert whole.0 == a.0 + b.0;
    assert whole.1 == b.1;
  }

  /** A zero run is read as its zeros, then the rest follows. */
  lemma {:induction false} ReadsBackZero(toks: seq<int>, p: int, ids: seq<nat>)
    requires RunsAt(toks, p, ids) && |ids| > 0 && ids[0] == 0
    ensures LeadingZeros(ids) >= 1
    ensures RunsAt(toks, p + 2, ids[LeadingZeros(ids)..])
    ensures ReadsBack(toks, p + 2, ids[LeadingZeros(ids)..]) ==> ReadsBack(toks, p, ids)
  {
    RunsZeroFront(ids);
    var n := LeadingZeros(ids);
    var after := ids[n..];
    HoldsAtTwo(toks, p, 0, n, Runs(after));
    if ReadsBack(toks, p + 2, after) {
      ZeroConclude(toks, p, ids, n);
    }
  }

  /** The reading of a zero run, once the run's 0 and length are known to
      be at p and the rest reads back after them. */
  lemma {:induction false} ZeroConclude(toks: seq<int>, p: int, ids: seq<nat>, n: nat)
    requires |ids| > 0 && ids[0] == 0 && n == LeadingZeros(ids) && n >= 1
    requires Tok(toks, p) == 0 && Tok(toks, p + 1) == n
    requires Runs(ids) == [0, n] + Runs(ids[n..])
    requires ReadsBack(toks, p + 2, ids[n..])
    ensures ReadsBack(toks, p, ids)
  {
    var after := ids[n..];
    var s0 := RleState(p, 0);
    var sEnd := RleState(p + 2 + |Runs(after)|, 0);
    assert RleNext(toks, s0) == (0, RleState(p + 2, n - 1));
    ZeroRunReads(toks, p, n, after, sEnd);
    ZeroRunSplit(ids);
    assert |ids| == n + |after|;
    assert RleRead(toks, s0, |ids|) == (Zeros(n) + after, sEnd);
  }

  /** `RleData` reads the layout by runs back as the index stream, and ends
      with nothing owed right after the layout. */
  lemma {:induction false} RunsRead(toks: seq<int>, p: int, ids: seq<nat>)
    requires RunsAt(toks, p, ids)
    ensures ReadsBack(toks, p, ids)
    decreases |ids|
  {
    if |ids| > 0 {
      if ids[0] != 0 {
        ReadsBackNonZero(toks, p, ids);
        RunsRead(toks, p + 1, ids[1..]);
      } else {
        ReadsBackZero(toks, p, ids);
        RunsRead(toks, p + 2, ids[LeadingZeros(ids)..]);
      }
    }
  }

  /** `RleData` inverts the encoding of `Heatmap.stacks`. */
  lemma {:induction false} RleRoundTrip(pre: seq<int>, ids: seq<nat>, rest: seq<int>)
    ensures RleRead(pre + RleEncode(ids) + rest, RleState(|pre|, 0), |ids|)
         == (ids, RleState(|pre| + |RleEncode(ids)|, 0))
  {
    RleLoopRuns(ids, 0);
    HoldsAtMiddle(pre, RleEncode(ids), rest);
    RunsRead(pre + RleEncode(ids) + rest, |pre|, ids);
  }

  /** The reading of one record in `integralTraces`: the stack length from
      the buffer itself, then that many values through `RleData`; a
      negative length reads nothing. */
  function ReadStack(toks: seq<int>, p: int): (r: (seq<int>, RleState))
  {
    var n := Tok(toks, p);
    RleRead(toks, RleState(p + 1, 0), if n < 0 then 0 else n)
  }

  /** A stack record reads back as the stack, ending right after it. */
  lemma {:induction false} StackRoundTrip(pre: seq<int>, ids: seq<nat>, rest: seq<int>)
    ensures ReadStack(pre + StackRecord(ids) + rest, |pre|)
         == (ids, RleState(|pre| + |StackRecord(ids)|, 0))
  {
    var toks := pre + StackRecord(ids) + rest;
    assert toks == (pre + [|ids|]) + RleEncode(ids) + rest;
    assert Tok(toks, |pre|) == |ids|;
    RleRoundTrip(pre + [|ids|], ids, rest);
  }

  /** Every value of the stream is one `putInt` accepts and `nextVarInt`
      reads back. */
  predicate Readable(vs: seq<nat>)
  {
    forall i :: 0 <= i < |vs| ==> vs[i] < TWO_31
  }

  /** The layout by runs holds the nonzero indices and run lengths, each at
      most the larger of the largest index and the stack length. */
  lemma {:induction false} RunsBounded(ids: seq<nat>, bound: nat)
    requires |ids| <= bound && forall i :: 0 <= i < |ids| ==> ids[i] <= bound
    ensures forall i :: 0 <= i < |Runs(ids)| ==> Runs(ids)[i] <= bound
    decreases |ids|
  {
    if |ids| > 0 {
      if ids[0] != 0 {
        RunsBounded(ids[1..], bound);
        assert Runs(ids) == [ids[0]] + Runs(ids[1..]);
      } else {
        LeadingZerosRun(ids);
        var n := LeadingZeros(ids);
        RunsBounded(ids[n..], bound);
        assert Runs(ids) == [0, n] + Runs(ids[n..]);
      }
    }
  }

  /** The characters of a stack record decode to the record's values, so
      the buffer `RleData` reads from holds exactly them, whenever the stack
      is shorter than 2^31 and its indices are below 2^31. */
  lemma {:induction false} RecordDecodes(ids: seq<nat>)
    requires |ids| < TWO_31 && Readable(ids)
    ensures Readable(StackRecord(ids))
    ensures DecodeEvents(EncodeVars(StackRecord(ids))) == StackRecord(ids)
  {
    RunsBounded(ids, TWO_31 - 1);
    RleLoopRuns(ids, 0);
    var r := StackRecord(ids);
    assert forall i :: 0 < i < |r| ==> r[i] == Runs(ids)[i - 1];
    DecodeEventsRoundTrip(r);
  }
}
