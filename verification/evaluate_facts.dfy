/** Further facts about `SimpleHeatmap.evaluate`: which block a sample
    lands in, the shape of a sample's frames, the sentinels for missing
    references, and the stack cache as written. */
module EvaluateFacts {
  import opened Common
  import opened Interning
  import opened Evaluation
  import SimpleMethods
  import ClassNames
  import EvaluateProofs

  // ---- Blocks ----

  /** The samples in time order, as `evaluate` sorts them. */
  predicate SortedByTime(samples: seq<Sample>)
  {
    forall i, j :: 0 <= i < j < |samples| ==> samples[i].time <= samples[j].time
  }

  /** Every sample is at or after the start, and its elapsed ticks times
      1000 fit a `long`. */
  predicate InClock(rec: Recording, samples: seq<Sample>)
  {
    forall i :: 0 <= i < |samples| ==>
      rec.startTicks <= samples[i].time && (samples[i].time - rec.startTicks) * 1000 < TWO_63
  }

  /** Division by a positive number keeps the order of naturals and does
      not grow them. */
  lemma {:induction false} DivMonotone(a: nat, b: nat, d: int)
    requires a <= b && d > 0
    ensures 0 <= a / d <= b / d <= b
  {
    var qa, qb := a / d, b / d;
    if qa > qb {
      MulGrows(d, qa - qb);
      assert false;
    }
    if qb > b {
      MulGrows(qb, d);
      assert false;
    }
  }

  /** Java `long` division of naturals is the plain quotient. */
  lemma {:induction false} LongDivNat(a: nat, b: int)
    requires a < TWO_63 && 0 < b < TWO_63
    ensures LongDiv(a, b) == a / b
  {
    DivMonotone(a, a, b);
    SimpleMethods.LongInRange(a / b);
  }

  /** The milliseconds of an in-range time, without wrap-around. */
  lemma {:induction false} MsIs(rec: Recording, t: Int64, e: nat)
    requires rec.ticksPerSec > 0 && e == (t - rec.startTicks) * 1000 < TWO_63
    ensures Ms(rec, t) == e / rec.ticksPerSec
  {
    SimpleMethods.LongInRange(t - rec.startTicks);
    SimpleMethods.LongInRange(e);
    LongDivNat(e, rec.ticksPerSec);
  }

  /** The block of a time, without wrap-around: milliseconds since the
      start divided by the block length. */
  function PlainBucket(rec: Recording, blockMs: int, t: int): int
    requires rec.ticksPerSec > 0 && blockMs > 0
  {
    (t - rec.startTicks) * 1000 / rec.ticksPerSec / blockMs
  }

  lemma {:induction false} BucketIs(rec: Recording, blockMs: Int64, t: Int64, e: nat, m: nat)
    requires rec.ticksPerSec > 0 && blockMs > 0
    requires e == (t - rec.startTicks) * 1000 < TWO_63 && m == e / rec.ticksPerSec
    requires m / blockMs < TWO_31 - 1
    ensures Bucket(rec, blockMs, t) == m / blockMs == PlainBucket(rec, blockMs, t)
  {
    MsIs(rec, t, e);
    DivMonotone(e, e, rec.ticksPerSec);
    LongDivNat(m, blockMs);
    var q := m / blockMs;
    DivMonotone(m, m, blockMs);
    InRangeIdentities(q);
    assert LongDiv(Ms(rec, t), blockMs) == q;
    assert ToInt32(q) == q;
  }

  /** In time order, and when the block count of the last sample does not
      overflow an `int`, every sample's block is one of the blocks
      `evaluate` allocates, so it never raises
      ArrayIndexOutOfBoundsException. */
  lemma {:induction false} BucketsInRange(rec: Recording, blockMs: Int64, samples: seq<Sample>, j: nat)
    requires rec.ticksPerSec > 0 && blockMs > 0
    requires SortedByTime(samples) && InClock(rec, samples) && j < |samples|
    requires PlainBucket(rec, blockMs, samples[|samples| - 1].time) < TWO_31 - 1
    ensures 0 <= Bucket(rec, blockMs, samples[j].time) < BlockCount(rec, blockMs, samples)
  {
    var start, ticks := rec.startTicks, rec.ticksPerSec;
    var last := samples[|samples| - 1].time;
    var t := samples[j].time;
    assert t <= last;
    var e, eLast := (t - start) * 1000, (last - start) * 1000;
    DivMonotone(e, eLast, ticks);
    var m, mLast := e / ticks, eLast / ticks;
    DivMonotone(m, mLast, blockMs);
    BucketIs(rec, blockMs, t, e, m);
    BucketIs(rec, blockMs, last, eLast, mLast);
    MsIs(rec, last, eLast);
    LongDivNat(mLast, blockMs);
    InRangeIdentities(mLast / blockMs);
    InRangeIdentities(mLast / blockMs + 1);
  }

  // ---- Frames ----

  /** The first k frames are dictionary frames n - 1, ..., n - k. */
  lemma {:induction false} TraceFramesAt(rec: Recording, t: StackTrace, k: nat, j: nat)
    requires TraceOk(t) && k <= |t.methods| && j < k
    requires TraceFrames(rec, t, k).Success?
    ensures FrameAt(rec, t, j).Success? && TraceFrames(rec, t, k).value[j] == FrameAt(rec, t, j).value
  {
    if j < k - 1 {
      TraceFramesAt(rec, t, k - 1, j);
    }
  }

  /** A sample's frames are its stack trace reversed, root first, with only
      the root marked as the start; allocation and lock samples get one
      more frame for the class, with an empty name and type 3 for an
      allocation outside a TLAB, 2 otherwise. */
  lemma {:induction false} FramesShape(rec: Recording, kind: Kind, s: Sample)
    requires RecordingOk(rec) && Frames(rec, kind, s).Success?
    ensures var t := TraceOf(rec, s.stackTraceId);
            var fs := Frames(rec, kind, s).value;
            var n := |t.methods|;
            |fs| == n + (if kind == Cpu then 0 else 1)
            && (forall j :: 0 <= j < n ==>
                  var i := n - 1 - j;
                  ClassName(rec, RefOf(rec, t.methods[i]).cls) == Success(fs[j].cls)
                  && fs[j].name == MethodName(rec, t.methods[i])
                  && fs[j].location == t.locations[i] && fs[j].frameType == t.types[i]
                  && (fs[j].start <==> j == 0))
            && (kind != Cpu ==>
                  ClassName(rec, s.extra) == Success(fs[n].cls)
                  && fs[n].name == "" && fs[n].location == 0 && !fs[n].start
                  && fs[n].frameType == (if kind == Alloc && s.tlabSize == 0 then 3 else 2))
  {
    var t := TraceOf(rec, s.stackTraceId);
    var n := |t.methods|;
    var fs := Frames(rec, kind, s).value;
    var body := TraceFrames(rec, t, n);
    assert body.Success?;
    forall j | 0 <= j < n
      ensures FrameAt(rec, t, j).Success? && fs[j] == FrameAt(rec, t, j).value
    {
      TraceFramesAt(rec, t, n, j);
      assert fs[j] == body.value[j];
    }
  }

  /** A sample whose stack trace is missing shows as the unknown method of
      the unknown class, then its class for allocation and lock samples. */
  lemma {:induction false} MissingStack(rec: Recording, kind: Kind, s: Sample)
    requires RecordingOk(rec) && s.stackTraceId !in rec.stacks
    requires UNKNOWN_ID !in rec.methodRefs && UNKNOWN_ID !in rec.classRefs && UNKNOWN_ID !in rec.symbols
    ensures var unknown := Frame(UNKNOWN_CLASS_NAME, UNKNOWN_METHOD_NAME, 0, 3, true);
            (kind == Cpu ==> Frames(rec, kind, s) == Success([unknown]))
            && (kind != Cpu && ClassName(rec, s.extra).Success? ==>
                  Frames(rec, kind, s) == Success([unknown, Frame(ClassName(rec, s.extra).value, "", 0, ExtraType(kind, EmptyTlab(kind, s)), false)]))
  {
    var t := TraceOf(rec, s.stackTraceId);
    assert t == UNKNOWN_STACK;
    assert t.methods[0] == UNKNOWN_ID && t.types[0] == 3 && t.locations[0] == 0 && |t.methods| == 1;
    assert RefOf(rec, UNKNOWN_ID) == MethodRef(UNKNOWN_ID, UNKNOWN_ID);
    assert MethodName(rec, UNKNOWN_ID) == UNKNOWN_METHOD_NAME;
    assert ClassName(rec, UNKNOWN_ID) == Success(UNKNOWN_CLASS_NAME);
    var unknown := Frame(UNKNOWN_CLASS_NAME, UNKNOWN_METHOD_NAME, 0, 3, true);
    assert FrameAt(rec, t, 0) == Success(unknown);
    assert [] + [unknown] == [unknown];
    assert TraceFrames(rec, t, 1) == Success([unknown]);
    if kind != Cpu && ClassName(rec, s.extra).Success? {
      var extra := Frame(ClassName(rec, s.extra).value, "", 0, ExtraType(kind, EmptyTlab(kind, s)), false);
      assert [unknown] + [extra] == [unknown, extra];
    }
  }

  /** Every class symbol converts. */
  predicate SymbolsConvert(rec: Recording)
  {
    forall id :: id in rec.symbols ==> ClassNames.Convert(rec.symbols[id]).Success?
  }

  lemma {:induction false} TraceFramesSucceed(rec: Recording, t: StackTrace, k: nat)
    requires SymbolsConvert(rec) && TraceOk(t) && k <= |t.methods|
    ensures TraceFrames(rec, t, k).Success?
  {
    if k > 0 {
      TraceFramesSucceed(rec, t, k - 1);
    }
  }

  /** The frames of a sample can only fail on a class name that does not
      convert: when every symbol converts, every sample has frames. */
  lemma {:induction false} FramesSucceed(rec: Recording, kind: Kind, s: Sample)
    requires RecordingOk(rec) && SymbolsConvert(rec)
    ensures Frames(rec, kind, s).Success?
  {
    var t := TraceOf(rec, s.stackTraceId);
    TraceFramesSucceed(rec, t, |t.methods|);
  }

  // ---- The stack cache as written ----

  /** As written, the cache key of an allocation sample ignores whether it
      was outside a TLAB. After an allocation sample inside a TLAB, the same
      allocation outside one is counted as the same stack, although its
      frames differ in the type of the class frame; the corrected key
      (`EvaluateProofs.EvaluateResolves` with `fixed`) tells them apart. */
  lemma {:induction false} TlabLost(rec: Recording, st: State, s: Sample, b: nat)
    requires RecordingOk(rec) && b < |st.blocks| && s.tlabSize != 0
    requires Frames(rec, Alloc, s).Success?
    ensures var s2 := s.(tlabSize := 0);
            var st1 := Place(rec, Alloc, false, st, s, b);
            st1.Success?
            && Place(rec, Alloc, false, st1.value, s2, b).Success?
            && (var blocks := Place(rec, Alloc, false, st1.value, s2, b).value.blocks;
                |blocks[b]| == |st.blocks[b]| + 2 && blocks[b][|blocks[b]| - 1] == blocks[b][|blocks[b]| - 2])
            && Frames(rec, Alloc, s2).Success? && Frames(rec, Alloc, s2) != Frames(rec, Alloc, s)
  {
    var s2 := s.(tlabSize := 0);
    var key := KeyOf(false, Alloc, s);
    assert KeyOf(false, Alloc, s2) == key;
    var st1 := Place(rec, Alloc, false, st, s, b).value;
    assert key in st1.cache;
    var ids := st1.cache[key];
    InternIdempotent(st.stacks, ids);
    var fs, fs2 := Frames(rec, Alloc, s), Frames(rec, Alloc, s2);
    var t := TraceOf(rec, s.stackTraceId);
    var n := |t.methods|;
    assert fs2.Success? && fs2.value[n].frameType == 3 != fs.value[n].frameType;
  }

  /** The corrected key keeps the two apart: each sample's own frames are
      appended to its block. */
  lemma {:induction false} TlabKept(rec: Recording, st: State, s: Sample, b: nat)
    requires RecordingOk(rec) && Inv(rec, Alloc, st) && b < |st.blocks| && s.tlabSize != 0 && s.stackTraceId >= 0
    requires Frames(rec, Alloc, s).Success?
    ensures var s2 := s.(tlabSize := 0);
            var st1 := Place(rec, Alloc, true, st, s, b);
            st1.Success? && Inv(rec, Alloc, st1.value)
            && Place(rec, Alloc, true, st1.value, s2, b).Success?
            && var st2 := Place(rec, Alloc, true, st1.value, s2, b).value;
               Inv(rec, Alloc, st2)
               && View(rec, Alloc, st2)[b] == View(rec, Alloc, st)[b] + [Frames(rec, Alloc, s).value, Frames(rec, Alloc, s2).value]
               && Frames(rec, Alloc, s2) != Frames(rec, Alloc, s)
  {
    TlabFrames(rec, s);
    PlaceTwice(rec, st, s, s.(tlabSize := 0), b);
  }

  /** Two samples placed in the same block, one after the other. */
  lemma {:induction false} PlaceTwice(rec: Recording, st: State, s: Sample, s2: Sample, b: nat)
    requires RecordingOk(rec) && Inv(rec, Alloc, st) && b < |st.blocks| && s.stackTraceId >= 0 && s2.stackTraceId >= 0
    requires Frames(rec, Alloc, s).Success? && Frames(rec, Alloc, s2).Success?
    ensures var st1 := Place(rec, Alloc, true, st, s, b);
            st1.Success? && Inv(rec, Alloc, st1.value)
            && Place(rec, Alloc, true, st1.value, s2, b).Success?
            && var st2 := Place(rec, Alloc, true, st1.value, s2, b).value;
               Inv(rec, Alloc, st2)
               && View(rec, Alloc, st2)[b] == View(rec, Alloc, st)[b] + [Frames(rec, Alloc, s).value, Frames(rec, Alloc, s2).value]
  {
    PlaceView(rec, st, s, b);
    var st1 := Place(rec, Alloc, true, st, s, b).value;
    PlaceView(rec, st1, s2, b);
  }

  /** The frames of an allocation inside and outside a TLAB differ, and
      one exists when the other does. */
  lemma {:induction false} TlabFrames(rec: Recording, s: Sample)
    requires RecordingOk(rec) && Frames(rec, Alloc, s).Success? && s.tlabSize != 0
    ensures var fs2 := Frames(rec, Alloc, s.(tlabSize := 0));
            fs2.Success? && fs2 != Frames(rec, Alloc, s)
  {
    var fs, fs2 := Frames(rec, Alloc, s), Frames(rec, Alloc, s.(tlabSize := 0));
    var n := |TraceOf(rec, s.stackTraceId).methods|;
    assert fs2.Success? && fs2.value[n].frameType == 3 != fs.value[n].frameType;
  }

  /** `Place` with the corrected key, for a sample whose frames exist. */
  lemma {:induction false} PlaceView(rec: Recording, st: State, s: Sample, b: nat)
    requires RecordingOk(rec) && Inv(rec, Alloc, st) && b < |st.blocks| && s.stackTraceId >= 0
    requires Frames(rec, Alloc, s).Success?
    ensures var st2 := Place(rec, Alloc, true, st, s, b);
            st2.Success? && Inv(rec, Alloc, st2.value)
            && View(rec, Alloc, st2.value) == View(rec, Alloc, st)[b := View(rec, Alloc, st)[b] + [Frames(rec, Alloc, s).value]]
  {
    if KeyOf(true, Alloc, s) in st.cache {
      EvaluateProofs.PlaceCached(rec, Alloc, true, st, s, b);
    } else {
      EvaluateProofs.PlaceBuilt(rec, Alloc, true, st, s, b);
    }
  }
}
