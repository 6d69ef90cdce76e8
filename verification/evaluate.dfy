/** `SimpleHeatmap.evaluate`: the samples of a recording are put into time
    blocks of `blockDurationMs` milliseconds, and each sample's stack is
    canonicalised into a list of interned method ids, root first, which is
    interned again as a whole. The recording's dictionaries (`stacks`,
    `methodRefs`, `classRefs`, `symbols`) are maps; `Index<T>` is
    `Interning.Intern`. */
module Evaluation {
  import opened Common
  import opened Interning
  import ClassNames
  import SimpleMethods

  /** `SimpleHeatmap.Type`: which events are collected. */
  datatype Kind = Cpu | Alloc | Lock

  /** `StackTrace`: method ids, frame types (Java bytes) and locations, the
      leaf first. */
  datatype StackTrace = StackTrace(methods: seq<int>, types: seq<int>, locations: seq<int>)

  /** A stack trace as the reader builds it: three parallel arrays. */
  predicate TraceOk(t: StackTrace)
  {
    |t.types| == |t.methods| && |t.locations| == |t.methods|
    && forall i :: 0 <= i < |t.types| ==> -128 <= t.types[i] < 128
  }

  /** `MethodRef`: the class reference and the name symbol of a method. */
  datatype MethodRef = MethodRef(cls: int, name: int)

  /** The dictionaries and the clock of a recording; `classRefs` maps a
      class reference to its name symbol. */
  datatype Recording = Recording(
    stacks: map<int, StackTrace>,
    methodRefs: map<int, MethodRef>,
    classRefs: map<int, int>,
    symbols: map<int, string>,
    startTicks: Int64,
    ticksPerSec: Int64)

  predicate RecordingOk(rec: Recording)
  {
    forall id :: id in rec.stacks ==> TraceOk(rec.stacks[id])
  }

  /** The fields of an event `evaluate` reads: `time`, `stackTraceId`,
      `extra()` (the class of an allocation or lock) and, for allocation
      samples, `tlabSize`. */
  datatype Sample = Sample(time: Int64, stackTraceId: Int32, extra: Int32, tlabSize: int)

  /** `UNKNOWN_ID` and the sentinels for missing references. */
  const UNKNOWN_ID: int := -1
  const UNKNOWN_STACK: StackTrace := StackTrace([UNKNOWN_ID], [3], [0])
  const UNKNOWN_METHOD_NAME: string := "<UnknownMethod>"
  const UNKNOWN_CLASS_NAME: string := "<UnknownClass>"

  /** A frame with its names resolved: what a method id of the result
      stands for. */
  datatype Frame = Frame(cls: string, name: string, location: int, frameType: int, start: bool)

  /** `SimpleHeatmap.Method` as `evaluate` builds it: symbol ids of class
      and method name, location, frame type and whether it is the root. */
  datatype Method = Method(className: nat, methodName: nat, location: int, frameType: int, start: bool)

  // ---- Time blocks ----

  /** Java `long` division: truncation toward zero, and the one overflow
      `Long.MIN_VALUE / -1` wraps. */
  function LongDiv(a: Int64, b: Int64): (r: Int64)
    requires b != 0
  {
    var q := if (a >= 0) == (b > 0) then Abs(a) / Abs(b) else -(Abs(a) / Abs(b));
    SimpleMethods.ToInt64(q)
  }

  function Abs(x: int): nat
  {
    if x < 0 then -x else x
  }

  /** `ms(ticks)`: milliseconds since the start, in `long` arithmetic. */
  function Ms(rec: Recording, ticks: Int64): Int64
    requires rec.ticksPerSec != 0
  {
    var elapsed := SimpleMethods.ToInt64(ticks - rec.startTicks);
    LongDiv(SimpleMethods.ToInt64(elapsed * 1000), rec.ticksPerSec)
  }

  /** `(int) (timeMs / blockDurationMs)`: the block of a sample. */
  function Bucket(rec: Recording, blockMs: Int64, ticks: Int64): Int32
    requires rec.ticksPerSec != 0 && blockMs != 0
  {
    ToInt32(LongDiv(Ms(rec, ticks), blockMs))
  }

  /** `(int) (durationExecutions / blockDurationMs) + 1`: the number of
      blocks, from the time of the last sample. */
  function BlockCount(rec: Recording, blockMs: Int64, samples: seq<Sample>): Int32
    requires blockMs != 0 && (|samples| > 0 ==> rec.ticksPerSec != 0)
  {
    var duration := if |samples| == 0 then 0 else Ms(rec, samples[|samples| - 1].time);
    ToInt32(ToInt32(LongDiv(duration, blockMs)) + 1)
  }

  // ---- Canonical frames ----

  /** `stacks.getOrDefault(id, UNKNOWN_STACK)`. */
  function TraceOf(rec: Recording, id: int): (r: StackTrace)
    requires RecordingOk(rec)
    ensures TraceOk(r)
  {
    if id in rec.stacks then rec.stacks[id] else UNKNOWN_STACK
  }

  /** The class name of a class reference: the name symbol of the
      reference (`UNKNOWN_CLASS_REF` when missing, whose name is -1)
      converted, or `<UnknownClass>` when the symbol is missing. */
  function ClassName(rec: Recording, classRef: int): Result<string>
  {
    var name := if classRef in rec.classRefs then rec.classRefs[classRef] else UNKNOWN_ID;
    if name in rec.symbols then ClassNames.Convert(rec.symbols[name]) else Success(UNKNOWN_CLASS_NAME)
  }

  /** The method reference of a method id (`UNKNOWN_METHOD_REF` when
      missing). */
  function RefOf(rec: Recording, methodId: int): MethodRef
  {
    if methodId in rec.methodRefs then rec.methodRefs[methodId] else MethodRef(UNKNOWN_ID, UNKNOWN_ID)
  }

  /** The method name of a method id, or `<UnknownMethod>`. */
  function MethodName(rec: Recording, methodId: int): string
  {
    var name := RefOf(rec, methodId).name;
    if name in rec.symbols then rec.symbols[name] else UNKNOWN_METHOD_NAME
  }

  /** Frame j of the result, root first, is dictionary frame n - 1 - j. */
  function FrameAt(rec: Recording, t: StackTrace, j: nat): Result<Frame>
    requires TraceOk(t) && j < |t.methods|
  {
    var i := |t.methods| - 1 - j;
    var cls := ClassName(rec, RefOf(rec, t.methods[i]).cls);
    if cls.Failure? then Failure(cls.error)
    else Success(Frame(cls.value, MethodName(rec, t.methods[i]), t.locations[i], t.types[i], j == 0))
  }

  /** The first k frames of the result. */
  function TraceFrames(rec: Recording, t: StackTrace, k: nat): (r: Result<seq<Frame>>)
    requires TraceOk(t) && k <= |t.methods|
    ensures r.Success? ==> |r.value| == k
  {
    if k == 0 then Success([])
    else
      var front := TraceFrames(rec, t, k - 1);
      if front.Failure? then front
      else
        var f := FrameAt(rec, t, k - 1);
        if f.Failure? then Failure(f.error) else Success(front.value + [f.value])
  }

  /** The frame type of the extra frame: 3 for an allocation outside a
      TLAB, otherwise 2. */
  function ExtraType(kind: Kind, emptyTlab: bool): int
  {
    if kind == Alloc && emptyTlab then 3 else 2
  }

  /** The frames of a sample with the given stack trace id, class and
      TLAB flag: the trace reversed, then for allocation and lock samples
      the class of the allocated object or lock. */
  function FramesOf(rec: Recording, kind: Kind, id: int, extra: int, emptyTlab: bool): Result<seq<Frame>>
    requires RecordingOk(rec)
  {
    var t := TraceOf(rec, id);
    var body := TraceFrames(rec, t, |t.methods|);
    if body.Failure? || kind == Cpu then body
    else
      var cls := ClassName(rec, extra);
      if cls.Failure? then Failure(cls.error)
      else Success(body.value + [Frame(cls.value, "", 0, ExtraType(kind, emptyTlab), false)])
  }

  /** An allocation sample outside a TLAB. */
  predicate EmptyTlab(kind: Kind, s: Sample)
  {
    kind == Alloc && s.tlabSize == 0
  }

  /** What sample s should be shown as. */
  function Frames(rec: Recording, kind: Kind, s: Sample): Result<seq<Frame>>
    requires RecordingOk(rec)
  {
    FramesOf(rec, kind, s.stackTraceId, s.extra, EmptyTlab(kind, s))
  }

  // ---- Interning ----

  /** Interns the class name, the method name and then the method. */
  function InternFrame(syms: seq<string>, ms: seq<Method>, f: Frame): (seq<string>, seq<Method>, nat)
  {
    var c := Intern(syms, f.cls);
    var n := Intern(c.0, f.name);
    var m := Intern(ms, Method(c.1, n.1, f.location, f.frameType, f.start));
    (n.0, m.0, m.1)
  }

  /** Interns the frames in order, collecting the method ids. */
  function InternFrames(syms: seq<string>, ms: seq<Method>, fs: seq<Frame>): (r: (seq<string>, seq<Method>, seq<nat>))
    ensures |r.2| == |fs|
  {
    if |fs| == 0 then (syms, ms, [])
    else
      var front := InternFrames(syms, ms, fs[..|fs| - 1]);
      var x := InternFrame(front.0, front.1, fs[|fs| - 1]);
      (x.0, x.1, front.2 + [x.2])
  }

  // ---- The stack cache ----

  /** `(long) execution.extra() << 32 | execution.stackTraceId`, spelled
      as the sum when the id is not negative (`KeyWordIsOr`). */
  function KeyWord(s: Sample): int
  {
    if s.stackTraceId >= 0 then s.extra * TWO_32 + s.stackTraceId else OverlappingKeyWord(s)
  }

  function OverlappingKeyWord(s: Sample): int
    requires s.stackTraceId < 0
  {
    SimpleMethods.LongOr(s.extra * TWO_32, s.stackTraceId)
  }

  /** The key of the stack cache `stackTraces`. The source keys it by the
      word alone (`emptyTlab` always false); the corrected cache also keys
      it by whether an allocation was outside a TLAB, which decides the
      extra frame's type. */
  datatype CacheKey = CacheKey(word: int, emptyTlab: bool)

  function KeyOf(fixed: bool, kind: Kind, s: Sample): CacheKey
  {
    CacheKey(KeyWord(s), fixed && EmptyTlab(kind, s))
  }

  /** The frames a key stands for: the id in the low 32 bits, the class
      above them. */
  function KeyFrames(rec: Recording, kind: Kind, k: CacheKey): Result<seq<Frame>>
    requires RecordingOk(rec)
  {
    FramesOf(rec, kind, k.word % TWO_32, k.word / TWO_32, k.emptyTlab)
  }

  // ---- The evaluation loop ----

  /** The tables `evaluate` keeps: symbol strings, methods, the stack cache,
      the distinct stacks (`stackTracesRemap`) and each block's stack ids. */
  datatype State = State(
    symbols: seq<string>,
    methods: seq<Method>,
    cache: map<CacheKey, seq<nat>>,
    stacks: seq<seq<nat>>,
    blocks: seq<seq<nat>>)

  /** Before the first sample: `all` and the empty string are symbols 1 and
      2, the root method `Method(1, 2)` is method 1, and there are n empty
      blocks. */
  function Initial(n: nat): State
  {
    State(["all", ""], [Method(1, 2, 0, 3, true)], map[], [], seq(n, _ => []))
  }

  /** Block b has gained one stack id at its end and every other block is
      as it was. */
  predicate OneMore(before: seq<seq<nat>>, after: seq<seq<nat>>, b: nat)
  {
    |after| == |before| && b < |before|
    && |after[b]| == |before[b]| + 1 && after[b][..|before[b]|] == before[b]
    && forall c :: 0 <= c < |before| && c != b ==> after[c] == before[c]
  }

  /** One sample: its block (an out-of-range block raises
      ArrayIndexOutOfBoundsException), then `Place`. */
  function Step(rec: Recording, kind: Kind, blockMs: Int64, fixed: bool, st: State, s: Sample): (r: Result<State>)
    requires RecordingOk(rec) && rec.ticksPerSec != 0 && blockMs != 0
    ensures r.Success? ==> |r.value.blocks| == |st.blocks|
    ensures var b := Bucket(rec, blockMs, s.time);
            (r.Success? ==> 0 <= b < |st.blocks| && OneMore(st.blocks, r.value.blocks, b))
            && (!(0 <= b < |st.blocks|) ==> r == Failure(IndexOutOfBounds))
  {
    var b := Bucket(rec, blockMs, s.time);
    if !(0 <= b < |st.blocks|) then Failure(IndexOutOfBounds) else Place(rec, kind, fixed, st, s, b)
  }

  /** The sample's stack, from the cache or built and cached, interned
      among the distinct stacks, and its id appended to block b. */
  function Place(rec: Recording, kind: Kind, fixed: bool, st: State, s: Sample, b: nat): (r: Result<State>)
    requires RecordingOk(rec) && b < |st.blocks|
    ensures r.Success? ==> |r.value.blocks| == |st.blocks|
  {
    var key := KeyOf(fixed, kind, s);
    if key in st.cache then
      var r := Intern(st.stacks, st.cache[key]);
      Success(st.(stacks := r.0, blocks := st.blocks[b := st.blocks[b] + [r.1]]))
    else
      var fs := Frames(rec, kind, s);
      if fs.Failure? then Failure(fs.error)
      else
        var x := InternFrames(st.symbols, st.methods, fs.value);
        var r := Intern(st.stacks, x.2);
        Success(State(x.0, x.1, st.cache[key := x.2], r.0, st.blocks[b := st.blocks[b] + [r.1]]))
  }

  /** The samples in order. */
  function Process(rec: Recording, kind: Kind, blockMs: Int64, fixed: bool, st: State, samples: seq<Sample>): (r: Result<State>)
    requires RecordingOk(rec) && rec.ticksPerSec != 0 && blockMs != 0
    ensures r.Success? ==> |r.value.blocks| == |st.blocks|
  {
    if |samples| == 0 then Success(st)
    else
      var front := Process(rec, kind, blockMs, fixed, st, samples[..|samples| - 1]);
      if front.Failure? then front
      else Step(rec, kind, blockMs, fixed, front.value, samples[|samples| - 1])
  }

  /** `evaluate(blockDurationMs)` on the samples in the order given (the
      source sorts them by time first): a zero divisor raises
      ArithmeticException and a negative block count
      NegativeArraySizeException. */
  function Evaluate(rec: Recording, kind: Kind, blockMs: Int64, fixed: bool, samples: seq<Sample>): (r: Result<State>)
    requires RecordingOk(rec)
    ensures r.Success? ==> blockMs != 0 && (|samples| > 0 ==> rec.ticksPerSec != 0)
    ensures r.Success? ==> |r.value.blocks| == BlockCount(rec, blockMs, samples)
  {
    if |samples| > 0 && rec.ticksPerSec == 0 then Failure(DivideByZero)
    else if blockMs == 0 then Failure(DivideByZero)
    else
      var n := BlockCount(rec, blockMs, samples);
      if n < 0 then Failure(NegativeArraySize)
      else if |samples| == 0 then Success(Initial(n))
      else Process(rec, kind, blockMs, fixed, Initial(n), samples)
  }

  // ---- What the result stands for ----

  predicate MethodOk(syms: seq<string>, m: Method)
  {
    1 <= m.className <= |syms| && 1 <= m.methodName <= |syms|
  }

  /** Every method names symbols of the table. */
  predicate TablesOk(syms: seq<string>, ms: seq<Method>)
  {
    forall i :: 0 <= i < |ms| ==> MethodOk(syms, ms[i])
  }

  /** Every id is a method of the table. */
  predicate IdsOk(ms: seq<Method>, ids: seq<nat>)
  {
    forall i :: 0 <= i < |ids| ==> 1 <= ids[i] <= |ms|
  }

  /** The frame method id stands for. */
  function Resolve(syms: seq<string>, ms: seq<Method>, id: nat): Frame
    requires TablesOk(syms, ms) && 1 <= id <= |ms|
  {
    var m := ms[id - 1];
    Frame(syms[m.className - 1], syms[m.methodName - 1], m.location, m.frameType, m.start)
  }

  function ResolveStack(syms: seq<string>, ms: seq<Method>, ids: seq<nat>): (r: seq<Frame>)
    requires TablesOk(syms, ms) && IdsOk(ms, ids)
    ensures |r| == |ids|
  {
    seq(|ids|, i requires 0 <= i < |ids| => Resolve(syms, ms, ids[i]))
  }

  /** Every distinct stack is made of methods of the table. */
  predicate StacksOk(st: State)
  {
    forall i :: 0 <= i < |st.stacks| ==> IdsOk(st.methods, st.stacks[i])
  }

  /** A cached stack stands for the frames of its key. */
  predicate CachedOk(rec: Recording, kind: Kind, st: State, k: CacheKey)
    requires RecordingOk(rec) && TablesOk(st.symbols, st.methods) && k in st.cache
  {
    IdsOk(st.methods, st.cache[k])
    && KeyFrames(rec, kind, k) == Success(ResolveStack(st.symbols, st.methods, st.cache[k]))
  }

  /** Every block entry is a stack of the table. */
  predicate BlocksOk(st: State)
  {
    forall b, i :: 0 <= b < |st.blocks| && 0 <= i < |st.blocks[b]| ==> 1 <= st.blocks[b][i] <= |st.stacks|
  }

  /** The tables of a state are consistent, and every cached stack stands
      for the frames of its key. */
  predicate Inv(rec: Recording, kind: Kind, st: State)
    requires RecordingOk(rec)
  {
    TablesOk(st.symbols, st.methods) && StacksOk(st) && BlocksOk(st)
    && forall k :: k in st.cache ==> CachedOk(rec, kind, st, k)
  }

  /** The stack of each entry of a block, as frames. */
  function BlockView(st: State, block: seq<nat>): (r: seq<seq<Frame>>)
    requires TablesOk(st.symbols, st.methods) && StacksOk(st)
    requires forall i :: 0 <= i < |block| ==> 1 <= block[i] <= |st.stacks|
    ensures |r| == |block|
  {
    seq(|block|, i requires 0 <= i < |block| => ResolveStack(st.symbols, st.methods, st.stacks[block[i] - 1]))
  }

  /** Every block as the frames of its samples. */
  function View(rec: Recording, kind: Kind, st: State): (r: seq<seq<seq<Frame>>>)
    requires RecordingOk(rec) && Inv(rec, kind, st)
    ensures |r| == |st.blocks|
  {
    seq(|st.blocks|, b requires 0 <= b < |st.blocks| => BlockView(st, st.blocks[b]))
  }

  /** The reference: each sample's frames appended to its block, in order. */
  function ExpectedView(rec: Recording, kind: Kind, blockMs: Int64, n: nat, samples: seq<Sample>): (r: seq<seq<seq<Frame>>>)
    requires RecordingOk(rec) && rec.ticksPerSec != 0 && blockMs != 0
    ensures |r| == n
  {
    if |samples| == 0 then seq(n, _ => [])
    else
      var v := ExpectedView(rec, kind, blockMs, n, samples[..|samples| - 1]);
      var s := samples[|samples| - 1];
      var b := Bucket(rec, blockMs, s.time);
      var fs := Frames(rec, kind, s);
      if 0 <= b < n && fs.Success? then v[b := v[b] + [fs.value]] else v
  }
}
