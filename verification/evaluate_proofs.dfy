/** What `SimpleHeatmap.evaluate` computes: every sample's canonical frames
    land in its time block, in order; the cache key keeps the class and the
    stack trace id apart; the blocks cover every sorted sample. */
module EvaluateProofs {
  import opened Common
  import opened Interning
  import opened Evaluation
  import SimpleMethods
  import JsBits

  // ---- Interned frames resolve back ----

  /** A method of the table keeps its meaning when the tables grow. */
  lemma {:induction false} ResolveGrows(syms: seq<string>, ms: seq<Method>, syms2: seq<string>, ms2: seq<Method>, id: nat)
    requires TablesOk(syms, ms) && TablesOk(syms2, ms2) && 1 <= id <= |ms|
    requires Extends(syms, syms2) && Extends(ms, ms2)
    ensures 1 <= id <= |ms2| && Resolve(syms2, ms2, id) == Resolve(syms, ms, id)
  {
    assert ms2[id - 1] == ms2[..|ms|][id - 1];
    var m := ms[id - 1];
    assert syms2[m.className - 1] == syms2[..|syms|][m.className - 1];
    assert syms2[m.methodName - 1] == syms2[..|syms|][m.methodName - 1];
  }

  /** So does a stack of its methods. */
  lemma {:induction false} StackGrows(syms: seq<string>, ms: seq<Method>, syms2: seq<string>, ms2: seq<Method>, ids: seq<nat>)
    requires TablesOk(syms, ms) && TablesOk(syms2, ms2) && IdsOk(ms, ids)
    requires Extends(syms, syms2) && Extends(ms, ms2)
    ensures IdsOk(ms2, ids) && ResolveStack(syms2, ms2, ids) == ResolveStack(syms, ms, ids)
  {
    forall i | 0 <= i < |ids|
      ensures 1 <= ids[i] <= |ms2| && Resolve(syms2, ms2, ids[i]) == Resolve(syms, ms, ids[i])
    {
      ResolveGrows(syms, ms, syms2, ms2, ids[i]);
    }
  }

  /** Methods keep naming symbols of a grown symbol table. */
  lemma {:induction false} TablesGrow(syms: seq<string>, syms2: seq<string>, ms: seq<Method>)
    requires TablesOk(syms, ms) && Extends(syms, syms2)
    ensures TablesOk(syms2, ms)
  {
  }

  /** The method id of an interned frame stands for the frame. */
  lemma {:induction false} InternFrameResolves(syms: seq<string>, ms: seq<Method>, f: Frame)
    requires TablesOk(syms, ms)
    ensures var x := InternFrame(syms, ms, f);
            TablesOk(x.0, x.1) && Extends(syms, x.0) && Extends(ms, x.1)
            && 1 <= x.2 <= |x.1| && Resolve(x.0, x.1, x.2) == f
  {
    var c := Intern(syms, f.cls);
    InternMeaning(syms, f.cls);
    var n := Intern(c.0, f.name);
    InternMeaning(c.0, f.name);
    ExtendsTrans(syms, c.0, n.0);
    var m := Method(c.1, n.1, f.location, f.frameType, f.start);
    InternMeaning(ms, m);
    var x := InternFrame(syms, ms, f);
    assert n.0[c.1 - 1] == c.0[c.1 - 1] by {
      assert n.0[..|c.0|] == c.0;
    }
    TablesGrow(syms, n.0, ms);
    assert MethodOk(n.0, m);
  }

  /** The method ids of interned frames stand for the frames. */
  lemma {:induction false} InternFramesResolves(syms: seq<string>, ms: seq<Method>, fs: seq<Frame>)
    requires TablesOk(syms, ms)
    ensures var x := InternFrames(syms, ms, fs);
            TablesOk(x.0, x.1) && Extends(syms, x.0) && Extends(ms, x.1)
            && IdsOk(x.1, x.2) && ResolveStack(x.0, x.1, x.2) == fs
  {
    InternFramesHold(syms, ms, fs);
  }

  /** x is what interning fs into the tables syms and ms may leave: larger
      tables that stay consistent and ids that stand for fs. */
  predicate Interned(syms: seq<string>, ms: seq<Method>, fs: seq<Frame>, x: (seq<string>, seq<Method>, seq<nat>))
  {
    TablesOk(x.0, x.1) && Extends(syms, x.0) && Extends(ms, x.1)
    && IdsOk(x.1, x.2) && ResolveStack(x.0, x.1, x.2) == fs
  }

  lemma {:induction false} InternFramesHold(syms: seq<string>, ms: seq<Method>, fs: seq<Frame>)
    requires TablesOk(syms, ms)
    ensures Interned(syms, ms, fs, InternFrames(syms, ms, fs))
    decreases |fs|
  {
    if |fs| > 0 {
      var front := InternFrames(syms, ms, fs[..|fs| - 1]);
      InternFramesHold(syms, ms, fs[..|fs| - 1]);
      var x := InternFrame(front.0, front.1, fs[|fs| - 1]);
      InternFrameResolves(front.0, front.1, fs[|fs| - 1]);
      InternFramesUnfold(syms, ms, fs, front, x);
      InternFramesStep(syms, ms, fs[..|fs| - 1], fs[|fs| - 1], front, x);
      assert fs == fs[..|fs| - 1] + [fs[|fs| - 1]];
    } else {
      assert ResolveStack(syms, ms, []) == [];
    }
  }

  lemma InternFramesUnfold(syms: seq<string>, ms: seq<Method>, fs: seq<Frame>,
                            front: (seq<string>, seq<Method>, seq<nat>), x: (seq<string>, seq<Method>, nat))
    requires |fs| > 0 && front == InternFrames(syms, ms, fs[..|fs| - 1])
    requires x == InternFrame(front.0, front.1, fs[|fs| - 1])
    ensures InternFrames(syms, ms, fs) == (x.0, x.1, front.2 + [x.2])
  {
  }

  /** One more frame interned after the ones before it. */
  lemma {:induction false} InternFramesStep(syms: seq<string>, ms: seq<Method>, fs: seq<Frame>, f: Frame,
                                            front: (seq<string>, seq<Method>, seq<nat>), x: (seq<string>, seq<Method>, nat))
    requires Interned(syms, ms, fs, front)
    requires TablesOk(x.0, x.1) && Extends(front.0, x.0) && Extends(front.1, x.1)
             && 1 <= x.2 <= |x.1| && Resolve(x.0, x.1, x.2) == f
    ensures Interned(syms, ms, fs + [f], (x.0, x.1, front.2 + [x.2]))
  {
    StackGrows(front.0, front.1, x.0, x.1, front.2);
    ExtendsTrans(syms, front.0, x.0);
    ExtendsTrans(ms, front.1, x.1);
    StackAppend(x.0, x.1, front.2, x.2);
  }

  /** The frames of a stack with one more method. */
  lemma {:induction false} StackAppend(syms: seq<string>, ms: seq<Method>, ids: seq<nat>, id: nat)
    requires TablesOk(syms, ms) && IdsOk(ms, ids) && 1 <= id <= |ms|
    ensures IdsOk(ms, ids + [id])
    ensures ResolveStack(syms, ms, ids + [id]) == ResolveStack(syms, ms, ids) + [Resolve(syms, ms, id)]
  {
    assert IdsOk(ms, ids + [id]);
  }

  // ---- The cache key ----

  /** With a non-negative stack trace id, the key word holds the class
      above bit 32 and the id below it. */
  lemma {:induction false} KeyDecodes(s: Sample)
    requires s.stackTraceId >= 0
    ensures KeyWord(s) % TWO_32 == s.stackTraceId && KeyWord(s) / TWO_32 == s.extra
  {
    DivModUnique(KeyWord(s), TWO_32, s.extra, s.stackTraceId);
  }

  /** Hence two samples with non-negative ids share a key word exactly when
      they have the same class and the same stack trace id. */
  lemma {:induction false} KeyWordInjective(s1: Sample, s2: Sample)
    requires s1.stackTraceId >= 0 && s2.stackTraceId >= 0
    ensures KeyWord(s1) == KeyWord(s2) <==> s1.extra == s2.extra && s1.stackTraceId == s2.stackTraceId
  {
    KeyDecodes(s1);
    KeyDecodes(s2);
  }

  /** The key word is the Java `(long) extra << 32 | stackTraceId`. */
  lemma {:induction false} KeyWordIsOr(s: Sample)
    ensures KeyWord(s) == SimpleMethods.LongOr(s.extra * TWO_32, s.stackTraceId)
  {
    if s.stackTraceId >= 0 {
      if s.extra >= 0 {
        HighOr(s.extra, s.stackTraceId);
      } else {
        NegativeHighOr(s.extra, s.stackTraceId);
      }
    }
  }

  lemma {:induction false} HighOr(e: nat, id: nat)
    requires e < TWO_31 && id < TWO_31
    ensures SimpleMethods.LongOr(e * TWO_32, id) == e * TWO_32 + id
  {
    Pow2Constants();
    SimpleMethods.LongOrDisjoint(e, id, 32);
  }

  /** A negative class: `<<` leaves the sign bits above bit 32, and OR puts
      the id below them. */
  lemma {:induction false} NegativeHighOr(e: int, id: nat)
    requires -TWO_31 <= e < 0 && id < TWO_31
    ensures SimpleMethods.LongOr(e * TWO_32, id) == e * TWO_32 + id
  {
    var h := e * TWO_32;
    var u := (e + TWO_32) * TWO_32;
    assert u == h + TWO_64;
    Pow2Constants();
    NegativeUnsigned(h, u);
    SimpleMethods.Uint64InRange(id);
    SimpleMethods.NatOr(u, id, e + TWO_32, 32);
    SignedBack(h, u, id);
  }

  /** A negative long read as unsigned is 2^64 above itself. */
  lemma {:induction false} NegativeUnsigned(h: int, u: int)
    requires -TWO_63 <= h < 0 && u == h + TWO_64
    ensures ToUint64(h) == u
  {
    DivModUnique(h, TWO_64, -1, u);
  }

  /** And reads back as itself, with low bits added that keep it negative. */
  lemma {:induction false} SignedBack(h: int, u: int, id: nat)
    requires -TWO_63 <= h && h + id < 0 && u == h + TWO_64
    ensures SimpleMethods.ToInt64(u + id) == h + id
  {
    DivModUnique(u + id + TWO_63, TWO_64, 1, h + id + TWO_63);
  }

  /** When the key tells the TLAB flag apart, or it does not matter, a
      key stands for the frames of every sample that has it. */
  lemma {:induction false} KeyFramesOf(rec: Recording, kind: Kind, fixed: bool, s: Sample)
    requires RecordingOk(rec) && s.stackTraceId >= 0 && (fixed || kind != Alloc)
    ensures KeyFrames(rec, kind, KeyOf(fixed, kind, s)) == Frames(rec, kind, s)
  {
    KeyDecodes(s);
  }

  // ---- One sample ----

  /** The frames of the entries of a block do not change when the tables
      grow. */
  lemma {:induction false} BlockViewGrows(st: State, st2: State, block: seq<nat>)
    requires TablesOk(st.symbols, st.methods) && StacksOk(st)
    requires TablesOk(st2.symbols, st2.methods) && StacksOk(st2)
    requires Extends(st.symbols, st2.symbols) && Extends(st.methods, st2.methods) && Extends(st.stacks, st2.stacks)
    requires forall i :: 0 <= i < |block| ==> 1 <= block[i] <= |st.stacks|
    ensures BlockView(st2, block) == BlockView(st, block)
  {
    forall i | 0 <= i < |block|
      ensures BlockView(st2, block)[i] == BlockView(st, block)[i]
    {
      var e := block[i];
      assert st2.stacks[e - 1] == st2.stacks[..|st.stacks|][e - 1];
      StackGrows(st.symbols, st.methods, st2.symbols, st2.methods, st.stacks[e - 1]);
    }
  }

  /** Appending a stack id to block b appends its frames to block b of the
      view, and leaves the other blocks as they were. */
  lemma {:induction false} ViewAppend(rec: Recording, kind: Kind, st: State, st2: State, b: nat, r: nat)
    requires RecordingOk(rec) && Inv(rec, kind, st) && Inv(rec, kind, st2)
    requires Extends(st.symbols, st2.symbols) && Extends(st.methods, st2.methods) && Extends(st.stacks, st2.stacks)
    requires b < |st.blocks| && st2.blocks == st.blocks[b := st.blocks[b] + [r]]
    ensures 1 <= r <= |st2.stacks|
    ensures View(rec, kind, st2)
         == View(rec, kind, st)[b := View(rec, kind, st)[b] + [ResolveStack(st2.symbols, st2.methods, st2.stacks[r - 1])]]
  {
    assert st2.blocks[b][|st.blocks[b]|] == r;
    var v, v2 := View(rec, kind, st), View(rec, kind, st2);
    forall c | 0 <= c < |st.blocks| && c != b
      ensures v2[c] == v[c]
    {
      BlockViewGrows(st, st2, st.blocks[c]);
    }
    BlockViewGrows(st, st2, st.blocks[b]);
    BlockAppend(st2, st.blocks[b], r);
    var w := v[b := v[b] + [ResolveStack(st2.symbols, st2.methods, st2.stacks[r - 1])]];
    assert forall c :: 0 <= c < |v2| ==> v2[c] == w[c];
  }

  /** The frames of a block with one more entry. */
  lemma {:induction false} BlockAppend(st: State, block: seq<nat>, r: nat)
    requires TablesOk(st.symbols, st.methods) && StacksOk(st)
    requires forall i :: 0 <= i < |block| ==> 1 <= block[i] <= |st.stacks|
    requires 1 <= r <= |st.stacks|
    ensures BlockView(st, block + [r]) == BlockView(st, block) + [ResolveStack(st.symbols, st.methods, st.stacks[r - 1])]
  {
    var big := block + [r];
    assert forall i :: 0 <= i < |block| ==> big[i] == block[i];
  }

  /** A sample whose key is cached gets the cached stack. */
  lemma {:induction false} PlaceCached(rec: Recording, kind: Kind, fixed: bool, st: State, s: Sample, b: nat)
    requires RecordingOk(rec) && Inv(rec, kind, st)
    requires fixed || kind != Alloc
    requires s.stackTraceId >= 0
    requires b < |st.blocks| && KeyOf(fixed, kind, s) in st.cache
    ensures var st2 := Place(rec, kind, fixed, st, s, b);
            st2.Success? && Inv(rec, kind, st2.value) && Frames(rec, kind, s).Success?
            && View(rec, kind, st2.value)
               == View(rec, kind, st)[b := View(rec, kind, st)[b] + [Frames(rec, kind, s).value]]
  {
    var key := KeyOf(fixed, kind, s);
    var ids := st.cache[key];
    assert CachedOk(rec, kind, st, key);
    KeyFramesOf(rec, kind, fixed, s);
    var r := Intern(st.stacks, ids);
    InternMeaning(st.stacks, ids);
    assert Place(rec, kind, fixed, st, s, b) == Success(st.(stacks := r.0, blocks := st.blocks[b := st.blocks[b] + [r.1]]));
    StackAdded(rec, kind, st, b, ids, r);
  }

  /** The state after a stack of the cache's is interned and appended to
      block b keeps the invariant and shows that stack at the end of b. */
  lemma {:induction false} StackAdded(rec: Recording, kind: Kind, st: State, b: nat, ids: seq<nat>, r: (seq<seq<nat>>, nat))
    requires RecordingOk(rec) && Inv(rec, kind, st) && b < |st.blocks| && IdsOk(st.methods, ids)
    requires 1 <= r.1 <= |r.0| && r.0[r.1 - 1] == ids && Extends(st.stacks, r.0)
    requires r.0 == st.stacks || r.0 == st.stacks + [ids]
    ensures var st2 := st.(stacks := r.0, blocks := st.blocks[b := st.blocks[b] + [r.1]]);
            Inv(rec, kind, st2)
            && View(rec, kind, st2) == View(rec, kind, st)[b := View(rec, kind, st)[b] + [ResolveStack(st.symbols, st.methods, ids)]]
  {
    var st2 := st.(stacks := r.0, blocks := st.blocks[b := st.blocks[b] + [r.1]]);
    forall k | k in st2.cache
      ensures CachedOk(rec, kind, st2, k)
    {
      assert CachedOk(rec, kind, st, k);
    }
    assert StacksOk(st2);
    assert BlocksOk(st2);
    ViewAppend(rec, kind, st, st2, b, r.1);
  }

  /** A sample whose key is not cached gets its frames interned. */
  lemma {:induction false} PlaceBuilt(rec: Recording, kind: Kind, fixed: bool, st: State, s: Sample, b: nat)
    requires RecordingOk(rec) && Inv(rec, kind, st)
    requires fixed || kind != Alloc
    requires s.stackTraceId >= 0
    requires b < |st.blocks| && KeyOf(fixed, kind, s) !in st.cache
    requires Frames(rec, kind, s).Success?
    ensures var st2 := Place(rec, kind, fixed, st, s, b);
            st2.Success? && Inv(rec, kind, st2.value)
            && View(rec, kind, st2.value)
               == View(rec, kind, st)[b := View(rec, kind, st)[b] + [Frames(rec, kind, s).value]]
  {
    var key := KeyOf(fixed, kind, s);
    var fs := Frames(rec, kind, s).value;
    var x := InternFrames(st.symbols, st.methods, fs);
    InternFramesResolves(st.symbols, st.methods, fs);
    KeyFramesOf(rec, kind, fixed, s);
    Rebuilt(rec, kind, st, x.0, x.1, key, x.2, b);
  }

  /** The tables after a new stack is built and cached stay consistent, and
      block b gets the stack's frames. */
  lemma {:induction false} Rebuilt(rec: Recording, kind: Kind, st: State, syms: seq<string>, ms: seq<Method>, key: CacheKey, ids: seq<nat>, b: nat)
    requires RecordingOk(rec) && Inv(rec, kind, st) && b < |st.blocks|
    requires TablesOk(syms, ms) && Extends(st.symbols, syms) && Extends(st.methods, ms) && IdsOk(ms, ids)
    requires key !in st.cache && KeyFrames(rec, kind, key) == Success(ResolveStack(syms, ms, ids))
    ensures var r := Intern(st.stacks, ids);
            var st2 := State(syms, ms, st.cache[key := ids], r.0, st.blocks[b := st.blocks[b] + [r.1]]);
            Inv(rec, kind, st2)
            && View(rec, kind, st2) == View(rec, kind, st)[b := View(rec, kind, st)[b] + [ResolveStack(syms, ms, ids)]]
  {
    var r := Intern(st.stacks, ids);
    InternMeaning(st.stacks, ids);
    var st2 := State(syms, ms, st.cache[key := ids], r.0, st.blocks[b := st.blocks[b] + [r.1]]);
    RebuiltStacks(st, syms, ms, ids, r.0);
    forall k | k in st2.cache
      ensures CachedOk(rec, kind, st2, k)
    {
      if k != key {
        assert CachedOk(rec, kind, st, k);
        StackGrows(st.symbols, st.methods, syms, ms, st.cache[k]);
      }
    }
    assert BlocksOk(st2);
    ViewAppend(rec, kind, st, st2, b, r.1);
  }

  /** The distinct stacks after one more is interned are made of methods
      of the grown table. */
  lemma {:induction false} RebuiltStacks(st: State, syms: seq<string>, ms: seq<Method>, ids: seq<nat>, stacks: seq<seq<nat>>)
    requires TablesOk(st.symbols, st.methods) && StacksOk(st)
    requires TablesOk(syms, ms) && Extends(st.symbols, syms) && Extends(st.methods, ms) && IdsOk(ms, ids)
    requires stacks == st.stacks || stacks == st.stacks + [ids]
    ensures forall i :: 0 <= i < |stacks| ==> IdsOk(ms, stacks[i])
  {
    forall i | 0 <= i < |stacks|
      ensures IdsOk(ms, stacks[i])
    {
      if i < |st.stacks| {
        assert stacks[i] == st.stacks[i];
        StackGrows(st.symbols, st.methods, syms, ms, st.stacks[i]);
      }
    }
  }

  /** Stack trace ids of the recording are not negative. */
  predicate IdsNatural(samples: seq<Sample>)
  {
    forall j :: 0 <= j < |samples| ==> samples[j].stackTraceId >= 0
  }

  /** One sample: it fails exactly when its block is out of range or its
      frames cannot be built, and otherwise its frames are appended to its
      block. */
  lemma {:induction false} StepView(rec: Recording, kind: Kind, blockMs: Int64, fixed: bool, st: State, s: Sample)
    requires RecordingOk(rec) && rec.ticksPerSec != 0 && blockMs != 0 && Inv(rec, kind, st)
    requires fixed || kind != Alloc
    requires s.stackTraceId >= 0
    ensures var st2 := Step(rec, kind, blockMs, fixed, st, s);
            var b := Bucket(rec, blockMs, s.time);
            (st2.Success? <==> 0 <= b < |st.blocks| && Frames(rec, kind, s).Success?)
            && (st2.Success? ==>
                  Inv(rec, kind, st2.value)
                  && View(rec, kind, st2.value) == View(rec, kind, st)[b := View(rec, kind, st)[b] + [Frames(rec, kind, s).value]])
  {
    var b := Bucket(rec, blockMs, s.time);
    if 0 <= b < |st.blocks| {
      if KeyOf(fixed, kind, s) in st.cache {
        PlaceCached(rec, kind, fixed, st, s, b);
      } else if Frames(rec, kind, s).Success? {
        PlaceBuilt(rec, kind, fixed, st, s, b);
      }
    }
  }

  /** A state whose blocks are all empty. */
  predicate EmptyView(rec: Recording, kind: Kind, st: State)
    requires RecordingOk(rec) && Inv(rec, kind, st)
  {
    View(rec, kind, st) == seq(|st.blocks|, _ => [])
  }

  /** The samples, from a state with empty blocks: every sample's frames
      land in its block, in the order of the samples. */
  lemma {:induction false} ProcessView(rec: Recording, kind: Kind, blockMs: Int64, fixed: bool, st: State, samples: seq<Sample>)
    requires RecordingOk(rec) && rec.ticksPerSec != 0 && blockMs != 0 && Inv(rec, kind, st) && EmptyView(rec, kind, st)
    requires fixed || kind != Alloc
    requires IdsNatural(samples)
    requires Process(rec, kind, blockMs, fixed, st, samples).Success?
    ensures var r := Process(rec, kind, blockMs, fixed, st, samples).value;
            Inv(rec, kind, r) && View(rec, kind, r) == ExpectedView(rec, kind, blockMs, |st.blocks|, samples)
    decreases |samples|
  {
    if |samples| > 0 {
      var front := samples[..|samples| - 1];
      var s := samples[|samples| - 1];
      assert IdsNatural(front) by {
        assert forall j :: 0 <= j < |front| ==> front[j] == samples[j];
      }
      ProcessView(rec, kind, blockMs, fixed, st, front);
      var mid := Process(rec, kind, blockMs, fixed, st, front).value;
      StepView(rec, kind, blockMs, fixed, mid, s);
    }
  }

  /** The state before the first sample is consistent and its blocks are
      empty. */
  lemma {:induction false} InitialView(rec: Recording, kind: Kind, n: nat)
    requires RecordingOk(rec)
    ensures Inv(rec, kind, Initial(n)) && EmptyView(rec, kind, Initial(n))
  {
    var st := Initial(n);
    assert MethodOk(st.symbols, st.methods[0]);
    assert TablesOk(st.symbols, st.methods);
  }

  /** `evaluate` puts the canonical frames of every sample into the block
      of its time, in the order of the samples, when the cache key tells
      apart everything the frames depend on: the corrected key, or a CPU or
      lock profile. */
  lemma {:induction false} EvaluateResolves(rec: Recording, kind: Kind, blockMs: Int64, fixed: bool, samples: seq<Sample>)
    requires RecordingOk(rec) && (fixed || kind != Alloc) && IdsNatural(samples)
    requires Evaluate(rec, kind, blockMs, fixed, samples).Success?
    ensures var r := Evaluate(rec, kind, blockMs, fixed, samples).value;
            Inv(rec, kind, r)
            && (|samples| == 0 ==> View(rec, kind, r) == seq(|r.blocks|, _ => []))
            && (|samples| > 0 ==> View(rec, kind, r) == ExpectedView(rec, kind, blockMs, |r.blocks|, samples))
  {
    var n := BlockCount(rec, blockMs, samples);
    InitialView(rec, kind, n);
    if |samples| > 0 {
      ProcessView(rec, kind, blockMs, fixed, Initial(n), samples);
    }
  }
}
