/** What `printHeatmap` writes as a whole: when it fails and with which
    exception, and how its section is laid out. Its first loop looks up
    every sample's stack and indexes the stack's first method before
    anything else is written; afterwards a negative value reaching
    `writeVar` is the only failure, and that happens exactly when some
    sampled stack holds a negative method. */
module SectionProofs {
  import opened Common
  import opened Synonyms
  import DenseIndex
  import TrieProofs
  import SynonymsProofs

  // ---- The first loop ----

  /** The first loop passes only when every sample id names a stack. */
  lemma {:induction false} FirstLoopLooks(methodCount: int, ids: seq<int>, traces: seq<seq<int>>)
    ensures FirstLoop(methodCount, ids, traces).Success? ==>
              forall j :: 0 <= j < |ids| ==> 1 <= ids[j] <= |traces|
  {
    if |ids| > 0 && FirstLoop(methodCount, ids, traces).Success? {
      var front := ids[..|ids| - 1];
      FirstLoopLooks(methodCount, front, traces);
      forall j | 0 <= j < |ids|
        ensures 1 <= ids[j] <= |traces|
      {
        if j < |front| {
          assert ids[j] == front[j];
        }
      }
    }
  }

  /** Sample by sample, the first loop builds the same index as `Starts`
      over the stacks the samples name, and fails the same way. */
  lemma {:induction false} FirstLoopIsStarts(methodCount: int, ids: seq<int>, traces: seq<seq<int>>, stacks: seq<seq<int>>)
    requires |stacks| == |ids|
    requires forall j :: 0 <= j < |ids| ==> 1 <= ids[j] <= |traces| && stacks[j] == traces[ids[j] - 1]
    ensures FirstLoop(methodCount, ids, traces) == Starts(methodCount, stacks)
  {
    if |ids| > 0 {
      var n := |ids|;
      FirstLoopIsStarts(methodCount, ids[..n - 1], traces, stacks[..n - 1]);
      assert stacks[n - 1] == traces[ids[n - 1] - 1];
    }
  }

  /** Over looked-up samples, the first loop is `Starts` of their stacks. */
  lemma {:induction false} LoopMatches(blocks: seq<seq<int>>, traces: seq<seq<int>>, methodCount: int)
    ensures var st := SampleStacks(blocks, traces);
            st.Success? ==> FirstLoop(methodCount, Flatten(blocks), traces) == Starts(methodCount, st.value)
  {
    var st := SampleStacks(blocks, traces);
    SynonymsProofs.SampleStacksMeaning(blocks, traces);
    if st.Success? {
      FirstLoopIsStarts(methodCount, Flatten(blocks), traces, st.value);
    }
  }

  /** Once the first loop has failed, later samples do not change the
      error. */
  lemma {:induction false} FirstLoopFailureStays(methodCount: int, ids: seq<int>, traces: seq<seq<int>>, k: nat)
    requires k <= |ids| && FirstLoop(methodCount, ids[..k], traces).Failure?
    ensures FirstLoop(methodCount, ids, traces) == FirstLoop(methodCount, ids[..k], traces)
    decreases |ids|
  {
    if k < |ids| {
      var front := ids[..|ids| - 1];
      assert front[..k] == ids[..k];
      FirstLoopFailureStays(methodCount, front, traces, k);
    } else {
      assert ids[..k] == ids;
    }
  }

  /** Errors come sample by sample: when the samples before it have
      passed, a sample whose id is outside the table or whose stack is
      empty makes `printHeatmap` raise ArrayIndexOutOfBoundsException, and
      one whose stack starts with method 0 NullPointerException, whatever
      the later samples hold. */
  lemma {:induction false} FirstError(blocks: seq<seq<int>>, traces: seq<seq<int>>, methodCount: int, k: nat)
    requires k < |Flatten(blocks)| && FirstLoop(methodCount, Flatten(blocks)[..k], traces).Success?
    ensures var id, r := Flatten(blocks)[k], PrintHeatmap(blocks, traces, methodCount);
            ((!(1 <= id <= |traces|) || |traces[id - 1]| == 0) ==> r == Failure(IndexOutOfBounds))
            && (1 <= id <= |traces| && |traces[id - 1]| > 0 && traces[id - 1][0] == 0 ==> r == Failure(NullKey))
  {
    var ids := Flatten(blocks);
    var id := ids[k];
    var p := ids[..k + 1];
    assert p[..k] == ids[..k] && p[k] == id;
    if !(1 <= id <= |traces|) || |traces[id - 1]| == 0 || traces[id - 1][0] == 0 {
      FirstLoopFailureStays(methodCount, ids, traces, k + 1);
    }
  }

  /** The first sample's stack starts with method 0, and the second names
      no stack: the first error wins. */
  lemma {:induction false} NullBeforeRange()
    ensures PrintHeatmap([[1, 99]], [[0]], 0) == Failure(NullKey)
  {
    assert Flatten([[1, 99]]) == [1, 99];
    assert Flatten([[1, 99]])[..0] == [];
    FirstError([[1, 99]], [[0]], 0, 0);
  }

  /** Flat ids in the table put every block's ids in the table. */
  lemma {:induction false} FlatIdsInTable(blocks: seq<seq<int>>, traces: seq<seq<int>>)
    requires forall j :: 0 <= j < |Flatten(blocks)| ==> 1 <= Flatten(blocks)[j] <= |traces|
    ensures SynonymsProofs.IdsInTable(blocks, traces)
    decreases |blocks|
  {
    if |blocks| > 0 {
      var front, last := blocks[..|blocks| - 1], blocks[|blocks| - 1];
      var flat := Flatten(blocks);
      assert flat == Flatten(front) + last;
      forall j | 0 <= j < |Flatten(front)|
        ensures 1 <= Flatten(front)[j] <= |traces|
      {
        assert Flatten(front)[j] == flat[j];
      }
      FlatIdsInTable(front, traces);
      forall b, i | 0 <= b < |blocks| && 0 <= i < |blocks[b]|
        ensures 1 <= blocks[b][i] <= |traces|
      {
        if b < |front| {
          assert blocks[b] == front[b];
        } else {
          assert blocks[b][i] == flat[|Flatten(front)| + i];
        }
      }
    }
  }

  // ---- Negative values ----

  /** Every method of every stack is non-negative. */
  predicate NonNegative(stacks: seq<seq<int>>)
  {
    forall i, j :: 0 <= i < |stacks| && 0 <= j < |stacks[i]| ==> stacks[i][j] >= 0
  }

  /** Every edge of a trie carries a non-negative method. */
  predicate EdgesNonNegative(pairs: seq<(int, int)>)
  {
    forall k :: 0 <= k < |pairs| ==> pairs[k].1 >= 0
  }

  /** Walking non-negative methods adds only non-negative edges. */
  lemma {:induction false} WalkEdges(t: Trie, cur: int, ms: seq<int>)
    requires EdgesNonNegative(t.pairs) && forall j :: 0 <= j < |ms| ==> ms[j] >= 0
    ensures EdgesNonNegative(Walk(t, cur, ms).0.pairs)
    decreases |ms|
  {
    if |ms| > 0 {
      var x := Step(t, cur, ms[0]);
      assert EdgesNonNegative(x.0.pairs);
      WalkEdges(x.0, x.1, ms[1..]);
    }
  }

  /** The trie of non-negative stacks has only non-negative edges. */
  lemma {:induction false} BuildEdges(base: int, stacks: seq<seq<int>>)
    requires NonNegative(stacks)
    ensures EdgesNonNegative(Build(base, stacks).pairs)
    decreases |stacks|
  {
    if |stacks| > 0 {
      var front, s := stacks[..|stacks| - 1], stacks[|stacks| - 1];
      assert NonNegative(front) by {
        forall i, j | 0 <= i < |front| && 0 <= j < |front[i]|
          ensures front[i][j] >= 0
        {
          assert front[i] == stacks[i];
        }
      }
      BuildEdges(base, front);
      assert forall j :: 0 <= j < |s| ==> s[j] >= 0;
      WalkEdges(Build(base, front), base, s);
    }
  }

  /** Every method in a list is non-negative. */
  predicate Methods(ms: seq<int>)
  {
    forall j :: 0 <= j < |ms| ==> ms[j] >= 0
  }

  /** A phrase over non-negative edges is non-negative. */
  lemma {:induction false} PathNonNegative(base: int, pairs: seq<(int, int)>, id: int)
    requires ParentsFirst(base, pairs) && IsNode(base, pairs, id) && EdgesNonNegative(pairs)
    ensures Methods(Path(base, pairs, id))
    decreases id - base
  {
    if id != base {
      var parent := pairs[id - base - 1].0;
      PathNonNegative(base, pairs, parent);
      var p := Path(base, pairs, parent);
      assert Path(base, pairs, id) == p + [pairs[id - base - 1].1];
    }
  }

  lemma {:induction false} PhrasesNonNegative(base: int, pairs: seq<(int, int)>, lo: int, hi: int)
    requires ParentsFirst(base, pairs) && 0 <= lo <= hi <= |pairs| && EdgesNonNegative(pairs)
    ensures Methods(Phrases(base, pairs, lo, hi))
    decreases hi - lo
  {
    if lo < hi {
      PathNonNegative(base, pairs, base + lo + 1);
      PhrasesNonNegative(base, pairs, lo + 1, hi);
      var a, b := Path(base, pairs, base + lo + 1), Phrases(base, pairs, lo + 1, hi);
      assert Phrases(base, pairs, lo, hi) == a + b;
    }
  }

  /** Conversely, stacks whose trie has only non-negative edges are
      non-negative: every stack is spelled by the trie. */
  lemma {:induction false} StacksNonNegative(base: int, stacks: seq<seq<int>>)
    requires EdgesNonNegative(Build(base, stacks).pairs)
    ensures NonNegative(stacks)
  {
    var t := Build(base, stacks);
    forall i, j | 0 <= i < |stacks| && 0 <= j < |stacks[i]|
      ensures stacks[i][j] >= 0
    {
      TrieProofs.BuildSpells(base, stacks, i);
      var a, b := TrieProofs.Created(base, stacks, i), TrieProofs.Created(base, stacks, i + 1);
      PhrasesNonNegative(base, t.pairs, a, b);
      PathNonNegative(base, t.pairs, t.tails[i]);
      var ph, pa := Phrases(base, t.pairs, a, b), Path(base, t.pairs, t.tails[i]);
      assert stacks[i] == ph + pa;
      if j < |ph| {
        assert stacks[i][j] == ph[j];
      } else {
        assert stacks[i][j] == pa[j - |ph|];
      }
    }
  }

  lemma {:induction false} WritableConcat(a: seq<Token>, b: seq<Token>)
    ensures Writable(a + b) <==> Writable(a) && Writable(b)
  {
    if Writable(a + b) {
      forall i | 0 <= i < |a|
        ensures a[i].v >= 0
      {
        assert a[i] == (a + b)[i];
      }
      forall i | 0 <= i < |b|
        ensures b[i].v >= 0
      {
        assert b[i] == (a + b)[|a| + i];
      }
    }
  }

  /** A reference to a non-negative id is non-negative. */
  lemma {:induction false} RefNonNegative(syn: seq<int>, id: int)
    requires id >= 0
    ensures Ref(syn, id) >= 0
  {
  }

  /** The start methods of non-negative stacks are writable. */
  lemma {:induction false} HeadWritable(methodCount: int, stacks: seq<seq<int>>, starts: seq<int>)
    requires methodCount >= 0 && SynonymsProofs.AllStart(stacks) && NonNegative(stacks)
    requires SynonymsProofs.StartsOf(methodCount, stacks, starts)
    ensures Writable([Var(3), Var(|starts|)] + Vars(starts))
  {
    forall k | 1 <= k < |starts|
      ensures starts[k] >= 0
    {
      var i :| 0 <= i < |stacks| && stacks[i][0] == starts[k];
    }
    WritableConcat([Var(3), Var(|starts|)], Vars(starts));
  }

  /** The trie part: synonyms, tail references and second-pass pairs. */
  function Body(stacks: seq<seq<int>>): seq<Token>
  {
    var first := Build(MAX_SYNONYMS, stacks);
    var syn := SynonymIds(first);
    var second := Build(SynonymCount(first), stacks);
    [Var(|syn|)] + Vars(syn) + [Var(|first.tails|)] + Vars(TailRefs(first))
    + Vars(PairValues(syn, second.pairs))
  }

  /** Synonyms and tail references are always writable. */
  lemma {:induction false} RefsWritable(stacks: seq<seq<int>>)
    ensures var first := Build(MAX_SYNONYMS, stacks);
            var syn := SynonymIds(first);
            Writable([Var(|syn|)] + Vars(syn) + [Var(|first.tails|)] + Vars(TailRefs(first)))
  {
    var first := Build(MAX_SYNONYMS, stacks);
    var syn := SynonymIds(first);
    SynonymsProofs.SynonymsRanked(first);
    TrieProofs.BuildGrows(MAX_SYNONYMS, stacks, |stacks|);
    assert stacks[..|stacks|] == stacks;
    var refs := TailRefs(first);
    forall i | 0 <= i < |refs|
      ensures refs[i] >= 0
    {
      assert IsNode(first.base, first.pairs, first.tails[i]);
      RefNonNegative(syn, first.tails[i] - Delta(first));
    }
    WritableConcat([Var(|syn|)], Vars(syn));
    WritableConcat([Var(|syn|)] + Vars(syn), [Var(|first.tails|)]);
    WritableConcat([Var(|syn|)] + Vars(syn) + [Var(|first.tails|)], Vars(refs));
  }

  /** The pairs of the second pass are writable exactly when every edge
      carries a non-negative method. */
  lemma {:induction false} PairsWritable(syn: seq<int>, base: int, pairs: seq<(int, int)>)
    requires base >= 0 && ParentsFirst(base, pairs)
    ensures Writable(Vars(PairValues(syn, pairs))) <==> EdgesNonNegative(pairs)
  {
    var vals := PairValues(syn, pairs);
    if EdgesNonNegative(pairs) {
      forall j | 0 <= j < |vals|
        ensures vals[j] >= 0
      {
        var k := j / 2;
        SynonymsProofs.PairValuesAt(syn, pairs, k);
        RefNonNegative(syn, pairs[k].0);
        assert j == 2 * k || j == 2 * k + 1;
      }
    } else {
      var k :| 0 <= k < |pairs| && pairs[k].1 < 0;
      SynonymsProofs.PairValuesAt(syn, pairs, k);
      assert Vars(vals)[2 * k + 1].v < 0;
    }
  }

  /** The trie part is writable exactly when the stacks are non-negative. */
  lemma {:induction false} BodyWritable(stacks: seq<seq<int>>)
    ensures Writable(Body(stacks)) <==> NonNegative(stacks)
  {
    var first := Build(MAX_SYNONYMS, stacks);
    var syn := SynonymIds(first);
    var second := Build(SynonymCount(first), stacks);
    var refs := [Var(|syn|)] + Vars(syn) + [Var(|first.tails|)] + Vars(TailRefs(first));
    RefsWritable(stacks);
    TrieProofs.BuildGrows(SynonymCount(first), stacks, |stacks|);
    PairsWritable(syn, SynonymCount(first), second.pairs);
    WritableConcat(refs, Vars(PairValues(syn, second.pairs)));
    if NonNegative(stacks) {
      BuildEdges(SynonymCount(first), stacks);
    }
    if EdgesNonNegative(second.pairs) {
      StacksNonNegative(SynonymCount(first), stacks);
    }
  }

  // ---- The whole section ----

  /** `printHeatmap` writes its section exactly when every sample id names
      a stack, every stack has a nonzero first method and no method is
      negative; with the stacks found and started, a negative method makes
      a writer raise IllegalArgumentException. */
  lemma {:induction false} PrintHeatmapMeaning(blocks: seq<seq<int>>, traces: seq<seq<int>>, methodCount: int)
    requires methodCount >= 0
    ensures var st, r := SampleStacks(blocks, traces), PrintHeatmap(blocks, traces, methodCount);
            (r.Success? <==> SynonymsProofs.IdsInTable(blocks, traces) && st.Success?
                             && SynonymsProofs.AllStart(st.value) && NonNegative(st.value))
            && ((SynonymsProofs.IdsInTable(blocks, traces) && st.Success? && SynonymsProofs.AllStart(st.value)
                 && !NonNegative(st.value)) ==> r == Failure(IllegalArgument))
  {
    var ids := Flatten(blocks);
    SynonymsProofs.SampleStacksMeaning(blocks, traces);
    FirstLoopLooks(methodCount, ids, traces);
    var st := SampleStacks(blocks, traces);
    if FirstLoop(methodCount, ids, traces).Success? {
      FlatIdsInTable(blocks, traces);
    }
    if st.Success? {
      LoopMatches(blocks, traces, methodCount);
      SynonymsProofs.StartsMeaning(methodCount, st.value);
      if SynonymsProofs.AllStart(st.value) {
        Written(blocks, methodCount, st.value, FirstLoop(methodCount, ids, traces).value);
      }
    }
  }

  /** With the stacks found and started, the section is writable exactly
      when the stacks are non-negative. */
  lemma {:induction false} Written(blocks: seq<seq<int>>, methodCount: int, stacks: seq<seq<int>>, starts: seq<int>)
    requires methodCount >= 0 && SynonymsProofs.AllStart(stacks)
    requires SynonymsProofs.StartsOf(methodCount, stacks, starts)
    ensures var head, sizes := [Var(3), Var(|starts|)] + Vars(starts), [Var(|blocks|)] + Sizes(blocks);
            Writable(head + sizes + Body(stacks) + [Var(0), Var(methodCount + 1)]) <==> NonNegative(stacks)
  {
    var head, sizes := [Var(3), Var(|starts|)] + Vars(starts), [Var(|blocks|)] + Sizes(blocks);
    var body, end := Body(stacks), [Var(0), Var(methodCount + 1)];
    BodyWritable(stacks);
    if NonNegative(stacks) {
      HeadWritable(methodCount, stacks, starts);
    }
    WritableConcat(head, sizes);
    WritableConcat(head + sizes, body);
    WritableConcat(head + sizes + body, end);
  }

  /** A section that is written opens with the zoom count 3, the number of
      start methods and `methods.size() + 1`, gives the block count and
      each block's size, and closes with `0, methods.size() + 1`. */
  lemma {:induction false} PrintHeatmapLayout(blocks: seq<seq<int>>, traces: seq<seq<int>>, methodCount: int, starts: seq<int>)
    requires methodCount >= 0 && SampleStacks(blocks, traces).Success?
    requires Starts(methodCount, SampleStacks(blocks, traces).value) == Success(starts)
    requires NonNegative(SampleStacks(blocks, traces).value)
    ensures PrintHeatmap(blocks, traces, methodCount).Success?
    ensures var r := PrintHeatmap(blocks, traces, methodCount).value;
            |r| >= |starts| + 5 + |blocks|
            && r[0] == Var(3) && r[1] == Var(|starts|) && r[2] == Var(methodCount + 1)
            && r[|starts| + 2] == Var(|blocks|)
            && (forall i :: 0 <= i < |blocks| ==> r[|starts| + 3 + i] == Tiny(|blocks[i]|))
            && r[|r| - 2] == Var(0) && r[|r| - 1] == Var(methodCount + 1)
  {
    var st := SampleStacks(blocks, traces).value;
    SynonymsProofs.SampleStacksMeaning(blocks, traces);
    SynonymsProofs.StartsMeaning(methodCount, st);
    LoopMatches(blocks, traces, methodCount);
    PrintHeatmapMeaning(blocks, traces, methodCount);
    SectionLayout(blocks, methodCount, starts, Body(st), PrintHeatmap(blocks, traces, methodCount).value);
  }

  /** The layout of a section with the given start methods and trie part. */
  lemma {:induction false} SectionLayout(blocks: seq<seq<int>>, methodCount: int, starts: seq<int>, body: seq<Token>, r: seq<Token>)
    requires |starts| > 0 && starts[0] == methodCount + 1
    requires r == [Var(3), Var(|starts|)] + Vars(starts) + ([Var(|blocks|)] + Sizes(blocks)) + body + [Var(0), Var(methodCount + 1)]
    ensures |r| >= |starts| + 5 + |blocks|
            && r[0] == Var(3) && r[1] == Var(|starts|) && r[2] == Var(methodCount + 1)
            && r[|starts| + 2] == Var(|blocks|)
            && (forall i :: 0 <= i < |blocks| ==> r[|starts| + 3 + i] == Tiny(|blocks[i]|))
            && r[|r| - 2] == Var(0) && r[|r| - 1] == Var(methodCount + 1)
  {
    var a, b := [Var(3), Var(|starts|)] + Vars(starts), [Var(|blocks|)] + Sizes(blocks);
    var ab := a + b;
    assert r == ab + body + [Var(0), Var(methodCount + 1)];
    assert Vars(starts)[0] == Var(methodCount + 1);
    assert r[0] == ab[0] == a[0] && r[1] == ab[1] == a[1] && r[2] == ab[2] == a[2];
    assert r[|a|] == ab[|a|] == b[0];
    forall i | 0 <= i < |blocks|
      ensures r[|starts| + 3 + i] == Tiny(|blocks[i]|)
    {
      assert r[|a| + (1 + i)] == ab[|a| + (1 + i)] == b[1 + i];
    }
  }
}
