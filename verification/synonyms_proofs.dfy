/** The ranking of `printHeatmap`'s trie nodes, the synonyms chosen from
    it, and the references written with them: every reference reads back
    as the node it names. */
module SynonymsProofs {
  import opened Common
  import opened Interning
  import opened Synonyms
  import DenseIndex
  import TrieProofs

  // ---- The stable sort ----

  /** Node a comes before node b: it is counted more often, or as often and
      was created earlier. */
  predicate Before(t: Trie, a: int, b: int)
  {
    Count(t, a) > Count(t, b) || (Count(t, a) == Count(t, b) && a < b)
  }

  predicate Ranked(t: Trie, s: seq<int>)
  {
    forall i, j :: 0 <= i < j < |s| ==> Before(t, s[i], s[j])
  }

  predicate Increasing(s: seq<int>)
  {
    forall i, j :: 0 <= i < j < |s| ==> s[i] < s[j]
  }

  lemma {:induction false} InsertPermutes(t: Trie, x: int, s: seq<int>)
    ensures multiset(Insert(t, x, s)) == multiset(s) + multiset{x}
  {
    if |s| > 0 && Count(t, x) <= Count(t, s[0]) {
      InsertPermutes(t, x, s[1..]);
      assert s == [s[0]] + s[1..];
    }
  }

  /** The sort is a permutation. */
  lemma {:induction false} SortPermutes(t: Trie, s: seq<int>)
    ensures multiset(SortByCount(t, s)) == multiset(s)
  {
    if |s| > 0 {
      var front := s[..|s| - 1];
      SortPermutes(t, front);
      InsertPermutes(t, s[|s| - 1], SortByCount(t, front));
      assert s == front + [s[|s| - 1]];
    }
  }

  /** Inserting a node created after all others keeps the order. */
  lemma {:induction false} InsertRanked(t: Trie, x: int, s: seq<int>)
    requires Ranked(t, s) && forall y :: y in s ==> y < x
    ensures Ranked(t, Insert(t, x, s))
  {
    if |s| > 0 && Count(t, x) <= Count(t, s[0]) {
      var rest := s[1..];
      assert forall y :: y in rest ==> y in s;
      InsertRanked(t, x, rest);
      InsertPermutes(t, x, rest);
      var tail := Insert(t, x, rest);
      forall j | 0 <= j < |tail|
        ensures Before(t, s[0], tail[j])
      {
        assert tail[j] in multiset(tail);
        if tail[j] != x {
          assert tail[j] in rest;
          var k :| 0 <= k < |rest| && rest[k] == tail[j];
          assert s[k + 1] == tail[j];
        } else {
          assert s[0] in s;
        }
      }
      RankedCons(t, s[0], tail);
    }
  }

  lemma {:induction false} RankedCons(t: Trie, a: int, s: seq<int>)
    requires Ranked(t, s) && forall j :: 0 <= j < |s| ==> Before(t, a, s[j])
    ensures Ranked(t, [a] + s)
  {
    var r := [a] + s;
    forall i, j | 0 <= i < j < |r|
      ensures Before(t, r[i], r[j])
    {
      if i > 0 {
        assert r[i] == s[i - 1] && r[j] == s[j - 1];
      } else {
        assert r[j] == s[j - 1];
      }
    }
  }

  /** Sorting nodes listed in creation order by descending count, stably,
      orders them by count and then by creation. */
  lemma {:induction false} SortRanked(t: Trie, s: seq<int>)
    requires Increasing(s)
    ensures Ranked(t, SortByCount(t, s))
  {
    if |s| > 0 {
      var front, x := s[..|s| - 1], s[|s| - 1];
      SortRanked(t, front);
      SortPermutes(t, front);
      forall y | y in SortByCount(t, front)
        ensures y < x
      {
        assert y in multiset(front);
        var k :| 0 <= k < |front| && front[k] == y;
      }
      InsertRanked(t, x, SortByCount(t, front));
    }
  }

  // ---- The synonyms ----

  /** The nodes ranked: a permutation, in order of count and creation. */
  lemma {:induction false} RankedNodes(t: Trie)
    ensures var ranked := SortByCount(t, Nodes(t));
            Ranked(t, ranked) && multiset(ranked) == multiset(Nodes(t))
  {
    assert Increasing(Nodes(t));
    SortRanked(t, Nodes(t));
    SortPermutes(t, Nodes(t));
  }

  /** The synonyms are the first min(32768, nodes) nodes of the ranking,
      moved down by `synonymsDelta`: distinct, nonzero second-pass ids in
      rank order. */
  lemma {:induction false} SynonymsRanked(t: Trie)
    requires t.base == MAX_SYNONYMS
    ensures var syn, d := SynonymIds(t), Delta(t);
            |syn| == Min(MAX_SYNONYMS, |Nodes(t)|) && d == MAX_SYNONYMS - |syn|
            && DenseIndex.WellFormed(syn)
            && (forall i :: 0 <= i < |syn| ==> |syn| <= syn[i] <= |syn| + |t.pairs| && syn[i] + d in Nodes(t))
            && (forall i, j :: 0 <= i < j < |syn| ==> Before(t, syn[i] + d, syn[j] + d))
  {
    var syn, d := SynonymIds(t), Delta(t);
    var ranked := SortByCount(t, Nodes(t));
    RankedNodes(t);
    PrefixOfRanked(t, ranked, Nodes(t), syn, d);
    forall i | 0 <= i < |syn|
      ensures |syn| <= syn[i] <= |syn| + |t.pairs|
    {
      assert syn[i] + d in Nodes(t);
    }
  }

  /** A prefix of a ranking of the nodes, moved down by d, names distinct
      nodes in rank order. */
  lemma {:induction false} PrefixOfRanked(t: Trie, ranked: seq<int>, nodes: seq<int>, syn: seq<int>, d: int)
    requires Ranked(t, ranked) && multiset(ranked) == multiset(nodes) && |syn| <= |ranked|
    requires forall i :: 0 <= i < |syn| ==> syn[i] == ranked[i] - d
    ensures forall i :: 0 <= i < |syn| ==> syn[i] + d in nodes
    ensures forall i, j :: 0 <= i < j < |syn| ==> Before(t, syn[i] + d, syn[j] + d) && syn[i] != syn[j]
  {
    forall i | 0 <= i < |syn|
      ensures syn[i] + d in nodes
    {
      assert ranked[i] in multiset(nodes);
    }
    forall i, j | 0 <= i < j < |syn|
      ensures Before(t, syn[i] + d, syn[j] + d) && syn[i] != syn[j]
    {
      assert Before(t, ranked[i], ranked[j]);
    }
  }

  /** No node left out of the synonyms is counted more often than any
      synonym. */
  lemma {:induction false} SynonymsTop(t: Trie, id: int, i: int)
    requires t.base == MAX_SYNONYMS
    requires id in Nodes(t) && id - Delta(t) !in SynonymIds(t) && 0 <= i < |SynonymIds(t)|
    ensures Count(t, id) <= Count(t, SynonymIds(t)[i] + Delta(t))
  {
    var syn, d := SynonymIds(t), Delta(t);
    var ranked := SortByCount(t, Nodes(t));
    RankedNodes(t);
    assert id in multiset(ranked);
    var p :| 0 <= p < |ranked| && ranked[p] == id;
    assert forall q :: 0 <= q < |syn| ==> syn[q] == ranked[q] - d;
    assert p >= |syn|;
    assert Before(t, ranked[i], ranked[p]);
  }

  // ---- References ----

  /** A reference reads back as the node it names, and is below the number
      of synonyms exactly when the node is a synonym. */
  lemma {:induction false} RefRoundTrip(syn: seq<int>, id: int)
    requires id >= |syn|
    ensures Unref(syn, Ref(syn, id)) == id
    ensures 0 <= Ref(syn, id) < |syn| <==> id in syn
  {
  }

  /** Each tail reference reads back as the second-pass tail. */
  lemma {:induction false} TailsDecode(first: Trie, syn: seq<int>, refs: seq<int>, tails: seq<int>)
    requires syn == SynonymIds(first) && refs == TailRefs(first) && |tails| == |first.tails|
    requires forall i :: 0 <= i < |first.tails| ==> tails[i] == first.tails[i] - Delta(first)
    requires forall i :: 0 <= i < |tails| ==> tails[i] >= |syn|
    ensures forall i :: 0 <= i < |tails| ==> Unref(syn, refs[i]) == tails[i]
  {
    forall i | 0 <= i < |tails|
      ensures Unref(syn, refs[i]) == tails[i]
    {
      assert refs[i] == Ref(syn, tails[i]);
      RefRoundTrip(syn, tails[i]);
    }
  }

  /** The i-th pair of the second pass is written at positions 2i and
      2i + 1. */
  lemma {:induction false} PairValuesAt(syn: seq<int>, pairs: seq<(int, int)>, k: nat)
    requires k < |pairs|
    ensures PairValues(syn, pairs)[2 * k] == Ref(syn, pairs[k].0)
    ensures PairValues(syn, pairs)[2 * k + 1] == pairs[k].1
  {
    var front := pairs[..|pairs| - 1];
    if k < |front| {
      PairValuesAt(syn, front, k);
      assert front[k] == pairs[k];
    }
  }

  /** The references written by `printHeatmap` read back, with the
      synonyms, as the second-pass trie: the parent of every new node and
      the node every stack ended at. */
  lemma {:induction false} ReferencesDecode(stacks: seq<seq<int>>)
    ensures var first := Build(MAX_SYNONYMS, stacks);
            var syn := SynonymIds(first);
            var second := Build(|syn|, stacks);
            var tails, vals := TailRefs(first), PairValues(syn, second.pairs);
            (forall i :: 0 <= i < |second.tails| ==> Unref(syn, tails[i]) == second.tails[i])
            && (forall k :: 0 <= k < |second.pairs| ==>
                  Unref(syn, vals[2 * k]) == second.pairs[k].0 && vals[2 * k + 1] == second.pairs[k].1)
  {
    var first := Build(MAX_SYNONYMS, stacks);
    var syn := SynonymIds(first);
    var second := Build(|syn|, stacks);
    TrieProofs.SecondPass(stacks);
    TrieProofs.BuildGrows(|syn|, stacks, |stacks|);
    TailsDecode(first, syn, TailRefs(first), second.tails);
    forall k | 0 <= k < |second.pairs|
      ensures Unref(syn, PairValues(syn, second.pairs)[2 * k]) == second.pairs[k].0
      ensures PairValues(syn, second.pairs)[2 * k + 1] == second.pairs[k].1
    {
      PairValuesAt(syn, second.pairs, k);
      RefRoundTrip(syn, second.pairs[k].0);
    }
  }

  // ---- The stacks written ----

  /** Every sample id names a stack of the table. */
  predicate IdsInTable(blocks: seq<seq<int>>, traces: seq<seq<int>>)
  {
    forall b, i :: 0 <= b < |blocks| && 0 <= i < |blocks[b]| ==> 1 <= blocks[b][i] <= |traces|
  }

  /** The samples' stacks are found exactly when every id is in the table,
      and then the j-th stack is the one the j-th sample names. */
  lemma {:induction false} SampleStacksMeaning(blocks: seq<seq<int>>, traces: seq<seq<int>>)
    ensures SampleStacks(blocks, traces).Success? <==> IdsInTable(blocks, traces)
    ensures var r, ids := SampleStacks(blocks, traces), Flatten(blocks);
            r.Success? ==> forall j :: 0 <= j < |ids| ==> 1 <= ids[j] <= |traces| && r.value[j] == traces[ids[j] - 1]
  {
    if |blocks| > 0 {
      var front, block := blocks[..|blocks| - 1], blocks[|blocks| - 1];
      SampleStacksMeaning(front, traces);
      if IdsInTable(blocks, traces) {
        assert IdsInTable(front, traces) by {
          forall b, i | 0 <= b < |front| && 0 <= i < |front[b]|
            ensures 1 <= front[b][i] <= |traces|
          {
            assert front[b] == blocks[b];
          }
        }
        LastBlockLooked(blocks, traces);
      } else if IdsInTable(front, traces) {
        var b, i :| 0 <= b < |blocks| && 0 <= i < |blocks[b]| && !(1 <= blocks[b][i] <= |traces|);
        assert b == |front| && !(1 <= block[i] <= |traces|);
      }
    }
  }

  /** The step of SampleStacksMeaning for the last block. */
  lemma {:induction false} LastBlockLooked(blocks: seq<seq<int>>, traces: seq<seq<int>>)
    requires |blocks| > 0 && IdsInTable(blocks, traces)
    requires var front, r := blocks[..|blocks| - 1], SampleStacks(blocks[..|blocks| - 1], traces);
             r.Success? && forall j :: 0 <= j < |Flatten(front)| ==>
               1 <= Flatten(front)[j] <= |traces| && r.value[j] == traces[Flatten(front)[j] - 1]
    ensures var r, ids := SampleStacks(blocks, traces), Flatten(blocks);
            r.Success? && forall j :: 0 <= j < |ids| ==> 1 <= ids[j] <= |traces| && r.value[j] == traces[ids[j] - 1]
  {
    var front, block := blocks[..|blocks| - 1], blocks[|blocks| - 1];
    var fv := SampleStacks(front, traces).value;
    assert BlockInTable(block, traces) by {
      forall i | 0 <= i < |block|
        ensures 1 <= block[i] <= |traces|
      {
        assert block[i] == blocks[|blocks| - 1][i];
      }
    }
    var tail := LookUp(block, traces);
    LastBlockValue(blocks, traces);
    assert Flatten(blocks) == Flatten(front) + block;
    AppendLooked(Flatten(front), fv, block, tail, traces);
  }

  /** Every id of one block names a stack of the table. */
  predicate BlockInTable(block: seq<int>, traces: seq<seq<int>>)
  {
    forall i :: 0 <= i < |block| ==> 1 <= block[i] <= |traces|
  }

  /** The stacks a block of ids names. */
  function LookUp(block: seq<int>, traces: seq<seq<int>>): (r: seq<seq<int>>)
    requires BlockInTable(block, traces)
    ensures |r| == |block| && forall i :: 0 <= i < |block| ==> r[i] == traces[block[i] - 1]
  {
    seq(|block|, i requires 0 <= i < |block| => traces[block[i] - 1])
  }

  /** With the earlier blocks found and every id of the last block in the
      table, the last block's stacks follow the earlier ones. */
  lemma {:induction false} LastBlockValue(blocks: seq<seq<int>>, traces: seq<seq<int>>)
    requires |blocks| > 0 && SampleStacks(blocks[..|blocks| - 1], traces).Success?
    requires BlockInTable(blocks[|blocks| - 1], traces)
    ensures SampleStacks(blocks, traces)
            == Success(SampleStacks(blocks[..|blocks| - 1], traces).value + LookUp(blocks[|blocks| - 1], traces))
  {
  }

  /** Lookups of two runs of ids, one after the other. */
  lemma {:induction false} AppendLooked(ids: seq<int>, v: seq<seq<int>>, block: seq<int>, tail: seq<seq<int>>, traces: seq<seq<int>>)
    requires |v| == |ids| && |tail| == |block|
    requires forall j :: 0 <= j < |ids| ==> 1 <= ids[j] <= |traces| && v[j] == traces[ids[j] - 1]
    requires forall i :: 0 <= i < |block| ==> 1 <= block[i] <= |traces| && tail[i] == traces[block[i] - 1]
    ensures var all, w := ids + block, v + tail;
            forall j :: 0 <= j < |all| ==> 1 <= all[j] <= |traces| && w[j] == traces[all[j] - 1]
  {
    var all, w := ids + block, v + tail;
    forall j | 0 <= j < |all|
      ensures 1 <= all[j] <= |traces| && w[j] == traces[all[j] - 1]
    {
      if j >= |ids| {
        assert all[j] == block[j - |ids|] && w[j] == tail[j - |ids|];
      }
    }
  }

  /** The `starts` index is built exactly when every stack has a nonzero
      first method; then it holds `methods.size() + 1` first and, after it,
      exactly the first methods of the stacks, each once. */
  lemma {:induction false} StartsMeaning(methodCount: int, stacks: seq<seq<int>>)
    requires methodCount >= 0
    ensures Starts(methodCount, stacks).Success? <==> AllStart(stacks)
    ensures var r := Starts(methodCount, stacks);
            r.Success? ==>
              DenseIndex.WellFormed(r.value) && |r.value| > 0 && r.value[0] == methodCount + 1
              && (forall i :: 0 <= i < |stacks| ==> stacks[i][0] in r.value)
              && (forall k :: 1 <= k < |r.value| ==> exists i :: 0 <= i < |stacks| && stacks[i][0] == r.value[k])
  {
    StartsHold(methodCount, stacks);
  }

  /** v is a `starts` index for stacks: reachable, headed by
      `methods.size() + 1`, and holding exactly their first methods. */
  predicate StartsOf(methodCount: int, stacks: seq<seq<int>>, v: seq<int>)
    requires AllStart(stacks)
  {
    DenseIndex.WellFormed(v) && |v| > 0 && v[0] == methodCount + 1
    && (forall i :: 0 <= i < |stacks| ==> stacks[i][0] in v)
    && (forall k :: 1 <= k < |v| ==> exists i :: 0 <= i < |stacks| && stacks[i][0] == v[k])
  }

  lemma {:induction false} StartsHold(methodCount: int, stacks: seq<seq<int>>)
    requires methodCount >= 0
    ensures Starts(methodCount, stacks).Success? <==> AllStart(stacks)
    ensures Starts(methodCount, stacks).Success? ==> StartsOf(methodCount, stacks, Starts(methodCount, stacks).value)
    decreases |stacks|
  {
    if |stacks| == 0 {
      DenseIndex.AppendKeepsWellFormed([], methodCount + 1);
    } else {
      var front := stacks[..|stacks| - 1];
      StartsHold(methodCount, front);
      StartsFails(methodCount, stacks);
      if Starts(methodCount, stacks).Success? {
        StartsGrows(methodCount, stacks, Starts(methodCount, front).value, Starts(methodCount, stacks).value);
      }
    }
  }

  /** Every stack has a nonzero first method. */
  predicate AllStart(stacks: seq<seq<int>>)
  {
    forall i :: 0 <= i < |stacks| ==> |stacks[i]| > 0 && stacks[i][0] != 0
  }

  /** The step of the iff: the last stack fails or passes on its own. */
  lemma {:induction false} StartsFails(methodCount: int, stacks: seq<seq<int>>)
    requires methodCount >= 0 && |stacks| > 0
    requires Starts(methodCount, stacks[..|stacks| - 1]).Success? <==> AllStart(stacks[..|stacks| - 1])
    ensures Starts(methodCount, stacks).Success? <==> AllStart(stacks)
  {
    var front, s := stacks[..|stacks| - 1], stacks[|stacks| - 1];
    var f := Starts(methodCount, front);
    if f.Failure? {
      var i :| 0 <= i < |front| && !(|front[i]| > 0 && front[i][0] != 0);
      assert stacks[i] == front[i];
    } else if !(|s| > 0 && s[0] != 0) {
      assert !(|stacks[|stacks| - 1]| > 0 && stacks[|stacks| - 1][0] != 0);
    } else {
      forall i | 0 <= i < |stacks|
        ensures |stacks[i]| > 0 && stacks[i][0] != 0
      {
        if i < |front| {
          assert stacks[i] == front[i];
        }
      }
    }
  }

  /** The step of the contents: indexing the last stack's first method
      keeps the index reachable and adds that method. */
  lemma {:induction false} StartsGrows(methodCount: int, stacks: seq<seq<int>>, fv: seq<int>, v: seq<int>)
    requires |stacks| > 0 && AllStart(stacks)
    requires AllStart(stacks[..|stacks| - 1]) && StartsOf(methodCount, stacks[..|stacks| - 1], fv)
    requires v == DenseIndex.Index(fv, stacks[|stacks| - 1][0]).value.0
    ensures StartsOf(methodCount, stacks, v)
  {
    var front, s := stacks[..|stacks| - 1], stacks[|stacks| - 1];
    var x := DenseIndex.Index(fv, s[0]);
    DenseIndex.IndexKeepsWellFormed(fv, s[0]);
    assert v[..|fv|] == fv;
    forall i | 0 <= i < |stacks|
      ensures stacks[i][0] in v
    {
      if i < |front| {
        assert stacks[i] == front[i];
        var j :| 0 <= j < |fv| && fv[j] == front[i][0];
        assert v[j] == fv[j];
      } else {
        assert v[x.value.1 - 1] == s[0];
      }
    }
    forall k | 1 <= k < |v|
      ensures exists i :: 0 <= i < |stacks| && stacks[i][0] == v[k]
    {
      if k < |fv| {
        var i :| 0 <= i < |front| && front[i][0] == fv[k];
        assert stacks[i] == front[i];
      } else {
        assert v[k] == s[0];
      }
    }
  }
}
