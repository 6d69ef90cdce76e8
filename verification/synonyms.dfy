/** The stack section of `SimpleHeatmap.printHeatmap`: the sample stacks
    are compressed by an LZ78 trie built twice. The first pass counts how
    often each node ends a phrase; the most frequent nodes become
    "synonyms", written by rank so that they take fewer symbols. The second
    pass rebuilds the same trie with ids that start at the number of
    synonyms and writes one (parent, method) pair per new node. The output
    is modelled as the list of values handed to `writeVar` and
    `writeTinyVar`; `HtmlOut` turns them into characters. */
module Synonyms {
  import opened Common
  import opened Interning
  import DenseIndex

  /** `32 * 32 * 32`: at most this many synonyms, the first id of the first
      pass. */
  const MAX_SYNONYMS: int := 32768

  /** The trie of `LzNode`s. Node `base` is the root and the k-th node
      created, k = 1, 2, ..., has id `base + k`; `pairs[k - 1]` is the id of
      its parent and the method on its edge, so a node's children (its
      `Dictionary`) are the pairs naming it. `counts` maps the offset of a
      node from `base` to its `count` (0 when absent) and `tails` lists the
      node every stack ended at. */
  datatype Trie = Trie(base: int, pairs: seq<(int, int)>, counts: map<int, nat>, tails: seq<int>)

  /** `root = new LzNode(nextId++)` before the first stack. */
  function Empty(base: int): Trie
  {
    Trie(base, [], map[], [])
  }

  /** The id the next new node gets (the `next` node waiting to be used). */
  function NextId(t: Trie): int
  {
    t.base + |t.pairs| + 1
  }

  /** The ids of all nodes, the root first, as `allNodes` collects them. */
  function Nodes(t: Trie): (r: seq<int>)
    ensures |r| == |t.pairs| + 1
  {
    seq(|t.pairs| + 1, i => t.base + i)
  }

  function Count(t: Trie, id: int): nat
  {
    if id - t.base in t.counts then t.counts[id - t.base] else 0
  }

  /** `count++` on node id. */
  function Bump(t: Trie, id: int): (r: Trie)
    ensures r.base == t.base && r.pairs == t.pairs && r.tails == t.tails
  {
    t.(counts := t.counts[id - t.base := Count(t, id) + 1])
  }

  /** One method of a stack at node cur: `putIfAbsent` finds the child and
      moves to it, or adds the `next` node as a new child, counts the phrase
      ending at cur and restarts at the root. */
  function Step(t: Trie, cur: int, m: int): (r: (Trie, int))
    ensures r.0.base == t.base && r.0.tails == t.tails
  {
    if (cur, m) in t.pairs then (t, t.base + 1 + Pos(t.pairs, (cur, m)))
    else (Bump(t, cur).(pairs := t.pairs + [(cur, m)]), t.base)
  }

  /** The methods of a stack from node cur on. */
  function Walk(t: Trie, cur: int, ms: seq<int>): (r: (Trie, int))
    ensures r.0.base == t.base && r.0.tails == t.tails
    decreases |ms|
  {
    if |ms| == 0 then (t, cur)
    else
      var x := Step(t, cur, ms[0]);
      Walk(x.0, x.1, ms[1..])
  }

  /** One stack: walked from the root, then the node it ends at is counted
      and recorded (`list.add(current.id)`). */
  function AddStack(t: Trie, s: seq<int>): (r: Trie)
    ensures r.base == t.base && |r.tails| == |t.tails| + 1
  {
    var x := Walk(t, t.base, s);
    var u := Bump(x.0, x.1);
    u.(tails := u.tails + [x.1])
  }

  /** The trie of all stacks, in order, with root id base. */
  function Build(base: int, stacks: seq<seq<int>>): (r: Trie)
    ensures r.base == base && |r.tails| == |stacks|
  {
    if |stacks| == 0 then Empty(base)
    else AddStack(Build(base, stacks[..|stacks| - 1]), stacks[|stacks| - 1])
  }

  // ---- What the trie stands for ----

  /** Every node was created after its parent. */
  predicate ParentsFirst(base: int, pairs: seq<(int, int)>)
  {
    forall k :: 0 <= k < |pairs| ==> base <= pairs[k].0 <= base + k
  }

  predicate IsNode(base: int, pairs: seq<(int, int)>, id: int)
  {
    base <= id <= base + |pairs|
  }

  /** The methods a node spells: those on the edges from the root down to
      it, which is how an LZ78 decoder reads a phrase. */
  function Path(base: int, pairs: seq<(int, int)>, id: int): seq<int>
    requires ParentsFirst(base, pairs) && IsNode(base, pairs, id)
    decreases id - base
  {
    if id == base then []
    else Path(base, pairs, pairs[id - base - 1].0) + [pairs[id - base - 1].1]
  }

  /** The phrases of the nodes created k = from + 1, ..., to, in order: each
      node's path. */
  function Phrases(base: int, pairs: seq<(int, int)>, from: int, to: int): seq<int>
    requires ParentsFirst(base, pairs) && 0 <= from <= to <= |pairs|
    decreases |pairs| - from
  {
    if from == to then []
    else Path(base, pairs, base + from + 1) + Phrases(base, pairs, from + 1, to)
  }

  /** The same trie with root id b: every id moved by b - base. */
  function Rebase(t: Trie, b: int): (r: Trie)
    ensures r.base == b && |r.pairs| == |t.pairs| && |r.tails| == |t.tails| && r.counts == t.counts
  {
    Trie(b,
         seq(|t.pairs|, k requires 0 <= k < |t.pairs| => (t.pairs[k].0 - t.base + b, t.pairs[k].1)),
         t.counts,
         seq(|t.tails|, i requires 0 <= i < |t.tails| => t.tails[i] - t.base + b))
  }

  // ---- Ranking the nodes ----

  /** Insert x after every node counted at least as often. */
  function Insert(t: Trie, x: int, s: seq<int>): (r: seq<int>)
    ensures |r| == |s| + 1
  {
    if |s| == 0 then [x]
    else if Count(t, x) > Count(t, s[0]) then [x] + s
    else [s[0]] + Insert(t, x, s[1..])
  }

  /** `Collections.sort` by descending count: a stable sort, so nodes with
      the same count keep their order. */
  function SortByCount(t: Trie, s: seq<int>): (r: seq<int>)
    ensures |r| == |s|
  {
    if |s| == 0 then []
    else Insert(t, s[|s| - 1], SortByCount(t, s[..|s| - 1]))
  }

  /** The number of synonyms: all nodes when there are fewer than 32768. */
  function SynonymCount(t: Trie): int
  {
    var n := |t.pairs| + 1;
    if n < MAX_SYNONYMS then n else MAX_SYNONYMS
  }

  /** `synonymsDelta`: how far the second pass moves every id down. */
  function Delta(t: Trie): int
  {
    MAX_SYNONYMS - SynonymCount(t)
  }

  /** The synonyms in rank order, as second-pass ids (`node.id -
      synonymsDelta`); they are also the keys of the `synonyms` index, in
      the order it receives them. */
  function SynonymIds(t: Trie): (r: seq<int>)
    ensures |r| == SynonymCount(t)
  {
    var ranked := SortByCount(t, Nodes(t));
    seq(SynonymCount(t), i requires 0 <= i < SynonymCount(t) => ranked[i] - Delta(t))
  }

  /** How a node is referred to: a synonym by its rank - 1, any other node
      by its id. */
  function Ref(syn: seq<int>, id: int): int
  {
    var index := DenseIndex.IndexOr(syn, id, -1);
    if index == -1 then id else index - 1
  }

  /** Reading a reference back: below the number of synonyms it is a rank,
      otherwise an id. */
  function Unref(syn: seq<int>, v: int): int
  {
    if 0 <= v < |syn| then syn[v] else v
  }

  /** The first-pass tails as second-pass ids, each referred to. */
  function TailRefs(first: Trie): (r: seq<int>)
    ensures |r| == |first.tails|
  {
    var syn := SynonymIds(first);
    seq(|first.tails|, i requires 0 <= i < |first.tails| => Ref(syn, first.tails[i] - Delta(first)))
  }

  /** The second pass: for each new node, its parent referred to, then the
      method. */
  function PairValues(syn: seq<int>, pairs: seq<(int, int)>): (r: seq<int>)
    ensures |r| == 2 * |pairs|
  {
    if |pairs| == 0 then []
    else PairValues(syn, pairs[..|pairs| - 1]) + [Ref(syn, pairs[|pairs| - 1].0), pairs[|pairs| - 1].1]
  }

  // ---- The whole section ----

  /** A value passed to `writeVar` or to `writeTinyVar`. */
  datatype Token = Var(v: int) | Tiny(v: int)

  function Vars(vs: seq<int>): (r: seq<Token>)
    ensures |r| == |vs|
  {
    seq(|vs|, i requires 0 <= i < |vs| => Var(vs[i]))
  }

  /** The block sizes, each written with `writeTinyVar`. */
  function Sizes(blocks: seq<seq<int>>): (r: seq<Token>)
    ensures |r| == |blocks| && forall i :: 0 <= i < |blocks| ==> r[i] == Tiny(|blocks[i]|)
  {
    seq(|blocks|, i requires 0 <= i < |blocks| => Tiny(|blocks[i]|))
  }

  /** `context.stackTraces[stackId - 1]` of every sample, block by block;
      an id outside the table raises ArrayIndexOutOfBoundsException. */
  function SampleStacks(blocks: seq<seq<int>>, traces: seq<seq<int>>): (r: Result<seq<seq<int>>>)
    ensures r.Success? ==> |r.value| == |Flatten(blocks)|
  {
    if |blocks| == 0 then Success([])
    else
      var front := SampleStacks(blocks[..|blocks| - 1], traces);
      if front.Failure? then front
      else
        var block := blocks[|blocks| - 1];
        if exists i :: 0 <= i < |block| && !(1 <= block[i] <= |traces|) then Failure(IndexOutOfBounds)
        else Success(front.value + seq(|block|, i requires 0 <= i < |block| => traces[block[i] - 1]))
  }

  /** The `starts` index: `methods.size() + 1`, then the first method of
      every stack; an empty stack raises ArrayIndexOutOfBoundsException and
      method 0 NullPointerException. */
  function Starts(methodCount: int, stacks: seq<seq<int>>): (r: Result<seq<int>>)
  {
    if |stacks| == 0 then Keys(DenseIndex.Index([], methodCount + 1))
    else
      var front := Starts(methodCount, stacks[..|stacks| - 1]);
      var s := stacks[|stacks| - 1];
      if front.Failure? then front
      else if |s| == 0 then Failure(IndexOutOfBounds)
      else Keys(DenseIndex.Index(front.value, s[0]))
  }

  /** The key list of an `index` call. */
  function Keys(x: Result<(seq<int>, int)>): Result<seq<int>>
  {
    if x.Failure? then Failure(x.error) else Success(x.value.0)
  }

  /** The first loop of `printHeatmap`, sample by sample in block order:
      `context.stackTraces[stackId - 1]` (ArrayIndexOutOfBoundsException
      outside the table), its `stack[0]` (the same for an empty stack) and
      `starts.index` of that (NullPointerException for method 0). The
      result is the `starts` index. */
  function FirstLoop(methodCount: int, ids: seq<int>, traces: seq<seq<int>>): (r: Result<seq<int>>)
  {
    if |ids| == 0 then Keys(DenseIndex.Index([], methodCount + 1))
    else
      var front := FirstLoop(methodCount, ids[..|ids| - 1], traces);
      var id := ids[|ids| - 1];
      if front.Failure? then front
      else if !(1 <= id <= |traces|) || |traces[id - 1]| == 0 then Failure(IndexOutOfBounds)
      else Keys(DenseIndex.Index(front.value, traces[id - 1][0]))
  }

  /** No value handed to `writeVar` or `writeTinyVar` is negative: each of
      them throws IllegalArgumentException on a negative value. */
  predicate Writable(ts: seq<Token>)
  {
    forall i :: 0 <= i < |ts| ==> ts[i].v >= 0
  }

  /** `printHeatmap`: the zoom count 3, then, once the first loop has
      looked up every sample's stack, the start methods, the block sizes,
      the synonyms, the tails, the second pass and the closing `0,
      methods.size() + 1`. The first loop raises its errors before anything
      else is written; after it, the only failure is a negative value
      reaching a writer. */
  function PrintHeatmap(blocks: seq<seq<int>>, traces: seq<seq<int>>, methodCount: int): (r: Result<seq<Token>>)
  {
    var starts := FirstLoop(methodCount, Flatten(blocks), traces);
    var stacks := SampleStacks(blocks, traces);
    if starts.Failure? then Failure(starts.error)
    // Never taken: the first loop has already looked up every sample.
    else if stacks.Failure? then Failure(stacks.error)
    else
      var first := Build(MAX_SYNONYMS, stacks.value);
      var syn := SynonymIds(first);
      var second := Build(SynonymCount(first), stacks.value);
      var head := [Var(3), Var(|starts.value|)] + Vars(starts.value);
      var sizes := [Var(|blocks|)] + Sizes(blocks);
      var body := [Var(|syn|)] + Vars(syn) + [Var(|first.tails|)] + Vars(TailRefs(first))
                  + Vars(PairValues(syn, second.pairs));
      var out := head + sizes + body + [Var(0), Var(methodCount + 1)];
      if !Writable(out) then Failure(IllegalArgument) else Success(out)
  }
}
