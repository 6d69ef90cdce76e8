/** `StackDecodingContext` of simple_heatmap.js: the stacks of one block of
    one zoom level, loaded into a call tree one level at a time. The
    context reads its stack ids, then, level by level, the total of every
    tree node it creates, from the values successive `nextVarInt` calls
    return (`DataBuffer.Tok`, as for the other readers; past the end a read
    yields 0). `globalStacks` is the table `decodeGlobalStacks` produced,
    passed in as gs.

    The tree of `Map`s hanging off `root` is modelled by its paths: a node
    is named by the method ids on the way to it from the root, and the tree
    maps each node's path to its `c`. */
module StackContext {
  import opened Common
  import DataBuffer

  type Path = seq<int>
  type Tree = map<Path, int>

  /** The fields of the context: the live stack ids (null after a stack has
      been loaded completely), the node each stack has reached, the tree,
      `methodsCount`, `currentLevel`, `maxLevel` and the read position. */
  datatype Ctx = Ctx(stackIds: seq<Option<int>>, leafs: seq<Path>, tree: Tree,
                     counts: map<int, int>, level: nat, maxLevel: int, at: int)

  // ---- The tree ----

  /** Every node hangs off the root. */
  ghost predicate PrefixClosed(t: Tree)
  {
    [] in t && forall p: Path, x: int :: p + [x] in t ==> p in t
  }

  /** q lies strictly below p. */
  predicate Below(q: Path, p: Path)
  {
    |q| > |p| && q[..|p|] == p
  }

  /** Nothing already in t is lost or changed in u. */
  predicate Grows(t: Tree, u: Tree)
  {
    forall q :: q in t ==> q in u && u[q] == t[q]
  }

  lemma {:induction false} PrefixesIn(t: Tree, q: Path, n: nat)
    requires PrefixClosed(t) && q in t && n <= |q|
    ensures q[..n] in t
    decreases |q| - n
  {
    if n < |q| {
      var p, x := q[..|q| - 1], q[|q| - 1];
      assert p + [x] == q;
      assert p in t;
      PrefixesIn(t, p, n);
      assert p[..n] == q[..n];
    } else {
      assert q[..n] == q;
    }
  }

  /** A node not in a tree has nothing below it there. */
  lemma {:induction false} NothingBelow(t: Tree, p: Path)
    requires PrefixClosed(t) && p !in t
    ensures forall q :: q in t ==> !Below(q, p)
  {
    forall q | q in t
      ensures !Below(q, p)
    {
      if Below(q, p) {
        PrefixesIn(t, q, |p|);
      }
    }
  }

  /** The `for` loop of the `total === 1` case: a chain of new nodes, each
      the only child of the one before, all with c = v. */
  function Chain(t: Tree, p: Path, rest: seq<int>, v: int): Tree
    decreases |rest|
  {
    if |rest| == 0 then t else Chain(t[p + [rest[0]] := v], p + [rest[0]], rest[1..], v)
  }

  /** The chain from a node with nothing below it adds the nodes on the way
      to p + rest, each with c = v, and touches nothing else. */
  lemma {:induction false} ChainMeaning(t: Tree, p: Path, rest: seq<int>, v: int)
    requires PrefixClosed(t) && p in t && forall q :: q in t ==> !Below(q, p)
    ensures var u := Chain(t, p, rest, v);
            PrefixClosed(u) && Grows(t, u) && p + rest in u
            && u[p + rest] == (if |rest| == 0 then t[p] else v)
    decreases |rest|
  {
    if |rest| > 0 {
      var x := p + [rest[0]];
      assert x[..|x| - 1] == p;
      assert Below(x, p);
      FreshChild(t, x, v);
      var t' := t[x := v];
      ChainMeaning(t', x, rest[1..], v);
      assert x + rest[1..] == p + rest;
      GrowsTrans(t, t', Chain(t', x, rest[1..], v));
    } else {
      assert p + rest == p;
    }
  }

  lemma {:induction false} GrowsTrans(t: Tree, u: Tree, w: Tree)
    requires Grows(t, u) && Grows(u, w)
    ensures Grows(t, w)
  {
  }

  /** A new child of a node in the tree: the tree stays rooted, grows, and
      has nothing below the child. */
  lemma {:induction false} FreshChild(t: Tree, x: Path, v: int)
    requires PrefixClosed(t) && |x| > 0 && x[..|x| - 1] in t && x !in t
    ensures PrefixClosed(t[x := v]) && Grows(t, t[x := v])
    ensures forall q :: q in t[x := v] ==> !Below(q, x)
  {
    forall p', y | p' + [y] in t[x := v]
      ensures p' in t[x := v]
    {
      if p' + [y] == x {
        assert (p' + [y])[..|x| - 1] == p';
      }
    }
    NothingBelow(t, x);
  }

  // ---- The constructor ----

  /** The stack ids of the constructor's loop: each read value is the gap
      to the previous id, less one. An id with no stack in gs makes
      `globalStacks[prevStackId - 1].length` a TypeError. */
  function ReadIds(gs: seq<seq<int>>, ds: seq<int>, prev: int): (r: Result<seq<int>>)
    ensures r.Success? ==> |r.value| == |ds| && AllIn(r.value, 1, |gs|)
    decreases |ds|
  {
    if |ds| == 0 then Success([])
    else
      var id := prev + ds[0] + 1;
      if !(1 <= id <= |gs|) then Failure(TypeError)
      else
        var rest := ReadIds(gs, ds[1..], id);
        if rest.Failure? then rest else Success([id] + rest.value)
  }

  /** `Math.max` over the lengths of the stacks the ids name, from 0. */
  function MaxLevel(gs: seq<seq<int>>, ids: seq<int>, acc: int): int
    requires AllIn(ids, 1, |gs|)
    decreases |ids|
  {
    if |ids| == 0 then acc else MaxLevel(gs, ids[1..], Max(acc, |gs[ids[0] - 1]|))
  }

  /** The n values read from position at on. */
  function Window(toks: seq<int>, at: int, n: nat): (r: seq<int>)
    ensures |r| == n
  {
    seq(n, k => DataBuffer.Tok(toks, at + k))
  }

  /** `new StackDecodingContext(data, pos)`: the root's total, and when it
      is not 0 the number of stacks and their ids, every stack starting at
      the root. `new Array(stackCount)` raises a RangeError on a negative
      count. */
  function New(toks: seq<int>, gs: seq<seq<int>>, pos: int): Result<Ctx>
  {
    var total := DataBuffer.Tok(toks, pos);
    if total == 0 then Success(Ctx([], [], map[[] := 0], map[], 0, 0, pos + 1))
    else
      var count := DataBuffer.Tok(toks, pos + 1);
      if count < 0 then Failure(NegativeArraySize)
      else
        var ids := ReadIds(gs, Window(toks, pos + 2, count), 0);
        if ids.Failure? then Failure(ids.error)
        else Success(Ctx(Somes(ids.value), seq(count, _ => []), map[[] := total], map[], 0,
                         MaxLevel(gs, ids.value, 0), pos + 2 + count))
  }

  // ---- The invariant ----

  /** Both arrays have one slot per stack, and every live id names a stack. */
  predicate IdsOk(c: Ctx, gs: seq<seq<int>>)
  {
    |c.leafs| == |c.stackIds|
    && forall i :: 0 <= i < |c.stackIds| && c.stackIds[i].Some? ==> 1 <= c.stackIds[i].value <= |gs|
  }

  /** A live entry i has reached level lvl of its stack: its leaf is the
      node of the stack's first lvl methods, and that node is in the tree. */
  predicate AlignedAt(c: Ctx, gs: seq<seq<int>>, i: int, lvl: int)
    requires IdsOk(c, gs) && 0 <= i < |c.stackIds|
  {
    c.stackIds[i].Some? ==>
      var s := gs[c.stackIds[i].value - 1];
      0 <= lvl <= |s| && c.leafs[i] == s[..lvl] && c.leafs[i] in c.tree
  }

  /** The entries lo..hi - 1 have all reached level lvl. */
  predicate AlignedIn(c: Ctx, gs: seq<seq<int>>, lo: int, hi: int, lvl: int)
    requires IdsOk(c, gs) && 0 <= lo && hi <= |c.stackIds|
  {
    forall j :: lo <= j < hi ==> AlignedAt(c, gs, j, lvl)
  }

  /** What holds between two `loadLevel` calls. */
  ghost predicate Valid(c: Ctx, gs: seq<seq<int>>)
  {
    IdsOk(c, gs) && PrefixClosed(c.tree) && AlignedIn(c, gs, 0, |c.stackIds|, c.level)
  }

  /** A fresh context starts valid at level 0 with one live entry per id
      read, and maxLevel is the length of its longest stack. */
  lemma {:induction false} NewValid(toks: seq<int>, gs: seq<seq<int>>, pos: int)
    ensures var r := New(toks, gs, pos);
            r.Success? ==> Valid(r.value, gs) && r.value.level == 0 && r.value.tree == map[[] := DataBuffer.Tok(toks, pos)]
                           && (forall i :: 0 <= i < |r.value.stackIds| ==> r.value.stackIds[i].Some?)
                           && (forall i :: 0 <= i < |r.value.stackIds| ==> |gs[r.value.stackIds[i].value - 1]| <= r.value.maxLevel)
  {
    var total := DataBuffer.Tok(toks, pos);
    if total != 0 {
      var count := DataBuffer.Tok(toks, pos + 1);
      if count >= 0 {
        var ids := ReadIds(gs, Window(toks, pos + 2, count), 0);
        if ids.Success? {
          MaxLevelBounds(gs, ids.value, 0);
          var c := New(toks, gs, pos).value;
          forall i | 0 <= i < |c.stackIds|
            ensures AlignedAt(c, gs, i, 0)
          {
            assert c.leafs[i] == [];
          }
        }
      }
    }
  }

  /** The longest length, or acc when that is longer: at least every length,
      and one of them unless it is acc. */
  lemma {:induction false} MaxLevelBounds(gs: seq<seq<int>>, ids: seq<int>, acc: int)
    requires AllIn(ids, 1, |gs|)
    ensures var m := MaxLevel(gs, ids, acc);
            acc <= m && (forall i :: 0 <= i < |ids| ==> |gs[ids[i] - 1]| <= m)
            && (m == acc || exists i :: 0 <= i < |ids| && m == |gs[ids[i] - 1]|)
    decreases |ids|
  {
    if |ids| > 0 {
      var acc' := Max(acc, |gs[ids[0] - 1]|);
      MaxLevelBounds(gs, ids[1..], acc');
      var m := MaxLevel(gs, ids, acc);
      forall i | 0 <= i < |ids|
        ensures |gs[ids[i] - 1]| <= m
      {
        if i > 0 {
          assert ids[i] == ids[1..][i - 1];
        }
      }
      if m != acc && m != acc' {
        var i :| 0 <= i < |ids[1..]| && m == |gs[ids[1..][i] - 1]|;
        assert m == |gs[ids[i + 1] - 1]|;
      }
    }
  }

  // ---- Stack ids as gaps ----

  /** The gaps a writer puts out for ids: each id less the one before, less
      one. */
  function Gaps(ids: seq<int>, prev: int): (r: seq<int>)
    ensures |r| == |ids|
    decreases |ids|
  {
    if |ids| == 0 then [] else [ids[0] - prev - 1] + Gaps(ids[1..], ids[0])
  }

  predicate Increasing(ids: seq<int>, prev: int)
  {
    (|ids| > 0 ==> prev < ids[0]) && forall i :: 0 < i < |ids| ==> ids[i - 1] < ids[i]
  }

  /** Reading back the gaps of ids that name stacks gives the ids. */
  lemma {:induction false} GapsRoundTrip(gs: seq<seq<int>>, ids: seq<int>, prev: int)
    requires AllIn(ids, 1, |gs|)
    ensures ReadIds(gs, Gaps(ids, prev), prev) == Success(ids)
    decreases |ids|
  {
    if |ids| > 0 {
      var g := Gaps(ids, prev);
      assert AllIn(ids[1..], 1, |gs|) && 1 <= ids[0] <= |gs|;
      GapsRoundTrip(gs, ids[1..], ids[0]);
      assert g[0] == ids[0] - prev - 1;
      assert g[1..] == Gaps(ids[1..], ids[0]);
      assert ReadIds(gs, g, prev) == Success([ids[0]] + ids[1..]);
      assert [ids[0]] + ids[1..] == ids;
    }
  }

  /** Conversely, whatever reads back successfully was written as the gaps
      of what it reads back as; the ids increase exactly when no gap is
      negative. */
  lemma {:induction false} ReadIdsGaps(gs: seq<seq<int>>, ds: seq<int>, prev: int)
    requires ReadIds(gs, ds, prev).Success?
    ensures var ids := ReadIds(gs, ds, prev).value;
            Gaps(ids, prev) == ds
            && (Increasing(ids, prev) <==> forall k :: 0 <= k < |ds| ==> ds[k] >= 0)
  {
    var ids := ReadIds(gs, ds, prev).value;
    ReadIdsWritten(gs, ds, prev);
    GapsIncreasing(ids, prev);
    assert forall k :: 0 <= k < |ds| ==> ds[k] == Gaps(ids, prev)[k];
  }

  lemma {:induction false} ReadIdsWritten(gs: seq<seq<int>>, ds: seq<int>, prev: int)
    requires ReadIds(gs, ds, prev).Success?
    ensures Gaps(ReadIds(gs, ds, prev).value, prev) == ds
    decreases |ds|
  {
    if |ds| > 0 {
      var id := prev + ds[0] + 1;
      var rest := ReadIds(gs, ds[1..], id).value;
      ReadIdsWritten(gs, ds[1..], id);
      var ids := [id] + rest;
      assert ReadIds(gs, ds, prev).value == ids;
      assert ids[1..] == rest;
      assert Gaps(ids, prev) == [ds[0]] + ds[1..];
    }
  }

  /** Gap k is id k less the id before it (prev for the first), less one. */
  lemma {:induction false} GapAt(ids: seq<int>, prev: int, k: nat)
    requires k < |ids|
    ensures Gaps(ids, prev)[k] == ids[k] - (if k == 0 then prev else ids[k - 1]) - 1
    decreases k
  {
    if k > 0 {
      GapAt(ids[1..], ids[0], k - 1);
      assert Gaps(ids, prev)[k] == Gaps(ids[1..], ids[0])[k - 1];
    }
  }

  /** Ids increase exactly when none of their gaps is negative. */
  lemma {:induction false} GapsIncreasing(ids: seq<int>, prev: int)
    ensures Increasing(ids, prev) <==> forall k :: 0 <= k < |ids| ==> Gaps(ids, prev)[k] >= 0
  {
    forall k | 0 <= k < |ids|
      ensures Gaps(ids, prev)[k] == ids[k] - (if k == 0 then prev else ids[k - 1]) - 1
    {
      GapAt(ids, prev, k);
    }
    if forall k :: 0 <= k < |ids| ==> Gaps(ids, prev)[k] >= 0 {
      forall i | 0 < i < |ids|
        ensures ids[i - 1] < ids[i]
      {
        assert Gaps(ids, prev)[i] >= 0;
      }
      if |ids| > 0 {
        assert Gaps(ids, prev)[0] >= 0;
      }
    }
    if Increasing(ids, prev) {
      forall k | 0 <= k < |ids|
        ensures Gaps(ids, prev)[k] >= 0
      {
        if k > 0 {
          assert ids[k - 1] < ids[k];
        }
      }
    }
  }

  /** The context read from a total, a count and the gaps of ids that name
      stacks holds exactly those ids, all at the root. */
  lemma {:induction false} NewRoundTrip(gs: seq<seq<int>>, pre: seq<int>, total: int, ids: seq<int>, rest: seq<int>)
    requires total != 0 && AllIn(ids, 1, |gs|)
    ensures New(pre + [total, |ids|] + Gaps(ids, 0) + rest, gs, |pre|)
            == Success(Ctx(Somes(ids), seq(|ids|, _ => []), map[[] := total], map[], 0,
                           MaxLevel(gs, ids, 0), |pre| + 2 + |ids|))
  {
    var head := pre + [total, |ids|];
    var toks := head + Gaps(ids, 0) + rest;
    assert DataBuffer.Tok(toks, |pre|) == total;
    assert DataBuffer.Tok(toks, |pre| + 1) == |ids|;
    WindowOf(head, Gaps(ids, 0), rest);
    GapsRoundTrip(gs, ids, 0);
  }

  /** The window over values written after head is what was written. */
  lemma {:induction false} WindowOf(head: seq<int>, e: seq<int>, rest: seq<int>)
    ensures Window(head + e + rest, |head|, |e|) == e
  {
    var toks := head + e + rest;
    forall k | 0 <= k < |e|
      ensures Window(toks, |head|, |e|)[k] == e[k]
    {
      assert Window(toks, |head|, |e|)[k] == DataBuffer.Tok(toks, |head| + k);
      assert toks[|head| + k] == e[k];
    }
  }

  // ---- trim ----

  /** The live entries of ids, paired with their leafs, in order. */
  function Kept(ids: seq<Option<int>>, leafs: seq<Path>): (seq<Option<int>>, seq<Path>)
    requires |ids| == |leafs|
    decreases |ids|
  {
    if |ids| == 0 then ([], [])
    else
      var r := Kept(ids[..|ids| - 1], leafs[..|ids| - 1]);
      if ids[|ids| - 1].Some? then (r.0 + [ids[|ids| - 1]], r.1 + [leafs[|ids| - 1]]) else r
  }

  /** The positions of the live entries, in increasing order. */
  function Live(ids: seq<Option<int>>): seq<int>
    decreases |ids|
  {
    if |ids| == 0 then []
    else Live(ids[..|ids| - 1]) + (if ids[|ids| - 1].Some? then [|ids| - 1] else [])
  }

  /** The null entries. */
  function Nulls(ids: seq<Option<int>>): nat
    decreases |ids|
  {
    if |ids| == 0 then 0 else Nulls(ids[..|ids| - 1]) + (if ids[|ids| - 1].None? then 1 else 0)
  }

  /** `trim()` keeps entry i exactly when it is live, pairs every kept id with
      its own leaf, keeps the order, and leaves one entry per live id. */
  lemma {:induction false} KeptMeaning(ids: seq<Option<int>>, leafs: seq<Path>)
    requires |ids| == |leafs|
    ensures var k, live := Kept(ids, leafs), Live(ids);
            |k.0| == |live| && |k.1| == |live| && |live| == |ids| - Nulls(ids)
            && (forall j :: 0 <= j < |live| ==>
                  0 <= live[j] < |ids| && ids[live[j]].Some? && k.0[j] == ids[live[j]] && k.1[j] == leafs[live[j]])
            && (forall j, j' :: 0 <= j < j' < |live| ==> live[j] < live[j'])
            && (forall i :: 0 <= i < |ids| && ids[i].Some? ==> i in live)
  {
    KeptHolds(ids, leafs);
  }

  /** k and live are what `trim()` keeps of ids and leafs, and where from. */
  predicate TrimmedTo(ids: seq<Option<int>>, leafs: seq<Path>, k: (seq<Option<int>>, seq<Path>), live: seq<int>)
    requires |ids| == |leafs|
  {
    |k.0| == |live| && |k.1| == |live| && |live| == |ids| - Nulls(ids)
    && (forall j :: 0 <= j < |live| ==>
          0 <= live[j] < |ids| && ids[live[j]].Some? && k.0[j] == ids[live[j]] && k.1[j] == leafs[live[j]])
    && (forall j, j' :: 0 <= j < j' < |live| ==> live[j] < live[j'])
    && (forall i :: 0 <= i < |ids| && ids[i].Some? ==> i in live)
  }

  lemma {:induction false} KeptHolds(ids: seq<Option<int>>, leafs: seq<Path>)
    requires |ids| == |leafs|
    ensures TrimmedTo(ids, leafs, Kept(ids, leafs), Live(ids))
    decreases |ids|
  {
    if |ids| > 0 {
      var n := |ids| - 1;
      var k, live := Kept(ids[..n], leafs[..n]), Live(ids[..n]);
      KeptHolds(ids[..n], leafs[..n]);
      if ids[n].Some? {
        assert Kept(ids, leafs) == (k.0 + [ids[n]], k.1 + [leafs[n]]);
        assert Live(ids) == live + [n];
        KeptSome(ids, leafs, n, k, live);
      } else {
        assert Kept(ids, leafs) == k && Live(ids) == live;
        KeptNone(ids, leafs, n, k, live);
      }
    } else {
      assert Kept(ids, leafs) == ([], []) && Live(ids) == [];
    }
  }

  lemma {:induction false} KeptSome(ids: seq<Option<int>>, leafs: seq<Path>, n: nat,
                                    k: (seq<Option<int>>, seq<Path>), live: seq<int>)
    requires |ids| == |leafs| == n + 1 && ids[n].Some? && TrimmedTo(ids[..n], leafs[..n], k, live)
    ensures TrimmedTo(ids, leafs, (k.0 + [ids[n]], k.1 + [leafs[n]]), live + [n])
  {
    var p := ids[..n];
    assert Nulls(ids) == Nulls(p);
    var k', live' := (k.0 + [ids[n]], k.1 + [leafs[n]]), live + [n];
    forall j | 0 <= j < |live'|
      ensures 0 <= live'[j] < |ids| && ids[live'[j]].Some? && k'.0[j] == ids[live'[j]] && k'.1[j] == leafs[live'[j]]
    {
      if j < |live| {
        assert live'[j] == live[j] < n;
        assert p[live[j]] == ids[live[j]] && leafs[..n][live[j]] == leafs[live[j]];
      }
    }
    forall i | 0 <= i < |ids| && ids[i].Some?
      ensures i in live'
    {
      if i < n {
        assert p[i] == ids[i];
      }
    }
  }

  lemma {:induction false} KeptNone(ids: seq<Option<int>>, leafs: seq<Path>, n: nat,
                                    k: (seq<Option<int>>, seq<Path>), live: seq<int>)
    requires |ids| == |leafs| == n + 1 && ids[n].None? && TrimmedTo(ids[..n], leafs[..n], k, live)
    ensures TrimmedTo(ids, leafs, k, live)
  {
    var p := ids[..n];
    assert Nulls(ids) == Nulls(p) + 1;
    forall j | 0 <= j < |live|
      ensures ids[live[j]].Some? && k.0[j] == ids[live[j]] && k.1[j] == leafs[live[j]]
    {
      assert p[live[j]] == ids[live[j]] && leafs[..n][live[j]] == leafs[live[j]];
    }
    forall i | 0 <= i < |ids| && ids[i].Some?
      ensures i in live
    {
      assert p[i] == ids[i];
    }
  }

  /** The two-pointer loop of `trim()`: every live entry moves down to the
      next free slot, then both arrays are cut to the entries moved. */
  method Trim(ids: seq<Option<int>>, leafs: seq<Path>) returns (ids': seq<Option<int>>, leafs': seq<Path>)
    requires |ids| == |leafs|
    ensures (ids', leafs') == Kept(ids, leafs)
  {
    var a, b := ids, leafs;
    var left: nat := 0;
    for right := 0 to |ids|
      invariant |a| == |ids| && |b| == |leafs| && left <= right
      invariant a[right..] == ids[right..] && b[right..] == leafs[right..]
      invariant (a[..left], b[..left]) == Kept(ids[..right], leafs[..right])
    {
      a, b, left := TrimSlot(ids, leafs, a, b, left, right);
    }
    assert ids[..|ids|] == ids && leafs[..|leafs|] == leafs;
    ids', leafs' := a[..left], b[..left];
  }

  /** One turn of the loop in `trim()`: entry `right` moves down to `left`
      when it is live. */
  method TrimSlot(ids: seq<Option<int>>, leafs: seq<Path>, a: seq<Option<int>>, b: seq<Path>, left: nat, right: nat)
    returns (a': seq<Option<int>>, b': seq<Path>, left': nat)
    requires |a| == |ids| == |b| == |leafs| && left <= right < |ids|
    requires a[right..] == ids[right..] && b[right..] == leafs[right..]
    requires (a[..left], b[..left]) == Kept(ids[..right], leafs[..right])
    ensures |a'| == |ids| && |b'| == |leafs| && left' <= right + 1
    ensures a'[right + 1..] == ids[right + 1..] && b'[right + 1..] == leafs[right + 1..]
    ensures (a'[..left'], b'[..left']) == Kept(ids[..right + 1], leafs[..right + 1])
  {
    KeptAppend(ids, leafs, right);
    assert a[right] == a[right..][0] == ids[right] && b[right] == b[right..][0] == leafs[right];
    assert a[right + 1..] == a[right..][1..] && ids[right + 1..] == ids[right..][1..];
    assert b[right + 1..] == b[right..][1..] && leafs[right + 1..] == leafs[right..][1..];
    if a[right] != None {
      a' := a[left := a[right]];
      b' := b[left := b[right]];
      assert a'[..left + 1] == a[..left] + [ids[right]];
      assert b'[..left + 1] == b[..left] + [leafs[right]];
      assert a'[right + 1..] == a[right + 1..] && b'[right + 1..] == b[right + 1..];
      left' := left + 1;
    } else {
      a', b', left' := a, b, left;
    }
  }

  /** Kept over one more entry. */
  lemma {:induction false} KeptAppend(ids: seq<Option<int>>, leafs: seq<Path>, n: nat)
    requires |ids| == |leafs| && n < |ids|
    ensures var k := Kept(ids[..n], leafs[..n]);
            Kept(ids[..n + 1], leafs[..n + 1])
            == if ids[n].Some? then (k.0 + [ids[n]], k.1 + [leafs[n]]) else k
  {
    assert ids[..n + 1][..n] == ids[..n];
    assert leafs[..n + 1][..n] == leafs[..n];
  }

  // ---- loadIteration ----

  /** How many times m has been visited: `methodsCount.get(m)`, 0 for
      undefined. */
  function Visits(counts: map<int, int>, m: int): int
  {
    if m in counts then counts[m] else 0
  }

  /** The stack of a live entry. */
  function StackOf(c: Ctx, gs: seq<seq<int>>, i: int): seq<int>
    requires IdsOk(c, gs) && 0 <= i < |c.stackIds| && c.stackIds[i].Some?
  {
    gs[c.stackIds[i].value - 1]
  }

  /** `loadIteration(i)`: true when entry i is finished. A null entry, or
      one whose stack is no longer than the level, is finished already.
      Otherwise the method at this level is counted; the leaf moves to the
      child for it when that exists. A new child reads its total; a total
      of 1 means no other stack passes through it, so the rest of the stack
      is laid out under it at once and the entry is finished. */
  function LoadIteration(toks: seq<int>, gs: seq<seq<int>>, c: Ctx, i: int): (r: (bool, Ctx))
    requires IdsOk(c, gs) && 0 <= i < |c.stackIds|
    ensures r.1.stackIds == c.stackIds && |r.1.leafs| == |c.leafs| && r.1.level == c.level
  {
    match c.stackIds[i]
    case None => (true, c)
    case Some(id) =>
      var stack := gs[id - 1];
      if c.level >= |stack| then (true, c)
      else
        var m := stack[c.level];
        var counts := c.counts[m := if m in c.counts then c.counts[m] + 1 else 1];
        var next := c.leafs[i] + [m];
        if next in c.tree then (false, c.(counts := counts, leafs := c.leafs[i := next]))
        else
          var total := DataBuffer.Tok(toks, c.at);
          var tree := c.tree[next := total];
          if total == 1 then
            (true, c.(counts := counts, tree := Chain(tree, next, stack[c.level + 1..], total), at := c.at + 1))
          else (false, c.(counts := counts, tree := tree, leafs := c.leafs[i := next], at := c.at + 1))
  }

  /** The node a live entry moves to is the stack's first level + 1 methods,
      and it hangs off the entry's leaf. */
  lemma {:induction false} NextNode(c: Ctx, gs: seq<seq<int>>, i: int)
    requires IdsOk(c, gs) && 0 <= i < |c.stackIds| && c.stackIds[i].Some? && AlignedAt(c, gs, i, c.level)
    requires c.level < |StackOf(c, gs, i)|
    ensures var next := c.leafs[i] + [StackOf(c, gs, i)[c.level]];
            next == StackOf(c, gs, i)[..c.level + 1] && next[..|next| - 1] == c.leafs[i]
  {
  }

  /** The tree stays rooted and only grows, the ids stay valid, and every
      other entry keeps its leaf. */
  lemma {:induction false} IterationKeeps(toks: seq<int>, gs: seq<seq<int>>, c: Ctx, i: int)
    requires IdsOk(c, gs) && PrefixClosed(c.tree) && 0 <= i < |c.stackIds| && AlignedAt(c, gs, i, c.level)
    ensures var r := LoadIteration(toks, gs, c, i).1;
            IdsOk(r, gs) && PrefixClosed(r.tree) && Grows(c.tree, r.tree)
            && forall j :: 0 <= j < |c.leafs| && j != i ==> r.leafs[j] == c.leafs[j]
  {
    if c.stackIds[i].Some? && c.level < |StackOf(c, gs, i)| {
      var stack := StackOf(c, gs, i);
      var next := c.leafs[i] + [stack[c.level]];
      NextNode(c, gs, i);
      if next !in c.tree {
        var total := DataBuffer.Tok(toks, c.at);
        FreshChild(c.tree, next, total);
        if total == 1 {
          ChainMeaning(c.tree[next := total], next, stack[c.level + 1..], total);
          GrowsTrans(c.tree, c.tree[next := total], Chain(c.tree[next := total], next, stack[c.level + 1..], total));
        }
      }
    }
  }

  /** An entry that goes on has moved one level down its stack, to a node
      in the tree. */
  lemma {:induction false} IterationAligned(toks: seq<int>, gs: seq<seq<int>>, c: Ctx, i: int)
    requires IdsOk(c, gs) && PrefixClosed(c.tree) && 0 <= i < |c.stackIds| && AlignedAt(c, gs, i, c.level)
    ensures var r := LoadIteration(toks, gs, c, i);
            !r.0 ==> IdsOk(r.1, gs) && AlignedAt(r.1, gs, i, c.level + 1)
  {
    IterationKeeps(toks, gs, c, i);
    if c.stackIds[i].Some? && c.level < |StackOf(c, gs, i)| {
      NextNode(c, gs, i);
    }
  }

  /** An entry is finished only when it is null or its whole stack is in
      the tree; when the stack still had methods at this level, it ends in
      a node with c = 1 that was laid out as a chain. */
  lemma {:induction false} IterationFinished(toks: seq<int>, gs: seq<seq<int>>, c: Ctx, i: int)
    requires IdsOk(c, gs) && PrefixClosed(c.tree) && 0 <= i < |c.stackIds| && AlignedAt(c, gs, i, c.level)
    ensures var r := LoadIteration(toks, gs, c, i);
            r.0 && c.stackIds[i].Some? ==>
              StackOf(c, gs, i) in r.1.tree
              && (c.level < |StackOf(c, gs, i)| ==> r.1.tree[StackOf(c, gs, i)] == 1)
  {
    if c.stackIds[i].Some? {
      var stack := StackOf(c, gs, i);
      if c.level < |stack| {
        var next := c.leafs[i] + [stack[c.level]];
        NextNode(c, gs, i);
        if next !in c.tree {
          var total := DataBuffer.Tok(toks, c.at);
          if total == 1 {
            FreshChild(c.tree, next, total);
            ChainMeaning(c.tree[next := total], next, stack[c.level + 1..], total);
            assert next + stack[c.level + 1..] == stack;
          }
        }
      } else {
        assert stack[..c.level] == stack;
      }
    }
  }

  /** The method at the level, when there is one, is counted once more and
      no other is; a finished entry counts nothing. */
  lemma {:induction false} IterationCounts(toks: seq<int>, gs: seq<seq<int>>, c: Ctx, i: int)
    requires IdsOk(c, gs) && 0 <= i < |c.stackIds|
    ensures var r := LoadIteration(toks, gs, c, i).1;
            if c.stackIds[i].Some? && c.level < |StackOf(c, gs, i)| then
              var m := StackOf(c, gs, i)[c.level];
              Visits(r.counts, m) == Visits(c.counts, m) + 1
              && forall x :: x != m ==> Visits(r.counts, x) == Visits(c.counts, x)
            else r.counts == c.counts
  {
  }

  // ---- loadLevel and load ----

  /** The loop of `loadLevel()` from entry i on, nulling every finished
      entry and counting them. */
  function LevelLoop(toks: seq<int>, gs: seq<seq<int>>, c: Ctx, i: nat, nulls: nat): (r: (Ctx, nat))
    requires IdsOk(c, gs) && i <= |c.stackIds|
    ensures IdsOk(r.0, gs) && |r.0.stackIds| == |c.stackIds| && r.0.level == c.level
    decreases |c.stackIds| - i
  {
    if i == |c.stackIds| then (c, nulls)
    else
      var st := StepOf(toks, gs, c, i);
      LevelLoop(toks, gs, st.0, i + 1, if st.1 then nulls + 1 else nulls)
  }

  /** The state after entry i's step, with the entry nulled when it is
      finished. */
  function StepOf(toks: seq<int>, gs: seq<seq<int>>, c: Ctx, i: int): (r: (Ctx, bool))
    requires IdsOk(c, gs) && 0 <= i < |c.stackIds|
    ensures IdsOk(r.0, gs) && |r.0.stackIds| == |c.stackIds| && r.0.level == c.level
  {
    var s := LoadIteration(toks, gs, c, i);
    if s.0 then (s.1.(stackIds := s.1.stackIds[i := None]), true) else (s.1, false)
  }

  /** `loadLevel()`: one pass over the entries, a `trim()` when more than
      half of them are null (`nullsCount > length / 2` with real division),
      and the next level. */
  function LoadLevel(toks: seq<int>, gs: seq<seq<int>>, c: Ctx): (r: Ctx)
    requires IdsOk(c, gs)
  {
    var d := LevelLoop(toks, gs, c, 0, 0);
    var e := if 2 * d.1 > |d.0.stackIds| then
               var k := Kept(d.0.stackIds, d.0.leafs); d.0.(stackIds := k.0, leafs := k.1)
             else d.0;
    e.(level := c.level + 1)
  }

  /** One step of the loop keeps the entries before i at the next level,
      brings entry i there (or nulls it) and leaves the rest where they
      were. */
  lemma {:induction false} StepAligned(toks: seq<int>, gs: seq<seq<int>>, c: Ctx, i: int, lvl: int)
    requires IdsOk(c, gs) && PrefixClosed(c.tree) && 0 <= i < |c.stackIds| && lvl == c.level
    requires AlignedIn(c, gs, 0, i, lvl + 1) && AlignedIn(c, gs, i, |c.stackIds|, lvl)
    ensures var d := StepOf(toks, gs, c, i).0;
            PrefixClosed(d.tree) && Grows(c.tree, d.tree)
            && AlignedIn(d, gs, 0, i + 1, lvl + 1) && AlignedIn(d, gs, i + 1, |c.stackIds|, lvl)
            && d.stackIds == c.stackIds[i := d.stackIds[i]]
            && (d.stackIds[i].None? || d.stackIds[i] == c.stackIds[i])
            && (StepOf(toks, gs, c, i).1 <==> d.stackIds[i].None?)
  {
    assert AlignedAt(c, gs, i, lvl);
    IterationKeeps(toks, gs, c, i);
    IterationAligned(toks, gs, c, i);
    var d := StepOf(toks, gs, c, i).0;
    var next := lvl + 1;
    forall j | 0 <= j < i
      ensures AlignedAt(d, gs, j, next)
    {
      AlignedKept(c, d, gs, j, next);
    }
    forall j | i + 1 <= j < |c.stackIds|
      ensures AlignedAt(d, gs, j, lvl)
    {
      AlignedKept(c, d, gs, j, lvl);
    }
  }

  /** An entry that kept its id and leaf stays aligned as the tree grows. */
  lemma {:induction false} AlignedKept(c: Ctx, d: Ctx, gs: seq<seq<int>>, j: int, lvl: int)
    requires IdsOk(c, gs) && IdsOk(d, gs) && 0 <= j < |c.stackIds| == |d.stackIds|
    requires d.stackIds[j] == c.stackIds[j] && d.leafs[j] == c.leafs[j]
    requires Grows(c.tree, d.tree) && AlignedAt(c, gs, j, lvl)
    ensures AlignedAt(d, gs, j, lvl)
  {
  }

  /** Alignment does not depend on the level field. */
  lemma {:induction false} Relevel(c: Ctx, gs: seq<seq<int>>, lvl: int, l: nat)
    requires IdsOk(c, gs) && AlignedIn(c, gs, 0, |c.stackIds|, lvl)
    ensures IdsOk(c.(level := l), gs) && AlignedIn(c.(level := l), gs, 0, |c.stackIds|, lvl)
  {
    forall j | 0 <= j < |c.stackIds|
      ensures AlignedAt(c.(level := l), gs, j, lvl)
    {
      assert AlignedAt(c, gs, j, lvl);
    }
  }

  /** The loop leaves the entries before i alone, moves every live entry from
      i on one level down or nulls it, keeps the tree growing, and counts
      exactly the nulls from i on. */
  lemma {:induction false} LevelLoopMeaning(toks: seq<int>, gs: seq<seq<int>>, c: Ctx, i: nat, nulls: nat)
    requires IdsOk(c, gs) && PrefixClosed(c.tree) && i <= |c.stackIds|
    requires AlignedIn(c, gs, 0, i, c.level + 1) && AlignedIn(c, gs, i, |c.stackIds|, c.level)
    ensures var r := LevelLoop(toks, gs, c, i, nulls);
            PrefixClosed(r.0.tree) && Grows(c.tree, r.0.tree)
            && AlignedIn(r.0, gs, 0, |c.stackIds|, c.level + 1)
            && r.0.stackIds[..i] == c.stackIds[..i]
            && (forall j :: i <= j < |c.stackIds| ==> r.0.stackIds[j].None? || r.0.stackIds[j] == c.stackIds[j])
            && r.1 == nulls + Nulls(r.0.stackIds[i..])
  {
    LevelLoopHolds(toks, gs, c, i, nulls);
  }

  /** What the loop from entry i on leaves behind: r grows c's tree, every
      entry has reached the next level, and the nulls from i on are counted. */
  ghost predicate LoopDone(gs: seq<seq<int>>, c: Ctx, r: (Ctx, nat), i: nat, nulls: nat)
    requires IdsOk(c, gs) && IdsOk(r.0, gs) && i <= |c.stackIds| == |r.0.stackIds|
  {
    PrefixClosed(r.0.tree) && Grows(c.tree, r.0.tree)
    && AlignedIn(r.0, gs, 0, |c.stackIds|, c.level + 1)
    && r.0.stackIds[..i] == c.stackIds[..i]
    && (forall j :: i <= j < |c.stackIds| ==> r.0.stackIds[j].None? || r.0.stackIds[j] == c.stackIds[j])
    && r.1 == nulls + Nulls(r.0.stackIds[i..])
  }

  lemma {:induction false} LevelLoopHolds(toks: seq<int>, gs: seq<seq<int>>, c: Ctx, i: nat, nulls: nat)
    requires IdsOk(c, gs) && PrefixClosed(c.tree) && i <= |c.stackIds|
    requires AlignedIn(c, gs, 0, i, c.level + 1) && AlignedIn(c, gs, i, |c.stackIds|, c.level)
    ensures LoopDone(gs, c, LevelLoop(toks, gs, c, i, nulls), i, nulls)
    decreases |c.stackIds| - i
  {
    if i < |c.stackIds| {
      var st := StepOf(toks, gs, c, i);
      var d := st.0;
      var nulls' := if st.1 then nulls + 1 else nulls;
      StepAligned(toks, gs, c, i, c.level);
      LevelLoopHolds(toks, gs, d, i + 1, nulls');
      var r := LevelLoop(toks, gs, d, i + 1, nulls');
      assert LevelLoop(toks, gs, c, i, nulls) == r;
      LevelLoopStep(gs, c, d, r, i, nulls, st.1, nulls');
    } else {
      assert c.stackIds[i..] == [];
    }
  }

  /** One entry's step followed by the rest of the loop. */
  lemma {:induction false} LevelLoopStep(gs: seq<seq<int>>, c: Ctx, d: Ctx, r: (Ctx, nat), i: nat,
                                         nulls: nat, nulled: bool, nulls': nat)
    requires IdsOk(c, gs) && IdsOk(d, gs) && IdsOk(r.0, gs)
    requires i < |c.stackIds| == |d.stackIds| == |r.0.stackIds| && d.level == c.level
    requires Grows(c.tree, d.tree) && d.stackIds == c.stackIds[i := d.stackIds[i]]
    requires d.stackIds[i].None? || d.stackIds[i] == c.stackIds[i]
    requires (nulled <==> d.stackIds[i].None?) && nulls' == if nulled then nulls + 1 else nulls
    requires LoopDone(gs, d, r, i + 1, nulls')
    ensures LoopDone(gs, c, r, i, nulls)
  {
    GrowsTrans(c.tree, d.tree, r.0.tree);
    LoopIds(c.stackIds, d.stackIds, r.0.stackIds, i);
    NullsFront(r.0.stackIds[i..]);
    assert r.0.stackIds[i..][1..] == r.0.stackIds[i + 1..];
    assert r.0.stackIds[i..][0] == r.0.stackIds[i] == d.stackIds[i];
  }

  /** The bookkeeping of ids in LevelLoopMeaning: a step that changes only
      slot i, followed by a loop that keeps slots up to i. */
  lemma {:induction false} LoopIds(a: seq<Option<int>>, b: seq<Option<int>>, r: seq<Option<int>>, i: int)
    requires 0 <= i < |a| == |b| == |r| && b == a[i := b[i]] && (b[i].None? || b[i] == a[i])
    requires r[..i + 1] == b[..i + 1]
    requires forall j :: i + 1 <= j < |b| ==> r[j].None? || r[j] == b[j]
    ensures r[..i] == a[..i] && r[i] == b[i]
    ensures forall j :: i <= j < |a| ==> r[j].None? || r[j] == a[j]
  {
    assert r[..i] == r[..i + 1][..i];
    assert r[i] == r[..i + 1][i];
  }

  /** Nulls counted from the front. */
  lemma {:induction false} NullsFront(ids: seq<Option<int>>)
    requires |ids| > 0
    ensures Nulls(ids) == (if ids[0].None? then 1 else 0) + Nulls(ids[1..])
    decreases |ids|
  {
    if |ids| > 1 {
      var n := |ids| - 1;
      NullsFront(ids[..n]);
      assert ids[..n][1..] == ids[1..][..n - 1];
      assert ids[..n][0] == ids[0];
    } else {
      assert ids[..0] == [] && ids[1..] == [];
    }
  }

  /** A `trim()` of entries that have all reached a level keeps them there
      and leaves no null entry. */
  lemma {:induction false} TrimAligned(d: Ctx, gs: seq<seq<int>>, lvl: int)
    requires IdsOk(d, gs) && AlignedIn(d, gs, 0, |d.stackIds|, lvl)
    ensures var k := Kept(d.stackIds, d.leafs);
            var e := d.(stackIds := k.0, leafs := k.1);
            IdsOk(e, gs) && AlignedIn(e, gs, 0, |e.stackIds|, lvl)
            && |e.stackIds| == |d.stackIds| - Nulls(d.stackIds)
            && forall j :: 0 <= j < |e.stackIds| ==> e.stackIds[j].Some?
  {
    KeptMeaning(d.stackIds, d.leafs);
    var k := Kept(d.stackIds, d.leafs);
    var e := d.(stackIds := k.0, leafs := k.1);
    var live := Live(d.stackIds);
    forall j | 0 <= j < |e.stackIds|
      ensures AlignedAt(e, gs, j, lvl)
    {
      assert AlignedAt(d, gs, live[j], lvl);
    }
  }

  /** `loadLevel()` keeps the context valid one level down, never loses a
      node of the tree, and trims exactly when more than half of the
      entries are null after the pass, leaving no null entry. */
  lemma {:induction false} LoadLevelMeaning(toks: seq<int>, gs: seq<seq<int>>, c: Ctx)
    requires Valid(c, gs)
    ensures var r, d := LoadLevel(toks, gs, c), LevelLoop(toks, gs, c, 0, 0).0;
            Valid(r, gs) && r.level == c.level + 1 && Grows(c.tree, r.tree)
            && (2 * Nulls(d.stackIds) > |c.stackIds| ==>
                  |r.stackIds| == |c.stackIds| - Nulls(d.stackIds)
                  && forall j :: 0 <= j < |r.stackIds| ==> r.stackIds[j].Some?)
            && (2 * Nulls(d.stackIds) <= |c.stackIds| ==> r.stackIds == d.stackIds)
  {
    var d := LevelLoop(toks, gs, c, 0, 0);
    LevelLoopMeaning(toks, gs, c, 0, 0);
    assert d.0.stackIds[0..] == d.0.stackIds;
    if 2 * d.1 > |d.0.stackIds| {
      TrimAligned(d.0, gs, c.level + 1);
      var k := Kept(d.0.stackIds, d.0.leafs);
      Relevel(d.0.(stackIds := k.0, leafs := k.1), gs, c.level + 1, c.level + 1);
    } else {
      Relevel(d.0, gs, c.level + 1, c.level + 1);
    }
  }

  /** `load(maxLevel)`: levels until every stack is finished or the level
      passes maxLevel; whether stacks remain. */
  function Load(toks: seq<int>, gs: seq<seq<int>>, c: Ctx, maxLevel: int): (bool, Ctx)
    requires IdsOk(c, gs)
    decreases if c.level <= maxLevel then maxLevel - c.level + 1 else 0
  {
    if |c.stackIds| != 0 && maxLevel >= c.level then
      LoadLevelIds(toks, gs, c);
      Load(toks, gs, LoadLevel(toks, gs, c), maxLevel)
    else (|c.stackIds| != 0, c)
  }

  /** `loadLevel()` keeps both arrays one slot per stack and every id valid,
      which is what `load` needs to go on. */
  lemma {:induction false} LoadLevelIds(toks: seq<int>, gs: seq<seq<int>>, c: Ctx)
    requires IdsOk(c, gs)
    ensures IdsOk(LoadLevel(toks, gs, c), gs) && LoadLevel(toks, gs, c).level == c.level + 1
  {
    var d := LevelLoop(toks, gs, c, 0, 0);
    if 2 * d.1 > |d.0.stackIds| {
      KeptMeaning(d.0.stackIds, d.0.leafs);
    }
  }

  /** `load` keeps the context valid and the tree growing; it answers
      whether stacks remain, and when some do the level has passed maxLevel. */
  lemma {:induction false} LoadMeaning(toks: seq<int>, gs: seq<seq<int>>, c: Ctx, maxLevel: int)
    requires Valid(c, gs)
    ensures var r := Load(toks, gs, c, maxLevel);
            Valid(r.1, gs) && Grows(c.tree, r.1.tree) && r.1.level >= c.level
            && r.0 == (|r.1.stackIds| != 0) && (r.0 ==> r.1.level > maxLevel)
    decreases if c.level <= maxLevel then maxLevel - c.level + 1 else 0
  {
    if |c.stackIds| != 0 && maxLevel >= c.level {
      LoadLevelMeaning(toks, gs, c);
      LoadMeaning(toks, gs, LoadLevel(toks, gs, c), maxLevel);
      GrowsTrans(c.tree, LoadLevel(toks, gs, c).tree, Load(toks, gs, c, maxLevel).1.tree);
    }
  }
}
