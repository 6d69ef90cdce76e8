/** The heat map viewer's call tree (`Frame`, `Root` in heatmap.js): sample
    values summed along stack paths, and trees merged node by node. */
module CallTree {
  import opened Common
  import GlobalTree

  /** A call tree node: the method, its own and its inclusive value, and its
      children; `children` is a JavaScript object keyed by method index,
      kept here as a sequence in creation order. */
  datatype Node = Node(methodIndex: int, self: int, total: int, kids: seq<Node>)

  /** A node `new Frame(methodIndex)`. */
  function Fresh(m: int): Node
  {
    Node(m, 0, 0, [])
  }

  /** `new Root()`: a fresh node of method -1. */
  function Root(): Node
  {
    Fresh(-1)
  }

  /** The methods of the children, in order. */
  function Methods(kids: seq<Node>): (r: seq<int>)
    ensures |r| == |kids| && forall j :: 0 <= j < |kids| ==> r[j] == kids[j].methodIndex
  {
    seq(|kids|, j requires 0 <= j < |kids| => kids[j].methodIndex)
  }

  /** The first position of m in ms, or -1. */
  function Find(ms: seq<int>, m: int): (r: int)
    ensures -1 <= r < |ms|
    ensures r == -1 <==> forall j :: 0 <= j < |ms| ==> ms[j] != m
    ensures r != -1 ==> ms[r] == m && forall j :: 0 <= j < r ==> ms[j] != m
  {
    if |ms| == 0 then -1
    else
      var i := Find(ms[..|ms| - 1], m);
      if i != -1 then i
      else if ms[|ms| - 1] == m then |ms| - 1
      else -1
  }

  /** The child of method m, as the object lookup finds it: the first kid
      with that method, or -1. */
  function KidIndex(kids: seq<Node>, m: int): (r: int)
    ensures -1 <= r < |kids|
    ensures r == -1 <==> forall j :: 0 <= j < |kids| ==> kids[j].methodIndex != m
    ensures r != -1 ==> kids[r].methodIndex == m && forall j :: 0 <= j < r ==> kids[j].methodIndex != m
  {
    Find(Methods(kids), m)
  }

  /** Children carry distinct methods, at every level: the shape a keyed
      object gives. */
  predicate Wf(n: Node)
    decreases n, 1
  {
    KidsWf(n.kids)
  }

  predicate KidsWf(kids: seq<Node>)
    decreases kids, 0
  {
    (forall i, j :: 0 <= i < j < |kids| ==> kids[i].methodIndex != kids[j].methodIndex)
    && forall i :: 0 <= i < |kids| ==> Wf(kids[i])
  }

  /** `nextChild(methodIndex)`: the children with a child of that method,
      created fresh at the end when missing, and its position. */
  function NextChild(kids: seq<Node>, m: int): (r: (seq<Node>, nat))
    ensures r.1 < |r.0| && r.0[r.1].methodIndex == m
    ensures KidIndex(kids, m) != -1 ==> r == (kids, KidIndex(kids, m))
    ensures KidIndex(kids, m) == -1 ==> r == (kids + [Fresh(m)], |kids|)
  {
    var i := KidIndex(kids, m);
    if i != -1 then (kids, i) else (kids + [Fresh(m)], |kids|)
  }

  // ---- What a tree says about a path ----

  datatype Kind = Self | Total

  function Field(n: Node, k: Kind): int
  {
    if k == Self then n.self else n.total
  }

  /** The self or total value the tree holds for the call path q from n, 0
      when the path is not in the tree. */
  function Stat(n: Node, q: seq<int>, k: Kind): int
    decreases |q|
  {
    if |q| == 0 then Field(n, k)
    else
      var i := KidIndex(n.kids, q[0]);
      if i == -1 then 0 else Stat(n.kids[i], q[1..], k)
  }

  /** A fresh node holds nothing on any path. */
  lemma {:induction false} FreshStat(m: int, q: seq<int>, k: Kind)
    ensures Stat(Fresh(m), q, k) == 0
  {
  }

  predicate IsPrefix(q: seq<int>, p: seq<int>)
  {
    |q| <= |p| && p[..|q|] == q
  }

  /** Paths with the same first method are related as their tails are. */
  lemma {:induction false} PrefixCons(q: seq<int>, p: seq<int>)
    requires |q| > 0 && |p| > 0 && q[0] == p[0]
    ensures IsPrefix(q, p) <==> IsPrefix(q[1..], p[1..])
    ensures q == p <==> q[1..] == p[1..]
  {
    if IsPrefix(q[1..], p[1..]) {
      assert p[..|q|] == [p[0]] + p[1..][..|q| - 1];
      assert q == [q[0]] + q[1..];
    }
    if IsPrefix(q, p) {
      assert p[1..][..|q| - 1] == p[..|q|][1..];
    }
    if q[1..] == p[1..] {
      assert q == [q[0]] + q[1..] && p == [p[0]] + p[1..];
    }
  }

  /** Lookups only see methods, so changing a kid into one of the same
      method, or adding a kid of another method, moves no child. */
  lemma {:induction false} KidIndexUpdate(kids: seq<Node>, i: nat, x: Node, m: int)
    requires i < |kids| && x.methodIndex == kids[i].methodIndex
    ensures KidIndex(kids[i := x], m) == KidIndex(kids, m)
  {
    assert Methods(kids[i := x]) == Methods(kids);
  }

  lemma {:induction false} KidIndexAppend(kids: seq<Node>, x: Node, m: int)
    requires x.methodIndex != m || KidIndex(kids, m) != -1
    ensures KidIndex(kids + [x], m) == KidIndex(kids, m)
  {
    assert Methods(kids + [x])[..|kids|] == Methods(kids);
  }

  /** Looking up after `nextChild` and replacing the child by one of the
      same method: the child of m is at its position, the lookup of any
      other method is unchanged. */
  lemma {:induction false} NextChildLookup(kids: seq<Node>, m: int, x: Node, q0: int)
    requires x.methodIndex == m
    ensures var (ks, i) := NextChild(kids, m);
            var ks' := ks[i := x];
            KidIndex(ks', q0) == (if q0 == m then i else KidIndex(kids, q0))
  {
    var (ks, i) := NextChild(kids, m);
    KidIndexUpdate(ks, i, x, q0);
    if KidIndex(kids, m) == -1 {
      if q0 != m {
        KidIndexAppend(kids, Fresh(m), q0);
      }
    }
  }

  // ---- integralTraces ----

  /** One sample on the path p, root first: `total += value` on every frame
      passed, then `total` and `self` on the last. */
  function AddPath(n: Node, p: seq<int>, v: int): (r: Node)
    ensures r.methodIndex == n.methodIndex && r.total == n.total + v
    decreases |p|
  {
    if |p| == 0 then n.(self := n.self + v, total := n.total + v)
    else
      var (ks, i) := NextChild(n.kids, p[0]);
      n.(total := n.total + v, kids := ks[i := AddPath(ks[i], p[1..], v)])
  }

  /** A sample adds its value to the total of every path it passes and to
      the self value of its own path only. */
  lemma {:induction false} AddPathStat(n: Node, p: seq<int>, v: int, q: seq<int>, k: Kind)
    ensures Stat(AddPath(n, p, v), q, k)
         == Stat(n, q, k) + (if (k == Total && IsPrefix(q, p)) || q == p then v else 0)
    decreases |p|
  {
    var r := AddPath(n, p, v);
    if |p| > 0 && |q| > 0 {
      var (ks, i) := NextChild(n.kids, p[0]);
      var c := AddPath(ks[i], p[1..], v);
      assert r.kids == ks[i := c];
      NextChildLookup(n.kids, p[0], c, q[0]);
      if q[0] == p[0] {
        AddPathStat(ks[i], p[1..], v, q[1..], k);
        if KidIndex(n.kids, p[0]) == -1 {
          FreshStat(p[0], q[1..], k);
        }
        PrefixCons(q, p);
      } else {
        assert !IsPrefix(q, p);
        var j := KidIndex(n.kids, q[0]);
        if j != -1 {
          assert r.kids[j] == n.kids[j];
        }
      }
    } else if |p| == 0 && |q| > 0 {
      assert !IsPrefix(q, p);
    }
  }

  /** Sum of the kids' totals. */
  function KidsTotal(kids: seq<Node>): int
  {
    if |kids| == 0 then 0 else KidsTotal(kids[..|kids| - 1]) + kids[|kids| - 1].total
  }

  lemma {:induction false} KidsTotalUpdate(kids: seq<Node>, i: nat, x: Node)
    requires i < |kids|
    ensures KidsTotal(kids[i := x]) == KidsTotal(kids) - kids[i].total + x.total
    decreases |kids|
  {
    if i < |kids| - 1 {
      assert kids[i := x][..|kids| - 1] == kids[..|kids| - 1][i := x];
      KidsTotalUpdate(kids[..|kids| - 1], i, x);
    } else {
      assert kids[i := x][..|kids| - 1] == kids[..|kids| - 1];
    }
  }

  /** `total = self + Σ child.total`, at every node. */
  predicate Balanced(n: Node)
    decreases n
  {
    n.total == n.self + KidsTotal(n.kids)
    && forall i :: 0 <= i < |n.kids| ==> Balanced(n.kids[i])
  }

  /** `nextChild` keeps the children's total and their balance. */
  lemma {:induction false} NextChildKeeps(kids: seq<Node>, m: int)
    requires forall i :: 0 <= i < |kids| ==> Balanced(kids[i])
    ensures var ks := NextChild(kids, m).0;
            KidsTotal(ks) == KidsTotal(kids) && forall i :: 0 <= i < |ks| ==> Balanced(ks[i])
  {
    if KidIndex(kids, m) == -1 {
      assert (kids + [Fresh(m)])[..|kids|] == kids;
    }
  }

  /** Adding a sample keeps every node balanced. */
  lemma {:induction false} AddPathBalanced(n: Node, p: seq<int>, v: int)
    requires Balanced(n)
    ensures Balanced(AddPath(n, p, v))
    decreases |p|
  {
    if |p| > 0 {
      var (ks, i) := NextChild(n.kids, p[0]);
      NextChildKeeps(n.kids, p[0]);
      var c := AddPath(ks[i], p[1..], v);
      AddPathBalanced(ks[i], p[1..], v);
      KidsTotalUpdate(ks, i, c);
      var r := AddPath(n, p, v);
      assert r.kids == ks[i := c];
      assert forall j :: 0 <= j < |r.kids| ==> Balanced(r.kids[j]) by {
        forall j | 0 <= j < |r.kids|
          ensures Balanced(r.kids[j])
        {
          if j != i {
            assert r.kids[j] == ks[j];
          }
        }
      }
    }
  }

  /** Adding a sample keeps the children's methods distinct. */
  lemma {:induction false} AddPathWf(n: Node, p: seq<int>, v: int)
    requires Wf(n)
    ensures Wf(AddPath(n, p, v))
    decreases |p|
  {
    if |p| > 0 {
      var (ks, i) := NextChild(n.kids, p[0]);
      var c := AddPath(ks[i], p[1..], v);
      AddPathWf(ks[i], p[1..], v);
      var r := AddPath(n, p, v);
      assert r.kids == ks[i := c];
      NextChildWf(n.kids, p[0]);
      assert forall j :: 0 <= j < |r.kids| ==> r.kids[j].methodIndex == ks[j].methodIndex;
    }
  }

  /** `nextChild` keeps the children distinct. */
  lemma {:induction false} NextChildWf(kids: seq<Node>, m: int)
    requires KidsWf(kids)
    ensures KidsWf(NextChild(kids, m).0)
  {
    var ks := NextChild(kids, m).0;
    if KidIndex(kids, m) == -1 {
      assert forall a :: 0 <= a < |kids| ==> ks[a] == kids[a];
    }
  }

  /** A sample: its path, root first, and its value. */
  datatype Sample = Sample(path: seq<int>, value: int)

  /** `integralTraces`: every sample added to a fresh root, in order. */
  function Traces(samples: seq<Sample>): (r: Node)
    ensures r.methodIndex == -1
  {
    if |samples| == 0 then Root()
    else
      var last := samples[|samples| - 1];
      AddPath(Traces(samples[..|samples| - 1]), last.path, last.value)
  }

  /** The sum of the values of the samples that pass q (Total) or end at q
      (Self). */
  function Weight(samples: seq<Sample>, q: seq<int>, k: Kind): int
  {
    if |samples| == 0 then 0
    else
      var last := samples[|samples| - 1];
      Weight(samples[..|samples| - 1], q, k)
      + (if (k == Total && IsPrefix(q, last.path)) || q == last.path then last.value else 0)
  }

  /** The tree of a sample list holds, on every path, the summed values of
      the samples through it (total) and ending at it (self), and it is
      balanced with distinct children. */
  lemma {:induction false} TracesStat(samples: seq<Sample>, q: seq<int>, k: Kind)
    ensures Stat(Traces(samples), q, k) == Weight(samples, q, k)
    ensures Balanced(Traces(samples)) && Wf(Traces(samples))
    decreases |samples|
  {
    if |samples| == 0 {
      FreshStat(-1, q, k);
    } else {
      var front := samples[..|samples| - 1];
      var last := samples[|samples| - 1];
      TracesStat(front, q, k);
      AddPathStat(Traces(front), last.path, last.value, q, k);
      AddPathBalanced(Traces(front), last.path, last.value);
      AddPathWf(Traces(front), last.path, last.value);
    }
  }

  /** The path of a sample in `integralTraces`: the methods met walking the
      decoded global tree down the stack's child positions, popped off a
      stack, so deepest first. */
  function SamplePath(g: GlobalTree.GFrame, ids: seq<int>): (r: Result<seq<int>>)
    ensures r.Success? ==> |r.value| == |ids|
  {
    var d := GlobalTree.Descend(g, ids);
    if d.Failure? then Failure(d.error) else Success(GlobalTree.Reverse(d.value))
  }

  // ---- combine ----

  /** `_combine(target, source)`: the source's self and total added to the
      target's, and each of its children merged into the target's child of
      the same method. */
  function Combine(t: Node, s: Node): (r: Node)
    ensures r.methodIndex == t.methodIndex
    ensures r.self == t.self + s.self && r.total == t.total + s.total
    decreases s, 1
  {
    Node(t.methodIndex, t.self + s.self, t.total + s.total, MergeKids(t.kids, s, 0))
  }

  /** The source's children from position j on merged into kids. */
  function MergeKids(kids: seq<Node>, s: Node, j: nat): seq<Node>
    decreases s, 0, |s.kids| - j
  {
    if j >= |s.kids| then kids else MergeKids(Merged(kids, s.kids[j]), s, j + 1)
  }

  /** One source child c merged: `_combine(target.nextChild(c.methodIndex), c)`. */
  function Merged(kids: seq<Node>, c: Node): seq<Node>
    decreases c, 2
  {
    var (ks, i) := NextChild(kids, c.methodIndex);
    ks[i := Combine(ks[i], c)]
  }

  /** What kids hold for a non-empty path. */
  function KidStat(kids: seq<Node>, q: seq<int>, k: Kind): int
    requires |q| > 0
  {
    var i := KidIndex(kids, q[0]);
    if i == -1 then 0 else Stat(kids[i], q[1..], k)
  }

  /** What the source's children from j on hold for a non-empty path. */
  function KidStatFrom(kids: seq<Node>, j: nat, q: seq<int>, k: Kind): int
    requires |q| > 0
  {
    var i := KidIndex(kids, q[0]);
    if i == -1 || i < j then 0 else Stat(kids[i], q[1..], k)
  }

  /** Merging adds the source's values path by path. */
  lemma {:induction false} CombineStat(t: Node, s: Node, q: seq<int>, k: Kind)
    requires Wf(s)
    ensures Stat(Combine(t, s), q, k) == Stat(t, q, k) + Stat(s, q, k)
    decreases s, 1
  {
    if |q| > 0 {
      MergeStat(t.kids, s, 0, q, k);
    }
  }

  lemma {:induction false} MergeStat(kids: seq<Node>, s: Node, j: nat, q: seq<int>, k: Kind)
    requires Wf(s) && |q| > 0
    ensures KidStat(MergeKids(kids, s, j), q, k) == KidStat(kids, q, k) + KidStatFrom(s.kids, j, q, k)
    decreases s, 0, |s.kids| - j
  {
    if j < |s.kids| {
      var m := Merged(kids, s.kids[j]);
      MergeStat(m, s, j + 1, q, k);
      MergeStatStep(kids, s, j, q, k, m);
    } else {
      FromEnd(s.kids, j, q, k);
    }
  }

  lemma FromEnd(kids: seq<Node>, j: nat, q: seq<int>, k: Kind)
    requires |q| > 0 && j >= |kids|
    ensures KidStatFrom(kids, j, q, k) == 0
  {
  }

  /** One step of MergeStat, given what the rest of the merge holds. */
  lemma {:induction false} MergeStatStep(kids: seq<Node>, s: Node, j: nat, q: seq<int>, k: Kind, m: seq<Node>)
    requires Wf(s) && |q| > 0 && j < |s.kids| && m == Merged(kids, s.kids[j])
    requires KidStat(MergeKids(m, s, j + 1), q, k) == KidStat(m, q, k) + KidStatFrom(s.kids, j + 1, q, k)
    ensures KidStat(MergeKids(kids, s, j), q, k) == KidStat(kids, q, k) + KidStatFrom(s.kids, j, q, k)
    decreases s, 0, 0
  {
    var c := s.kids[j];
    assert MergeKids(kids, s, j) == MergeKids(m, s, j + 1);
    assert Wf(c);
    MergeStep(kids, c, q, k);
    FromStep(s, j, q, k);
    MergeAddUp(KidStat(MergeKids(m, s, j + 1), q, k), KidStat(m, q, k), KidStat(kids, q, k),
               KidStatFrom(s.kids, j + 1, q, k), KidStatFrom(s.kids, j, q, k),
               if q[0] == c.methodIndex then Stat(c, q[1..], k) else 0);
  }

  lemma MergeAddUp(total: int, merged: int, before: int, rest: int, from: int, share: int)
    requires total == merged + rest && merged == before + share && from == share + rest
    ensures total == before + from
  {
  }

  /** One child of the source merged: the paths through it gain what the
      child holds, every other path is unchanged. */
  lemma {:induction false} MergeStep(kids: seq<Node>, c: Node, q: seq<int>, k: Kind)
    requires Wf(c) && |q| > 0
    ensures KidStat(Merged(kids, c), q, k)
         == KidStat(kids, q, k) + (if q[0] == c.methodIndex then Stat(c, q[1..], k) else 0)
    decreases c, 2
  {
    var m := c.methodIndex;
    var (ks, i) := NextChild(kids, m);
    var x := Combine(ks[i], c);
    NextChildLookup(kids, m, x, q[0]);
    assert Merged(kids, c) == ks[i := x];
    if q[0] == m {
      CombineStat(ks[i], c, q[1..], k);
      if KidIndex(kids, m) == -1 {
        FreshStat(m, q[1..], k);
      }
    } else {
      var a := KidIndex(kids, q[0]);
      if a != -1 {
        assert ks[i := x][a] == kids[a];
      }
    }
  }

  /** Distinct children: the child at j is the one its method finds, so
      what the children from j on hold is its share and the rest's. */
  lemma {:induction false} FromStep(s: Node, j: nat, q: seq<int>, k: Kind)
    requires Wf(s) && j < |s.kids| && |q| > 0
    ensures KidStatFrom(s.kids, j, q, k)
         == (if q[0] == s.kids[j].methodIndex then Stat(s.kids[j], q[1..], k) else 0)
            + KidStatFrom(s.kids, j + 1, q, k)
  {
    if q[0] == s.kids[j].methodIndex {
      assert KidIndex(s.kids, q[0]) == j;
    }
  }

  /** Merging adds the source's total to the children's. */
  lemma {:induction false} MergeTotal(kids: seq<Node>, s: Node, j: nat)
    requires j <= |s.kids|
    ensures KidsTotal(MergeKids(kids, s, j)) == KidsTotal(kids) + KidsTotal(s.kids) - KidsTotal(s.kids[..j])
    decreases |s.kids| - j
  {
    if j < |s.kids| {
      var c := s.kids[j];
      var (ks, i) := NextChild(kids, c.methodIndex);
      NextChildKeepsTotal(kids, c.methodIndex);
      KidsTotalUpdate(ks, i, Combine(ks[i], c));
      MergeTotal(Merged(kids, c), s, j + 1);
      assert s.kids[..j + 1][..j] == s.kids[..j];
    } else {
      assert s.kids[..j] == s.kids;
    }
  }

  lemma {:induction false} NextChildKeepsTotal(kids: seq<Node>, m: int)
    ensures KidsTotal(NextChild(kids, m).0) == KidsTotal(kids)
  {
    if KidIndex(kids, m) == -1 {
      assert (kids + [Fresh(m)])[..|kids|] == kids;
    }
  }

  /** Merging two balanced trees gives a balanced tree. */
  lemma {:induction false} CombineBalanced(t: Node, s: Node)
    requires Balanced(t) && Balanced(s)
    ensures Balanced(Combine(t, s))
    decreases s, 1
  {
    MergeTotal(t.kids, s, 0);
    MergeBalanced(t.kids, s, 0);
  }

  lemma {:induction false} MergeBalanced(kids: seq<Node>, s: Node, j: nat)
    requires Balanced(s) && forall i :: 0 <= i < |kids| ==> Balanced(kids[i])
    ensures var r := MergeKids(kids, s, j); forall i :: 0 <= i < |r| ==> Balanced(r[i])
    decreases s, 0, |s.kids| - j
  {
    if j < |s.kids| {
      var c := s.kids[j];
      var (ks, i) := NextChild(kids, c.methodIndex);
      NextChildKeeps(kids, c.methodIndex);
      var x := Combine(ks[i], c);
      CombineBalanced(ks[i], c);
      var ks' := ks[i := x];
      assert forall a :: 0 <= a < |ks'| ==> Balanced(ks'[a]) by {
        forall a | 0 <= a < |ks'|
          ensures Balanced(ks'[a])
        {
          if a != i {
            assert ks'[a] == ks[a];
          }
        }
      }
      assert Merged(kids, c) == ks';
      assert MergeKids(kids, s, j) == MergeKids(ks', s, j + 1);
      MergeBalanced(ks', s, j + 1);
    }
  }

  /** Merging keeps the target's children distinct. */
  lemma {:induction false} CombineWf(t: Node, s: Node)
    requires Wf(t)
    ensures Wf(Combine(t, s))
    decreases s, 1
  {
    MergeWf(t.kids, s, 0);
  }

  lemma {:induction false} MergeWf(kids: seq<Node>, s: Node, j: nat)
    requires KidsWf(kids)
    ensures KidsWf(MergeKids(kids, s, j))
    decreases s, 0, |s.kids| - j
  {
    if j < |s.kids| {
      var c := s.kids[j];
      var (ks, i) := NextChild(kids, c.methodIndex);
      var x := Combine(ks[i], c);
      NextChildWf(kids, c.methodIndex);
      CombineWf(ks[i], c);
      assert forall a :: 0 <= a < |ks| ==> ks[i := x][a].methodIndex == ks[a].methodIndex;
      assert Merged(kids, c) == ks[i := x];
      assert MergeKids(kids, s, j) == MergeKids(ks[i := x], s, j + 1);
      MergeWf(ks[i := x], s, j + 1);
    }
  }

  /** `combine(roots)`: every root merged, in order, into a fresh one. */
  function CombineAll(roots: seq<Node>): (r: Node)
    ensures r.methodIndex == -1
  {
    if |roots| == 0 then Root() else Combine(CombineAll(roots[..|roots| - 1]), roots[|roots| - 1])
  }

  function SumStat(roots: seq<Node>, q: seq<int>, k: Kind): int
  {
    if |roots| == 0 then 0 else SumStat(roots[..|roots| - 1], q, k) + Stat(roots[|roots| - 1], q, k)
  }

  predicate AllWf(roots: seq<Node>)
  {
    forall i :: 0 <= i < |roots| ==> Wf(roots[i])
  }

  /** The combined tree holds, on every path, the sum of what the roots hold,
      and is balanced when they all are. */
  lemma {:induction false} CombineAllStat(roots: seq<Node>, q: seq<int>, k: Kind)
    requires AllWf(roots)
    ensures Stat(CombineAll(roots), q, k) == SumStat(roots, q, k)
    decreases |roots|
  {
    if |roots| == 0 {
      FreshStat(-1, q, k);
    } else {
      CombineAllStat(roots[..|roots| - 1], q, k);
      CombineStat(CombineAll(roots[..|roots| - 1]), roots[|roots| - 1], q, k);
    }
  }

  lemma {:induction false} CombineAllBalanced(roots: seq<Node>)
    requires forall i :: 0 <= i < |roots| ==> Balanced(roots[i])
    ensures Balanced(CombineAll(roots))
    decreases |roots|
  {
    if |roots| > 0 {
      CombineAllBalanced(roots[..|roots| - 1]);
      CombineBalanced(CombineAll(roots[..|roots| - 1]), roots[|roots| - 1]);
    }
  }
}
