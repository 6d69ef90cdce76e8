/** The global stack tree, on both sides of the heatmap file.

    The converter interns every stack trace, leaf first, into a tree of
    `Heatmap.Frame`s: each frame maps a method index to a child frame in
    insertion order, and a child's `index` is its insertion position. A
    stack is then written as the child positions along its path, and the
    tree itself as (method, child count) tokens in the pre-order of
    `globalStacks`, which visits the children from the last inserted to
    the first. The viewer's `decodeGlobalStack` rebuilds the tree from those
    tokens as `GlobalFrame`s whose children array is filled from the end,
    so that `children[i]` is again the child inserted i-th. */
module GlobalTree {
  import opened Common
  import opened DataBuffer
  import DenseIndex
  import Lz78
  import Rle
  import Symbols

  type Token = Lz78.Token

  /** `Heatmap.Frame`: a linked hash map from method index to child frame
      (`keys[i]` maps to `kids[i]`, in insertion order) and its `index`. */
  datatype Frame = Frame(index: int, keys: seq<nat>, kids: seq<Frame>)

  /** The frames the converter builds: one child per distinct key, and every
      child's index is its insertion position. */
  predicate Wf(f: Frame)
    decreases f
  {
    |f.keys| == |f.kids| && NoDuplicates(f.keys)
    && (forall i :: 0 <= i < |f.kids| ==> f.kids[i].index == i)
    && (forall i :: 0 <= i < |f.kids| ==> Wf(f.kids[i]))
  }

  /** A fresh frame, as `new Frame(index)` creates it. */
  function Leaf(index: int): (f: Frame)
    ensures Wf(f) && f.index == index && |f.kids| == 0
  {
    Frame(index, [], [])
  }

  /** `Frame.child(method)`: the frame and the position of the child for the
      key, created as `new Frame(size())` at the end when missing, unless the
      frames are finished, which raises IllegalStateException. */
  function Child(f: Frame, key: nat, finish: bool): (r: Result<(Frame, nat)>)
    requires |f.keys| == |f.kids|
    ensures r.Failure? <==> finish && key !in f.keys
    ensures r.Failure? ==> r.error == IllegalState
    ensures r.Success? ==> r.value.1 < |r.value.0.kids| == |r.value.0.keys| && r.value.0.keys[r.value.1] == key
    ensures r.Success? ==> r.value.0.index == f.index
    ensures r.Success? && key in f.keys ==> r.value.0 == f
    ensures r.Success? && key !in f.keys ==>
              r.value.1 == |f.keys| && r.value.0.keys == f.keys + [key]
              && r.value.0.kids == f.kids + [Leaf(|f.kids|)]
  {
    if key in f.keys then Success((f, DenseIndex.Pos(f.keys, key)))
    else if finish then Failure(IllegalState)
    else Success((Frame(f.index, f.keys + [key], f.kids + [Leaf(|f.kids|)]), |f.keys|))
  }

  /** A child lookup keeps the frame well formed, and the child it hands out
      carries its position as its index. */
  lemma {:induction false} ChildKeepsWf(f: Frame, key: nat, finish: bool)
    requires Wf(f) && Child(f, key, finish).Success?
    ensures Wf(Child(f, key, finish).value.0)
    ensures Child(f, key, finish).value.0.kids[Child(f, key, finish).value.1].index
         == Child(f, key, finish).value.1
  {
    var g := Child(f, key, finish).value.0;
    if key !in f.keys {
      forall i | 0 <= i < |g.kids|
        ensures g.kids[i].index == i && Wf(g.kids[i])
      {
        if i < |f.kids| {
          assert g.kids[i] == f.kids[i];
        }
      }
      forall i, j | 0 <= i < j < |g.keys|
        ensures g.keys[i] != g.keys[j]
      {
        if j == |f.keys| {
          assert g.keys[i] == f.keys[i];
        }
      }
    }
  }

  /** Asking twice for the same child creates it at most once. */
  lemma {:induction false} ChildIdempotent(f: Frame, key: nat, finish: bool, finish': bool)
    requires |f.keys| == |f.kids| && NoDuplicates(f.keys) && Child(f, key, finish).Success?
    ensures Child(Child(f, key, finish).value.0, key, finish') == Child(f, key, finish)
  {
    var g := Child(f, key, finish).value.0;
    var i := Child(f, key, finish).value.1;
    if key !in f.keys {
      assert g.keys[i] == key;
      forall j | 0 <= j < |f.keys|
        ensures g.keys[j] != key
      {
        assert g.keys[j] == f.keys[j];
      }
      assert DenseIndex.Pos(g.keys, key) == i;
    }
  }

  /** The `Root.evaluate` step for one stack: walk the methods from the root
      frame, taking or creating the child of each. */
  function InsertPath(f: Frame, path: seq<nat>, finish: bool): (r: Result<Frame>)
    requires Wf(f)
    ensures r.Success? ==> Wf(r.value) && r.value.index == f.index
    ensures !finish ==> r.Success?
    decreases |path|
  {
    if |path| == 0 then Success(f)
    else
      var c := Child(f, path[0], finish);
      if c.Failure? then Failure(c.error)
      else
        ChildKeepsWf(f, path[0], finish);
        var g := c.value.0;
        var i := c.value.1;
        var sub := InsertPath(g.kids[i], path[1..], finish);
        if sub.Failure? then Failure(sub.error)
        else InsertWf(g, i, sub.value); Success(g.(kids := g.kids[i := sub.value]))
  }

  /** Replacing a child by a well-formed frame with the same index keeps a
      frame well formed. */
  lemma {:induction false} InsertWf(g: Frame, i: nat, k: Frame)
    requires Wf(g) && i < |g.kids| && Wf(k) && k.index == i
    ensures Wf(g.(kids := g.kids[i := k]))
  {
  }

  /** The stack walk of `Heatmap.stacks` once the frames are finished: the
      `index` of every child along the path, which is its position; a
      method with no child raises IllegalStateException. */
  function Follow(f: Frame, path: seq<nat>): (r: Result<seq<nat>>)
    requires Wf(f)
    ensures r.Success? ==> |r.value| == |path|
    decreases |path|
  {
    if |path| == 0 then Success([])
    else
      var c := Child(f, path[0], true);
      if c.Failure? then Failure(c.error)
      else
        var rest := Follow(f.kids[c.value.1], path[1..]);
        if rest.Failure? then Failure(rest.error) else Success([c.value.1] + rest.value)
  }

  /** Every stack interned while the frames were open can be written once
      they are finished. */
  lemma {:induction false} InsertThenFollow(f: Frame, path: seq<nat>)
    requires Wf(f)
    ensures Follow(InsertPath(f, path, false).value, path).Success?
    decreases |path|
  {
    if |path| > 0 {
      ChildKeepsWf(f, path[0], false);
      var c := Child(f, path[0], false).value;
      var g := InsertPath(f, path, false).value;
      var sub := InsertPath(c.0.kids[c.1], path[1..], false).value;
      assert g == c.0.(kids := c.0.kids[c.1 := sub]);
      InsertThenFollow(c.0.kids[c.1], path[1..]);
      assert path[0] in g.keys && g.keys[c.1] == path[0];
      assert DenseIndex.Pos(g.keys, path[0]) == c.1;
    }
  }

  /** Interning a stack keeps the child positions of every stack already
      present, because a linked hash map only appends. */
  lemma {:induction false} InsertKeepsFollow(f: Frame, p: seq<nat>, q: seq<nat>, ids: seq<nat>)
    requires Wf(f) && Follow(f, q) == Success(ids)
    ensures Follow(InsertPath(f, p, false).value, q) == Success(ids)
    decreases |p|
  {
    if |p| > 0 && |q| > 0 {
      ChildKeepsWf(f, p[0], false);
      var c := Child(f, p[0], false).value;
      var g := InsertPath(f, p, false).value;
      var sub := InsertPath(c.0.kids[c.1], p[1..], false).value;
      assert g == c.0.(kids := c.0.kids[c.1 := sub]);
      var j := DenseIndex.Pos(f.keys, q[0]);
      FollowStep(f, q, ids);
      assert g.keys[..|f.keys|] == f.keys;
      assert g.keys[j] == q[0];
      DenseIndex.PosOf(g.keys, j);
      if j == c.1 {
        InsertKeepsFollow(c.0.kids[c.1], p[1..], q[1..], ids[1..]);
      } else {
        assert g.kids[j] == f.kids[j];
      }
      FollowFrom(g, q, j, ids);
    }
  }

  /** The first step of a successful walk. */
  lemma {:induction false} FollowStep(f: Frame, q: seq<nat>, ids: seq<nat>)
    requires Wf(f) && |q| > 0 && Follow(f, q) == Success(ids)
    ensures q[0] in f.keys && ids[0] == DenseIndex.Pos(f.keys, q[0])
    ensures Follow(f.kids[ids[0]], q[1..]) == Success(ids[1..])
  {
  }

  /** A walk whose first key sits at position j continues in child j. */
  lemma {:induction false} FollowFrom(g: Frame, q: seq<nat>, j: nat, ids: seq<nat>)
    requires Wf(g) && |q| > 0 && |ids| > 0 && j == ids[0]
    requires j < |g.keys| && g.keys[j] == q[0] && DenseIndex.Pos(g.keys, q[0]) == j
    requires Follow(g.kids[j], q[1..]) == Success(ids[1..])
    ensures Follow(g, q) == Success(ids)
  {
    assert [ids[0]] + ids[1..] == ids;
  }

  // ---- The tree as tokens: `Heatmap.globalStacks` ----

  /** The tokens of a subtree entered under method m: the frame's own
      (method, child count) token, then its children from the last inserted
      to the first, each under its own key. */
  function Walk(f: Frame, m: nat): (ts: seq<Token>)
    requires Wf(f)
    ensures |ts| > 0 && ts[0] == Lz78.Token(m, |f.kids|)
    decreases f, 1
  {
    [Lz78.Token(m, |f.kids|)] + WalkKids(f, |f.kids|)
  }

  /** The tokens of children n-1 down to 0. */
  function WalkKids(f: Frame, n: nat): seq<Token>
    requires Wf(f) && n <= |f.kids|
    decreases f, 0, n
  {
    if n == 0 then [] else Walk(f.kids[n - 1], f.keys[n - 1]) + WalkKids(f, n - 1)
  }

  // ---- The viewer's tree: `GlobalFrame` ----

  /** `GlobalFrame`: a method index and the children array. */
  datatype GFrame = GFrame(methodIndex: int, children: seq<GFrame>)

  /** A `GlobalFrame` under construction: `new GlobalFrame(m, size)` makes an
      array of `size` holes and sets `index` to `size`. */
  datatype Slots = Slots(cells: seq<Option<GFrame>>, index: int)

  function NewSlots(size: nat): (s: Slots)
    ensures |s.cells| == s.index == size
  {
    Slots(seq(size, _ => None), size)
  }

  /** `append(frame)`: store into `children[--index]`. */
  function Append(s: Slots, g: GFrame): (r: Slots)
    requires 0 < s.index <= |s.cells|
    ensures |r.cells| == |s.cells| && r.index == s.index - 1
  {
    Slots(s.cells[s.index - 1 := Some(g)], s.index - 1)
  }

  /** Appending the frames in the order read. */
  function AppendAll(s: Slots, gs: seq<GFrame>): (r: Slots)
    requires |gs| <= s.index <= |s.cells|
    ensures |r.cells| == |s.cells| && r.index == s.index - |gs|
    decreases |gs|
  {
    if |gs| == 0 then s else AppendAll(Append(s, gs[0]), gs[1..])
  }

  function Reverse<T>(s: seq<T>): (r: seq<T>)
    ensures |r| == |s|
  {
    if |s| == 0 then [] else Reverse(s[1..]) + [s[0]]
  }

  /** Appending after the slots above `index` are filled fills the next
      ones down: the frame read j-th lands at `index - 1 - j`. */
  lemma {:induction false} AppendAllFills(s: Slots, gs: seq<GFrame>)
    requires |gs| <= s.index <= |s.cells|
    ensures AppendAll(s, gs).cells[..s.index - |gs|] == s.cells[..s.index - |gs|]
    ensures AppendAll(s, gs).cells[s.index - |gs|..s.index] == Somes(Reverse(gs))
    ensures AppendAll(s, gs).cells[s.index..] == s.cells[s.index..]
    decreases |gs|
  {
    if |gs| > 0 {
      var s1 := Append(s, gs[0]);
      AppendAllFills(s1, gs[1..]);
      var r := AppendAll(s, gs);
      var lo := s.index - |gs|;
      assert r == AppendAll(s1, gs[1..]);
      assert r.cells[lo..s.index] == r.cells[lo..s1.index] + r.cells[s1.index..s.index];
      assert r.cells[s1.index..s.index] == [Some(gs[0])] by {
        assert r.cells[s1.index..] == s1.cells[s1.index..];
      }
      assert Reverse(gs) == Reverse(gs[1..]) + [gs[0]];
      assert Somes(Reverse(gs)) == Somes(Reverse(gs[1..])) + [Some(gs[0])];
      assert r.cells[s.index..] == s1.cells[s.index..];
    }
  }

  /** After all `size` children are appended, every slot is set and the
      array holds the children in the reverse of the reading order. */
  lemma {:induction false} AppendAllReverses(gs: seq<GFrame>)
    ensures AppendAll(NewSlots(|gs|), gs).index == 0
    ensures AppendAll(NewSlots(|gs|), gs).cells == Somes(Reverse(gs))
  {
    AppendAllFills(NewSlots(|gs|), gs);
    var r := AppendAll(NewSlots(|gs|), gs);
    assert r.cells == r.cells[0..|gs|];
  }

  /** `decodeGlobalStack` after the leading flag, as a parse of the values
      the LZ78 reader hands out from position `pos`: a frame is its method
      index, its child count and then its children, each read whole before
      the next (the queue pops the last pushed frame first); the frame read
      j-th among the children is appended j-th. Running out of values is
      reading `undefined`; a negative count makes `Array(size)` throw. */
  function ParseFrame(items: seq<int>, pos: nat): (r: Result<(GFrame, nat)>)
    requires pos <= |items|
    ensures r.Success? ==> pos < r.value.1 <= |items|
    decreases |items| - pos, 0
  {
    if pos + 2 > |items| then Failure(Undefined)
    else if items[pos + 1] < 0 then Failure(NegativeArraySize)
    else
      var kids := ParseKids(items, pos + 2, items[pos + 1]);
      if kids.Failure? then Failure(kids.error)
      else
        AppendAllReverses(kids.value.0);
        Success((GFrame(items[pos], Reverse(kids.value.0)), kids.value.1))
  }

  /** n frames in a row, in reading order. */
  function ParseKids(items: seq<int>, pos: nat, n: nat): (r: Result<(seq<GFrame>, nat)>)
    requires pos <= |items|
    ensures r.Success? ==> pos <= r.value.1 <= |items| && |r.value.0| == n
    decreases |items| - pos, 1, n
  {
    if n == 0 then Success(([], pos))
    else
      var g := ParseFrame(items, pos);
      if g.Failure? then Failure(g.error)
      else
        var gs := ParseKids(items, g.value.1, n - 1);
        if gs.Failure? then Failure(gs.error)
        else Success(([g.value.0] + gs.value.0, gs.value.1))
  }

  // ---- The round trip ----

  /** The tree the viewer should see: the frame's children at their
      positions, each under its own key. */
  function Convert(f: Frame, m: nat): (g: GFrame)
    requires Wf(f)
    ensures g.methodIndex == m && |g.children| == |f.kids|
    decreases f, 1
  {
    GFrame(m, ConvertKids(f, |f.kids|))
  }

  /** Children 0 to n-1, converted. */
  function ConvertKids(f: Frame, n: nat): (gs: seq<GFrame>)
    requires Wf(f) && n <= |f.kids|
    ensures |gs| == n
    decreases f, 0, n
  {
    if n == 0 then [] else ConvertKids(f, n - 1) + [Convert(f.kids[n - 1], f.keys[n - 1])]
  }

  /** Children n-1 down to 0, converted: the reading order. */
  function ReadOrder(f: Frame, n: nat): (gs: seq<GFrame>)
    requires Wf(f) && n <= |f.kids|
    ensures |gs| == n
    decreases n
  {
    if n == 0 then [] else [Convert(f.kids[n - 1], f.keys[n - 1])] + ReadOrder(f, n - 1)
  }

  lemma {:induction false} ReadOrderReverses(f: Frame, n: nat)
    requires Wf(f) && n <= |f.kids|
    ensures Reverse(ReadOrder(f, n)) == ConvertKids(f, n)
    decreases n
  {
    if n > 0 {
      var ro := ReadOrder(f, n);
      assert ro[1..] == ReadOrder(f, n - 1);
      ReadOrderReverses(f, n - 1);
    }
  }

  /** The decoder parses a subtree's tokens back into the subtree. */
  lemma {:induction false} ParseWalk(items: seq<int>, pos: nat, f: Frame, m: nat)
    requires Wf(f) && HoldsAt(items, pos, Lz78.Pairs(Walk(f, m)))
    ensures ParseFrame(items, pos) == Success((Convert(f, m), pos + |Lz78.Pairs(Walk(f, m))|))
    decreases f, 1
  {
    var k := |f.kids|;
    var rest := WalkKids(f, k);
    Lz78.PairsAppend([Lz78.Token(m, k)], rest);
    assert [Lz78.Token(m, k)][1..] == [];
    assert Lz78.Pairs([Lz78.Token(m, k)]) == [m, k];
    HoldsAtSplit(items, pos, [m, k], Lz78.Pairs(rest));
    assert items[pos + 0] == [m, k][0] && items[pos + 1] == [m, k][1];
    ParseKidsWalk(items, pos + 2, f, k);
    ReadOrderReverses(f, k);
  }

  /** The decoder parses the children's tokens into the children, in the
      reading order. */
  lemma {:induction false} ParseKidsWalk(items: seq<int>, pos: nat, f: Frame, n: nat)
    requires Wf(f) && n <= |f.kids| && HoldsAt(items, pos, Lz78.Pairs(WalkKids(f, n)))
    ensures ParseKids(items, pos, n) == Success((ReadOrder(f, n), pos + |Lz78.Pairs(WalkKids(f, n))|))
    decreases f, 0, n
  {
    if n > 0 {
      var a := Walk(f.kids[n - 1], f.keys[n - 1]);
      var b := WalkKids(f, n - 1);
      Lz78.PairsAppend(a, b);
      HoldsAtSplit(items, pos, Lz78.Pairs(a), Lz78.Pairs(b));
      ParseWalk(items, pos, f.kids[n - 1], f.keys[n - 1]);
      ParseKidsWalk(items, pos + |Lz78.Pairs(a)|, f, n - 1);
    }
  }

  /** The values of a whole tree's tokens parse back into the tree. */
  lemma {:induction false} TreeRoundTrip(f: Frame, m: nat)
    requires Wf(f)
    ensures ParseFrame(Lz78.Pairs(Walk(f, m)), 0)
         == Success((Convert(f, m), |Lz78.Pairs(Walk(f, m))|))
  {
    ParseWalk(Lz78.Pairs(Walk(f, m)), 0, f, m);
  }

  // ---- The traversal of `globalStacks` ----

  /** The `frames` and `methods` deques of `globalStacks`, as one stack of
      (frame, method) pairs whose top is the last element. */
  type WorkStack = seq<(Frame, nat)>

  predicate StackWf(s: WorkStack)
  {
    forall i :: 0 <= i < |s| ==> Wf(s[i].0)
  }

  /** The pairs a frame pushes, in its entry order: the last one ends on top. */
  function Entries(f: Frame): (es: WorkStack)
    requires |f.keys| == |f.kids|
    ensures |es| == |f.kids|
  {
    seq(|f.kids|, i requires 0 <= i < |f.kids| => (f.kids[i], f.keys[i]))
  }

  /** The tokens of every subtree on the stack, from the top down. */
  function WalkOfStack(s: WorkStack): seq<Token>
    requires StackWf(s)
    decreases |s|
  {
    if |s| == 0 then [] else Walk(s[|s| - 1].0, s[|s| - 1].1) + WalkOfStack(s[..|s| - 1])
  }

  lemma {:induction false} WalkOfStackAppend(a: WorkStack, b: WorkStack)
    requires StackWf(a) && StackWf(b)
    ensures StackWf(a + b) && WalkOfStack(a + b) == WalkOfStack(b) + WalkOfStack(a)
    decreases |b|
  {
    if |b| == 0 {
      assert a + b == a;
    } else {
      var b', top := b[..|b| - 1], b[|b| - 1];
      assert StackWf(b') by {
        forall i | 0 <= i < |b'|
          ensures Wf(b'[i].0)
        {
          assert b'[i] == b[i];
        }
      }
      WalkOfStackAppend(a, b');
      var ab := a + b;
      assert StackWf(ab) by {
        forall i | 0 <= i < |ab|
          ensures Wf(ab[i].0)
        {
          if i >= |a| {
            assert ab[i] == b[i - |a|];
          }
        }
      }
      assert ab[..|ab| - 1] == a + b' && ab[|ab| - 1] == top;
      var w := Walk(top.0, top.1);
      assert WalkOfStack(ab) == w + WalkOfStack(a + b');
      assert WalkOfStack(b) == w + WalkOfStack(b');
    }
  }

  lemma {:induction false} WalkOfEntries(f: Frame, n: nat)
    requires Wf(f) && n <= |f.kids|
    ensures StackWf(Entries(f)[..n]) && WalkOfStack(Entries(f)[..n]) == WalkKids(f, n)
    decreases n
  {
    if n > 0 {
      assert Entries(f)[..n][..n - 1] == Entries(f)[..n - 1];
      WalkOfEntries(f, n - 1);
    }
  }

  /** Popping a frame and pushing its entries leaves the tokens of its
      children on top of the rest. */
  lemma {:induction false} PushEntries(s: WorkStack, f: Frame)
    requires StackWf(s) && Wf(f)
    ensures StackWf(s + Entries(f))
    ensures WalkOfStack(s + Entries(f)) == WalkKids(f, |f.kids|) + WalkOfStack(s)
  {
    WalkOfEntries(f, |f.kids|);
    assert Entries(f)[..|f.kids|] == Entries(f);
    WalkOfStackAppend(s, Entries(f));
  }

  /** The loop of `globalStacks`: pop a frame and its method, emit the
      (method, size) token, push the frame's entries in order. */
  function StackWalk(s: WorkStack): seq<Token>
    requires StackWf(s)
    decreases |WalkOfStack(s)|
  {
    if |s| == 0 then []
    else
      var f := s[|s| - 1].0;
      var s' := s[..|s| - 1] + Entries(f);
      PushEntries(s[..|s| - 1], f);
      [Lz78.Token(s[|s| - 1].1, |f.kids|)] + StackWalk(s')
  }

  /** The loop emits the tokens of the stacked subtrees, top first. */
  lemma {:induction false} StackWalkIsWalk(s: WorkStack)
    requires StackWf(s)
    ensures StackWalk(s) == WalkOfStack(s)
    decreases |WalkOfStack(s)|
  {
    if |s| > 0 {
      var f := s[|s| - 1].0;
      var m := s[|s| - 1].1;
      var below := s[..|s| - 1];
      var s' := below + Entries(f);
      PushEntries(below, f);
      StackWalkIsWalk(s');
      assert StackWalk(s) == [Lz78.Token(m, |f.kids|)] + StackWalk(s');
      assert WalkOfStack(s) == Walk(f, m) + WalkOfStack(below);
    }
  }

  /** Started from the root alone, the loop emits the root's pre-order. */
  lemma {:induction false} RootWalk(f: Frame, m: nat)
    requires Wf(f)
    ensures StackWalk([(f, m)]) == Walk(f, m)
  {
    StackWalkIsWalk([(f, m)]);
    assert [(f, m)][..0] == [];
  }

  /** The values of `globalStacks`: the count 1; then 0 for a missing root,
      or 1 and the LZ78 coding of the traversal from the root entered under
      the method index of the root method. */
  function GlobalStacksValues(root: Option<Frame>, rootMethod: nat): (vs: seq<nat>)
    requires root.Some? ==> Wf(root.value)
    ensures |vs| >= 2 && vs[0] == 1
    ensures root.None? <==> vs[1] == 0
  {
    match root
    case None => [1, 0]
    case Some(f) => [1, 1] + Lz78.LzEncode(StackWalk([(f, rootMethod)]))
  }

  /** The string is the varints of the values, and reads back as them. */
  lemma {:induction false} GlobalStacksChars(f: Frame, m: nat)
    requires Wf(f) && Lz78.AllOk(Walk(f, m)) && |Walk(f, m)| < TWO_31
    ensures DecodeEvents(Symbols.EncodeVars(GlobalStacksValues(Some(f), m))) == GlobalStacksValues(Some(f), m)
  {
    RootWalk(f, m);
    Lz78.PhrasesStart();
    Lz78.LzLoopBounded(Walk(f, m), Lz78.Trie(map[], 0), [[]], 0);
    DecodeEventsRoundTrip(GlobalStacksValues(Some(f), m));
  }

  /** `decodeGlobalStacks` on the converter's output: the count is 1, the
      flag is set, and the LZ78 reader that starts after them hands out
      values that parse into the root's tree. */
  lemma {:induction false} GlobalStacksRoundTrip(f: Frame, m: nat)
    requires Wf(f) && Lz78.AllOk(Walk(f, m))
    ensures var vs := GlobalStacksValues(Some(f), m);
            Tok(vs, 0) == 1 && Tok(vs, 1) == 1
            && Lz78.ReadsAs(vs, Lz78.Start(2), Lz78.Pairs(Walk(f, m)))
            && ParseFrame(Lz78.Pairs(Walk(f, m)), 0).Success?
            && ParseFrame(Lz78.Pairs(Walk(f, m)), 0).value.0 == Convert(f, m)
  {
    RootWalk(f, m);
    Lz78.LzRoundTrip([1, 1], Walk(f, m));
    TreeRoundTrip(f, m);
  }

  // ---- Stacks through the decoded tree ----

  /** The walk of `integralTraces` down the decoded tree: `children[id]`
      for every id, collecting the method indices. A hole or an index out
      of range yields `undefined`, whose fields cannot be read. */
  function Descend(g: GFrame, ids: seq<int>): (r: Result<seq<int>>)
    ensures r.Success? ==> |r.value| == |ids|
    decreases |ids|
  {
    if |ids| == 0 then Success([])
    else if !(0 <= ids[0] < |g.children|) then Failure(TypeError)
    else
      var rest := Descend(g.children[ids[0]], ids[1..]);
      if rest.Failure? then Failure(rest.error)
      else Success([g.children[ids[0]].methodIndex] + rest.value)
  }

  lemma {:induction false} ConvertKidsAt(f: Frame, n: nat, i: nat)
    requires Wf(f) && i < n <= |f.kids|
    ensures ConvertKids(f, n)[i] == Convert(f.kids[i], f.keys[i])
    decreases n
  {
    if i < n - 1 {
      ConvertKidsAt(f, n - 1, i);
    }
  }

  /** The child positions the converter writes for a stack lead the viewer
      through the decoded tree to the stack's own method indices. */
  lemma {:induction false} FollowDescends(f: Frame, m: nat, path: seq<nat>, ids: seq<nat>)
    requires Wf(f) && Follow(f, path) == Success(ids)
    ensures Descend(Convert(f, m), ids) == Success(path)
    decreases |path|
  {
    if |path| > 0 {
      FollowStep(f, path, ids);
      var i := ids[0];
      ConvertKidsAt(f, |f.kids|, i);
      assert f.keys[i] == path[0];
      FollowDescends(f.kids[i], path[0], path[1..], ids[1..]);
      assert Convert(f, m).children[i] == Convert(f.kids[i], path[0]);
      assert [path[0]] + path[1..] == path;
    }
  }

  /** One stack end to end: interned into the frames, written as a record
      of child positions, read back by `RleData` and walked down the decoded
      tree, it yields the methods it was interned with. */
  lemma {:induction false} StackRecovered(f: Frame, m: nat, path: seq<nat>, pre: seq<int>, rest: seq<int>)
    requires Wf(f)
    ensures var g := InsertPath(f, path, false).value;
            var ids := Follow(g, path);
            ids.Success?
            && Rle.ReadStack(pre + Rle.StackRecord(ids.value) + rest, |pre|).0 == ids.value
            && Descend(Convert(g, m), ids.value) == Success(path)
  {
    var g := InsertPath(f, path, false).value;
    InsertThenFollow(f, path);
    var ids := Follow(g, path).value;
    Rle.StackRoundTrip(pre, ids, rest);
    FollowDescends(g, m, path, ids);
  }
}
