/** The trie of `printHeatmap` loses nothing: every stack is the phrases
    of the nodes it created followed by the phrase of the node it ended at,
    and building it from another root id gives the same trie with every id
    moved by the same amount. */
module TrieProofs {
  import opened Common
  import opened Interning
  import opened Synonyms

  /** The trie is well formed: parents come first and every tail is a
      node. */
  predicate TrieOk(t: Trie)
  {
    ParentsFirst(t.base, t.pairs)
    && forall i :: 0 <= i < |t.tails| ==> IsNode(t.base, t.pairs, t.tails[i])
  }

  // ---- Growing tables keep their phrases ----

  lemma {:induction false} PathGrows(base: int, pairs: seq<(int, int)>, pairs2: seq<(int, int)>, id: int)
    requires ParentsFirst(base, pairs) && ParentsFirst(base, pairs2) && Extends(pairs, pairs2)
    requires IsNode(base, pairs, id)
    ensures IsNode(base, pairs2, id) && Path(base, pairs2, id) == Path(base, pairs, id)
    decreases id - base
  {
    if id != base {
      assert pairs2[id - base - 1] == pairs[id - base - 1];
      PathGrows(base, pairs, pairs2, pairs[id - base - 1].0);
    }
  }

  lemma {:induction false} PhrasesGrow(base: int, pairs: seq<(int, int)>, pairs2: seq<(int, int)>, from: int, to: int)
    requires ParentsFirst(base, pairs) && ParentsFirst(base, pairs2) && Extends(pairs, pairs2)
    requires 0 <= from <= to <= |pairs|
    ensures Phrases(base, pairs2, from, to) == Phrases(base, pairs, from, to)
    decreases |pairs| - from
  {
    if from < to {
      PathGrows(base, pairs, pairs2, base + from + 1);
      PhrasesGrow(base, pairs, pairs2, from + 1, to);
    }
  }

  /** Phrases of consecutive ranges concatenate. */
  lemma {:induction false} PhrasesSplit(base: int, pairs: seq<(int, int)>, a: int, b: int, c: int)
    requires ParentsFirst(base, pairs) && 0 <= a <= b <= c <= |pairs|
    ensures Phrases(base, pairs, a, c) == Phrases(base, pairs, a, b) + Phrases(base, pairs, b, c)
    decreases |pairs| - a
  {
    if a < b {
      PhrasesSplit(base, pairs, a + 1, b, c);
    }
  }

  // ---- One stack ----

  /** Reading ms from node cur of the table pairs left the table pairs2
      and ended at node e: the methods are the phrases of the nodes created
      on the way, then the phrase of e. */
  predicate Spelled(base: int, pairs: seq<(int, int)>, cur: int, ms: seq<int>, pairs2: seq<(int, int)>, e: int)
    requires ParentsFirst(base, pairs) && IsNode(base, pairs, cur)
  {
    ParentsFirst(base, pairs2) && IsNode(base, pairs2, e) && Extends(pairs, pairs2)
    && Path(base, pairs, cur) + ms == Phrases(base, pairs2, |pairs|, |pairs2|) + Path(base, pairs2, e)
  }

  lemma {:induction false} WalkSpells(t: Trie, cur: int, ms: seq<int>)
    requires ParentsFirst(t.base, t.pairs) && IsNode(t.base, t.pairs, cur)
    ensures var x := Walk(t, cur, ms);
            Spelled(t.base, t.pairs, cur, ms, x.0.pairs, x.1)
    decreases |ms|
  {
    var x := Walk(t, cur, ms);
    if |ms| == 0 {
      assert Phrases(t.base, t.pairs, |t.pairs|, |t.pairs|) == [];
      assert t.pairs[..|t.pairs|] == t.pairs;
    } else {
      var m, rest := ms[0], ms[1..];
      var y := Step(t, cur, m);
      assert x == Walk(y.0, y.1, rest);
      assert ms == [m] + rest;
      WalkSpells(y.0, y.1, rest);
      if (cur, m) in t.pairs {
        WalkKid(t.base, t.pairs, cur, m, rest, y.1, x.0.pairs, x.1);
      } else {
        StepAdds(t, cur, m);
        WalkNew(t.base, t.pairs, cur, m, rest, x.0.pairs, x.1);
      }
    }
  }

  /** Moving to an existing child extends the phrase being read. */
  lemma {:induction false} WalkKid(base: int, pairs: seq<(int, int)>, cur: int, m: int, rest: seq<int>, kid: int, pairs2: seq<(int, int)>, e: int)
    requires ParentsFirst(base, pairs) && IsNode(base, pairs, cur)
    requires base < kid <= base + |pairs| && pairs[kid - base - 1] == (cur, m)
    requires Spelled(base, pairs, kid, rest, pairs2, e)
    ensures Spelled(base, pairs, cur, [m] + rest, pairs2, e)
  {
    var pc, pk := Path(base, pairs, cur), Path(base, pairs, kid);
    assert pk == pc + [m] by {
      assert pairs[kid - base - 1].0 == cur && pairs[kid - base - 1].1 == m;
    }
    assert pc + ([m] + rest) == pk + rest;
  }

  /** Adding a child ends the phrase being read and restarts at the root. */
  lemma {:induction false} WalkNew(base: int, pairs: seq<(int, int)>, cur: int, m: int, rest: seq<int>, pairs2: seq<(int, int)>, e: int)
    requires ParentsFirst(base, pairs) && IsNode(base, pairs, cur)
    requires ParentsFirst(base, pairs + [(cur, m)])
    requires Spelled(base, pairs + [(cur, m)], base, rest, pairs2, e)
    ensures Spelled(base, pairs, cur, [m] + rest, pairs2, e)
  {
    var pairs1 := pairs + [(cur, m)];
    var n := |pairs|;
    assert Extends(pairs, pairs1) by {
      assert pairs1[..n] == pairs;
    }
    ExtendsTrans(pairs, pairs1, pairs2);
    NewNodeSpells(base, pairs, cur, m, pairs2);
    var later := Phrases(base, pairs2, n + 1, |pairs2|);
    var end := Path(base, pairs2, e);
    var phrase := Path(base, pairs2, base + n + 1);
    assert Phrases(base, pairs2, n, |pairs2|) == phrase + later;
    Regroup(Path(base, pairs, cur) + [m], phrase, rest, later, end);
  }

  /** The node created for method m at cur spells cur's phrase and m, in
      every later table. */
  lemma {:induction false} NewNodeSpells(base: int, pairs: seq<(int, int)>, cur: int, m: int, pairs2: seq<(int, int)>)
    requires ParentsFirst(base, pairs) && IsNode(base, pairs, cur)
    requires ParentsFirst(base, pairs + [(cur, m)])
    requires ParentsFirst(base, pairs2) && Extends(pairs + [(cur, m)], pairs2)
    ensures |pairs| < |pairs2| && IsNode(base, pairs2, base + |pairs| + 1)
    ensures Path(base, pairs2, base + |pairs| + 1) == Path(base, pairs, cur) + [m]
  {
    var pairs1 := pairs + [(cur, m)];
    var n := |pairs|;
    assert Extends(pairs, pairs1) by {
      assert pairs1[..n] == pairs;
    }
    PathGrows(base, pairs1, pairs2, base + n + 1);
    PathGrows(base, pairs, pairs1, cur);
  }

  lemma {:induction false} Regroup(a: seq<int>, phrase: seq<int>, rest: seq<int>, later: seq<int>, end: seq<int>)
    requires a == phrase && rest == later + end
    ensures a + rest == (phrase + later) + end
  {
  }

  /** A new node is appended after its parent. */
  lemma {:induction false} StepAdds(t: Trie, cur: int, m: int)
    requires ParentsFirst(t.base, t.pairs) && IsNode(t.base, t.pairs, cur) && (cur, m) !in t.pairs
    ensures var y := Step(t, cur, m);
            y.0.pairs == t.pairs + [(cur, m)] && y.1 == t.base
            && ParentsFirst(y.0.base, y.0.pairs) && Extends(t.pairs, y.0.pairs)
  {
    var y := Step(t, cur, m);
    assert y.0.pairs[..|t.pairs|] == t.pairs;
  }

  /** A stack is the phrases of the nodes it created, then the phrase of
      its tail. */
  lemma {:induction false} AddStackSpells(t: Trie, s: seq<int>)
    requires TrieOk(t)
    ensures var u := AddStack(t, s);
            TrieOk(u) && Extends(t.pairs, u.pairs) && u.tails[..|t.tails|] == t.tails
            && s == Phrases(u.base, u.pairs, |t.pairs|, |u.pairs|) + Path(u.base, u.pairs, u.tails[|t.tails|])
  {
    WalkSpells(t, t.base, s);
    var x := Walk(t, t.base, s);
    var u := AddStack(t, s);
    assert u.tails[..|t.tails|] == t.tails;
    forall i | 0 <= i < |u.tails|
      ensures IsNode(u.base, u.pairs, u.tails[i])
    {
      if i < |t.tails| {
        assert u.tails[i] == t.tails[i];
      }
    }
  }

  /** The first i stacks build a prefix of the trie. */
  lemma {:induction false} BuildGrows(base: int, stacks: seq<seq<int>>, i: nat)
    requires i <= |stacks|
    ensures var t, p := Build(base, stacks), Build(base, stacks[..i]);
            TrieOk(t) && TrieOk(p) && Extends(p.pairs, t.pairs) && t.tails[..i] == p.tails
    decreases |stacks|
  {
    var t := Build(base, stacks);
    if i == |stacks| {
      assert stacks[..i] == stacks;
      if |stacks| > 0 {
        BuildGrows(base, stacks[..|stacks| - 1], 0);
        AddStackSpells(Build(base, stacks[..|stacks| - 1]), stacks[|stacks| - 1]);
      }
    } else {
      var front := stacks[..|stacks| - 1];
      assert front[..i] == stacks[..i];
      BuildGrows(base, front, i);
      var f := Build(base, front);
      AddStackSpells(f, stacks[|stacks| - 1]);
      ExtendsTrans(Build(base, stacks[..i]).pairs, f.pairs, t.pairs);
      assert t.tails[..i] == t.tails[..|f.tails|][..i];
    }
  }

  /** The number of nodes the first i stacks created. */
  function Created(base: int, stacks: seq<seq<int>>, i: nat): nat
    requires i <= |stacks|
  {
    |Build(base, stacks[..i]).pairs|
  }

  /** Every stack is recovered from the finished trie: the phrases of the
      nodes created while adding it, then the phrase of its tail. */
  lemma {:induction false} BuildSpells(base: int, stacks: seq<seq<int>>, i: nat)
    requires i < |stacks|
    ensures var t := Build(base, stacks);
            TrieOk(t) && Created(base, stacks, i) <= Created(base, stacks, i + 1) <= |t.pairs|
            && stacks[i] == Phrases(base, t.pairs, Created(base, stacks, i), Created(base, stacks, i + 1))
                            + Path(base, t.pairs, t.tails[i])
  {
    var t := Build(base, stacks);
    var p, q := Build(base, stacks[..i]), Build(base, stacks[..i + 1]);
    BuildGrows(base, stacks, i + 1);
    BuildGrows(base, stacks[..i + 1], i);
    assert stacks[..i + 1][..i] == stacks[..i];
    assert stacks[..i + 1][..|stacks[..i + 1]| - 1] == stacks[..i];
    AddStackSpells(p, stacks[i]);
    assert q == AddStack(p, stacks[i]);
    PhrasesGrow(base, q.pairs, t.pairs, |p.pairs|, |q.pairs|);
    PathGrows(base, q.pairs, t.pairs, q.tails[i]);
    assert t.tails[i] == q.tails[i];
  }

  // ---- Another root id ----

  /** Pairs with every parent id moved by d. */
  function MovePairs(ps: seq<(int, int)>, d: int): (r: seq<(int, int)>)
    ensures |r| == |ps|
    decreases |ps|
  {
    if |ps| == 0 then [] else MovePairs(ps[..|ps| - 1], d) + [(ps[|ps| - 1].0 + d, ps[|ps| - 1].1)]
  }

  /** Ids moved by d. */
  function MoveIds(ids: seq<int>, d: int): (r: seq<int>)
    ensures |r| == |ids|
    decreases |ids|
  {
    if |ids| == 0 then [] else MoveIds(ids[..|ids| - 1], d) + [ids[|ids| - 1] + d]
  }

  /** The trie with every id moved by d. */
  function Move(t: Trie, d: int): Trie
  {
    Trie(t.base + d, MovePairs(t.pairs, d), t.counts, MoveIds(t.tails, d))
  }

  lemma {:induction false} MovePairsAt(ps: seq<(int, int)>, d: int)
    ensures forall k :: 0 <= k < |ps| ==> MovePairs(ps, d)[k] == (ps[k].0 + d, ps[k].1)
    decreases |ps|
  {
    if |ps| > 0 {
      var front := ps[..|ps| - 1];
      MovePairsAt(front, d);
      assert forall k :: 0 <= k < |front| ==> ps[k] == front[k];
    }
  }

  lemma {:induction false} MoveIdsAt(ids: seq<int>, d: int)
    ensures forall k :: 0 <= k < |ids| ==> MoveIds(ids, d)[k] == ids[k] + d
    decreases |ids|
  {
    if |ids| > 0 {
      var front := ids[..|ids| - 1];
      MoveIdsAt(front, d);
      assert forall k :: 0 <= k < |front| ==> ids[k] == front[k];
    }
  }

  /** Rebasing is moving every id by the distance between the roots. */
  lemma {:induction false} RebaseIsMove(t: Trie, b: int)
    ensures Rebase(t, b) == Move(t, b - t.base)
  {
    MovePairsAt(t.pairs, b - t.base);
    MoveIdsAt(t.tails, b - t.base);
    assert Rebase(t, b).pairs == MovePairs(t.pairs, b - t.base);
    assert Rebase(t, b).tails == MoveIds(t.tails, b - t.base);
  }

  /** Moving every id keeps positions: a pair is found where its moved copy
      is. */
  lemma {:induction false} MovedPos(ps: seq<(int, int)>, d: int, cur: int, m: int)
    ensures (cur, m) in ps <==> (cur + d, m) in MovePairs(ps, d)
    ensures (cur, m) in ps ==> Pos(MovePairs(ps, d), (cur + d, m)) == Pos(ps, (cur, m))
  {
    var key, moved, r := (cur, m), (cur + d, m), MovePairs(ps, d);
    MovePairsAt(ps, d);
    assert forall k :: 0 <= k < |ps| ==> (r[k] == moved <==> ps[k] == key);
    if key in ps {
      var p := Pos(ps, key);
      assert r[p] == moved;
      FirstPos(r, moved, p);
    }
    if moved in r {
      var p := Pos(r, moved);
      assert ps[p] == key;
    }
  }

  /** Pos finds the first occurrence. */
  lemma {:induction false} FirstPos(s: seq<(int, int)>, x: (int, int), p: int)
    requires 0 <= p < |s| && s[p] == x && forall k :: 0 <= k < p ==> s[k] != x
    ensures Pos(s, x) == p
    decreases p
  {
    if p > 0 {
      FirstPos(s[1..], x, p - 1);
    }
  }

  lemma {:induction false} StepMoved(t: Trie, d: int, cur: int, m: int)
    ensures var y := Step(t, cur, m);
            Step(Move(t, d), cur + d, m) == (Move(y.0, d), y.1 + d)
  {
    MovedPos(t.pairs, d, cur, m);
    var u := Move(t, d);
    var y, z := Step(t, cur, m), Step(u, cur + d, m);
    if (cur, m) in t.pairs {
      assert y == (t, t.base + 1 + Pos(t.pairs, (cur, m)));
      assert z == (u, u.base + 1 + Pos(u.pairs, (cur + d, m)));
    } else {
      var ps := t.pairs + [(cur, m)];
      assert ps[..|ps| - 1] == t.pairs;
      assert MovePairs(ps, d) == u.pairs + [(cur + d, m)];
      var key := cur - t.base;
      assert (cur + d) - u.base == key;
      assert Count(u, cur + d) == Count(t, cur);
      var counts := t.counts[key := Count(t, cur) + 1];
      assert y == (Trie(t.base, ps, counts, t.tails), t.base);
      assert z == (Trie(u.base, u.pairs + [(cur + d, m)], counts, u.tails), u.base);
    }
  }

  lemma {:induction false} WalkMoved(t: Trie, d: int, cur: int, ms: seq<int>)
    ensures var x := Walk(t, cur, ms);
            Walk(Move(t, d), cur + d, ms) == (Move(x.0, d), x.1 + d)
  {
    WalkMovedAt(t, Move(t, d), d, cur, cur + d, ms);
  }

  /** WalkMoved with the moved trie and node named, so that no step needs
      to compare tries. */
  lemma {:induction false} WalkMovedAt(t: Trie, u: Trie, d: int, cur: int, cu: int, ms: seq<int>)
    requires u == Move(t, d) && cu == cur + d
    ensures var x := Walk(t, cur, ms);
            Walk(u, cu, ms) == (Move(x.0, d), x.1 + d)
    decreases |ms|
  {
    if |ms| > 0 {
      var m, rest := ms[0], ms[1..];
      var y, z := Step(t, cur, m), Step(u, cu, m);
      StepMoved(t, d, cur, m);
      WalkMovedAt(y.0, z.0, d, y.1, z.1, rest);
    }
  }

  lemma {:induction false} AddStackMoved(t: Trie, u: Trie, d: int, s: seq<int>)
    requires u == Move(t, d)
    ensures AddStack(u, s) == Move(AddStack(t, s), d)
  {
    WalkMovedAt(t, u, d, t.base, u.base, s);
    FinishMoved(Walk(t, t.base, s), Walk(u, u.base, s), d);
  }

  /** The end of AddStack, the phrase counted and the tail recorded,
      commutes with moving. */
  lemma {:induction false} FinishMoved(x: (Trie, int), w: (Trie, int), d: int)
    requires w == (Move(x.0, d), x.1 + d)
    ensures var v := Bump(w.0, w.1);
            var u := Bump(x.0, x.1);
            v.(tails := v.tails + [w.1]) == Move(u.(tails := u.tails + [x.1]), d)
  {
    var u, v := Bump(x.0, x.1), Bump(w.0, w.1);
    var a, b := u.(tails := u.tails + [x.1]), v.(tails := v.tails + [w.1]);
    var ma := Move(a, d);
    assert b.base == ma.base;
    assert b.pairs == ma.pairs;
    assert b.counts == ma.counts by {
      assert w.0.counts == x.0.counts;
      assert w.1 - w.0.base == x.1 - x.0.base;
      assert Count(w.0, w.1) == Count(x.0, x.1);
    }
    assert b.tails == ma.tails by {
      var tails := x.0.tails + [x.1];
      assert tails[..|tails| - 1] == x.0.tails;
      assert MoveIds(tails, d) == MoveIds(x.0.tails, d) + [x.1 + d];
    }
  }

  lemma {:induction false} BuildMoved(b1: int, b2: int, stacks: seq<seq<int>>)
    ensures Build(b2, stacks) == Move(Build(b1, stacks), b2 - b1)
    decreases |stacks|
  {
    if |stacks| > 0 {
      var front := stacks[..|stacks| - 1];
      BuildMoved(b1, b2, front);
      AddStackMoved(Build(b1, front), Build(b2, front), b2 - b1, stacks[|stacks| - 1]);
    } else {
      assert Move(Empty(b1), b2 - b1) == Empty(b2);
    }
  }

  /** Building from root id b2 gives the trie built from root id b1 with
      every id moved by b2 - b1: the same nodes in the same order, the same
      counts, the same tails. */
  lemma {:induction false} BuildRebased(b1: int, b2: int, stacks: seq<seq<int>>)
    ensures Build(b2, stacks) == Rebase(Build(b1, stacks), b2)
  {
    BuildMoved(b1, b2, stacks);
    RebaseIsMove(Build(b1, stacks), b2);
  }

  /** The second pass of `printHeatmap` builds the trie of the first with
      every id lowered by `synonymsDelta`. */
  lemma {:induction false} SecondPass(stacks: seq<seq<int>>)
    ensures var first := Build(MAX_SYNONYMS, stacks);
            var second := Build(SynonymCount(first), stacks);
            |second.pairs| == |first.pairs| && |second.tails| == |first.tails|
            && (forall k :: 0 <= k < |first.pairs| ==>
                  second.pairs[k] == (first.pairs[k].0 - Delta(first), first.pairs[k].1))
            && (forall i :: 0 <= i < |first.tails| ==> second.tails[i] == first.tails[i] - Delta(first))
  {
    var first := Build(MAX_SYNONYMS, stacks);
    BuildRebased(MAX_SYNONYMS, SynonymCount(first), stacks);
  }
}
