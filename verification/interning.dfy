/** The meaning of `Index<T>`, the hash-map interning table that
    `SimpleHeatmap.evaluate` uses for symbol strings, methods and stacks: a
    key seen for the first time receives the next id, 1, 2, 3, ..., and a
    key seen before gets its id back. `orderedKeys` lists the keys by id, so
    the abstract state is the list of keys in first-seen order and the id of
    a key is its 1-based position in it. */
module Interning {
  import opened Common

  /** The 0-based position of the first occurrence of k. */
  function Pos<T(==)>(order: seq<T>, k: T): (r: nat)
    requires k in order
    ensures r < |order| && order[r] == k
    ensures forall i :: 0 <= i < r ==> order[i] != k
    decreases |order|
  {
    if order[0] == k then 0 else 1 + Pos(order[1..], k)
  }

  /** `index(key)`: the new key list and the key's 1-based id. */
  function Intern<T(==)>(order: seq<T>, k: T): (r: (seq<T>, nat))
  {
    if k in order then (order, Pos(order, k) + 1) else (order + [k], |order| + 1)
  }

  /** A table only ever grows at its end. */
  predicate Extends<T(==)>(small: seq<T>, big: seq<T>)
  {
    |small| <= |big| && big[..|small|] == small
  }

  lemma {:induction false} ExtendsTrans<T>(a: seq<T>, b: seq<T>, c: seq<T>)
    requires Extends(a, b) && Extends(b, c)
    ensures Extends(a, c)
  {
    assert c[..|a|] == c[..|b|][..|a|];
  }

  /** The id names the key, the table only grows, a known key leaves it
      unchanged and a new one is appended with the next id. */
  lemma {:induction false} InternMeaning<T>(order: seq<T>, k: T)
    ensures var r := Intern(order, k);
            1 <= r.1 <= |r.0| && r.0[r.1 - 1] == k && Extends(order, r.0)
            && (k in order ==> r.0 == order)
            && (k !in order ==> r.0 == order + [k] && r.1 == |order| + 1)
  {
    var r := Intern(order, k);
    if k !in order {
      assert r.0[..|order|] == order;
    }
  }

  /** Interning keeps the keys distinct. */
  lemma {:induction false} InternDistinct<T>(order: seq<T>, k: T)
    requires NoDuplicates(order)
    ensures NoDuplicates(Intern(order, k).0)
  {
    var o := Intern(order, k).0;
    if k !in order {
      forall a, b | 0 <= a < b < |o|
        ensures o[a] != o[b]
      {
        if b == |order| {
          assert o[a] == order[a];
        }
      }
    }
  }

  /** In a table of distinct keys, the key at position i has id i + 1, and
      interning it again returns that id. */
  lemma {:induction false} InternKnown<T>(order: seq<T>, i: nat)
    requires NoDuplicates(order) && i < |order|
    ensures Intern(order, order[i]) == (order, i + 1)
  {
  }

  /** Interning twice returns the same id and leaves the table as it was
      after the first call. */
  lemma {:induction false} InternIdempotent<T>(order: seq<T>, k: T)
    ensures Intern(Intern(order, k).0, k) == Intern(order, k)
  {
    var r := Intern(order, k);
    if k !in order {
      assert Pos(r.0, k) == |order|;
    }
  }
}
