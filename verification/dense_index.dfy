/** The meaning of the interning tables `IndexInt` and `IndexLong`: every
    distinct nonzero key receives the next id, 1, 2, 3, ..., in the order the
    keys are first seen. The abstract state is that first-seen order; the id
    of a key is its 1-based position in it. */
module DenseIndex {
  import opened Common

  /** A reachable abstract state: no key twice, and never the key 0, which
      marks an empty slot in the array representation. */
  predicate WellFormed(order: seq<int>)
  {
    NoDuplicates(order) && 0 !in order
  }

  /** The 0-based position of a key. */
  function Pos(order: seq<int>, k: int): (r: nat)
    requires k in order
    ensures r < |order| && order[r] == k
    decreases |order|
  {
    if order[0] == k then 0 else 1 + Pos(order[1..], k)
  }

  /** In a duplicate-free order the position of order[i] is i. */
  lemma {:induction false} PosOf(order: seq<int>, i: int)
    requires NoDuplicates(order) && 0 <= i < |order|
    ensures Pos(order, order[i]) == i
  {
  }

  /** The id of every stored key. */
  function Ids(order: seq<int>): map<int, int>
  {
    map k | k in order :: Pos(order, k) + 1
  }

  /** `index(key)`: the id of a stored key, or the next id for a new one;
      key 0 raises NullPointerException. */
  function Index(order: seq<int>, k: int): (r: Result<(seq<int>, int)>)
    ensures r.Failure? <==> k == 0
    ensures r.Failure? ==> r.error == NullKey
    ensures r.Success? ==> 1 <= r.value.1 <= |r.value.0| && r.value.0[r.value.1 - 1] == k
    ensures r.Success? ==> |order| <= |r.value.0| <= |order| + 1 && r.value.0[..|order|] == order
    ensures r.Success? && k in order ==> r.value.0 == order
  {
    if k == 0 then Failure(NullKey)
    else if k in order then Success((order, Pos(order, k) + 1))
    else Success((order + [k], |order| + 1))
  }

  /** `index(key, notFound)`: the id of a stored key, otherwise the fallback. */
  function IndexOr(order: seq<int>, k: int, notFound: int): (r: int)
    ensures k in order ==> 1 <= r <= |order| && order[r - 1] == k
    ensures k !in order ==> r == notFound
  {
    if k in order then Pos(order, k) + 1 else notFound
  }

  /** `has(key)`, defined in the source as `index(key, 0) != 0`. */
  function Has(order: seq<int>, k: int): (r: bool)
    ensures r <==> k in order
  {
    IndexOr(order, k, 0) != 0
  }

  /** A new key gets id size + 1 and is appended; a stored key changes nothing. */
  lemma {:induction false} IndexAppends(order: seq<int>, k: int)
    requires WellFormed(order) && k != 0
    ensures k !in order ==> Index(order, k) == Success((order + [k], |order| + 1))
    ensures k in order ==> Index(order, k) == Success((order, Ids(order)[k]))
  {
  }

  /** Appending a new nonzero key keeps the state reachable. */
  lemma {:induction false} AppendKeepsWellFormed(order: seq<int>, k: int)
    requires WellFormed(order) && k != 0 && k !in order
    ensures WellFormed(order + [k])
  {
    var o := order + [k];
    forall a, b | 0 <= a < b < |o|
      ensures o[a] != o[b]
    {
      if b == |order| {
        assert o[a] == order[a];
      }
    }
  }

  /** Indexing keeps the state reachable. */
  lemma {:induction false} IndexKeepsWellFormed(order: seq<int>, k: int)
    requires WellFormed(order)
    ensures Index(order, k).Success? ==> WellFormed(Index(order, k).value.0)
  {
  }

  /** Indexing the same key twice returns the same id and changes nothing the
      second time. */
  lemma {:induction false} IndexIdempotent(order: seq<int>, k: int)
    requires WellFormed(order) && k != 0
    ensures Index(Index(order, k).value.0, k) == Index(order, k)
  {
    var o := Index(order, k).value.0;
    assert k in o;
    PosOf(o, Index(order, k).value.1 - 1);
  }

  /** The ids form exactly the range 1..|order|, one key per id. */
  lemma {:induction false} IdsDense(order: seq<int>)
    requires WellFormed(order)
    ensures forall k :: k in Ids(order) ==> 1 <= Ids(order)[k] <= |order| && order[Ids(order)[k] - 1] == k
    ensures forall i :: 0 <= i < |order| ==> order[i] in Ids(order) && Ids(order)[order[i]] == i + 1
  {
    forall i | 0 <= i < |order|
      ensures Ids(order)[order[i]] == i + 1
    {
      PosOf(order, i);
    }
  }

  /** Distinct keys never share an id. */
  lemma {:induction false} IdsInjective(order: seq<int>, a: int, b: int)
    requires WellFormed(order) && a in order && b in order && a != b
    ensures Ids(order)[a] != Ids(order)[b]
  {
  }

  /** Appending a new key adds exactly one id, the next one. */
  lemma {:induction false} IdsAppend(order: seq<int>, k: int)
    requires WellFormed(order) && k !in order
    ensures Ids(order + [k]) == Ids(order)[k := |order| + 1]
  {
    var o := order + [k];
    forall j | j in order
      ensures Pos(o, j) == Pos(order, j)
    {
      var p := Pos(order, j);
      assert o[p] == j;
      assert NoDuplicates(o) by {
        forall a, b | 0 <= a < b < |o|
          ensures o[a] != o[b]
        {
          if b == |order| {
            assert o[a] == order[a];
          }
        }
      }
      PosOf(o, p);
    }
    assert Pos(o, k) == |order| by {
      assert o[|order|] == k;
    }
  }

  /** The order with key k taken out. */
  function Remove(order: seq<int>, k: int): (r: seq<int>)
    requires k in order
    ensures |r| == |order| - 1
  {
    var p := Pos(order, k);
    order[..p] + order[p + 1..]
  }

  /** The id map after `shift(key)`: k is gone and every id above k's moves
      down by one. */
  function Renumber(m: map<int, int>, k: int): (r: map<int, int>)
    requires k in m
    ensures r.Keys == m.Keys - {k}
  {
    map j | j in m && j != k :: if m[j] > m[k] then m[j] - 1 else m[j]
  }

  /** `shift(key)` on the abstract state: the key's id (0 when absent) and the
      order without it; key 0 raises NullPointerException. */
  function Shift(order: seq<int>, k: int): (r: Result<(seq<int>, int)>)
    ensures r.Failure? <==> k == 0
    ensures r.Success? ==> r.value.1 == IndexOr(order, k, 0)
    ensures r.Success? ==> |r.value.0| == |order| - (if k in order then 1 else 0)
  {
    if k == 0 then Failure(NullKey)
    else if k in order then Success((Remove(order, k), Pos(order, k) + 1))
    else Success((order, 0))
  }

  /** Removing one key keeps the state reachable. */
  lemma {:induction false} RemoveKeepsWellFormed(order: seq<int>, k: int)
    requires WellFormed(order) && k in order
    ensures WellFormed(Remove(order, k))
    ensures forall j :: j in Remove(order, k) <==> j in order && j != k
  {
    var p := Pos(order, k);
    var r := Remove(order, k);
    forall i | 0 <= i < |r|
      ensures r[i] == order[if i < p then i else i + 1]
    {
    }
    forall j | j in order && j != k
      ensures j in r
    {
      var q := Pos(order, j);
      assert q != p;
      assert r[if q < p then q else q - 1] == j;
    }
  }

  /** The renumbering `shift` applies to the stored ids is exactly the id map
      of the order without the key: ids stay dense after a shift. */
  lemma {:induction false} RenumberIsRemove(order: seq<int>, k: int)
    requires WellFormed(order) && k in order
    ensures Renumber(Ids(order), k) == Ids(Remove(order, k))
  {
    var r := Remove(order, k);
    var m := Ids(order);
    var a := Renumber(m, k);
    var b := Ids(r);
    RemoveKeepsWellFormed(order, k);
    assert a.Keys == b.Keys by {
      assert a.Keys == m.Keys - {k};
      assert b.Keys == set j | j in r;
      assert m.Keys == set j | j in order;
    }
    forall j | j in a
      ensures a[j] == b[j]
    {
      assert j in order && j != k;
      RemoveShiftsPos(order, k, j);
      assert m[j] == Pos(order, j) + 1 && m[k] == Pos(order, k) + 1;
      assert b[j] == Pos(r, j) + 1;
    }
    MapsEqual(a, b);
  }

  /** Maps with the same keys and the same value at each are equal. */
  lemma {:induction false} MapsEqual(a: map<int, int>, b: map<int, int>)
    requires a.Keys == b.Keys && forall j :: j in a ==> a[j] == b[j]
    ensures a == b
  {
    assert forall j :: j in a <==> j in b;
    assert forall j :: j in a ==> a[j] == b[j];
  }

  /** Positions after the removed key move down by one, earlier ones stay. */
  lemma {:induction false} RemoveShiftsPos(order: seq<int>, k: int, j: int)
    requires WellFormed(order) && k in order && j in order && j != k
    ensures j in Remove(order, k)
    ensures Pos(Remove(order, k), j) == if Pos(order, j) > Pos(order, k) then Pos(order, j) - 1 else Pos(order, j)
  {
    var p := Pos(order, k);
    var r := Remove(order, k);
    RemoveKeepsWellFormed(order, k);
    var q := Pos(order, j);
    var q' := if q > p then q - 1 else q;
    assert r[q'] == order[q];
    PosOf(r, q');
  }
}
