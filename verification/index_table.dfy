/** The array representation of `IndexInt` and `IndexLong`: open addressing
    with linear probing over two parallel arrays, `keys` (0 marks an empty
    slot) and `values` (the ids), in a power-of-two capacity that doubles when
    the table becomes more than half full. The two classes differ only in the
    key width and the hash function; keys are modelled as mathematical
    integers and the hash function (`hashCode`) is the parameter `hash`, so
    both classes are covered by one model. Every operation is related to the
    abstract first-seen order of `DenseIndex`. */
module IndexTable {
  import opened Common
  import DenseIndex

  const INITIAL_CAPACITY: int := 16
  /** The largest power of two that is a valid Java array length. */
  const MAX_CAPACITY: int := 0x4000_0000

  datatype Table = Table(keys: seq<int>, values: seq<int>, size: int)

  predicate PowerOfTwo(n: int)
    decreases if n > 0 then n else 0
  {
    n == 1 || (n >= 2 && n % 2 == 0 && PowerOfTwo(n / 2))
  }

  /** Every power of two is some Pow2(b). */
  lemma {:induction false} PowerOfTwoExponent(n: int) returns (b: nat)
    requires PowerOfTwo(n)
    ensures Pow2(b) == n
    decreases if n > 0 then n else 0
  {
    if n == 1 {
      b := 0;
    } else {
      var c := PowerOfTwoExponent(n / 2);
      b := c + 1;
    }
  }

  /** A power of two that is a Java int is at most 2^30. */
  lemma {:induction false} PowerOfTwoAtMost(n: int)
    requires PowerOfTwo(n) && n < TWO_31
    ensures n <= MAX_CAPACITY
  {
    var b := PowerOfTwoExponent(n);
    Pow2Constants();
    Pow2Strict(b, 31);
    Pow2Monotone(b, 30);
  }

  /** The number of occupied slots. */
  function CountNonZero(s: seq<int>): (r: nat)
    ensures r <= |s|
  {
    if |s| == 0 then 0 else CountNonZero(s[..|s| - 1]) + (if s[|s| - 1] != 0 then 1 else 0)
  }

  lemma {:induction false} CountZeros(n: nat)
    ensures CountNonZero(seq(n, _ => 0)) == 0
  {
    if n > 0 {
      assert seq(n, _ => 0)[..n - 1] == seq(n - 1, _ => 0);
      CountZeros(n - 1);
    }
  }

  /** Counting a prefix one slot longer. */
  lemma {:induction false} CountStep(s: seq<int>, j: int)
    requires 0 <= j < |s|
    ensures CountNonZero(s[..j + 1]) == CountNonZero(s[..j]) + (if s[j] != 0 then 1 else 0)
  {
    assert s[..j + 1][..j] == s[..j];
  }

  /** A prefix has no more occupied slots than the whole. */
  lemma {:induction false} CountPrefix(s: seq<int>, j: int)
    requires 0 <= j <= |s|
    ensures CountNonZero(s[..j]) <= CountNonZero(s)
    decreases |s| - j
  {
    if j < |s| {
      CountStep(s, j);
      CountPrefix(s, j + 1);
    } else {
      assert s[..j] == s;
    }
  }

  /** Filling an empty slot adds one occupied slot. */
  lemma {:induction false} CountFill(s: seq<int>, i: int, x: int)
    requires 0 <= i < |s| && s[i] == 0 && x != 0
    ensures CountNonZero(s[i := x]) == CountNonZero(s) + 1
  {
    var n := |s| - 1;
    if i == n {
      assert s[i := x][..n] == s[..n];
    } else {
      assert s[i := x][..n] == s[..n][i := x];
      CountFill(s[..n], i, x);
    }
  }

  /** A table with fewer occupied slots than slots has an empty slot. */
  lemma {:induction false} EmptySlot(s: seq<int>) returns (e: int)
    requires CountNonZero(s) < |s|
    ensures 0 <= e < |s| && s[e] == 0
  {
    var n := |s| - 1;
    if s[n] == 0 {
      e := n;
    } else {
      e := EmptySlot(s[..n]);
    }
  }

  /** The slot reached after d probing steps from k's home slot. The source
      computes `hashCode(key) & mask` and `(i + 1) & mask` with
      mask = capacity - 1; for a power-of-two capacity these are the
      remainders modulo the capacity (`JsBits.MaskIsRemainder`). */
  function ProbeSlot(hash: int -> int, k: int, d: int, cap: int): (r: int)
    requires cap > 0
    ensures 0 <= r < cap
  {
    (hash(k) + d) % cap
  }

  lemma {:induction false} ProbeNext(hash: int -> int, k: int, d: int, cap: int)
    requires cap > 0
    ensures ProbeSlot(hash, k, d + 1, cap) == (ProbeSlot(hash, k, d, cap) + 1) % cap
  {
    var a := hash(k) + d;
    var q := a / cap;
    var i := a % cap;
    assert a == cap * q + i;
    if i + 1 < cap {
      DivModUnique(a + 1, cap, q, i + 1);
      DivModUnique(i + 1, cap, 0, i + 1);
    } else {
      DivModUnique(a + 1, cap, q + 1, 0);
      DivModUnique(i + 1, cap, 1, 0);
    }
  }

  /** Every slot lies on every key's probe path, within one lap. */
  lemma {:induction false} ProbeReaches(hash: int -> int, k: int, e: int, cap: int)
    requires 0 <= e < cap
    ensures ProbeSlot(hash, k, (e - hash(k)) % cap, cap) == e
  {
    var h := hash(k);
    var q := (e - h) / cap;
    var r := (e - h) % cap;
    assert e - h == cap * q + r;
    DivModUnique(h + r, cap, -q, e);
  }

  /** k sits d probing steps past its home slot, and every slot it passed on
      the way is occupied, so a probe for k cannot stop before reaching it. */
  predicate ChainTo(keys: seq<int>, hash: int -> int, k: int, d: int)
    requires |keys| > 0
  {
    0 <= d && keys[ProbeSlot(hash, k, d, |keys|)] == k
    && forall e :: 0 <= e < d ==> keys[ProbeSlot(hash, k, e, |keys|)] != 0
  }

  /** Every occupied slot holds a key of m together with its id in m. */
  predicate MapsTo(t: Table, m: map<int, int>)
  {
    |t.keys| == |t.values|
    && forall j :: 0 <= j < |t.keys| && t.keys[j] != 0 ==> t.keys[j] in m && t.values[j] == m[t.keys[j]]
  }

  /** The arrays represent exactly the map m: each occupied slot holds an
      entry of m, and each key of m is reachable along its probe path at the
      distance recorded in dist. */
  predicate Stores(t: Table, hash: int -> int, m: map<int, int>, dist: map<int, int>)
  {
    |t.keys| > 0 && MapsTo(t, m)
    && forall k :: k in m ==> k != 0 && k in dist && ChainTo(t.keys, hash, k, dist[k])
  }

  /** No key occupies two slots. */
  predicate SlotsDistinct(keys: seq<int>)
  {
    forall i, j :: 0 <= i < j < |keys| && keys[i] != 0 ==> keys[i] != keys[j]
  }

  /** The slot a stored key occupies. */
  function SlotOf(keys: seq<int>, hash: int -> int, dist: map<int, int>, k: int): (r: int)
    requires |keys| > 0 && k in dist
    ensures 0 <= r < |keys|
  {
    ProbeSlot(hash, k, dist[k], |keys|)
  }

  /** The arrays represent the abstract order: they store its ids, hold no
      key twice, and `size` counts the occupied slots. */
  predicate Represents(t: Table, hash: int -> int, order: seq<int>, dist: map<int, int>)
  {
    DenseIndex.WellFormed(order)
    && Stores(t, hash, DenseIndex.Ids(order), dist)
    && SlotsDistinct(t.keys)
    && t.size == |order| && CountNonZero(t.keys) == t.size
  }

  /** The capacity bounds: at most half full, a power of two, at least 16
      and at most the largest power-of-two Java array length. */
  predicate Shape(t: Table)
  {
    2 * t.size <= |t.keys| && INITIAL_CAPACITY <= |t.keys| <= MAX_CAPACITY && PowerOfTwo(|t.keys|)
  }

  /** The representation invariant kept by every public operation but `shift`. */
  predicate Valid(t: Table, hash: int -> int, order: seq<int>, dist: map<int, int>)
  {
    Represents(t, hash, order, dist) && Shape(t)
  }

  /** The constructor: 16 empty slots. */
  function New(): (t: Table)
  {
    Table(seq(INITIAL_CAPACITY, _ => 0), seq(INITIAL_CAPACITY, _ => 0), 0)
  }

  /** A new table represents the empty order. */
  lemma {:induction false} NewValid(hash: int -> int)
    ensures Valid(New(), hash, [], map[])
    ensures |New().keys| == INITIAL_CAPACITY
  {
    CountZeros(INITIAL_CAPACITY);
    assert PowerOfTwo(2);
    assert PowerOfTwo(4);
    assert PowerOfTwo(8);
  }

  /** i is the first slot on key's probe path that is empty or holds key,
      reached after d steps. */
  predicate FirstStop(keys: seq<int>, hash: int -> int, key: int, i: int, d: int)
    requires |keys| > 0
  {
    0 <= d && i == ProbeSlot(hash, key, d, |keys|)
    && (keys[i] == 0 || keys[i] == key)
    && forall e :: 0 <= e < d ==>
         keys[ProbeSlot(hash, key, e, |keys|)] != 0 && keys[ProbeSlot(hash, key, e, |keys|)] != key
  }

  /** The probing loop shared by `index`, `index(key, notFound)`, `shift` and
      `resize`: start at the key's home slot and step to the next slot until
      one is empty or holds the key. It ends because some slot is empty. */
  method Find(keys: seq<int>, hash: int -> int, key: int) returns (i: int, ghost d: int)
    requires CountNonZero(keys) < |keys|
    ensures 0 <= i < |keys|
    ensures FirstStop(keys, hash, key, i, d)
  {
    var cap := |keys|;
    ghost var e0 := EmptySlot(keys);
    ghost var off := (e0 - hash(key)) % cap;
    ProbeReaches(hash, key, e0, cap);
    i := hash(key) % cap;
    d := 0;
    while keys[i] != 0 && keys[i] != key
      invariant 0 <= d <= off && i == ProbeSlot(hash, key, d, cap)
      invariant forall e :: 0 <= e < d ==>
                  keys[ProbeSlot(hash, key, e, cap)] != 0 && keys[ProbeSlot(hash, key, e, cap)] != key
      decreases off - d
    {
      ProbeNext(hash, key, d, cap);
      i := (i + 1) % cap;
      d := d + 1;
    }
  }

  /** A probe finds a key exactly when the key is stored, and then the slot
      holds its id. */
  lemma {:induction false} FindMeaning(t: Table, hash: int -> int, m: map<int, int>, dist: map<int, int>, key: int, i: int, d: int)
    requires Stores(t, hash, m, dist) && FirstStop(t.keys, hash, key, i, d)
    ensures t.keys[i] != 0 <==> key in m
    ensures t.keys[i] != 0 ==> t.values[i] == m[key]
  {
  }

  /** Filling an empty slot keeps every existing probe chain intact. */
  lemma {:induction false} ChainFill(keys: seq<int>, hash: int -> int, k: int, d: int, i: int, x: int)
    requires |keys| > 0 && 0 <= i < |keys| && keys[i] == 0 && x != 0 && k != 0
    requires ChainTo(keys, hash, k, d)
    ensures ChainTo(keys[i := x], hash, k, d)
  {
    var keys' := keys[i := x];
    forall e | 0 <= e < d
      ensures keys'[ProbeSlot(hash, k, e, |keys|)] != 0
    {
      assert keys[ProbeSlot(hash, k, e, |keys|)] != 0;
    }
  }

  /** Writing a key into the empty slot its probe stopped at makes it
      reachable there. */
  lemma {:induction false} ChainNew(keys: seq<int>, hash: int -> int, key: int, i: int, d: int)
    requires |keys| > 0 && FirstStop(keys, hash, key, i, d) && keys[i] == 0 && key != 0
    ensures ChainTo(keys[i := key], hash, key, d)
  {
    var keys' := keys[i := key];
    forall e | 0 <= e < d
      ensures keys'[ProbeSlot(hash, key, e, |keys|)] != 0
    {
      assert keys[ProbeSlot(hash, key, e, |keys|)] != 0;
    }
  }

  /** Writing a new key into the slot its probe stopped at makes the key
      reachable and keeps every other key reachable. */
  lemma {:induction false} InsertStores(t: Table, hash: int -> int, m: map<int, int>, dist: map<int, int>,
                     key: int, i: int, d: int, v: int, size: int)
    requires Stores(t, hash, m, dist) && FirstStop(t.keys, hash, key, i, d)
    requires t.keys[i] == 0 && key != 0 && key !in m
    ensures Stores(Table(t.keys[i := key], t.values[i := v], size), hash, m[key := v], dist[key := d])
  {
    var keys' := t.keys[i := key];
    var m' := m[key := v];
    var dist' := dist[key := d];
    forall k | k in m'
      ensures k != 0 && k in dist' && ChainTo(keys', hash, k, dist'[k])
    {
      if k == key {
        ChainNew(t.keys, hash, key, i, d);
      } else {
        ChainFill(t.keys, hash, k, dist[k], i, key);
      }
    }
  }

  /** Writing a key that no slot holds keeps the slots distinct. */
  lemma {:induction false} InsertDistinct(keys: seq<int>, i: int, key: int)
    requires SlotsDistinct(keys) && 0 <= i < |keys| && keys[i] == 0
    requires forall j :: 0 <= j < |keys| ==> keys[j] != key
    ensures SlotsDistinct(keys[i := key])
  {
  }


  /** Writing a new key with id size + 1 into the empty slot its probe
      stopped at represents the order with the key appended. */
  lemma {:induction false} InsertRepresents(t: Table, hash: int -> int, order: seq<int>, dist: map<int, int>, key: int, i: int, d: int)
    requires Represents(t, hash, order, dist) && FirstStop(t.keys, hash, key, i, d)
    requires t.keys[i] == 0 && key != 0
    ensures key !in order
    ensures Represents(Table(t.keys[i := key], t.values[i := |order| + 1], |order| + 1), hash, order + [key], dist[key := d])
  {
    var m := DenseIndex.Ids(order);
    FindMeaning(t, hash, m, dist, key, i, d);
    DenseIndex.IdsAppend(order, key);
    DenseIndex.AppendKeepsWellFormed(order, key);
    InsertStores(t, hash, m, dist, key, i, d, |order| + 1, |order| + 1);
    InsertDistinct(t.keys, i, key);
    CountFill(t.keys, i, key);
  }

  /** `index(key, notFound)`: the id of a stored key, otherwise notFound.
      Key 0 is not rejected here: the probe stops at the first empty slot. */
  method IndexOr(t: Table, hash: int -> int, key: int, notFound: int, ghost order: seq<int>, ghost dist: map<int, int>)
    returns (r: int)
    requires Valid(t, hash, order, dist)
    ensures r == DenseIndex.IndexOr(order, key, notFound)
  {
    var i, d := Find(t.keys, hash, key);
    FindMeaning(t, hash, DenseIndex.Ids(order), dist, key, i, d);
    if t.keys[i] != 0 {
      r := t.values[i];
    } else {
      r := notFound;
    }
  }

  /** `has(key)`, that is `index(key, 0) != 0`: whether key is stored. */
  method Has(t: Table, hash: int -> int, key: int, ghost order: seq<int>, ghost dist: map<int, int>)
    returns (r: bool)
    requires Valid(t, hash, order, dist)
    ensures r <==> key in order
  {
    var id := IndexOr(t, hash, key, 0, order, dist);
    r := id != 0;
  }

  /** Every occupied new slot holds an entry of m whose old slot is below j. */
  predicate CopiedSlots(t: Table, hash: int -> int, m: map<int, int>, dist: map<int, int>, nk: seq<int>, nv: seq<int>, j: int)
    requires Stores(t, hash, m, dist)
  {
    |nk| == |nv|
    && forall s :: 0 <= s < |nk| && nk[s] != 0 ==>
         nk[s] in m && nv[s] == m[nk[s]] && SlotOf(t.keys, hash, dist, nk[s]) < j
  }

  /** Every key of an old slot below j is reachable in the new arrays. */
  predicate CopiedChains(t: Table, hash: int -> int, nk: seq<int>, nd: map<int, int>, j: int)
  {
    |nk| > 0 && 0 <= j <= |t.keys|
    && forall jj :: 0 <= jj < j && t.keys[jj] != 0 ==>
         t.keys[jj] in nd && ChainTo(nk, hash, t.keys[jj], nd[t.keys[jj]])
  }

  /** The state of the resize loop after the old slots below j. */
  predicate Copied(t: Table, hash: int -> int, m: map<int, int>, dist: map<int, int>,
                   nk: seq<int>, nv: seq<int>, nd: map<int, int>, j: int)
    requires Stores(t, hash, m, dist)
  {
    CopiedSlots(t, hash, m, dist, nk, nv, j) && CopiedChains(t, hash, nk, nd, j)
    && SlotsDistinct(nk) && CountNonZero(nk) == CountNonZero(t.keys[..j])
  }

  /** The key in old slot j is stored at slot j. */
  lemma {:induction false} SlotOfOccupied(t: Table, hash: int -> int, m: map<int, int>, dist: map<int, int>, j: int)
    requires Stores(t, hash, m, dist) && SlotsDistinct(t.keys)
    requires 0 <= j < |t.keys| && t.keys[j] != 0
    ensures t.keys[j] in m && t.keys[j] in dist && SlotOf(t.keys, hash, dist, t.keys[j]) == j
  {
    var k := t.keys[j];
    var s := SlotOf(t.keys, hash, dist, k);
    assert t.keys[s] == k;
  }

  /** Copying old slot j into new slot i keeps `CopiedSlots`; the key was
      in no new slot before. */
  lemma {:induction false} CopySlotsStep(t: Table, hash: int -> int, m: map<int, int>, dist: map<int, int>,
                      nk: seq<int>, nv: seq<int>, j: int, i: int)
    requires Stores(t, hash, m, dist) && SlotsDistinct(t.keys)
    requires CopiedSlots(t, hash, m, dist, nk, nv, j) && 0 <= j < |t.keys| && t.keys[j] != 0 && 0 <= i < |nk|
    ensures forall s :: 0 <= s < |nk| ==> nk[s] != t.keys[j]
    ensures CopiedSlots(t, hash, m, dist, nk[i := t.keys[j]], nv[i := t.values[j]], j + 1)
  {
    SlotOfOccupied(t, hash, m, dist, j);
  }

  /** Copying old slot j into the new slot its probe stopped at keeps
      `CopiedChains`. */
  lemma {:induction false} CopyChainsStep(t: Table, hash: int -> int, nk: seq<int>, nd: map<int, int>, j: int, i: int, d: int)
    requires SlotsDistinct(t.keys) && CopiedChains(t, hash, nk, nd, j) && j < |t.keys| && t.keys[j] != 0
    requires FirstStop(nk, hash, t.keys[j], i, d) && nk[i] == 0
    ensures CopiedChains(t, hash, nk[i := t.keys[j]], nd[t.keys[j] := d], j + 1)
  {
    var k := t.keys[j];
    var nk' := nk[i := k];
    var nd' := nd[k := d];
    forall jj | 0 <= jj < j + 1 && t.keys[jj] != 0
      ensures t.keys[jj] in nd' && ChainTo(nk', hash, t.keys[jj], nd'[t.keys[jj]])
    {
      if jj == j {
        ChainNew(nk, hash, k, i, d);
      } else {
        ChainFill(nk, hash, t.keys[jj], nd[t.keys[jj]], i, k);
      }
    }
  }

  /** One step of the resize loop keeps `Copied`. */
  lemma {:induction false} CopyStep(t: Table, hash: int -> int, m: map<int, int>, dist: map<int, int>,
                 nk: seq<int>, nv: seq<int>, nd: map<int, int>, j: int, i: int, d: int)
    requires Stores(t, hash, m, dist) && SlotsDistinct(t.keys)
    requires Copied(t, hash, m, dist, nk, nv, nd, j) && j < |t.keys| && t.keys[j] != 0
    requires FirstStop(nk, hash, t.keys[j], i, d)
    ensures Copied(t, hash, m, dist, nk[i := t.keys[j]], nv[i := t.values[j]], nd[t.keys[j] := d], j + 1)
  {
    var k := t.keys[j];
    CopySlotsStep(t, hash, m, dist, nk, nv, j, i);
    assert nk[i] == 0;
    CopyChainsStep(t, hash, nk, nd, j, i, d);
    InsertDistinct(nk, i, k);
    CountFill(nk, i, k);
    CountStep(t.keys, j);
  }

  /** At the end of the resize loop the new arrays store the whole map. */
  lemma {:induction false} CopyDone(t: Table, hash: int -> int, m: map<int, int>, dist: map<int, int>,
                 nk: seq<int>, nv: seq<int>, nd: map<int, int>, size: int)
    requires Stores(t, hash, m, dist)
    requires Copied(t, hash, m, dist, nk, nv, nd, |t.keys|)
    ensures Stores(Table(nk, nv, size), hash, m, nd)
    ensures CountNonZero(nk) == CountNonZero(t.keys)
  {
    assert t.keys[..|t.keys|] == t.keys;
    forall k | k in m
      ensures k in nd && ChainTo(nk, hash, k, nd[k])
    {
      var s := SlotOf(t.keys, hash, dist, k);
      assert t.keys[s] == k;
    }
  }

  /** `resize(newCapacity)`: rehash every occupied slot into new arrays of
      the given length. The source's probe for a free slot only ends when one
      exists, so more slots than keys are required. The key-to-id map is
      preserved exactly. */
  method Resize(t: Table, hash: int -> int, newCap: int, ghost m: map<int, int>, ghost dist: map<int, int>)
    returns (t': Table, ghost dist': map<int, int>)
    requires Stores(t, hash, m, dist) && SlotsDistinct(t.keys)
    requires CountNonZero(t.keys) < newCap
    ensures |t'.keys| == newCap && t'.size == t.size
    ensures Stores(t', hash, m, dist') && SlotsDistinct(t'.keys)
    ensures CountNonZero(t'.keys) == CountNonZero(t.keys)
  {
    var nk := seq(newCap, _ => 0);
    var nv := seq(newCap, _ => 0);
    dist' := map[];
    CountZeros(newCap);
    assert t.keys[..0] == [];
    var j := 0;
    while j < |t.keys|
      invariant Copied(t, hash, m, dist, nk, nv, dist', j) && |nk| == newCap
    {
      nk, nv, dist' := CopySlot(t, hash, m, dist, nk, nv, dist', j);
      j := j + 1;
    }
    CopyDone(t, hash, m, dist, nk, nv, dist', t.size);
    t' := Table(nk, nv, t.size);
  }

  /** One turn of the resize loop: an occupied old slot j is rehashed into
      the first free new slot of its probe. */
  method CopySlot(t: Table, hash: int -> int, ghost m: map<int, int>, ghost dist: map<int, int>,
                  nk: seq<int>, nv: seq<int>, ghost nd: map<int, int>, j: int)
    returns (nk': seq<int>, nv': seq<int>, ghost nd': map<int, int>)
    requires Stores(t, hash, m, dist) && SlotsDistinct(t.keys) && CountNonZero(t.keys) < |nk|
    requires Copied(t, hash, m, dist, nk, nv, nd, j) && 0 <= j < |t.keys|
    ensures Copied(t, hash, m, dist, nk', nv', nd', j + 1) && |nk'| == |nk|
  {
    if t.keys[j] != 0 {
      CountPrefix(t.keys, j);
      var i, d := Find(nk, hash, t.keys[j]);
      CopyStep(t, hash, m, dist, nk, nv, nd, j, i, d);
      nk', nv', nd' := nk[i := t.keys[j]], nv[i := t.values[j]], nd[t.keys[j] := d];
    } else {
      CountStep(t.keys, j);
      nk', nv', nd' := nk, nv, nd;
    }
  }

  /** Doubling a capacity below 2^30 stays a Java int, a power of two, and
      leaves the table at most half full after one more key. */
  lemma {:induction false} Doubled(cap: int, size: int)
    requires INITIAL_CAPACITY <= cap < MAX_CAPACITY && PowerOfTwo(cap) && 2 * (size - 1) <= cap
    ensures ToInt32(cap * 2) == cap * 2
    ensures PowerOfTwo(cap * 2) && cap * 2 <= MAX_CAPACITY && 2 * size <= cap * 2
  {
    InRangeIdentities(cap * 2);
    assert (cap * 2) / 2 == cap;
    PowerOfTwoAtMost(cap * 2);
  }

  /** `index(key)`: the id of a stored key; a new key is written into the
      slot its probe stopped at with id size + 1, and the table doubles once
      it is more than half full. Key 0 raises NullPointerException; doubling a
      2^30-slot table overflows the Java int length and raises
      NegativeArraySizeException. */
  method Index(t: Table, hash: int -> int, key: int, ghost order: seq<int>, ghost dist: map<int, int>)
    returns (r: Result<(Table, int)>, ghost order': seq<int>, ghost dist': map<int, int>)
    requires Valid(t, hash, order, dist)
    ensures key == 0 ==> r == Failure(NullKey)
    ensures key != 0 && (key in order || |t.keys| < MAX_CAPACITY) ==> r.Success?
    ensures r.Failure? ==> r == Failure(NullKey) || r == Failure(NegativeArraySize)
    ensures r.Success? ==> DenseIndex.Index(order, key) == Success((order', r.value.1))
    ensures r.Success? ==> Valid(r.value.0, hash, order', dist')
    ensures r.Success? ==> |t.keys| <= |r.value.0.keys|
  {
    order', dist' := order, dist;
    if key == 0 {
      return Failure(NullKey), order', dist';
    }
    var cap := |t.keys|;
    var i, d := Find(t.keys, hash, key);
    FindMeaning(t, hash, DenseIndex.Ids(order), dist, key, i, d);
    DenseIndex.IndexAppends(order, key);
    if t.keys[i] != 0 {
      return Success((t, t.values[i])), order', dist';
    }
    InsertRepresents(t, hash, order, dist, key, i, d);
    var size := t.size + 1;
    var t1 := Table(t.keys[i := key], t.values[i := size], size);
    order' := order + [key];
    r, dist' := Grow(t1, hash, order', dist[key := d]);
  }

  /** The end of `index` for a new key: doubles the capacity once the table
      is more than half full; a table already at the largest capacity
      overflows the doubled length to a negative one. */
  method Grow(t: Table, hash: int -> int, ghost order: seq<int>, ghost dist: map<int, int>)
    returns (r: Result<(Table, int)>, ghost dist': map<int, int>)
    requires Represents(t, hash, order, dist)
    requires INITIAL_CAPACITY <= |t.keys| <= MAX_CAPACITY && PowerOfTwo(|t.keys|) && 2 * (t.size - 1) <= |t.keys|
    ensures r.Failure? ==> r == Failure(NegativeArraySize) && |t.keys| == MAX_CAPACITY
    ensures r.Success? ==> r.value.1 == t.size && Valid(r.value.0, hash, order, dist') && |t.keys| <= |r.value.0.keys|
  {
    var cap, size := |t.keys|, t.size;
    var t1 := t;
    dist' := dist;
    if size * 2 > cap {
      var newCap := ToInt32(cap * 2);
      if cap < MAX_CAPACITY {
        Doubled(cap, size);
        assert newCap == cap * 2;
      } else {
        assert newCap == -TWO_31 by {
          assert cap * 2 == TWO_31;
        }
      }
      if newCap < 0 {
        return Failure(NegativeArraySize), dist';
      }
      ghost var m' := DenseIndex.Ids(order);
      t1, dist' := Resize(t1, hash, newCap, m', dist');
      assert Shape(t1);
      assert Represents(t1, hash, order, dist') by {
        assert Stores(t1, hash, m', dist') && SlotsDistinct(t1.keys);
      }
    }
    r := Success((t1, size));
  }

  /** The orderedKeys loop after the slots below j: `done` holds the
      positions written so far, which are the ids - 1 of the keys below j;
      a written position holds its key of the order, the others are as in
      out. */
  predicate Written(t: Table, order: seq<int>, out: seq<int>, o: seq<int>, done: set<int>, j: int)
  {
    0 <= j <= |t.keys| <= |t.values| && |o| == |out|
    && (forall jj :: 0 <= jj < j && t.keys[jj] != 0 ==> t.values[jj] - 1 in done)
    && (forall p :: p in done ==> 0 <= p < |order| && p < |out|)
    && forall p :: 0 <= p < |o| ==> o[p] == if p in done then order[p] else out[p]
  }

  /** One step of the orderedKeys loop keeps `Written`: the key of slot j
      sits in the order at its id - 1. */
  lemma {:induction false} WriteStep(t: Table, order: seq<int>, out: seq<int>, o: seq<int>, done: set<int>, j: int)
    requires Written(t, order, out, o, done, j) && j < |t.keys| && t.keys[j] != 0
    requires 1 <= t.values[j] <= |order| && order[t.values[j] - 1] == t.keys[j] && t.values[j] - 1 < |o|
    ensures Written(t, order, out, o[t.values[j] - 1 := t.keys[j]], done + {t.values[j] - 1}, j + 1)
  {
  }

  /** The id in an occupied slot is the 1-based position of its key. */
  lemma {:induction false} IdAt(t: Table, hash: int -> int, order: seq<int>, dist: map<int, int>, j: int)
    requires Represents(t, hash, order, dist) && 0 <= j < |t.keys| && t.keys[j] != 0
    ensures 1 <= t.values[j] <= |order| && order[t.values[j] - 1] == t.keys[j]
  {
    DenseIndex.IdsDense(order);
  }

  /** Every key of the order occupies a slot holding its id. */
  lemma {:induction false} SlotsOfOrder(t: Table, hash: int -> int, order: seq<int>, dist: map<int, int>, p: int)
    requires Represents(t, hash, order, dist) && 0 <= p < |order|
    ensures order[p] in dist
    ensures t.keys[SlotOf(t.keys, hash, dist, order[p])] == order[p]
    ensures t.values[SlotOf(t.keys, hash, dist, order[p])] == p + 1
  {
    DenseIndex.IdsDense(order);
  }

  /** At the end of the orderedKeys loop every position below size has been
      written. */
  lemma {:induction false} WriteDone(t: Table, hash: int -> int, order: seq<int>, dist: map<int, int>,
                  out: seq<int>, o: seq<int>, done: set<int>)
    requires Represents(t, hash, order, dist) && Written(t, order, out, o, done, |t.keys|)
    ensures |order| <= |out| && o[..|order|] == order && o[|order|..] == out[|order|..]
  {
    forall p | 0 <= p < |order|
      ensures p in done
    {
      SlotsOfOrder(t, hash, order, dist, p);
    }
    if |order| > 0 {
      assert |order| - 1 in done;
    }
  }

  /** `orderedKeys(out)`: writes each stored key at index id - 1, that is,
      the keys in first-seen order; the rest of out is left as it was. An out
      shorter than size raises ArrayIndexOutOfBoundsException. */
  method OrderedKeys(t: Table, hash: int -> int, out: seq<int>, ghost order: seq<int>, ghost dist: map<int, int>)
    returns (r: Result<seq<int>>)
    requires Valid(t, hash, order, dist)
    ensures r.Failure? <==> |out| < |order|
    ensures r.Failure? ==> r.error == IndexOutOfBounds
    ensures r.Success? ==> |r.value| == |out| && r.value[..|order|] == order
    ensures r.Success? ==> r.value[|order|..] == out[|order|..]
  {
    var o := out;
    ghost var done: set<int> := {};
    var j := 0;
    while j < |t.keys|
      invariant Written(t, order, out, o, done, j)
    {
      var key := t.keys[j];
      if key != 0 {
        var p := t.values[j] - 1;
        IdAt(t, hash, order, dist, j);
        if p >= |o| {
          return Failure(IndexOutOfBounds);
        }
        WriteStep(t, order, out, o, done, j);
        o := o[p := key];
        done := done + {p};
      }
      j := j + 1;
    }
    WriteDone(t, hash, order, dist, out, o, done);
    r := Success(o);
  }

  /** `shift(key)` loop after the slots below j: every occupied slot below j
      whose id exceeded v has been decremented. */
  predicate Decremented(keys: seq<int>, old_values: seq<int>, values: seq<int>, v: int, j: int)
  {
    0 <= j <= |keys| && |values| == |old_values|
    && forall s :: 0 <= s < |values| ==>
         values[s] == if s < j && s < |keys| && keys[s] != 0 && old_values[s] > v then old_values[s] - 1 else old_values[s]
  }

  /** The table after `shift`: the same capacity and size, every occupied
      slot holds a key of rest with its id in rest, and every key of rest
      still occupies a slot. */
  predicate ShiftResult(t: Table, t': Table, rest: seq<int>)
  {
    |t'.keys| == |t.keys| && t'.size == t.size && MapsTo(t', DenseIndex.Ids(rest))
    && forall k :: k in rest ==> k in t'.keys
  }

  /** Clearing key's slot and decrementing every id above key's gives the
      ids of the order without key. */
  lemma {:induction false} ShiftMeaning(t: Table, hash: int -> int, order: seq<int>, dist: map<int, int>, key: int, i: int, values: seq<int>)
    requires Represents(t, hash, order, dist) && 0 <= i < |t.keys| && t.keys[i] == key && key != 0
    requires Decremented(t.keys[i := 0], t.values, values, t.values[i], |t.keys|)
    ensures key in order
    ensures ShiftResult(t, Table(t.keys[i := 0], values, t.size), DenseIndex.Remove(order, key))
  {
    ShiftRenumbers(t, hash, order, dist, key, i, values);
    ShiftKeepsKeys(t, hash, order, dist, key, i);
  }

  /** The remaining slots hold the renumbered ids. */
  lemma {:induction false} ShiftRenumbers(t: Table, hash: int -> int, order: seq<int>, dist: map<int, int>, key: int, i: int, values: seq<int>)
    requires Represents(t, hash, order, dist) && 0 <= i < |t.keys| && t.keys[i] == key && key != 0
    requires Decremented(t.keys[i := 0], t.values, values, t.values[i], |t.keys|)
    ensures key in order
    ensures MapsTo(Table(t.keys[i := 0], values, t.size), DenseIndex.Ids(DenseIndex.Remove(order, key)))
  {
    var m := DenseIndex.Ids(order);
    var keys' := t.keys[i := 0];
    assert key in m && t.values[i] == m[key];
    DenseIndex.RenumberIsRemove(order, key);
    var m' := DenseIndex.Ids(DenseIndex.Remove(order, key));
    assert m' == DenseIndex.Renumber(m, key);
    forall s | 0 <= s < |keys'| && keys'[s] != 0
      ensures keys'[s] in m' && values[s] == m'[keys'[s]]
    {
      var k := t.keys[s];
      assert k != key && keys'[s] == k;
      assert k in m && t.values[s] == m[k];
      assert values[s] == if m[k] > m[key] then m[k] - 1 else m[k];
      assert DenseIndex.Renumber(m, key)[k] == if m[k] > m[key] then m[k] - 1 else m[k];
    }
  }

  /** Every other key still occupies its slot. */
  lemma {:induction false} ShiftKeepsKeys(t: Table, hash: int -> int, order: seq<int>, dist: map<int, int>, key: int, i: int)
    requires Represents(t, hash, order, dist) && 0 <= i < |t.keys| && t.keys[i] == key && key != 0
    ensures key in order
    ensures forall k :: k in DenseIndex.Remove(order, key) ==> k in t.keys[i := 0]
  {
    var keys' := t.keys[i := 0];
    assert key in DenseIndex.Ids(order);
    DenseIndex.RemoveKeepsWellFormed(order, key);
    forall k | k in DenseIndex.Remove(order, key)
      ensures k in keys'
    {
      var s := SlotOf(t.keys, hash, dist, k);
      assert t.keys[s] == k && s != i;
      assert keys'[s] == k;
    }
  }

  /** `shift(key)`: clears the key's slot, decrements every id above the
      key's and returns the key's id, or 0 when the key is absent; key 0
      raises NullPointerException. `size` is not decremented and the cleared
      slot may cut the probe chain of another key, so the result is described
      by `ShiftResult` and not by `Valid`. */
  method Shift(t: Table, hash: int -> int, key: int, ghost order: seq<int>, ghost dist: map<int, int>)
    returns (r: Result<(Table, int)>)
    requires Valid(t, hash, order, dist)
    ensures r.Failure? <==> key == 0
    ensures r.Failure? ==> r.error == NullKey
    ensures r.Success? ==> r.value.1 == DenseIndex.IndexOr(order, key, 0)
    ensures r.Success? && key !in order ==> r.value.0 == t
    ensures r.Success? && key in order ==> ShiftResult(t, r.value.0, DenseIndex.Remove(order, key))
  {
    if key == 0 {
      return Failure(NullKey);
    }
    var i, d := Find(t.keys, hash, key);
    FindMeaning(t, hash, DenseIndex.Ids(order), dist, key, i, d);
    if t.keys[i] == 0 {
      return Success((t, 0));
    }
    var keys := t.keys[i := 0];
    var values := t.values;
    var j := 0;
    while j < |keys|
      invariant Decremented(keys, t.values, values, t.values[i], j)
    {
      if keys[j] != 0 && values[j] > values[i] {
        values := values[j := values[j] - 1];
      }
      j := j + 1;
    }
    ShiftMeaning(t, hash, order, dist, key, i, values);
    r := Success((Table(keys, values, t.size), values[i]));
  }

  /** Java `Integer.highestOneBit`: the sign bit for a negative int, 0 for 0,
      and otherwise the largest power of two not above x. */
  function HighestOneBit(x: Int32): (r: Int32)
    ensures x < 0 ==> r == -TWO_31
    ensures x == 0 ==> r == 0
    ensures x > 0 ==> PowerOfTwo(r) && r <= x < 2 * r
  {
    if x < 0 then -TWO_31 else if x == 0 then 0 else PowerBelow(x)
  }

  /** The largest power of two not above x. */
  function PowerBelow(x: int): (r: int)
    requires x >= 1
    ensures PowerOfTwo(r) && 1 <= r <= x < 2 * r
  {
    if x == 1 then 1 else 2 * PowerBelow(x / 2)
  }

  /** Java evaluates `count * 4 - 1` in int arithmetic. When the wrapped
      `count * 2` is positive, the wrapped `count * 4 - 1` is twice it minus
      one as long as that fits, and negative otherwise. */
  lemma {:induction false} WrappedQuadruple(count: Int32)
    requires ToInt32(count * 2) > 0
    ensures ToInt32(count * 2) <= MAX_CAPACITY ==> ToInt32(count * 4 - 1) == 2 * ToInt32(count * 2) - 1
    ensures ToInt32(count * 2) > MAX_CAPACITY ==> ToInt32(count * 4 - 1) < 0
  {
    var c2: int := ToInt32(count * 2);
    var x: int := ToInt32(count * 4 - 1);
    var a := (count * 2 + TWO_31) / TWO_32;
    var b := (count * 4 - 1 + TWO_31) / TWO_32;
    assert c2 == count * 2 - TWO_32 * a;
    assert x == count * 4 - 1 - TWO_32 * b;
    assert x - (2 * c2 - 1) == TWO_32 * (2 * a - b);
  }

  /** `preallocate(count)`: when count * 2 (in int arithmetic) exceeds the
      capacity, resize to `highestOneBit(count * 4 - 1)`; returns count. */
  method Preallocate(t: Table, hash: int -> int, count: Int32, ghost order: seq<int>, ghost dist: map<int, int>)
    returns (r: Result<(Table, int)>, ghost dist': map<int, int>)
    requires Valid(t, hash, order, dist)
    ensures r.Success? ==> r.value.1 == count && Valid(r.value.0, hash, order, dist')
    ensures r.Success? ==> |t.keys| <= |r.value.0.keys|
    ensures 0 <= count <= MAX_CAPACITY / 2 ==> r.Success? && 2 * count <= |r.value.0.keys|
    ensures MAX_CAPACITY / 2 < count < MAX_CAPACITY ==> r == Failure(NegativeArraySize)
    ensures MAX_CAPACITY <= count ==> r == Success((t, count))
    ensures r.Failure? ==> r.error == NegativeArraySize
  {
    dist' := dist;
    var c2 := ToInt32(count * 2);
    if c2 > |t.keys| {
      WrappedQuadruple(count);
      var c := HighestOneBit(ToInt32(count * 4 - 1));
      if c < 0 {
        return Failure(NegativeArraySize), dist';
      }
      PowerOfTwoAtMost(c);
      var t1;
      t1, dist' := Resize(t, hash, c, DenseIndex.Ids(order), dist);
      return Success((t1, count)), dist';
    }
    r := Success((t, count));
  }
}
