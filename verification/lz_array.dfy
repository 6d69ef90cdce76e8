/** `Lz78Data.readArray` and `decodeGlobalStacks` of simple_heatmap.js: the
    stack table arrives as LZ78 phrases. Every array is its length, then
    (phrase index, element) pairs: the indexed phrase is copied out and,
    while the array is not yet full, one more element follows and the
    phrase extended by it joins the dictionary. Like the other readers, it
    is modelled over the values successive `nextVarInt` calls return
    (`DataBuffer.Tok`; past the end of the data a read yields 0). */
module LzArrays {
  import opened Common
  import opened Interning
  import DataBuffer

  /** `lz78`: entry 0 is the empty chunk and every later entry is an
      earlier one extended by one element (`copyWithNext`). */
  predicate DictOk(table: seq<seq<int>>)
  {
    |table| > 0 && table[0] == []
    && forall k :: 1 <= k < |table| ==> |table[k]| > 0 && table[k][..|table[k]| - 1] in table[..k]
  }

  /** The state of an `Lz78Data`: the position of its next value and its
      dictionary. */
  datatype Reader = Reader(at: int, table: seq<seq<int>>)

  /** `new Lz78Data(data)` reading from value position at. */
  function Start(at: int): (r: Reader)
    ensures DictOk(r.table) && |r.table| == 1
  {
    Reader(at, [[]])
  }

  /** The `while (index < size)` loop, got holding the elements written so
      far. A phrase index outside the dictionary reads `undefined`, whose
      `data` raises a TypeError. A phrase may carry the array past size:
      the JavaScript array then simply grows. */
  function ReadLoop(toks: seq<int>, r: Reader, size: int, got: seq<int>): (x: Result<(seq<int>, Reader)>)
    decreases size - |got|
  {
    if |got| >= size then Success((got, r))
    else
      var id := DataBuffer.Tok(toks, r.at);
      if !(0 <= id < |r.table|) then Failure(TypeError)
      else
        var got' := got + r.table[id];
        if |got'| < size then
          var e := DataBuffer.Tok(toks, r.at + 1);
          ReadLoop(toks, Reader(r.at + 2, r.table + [r.table[id] + [e]]), size, got' + [e])
        else Success((got', Reader(r.at + 1, r.table)))
  }

  /** `readArray()`: the size, then the loop; `new Array(size)` raises a
      RangeError on a negative size. */
  function ReadArray(toks: seq<int>, r: Reader): Result<(seq<int>, Reader)>
  {
    var size := DataBuffer.Tok(toks, r.at);
    if size < 0 then Failure(NegativeArraySize)
    else ReadLoop(toks, Reader(r.at + 1, r.table), size, [])
  }

  /** count successive `readArray` calls on one reader. */
  function ReadArrays(toks: seq<int>, r: Reader, count: nat): (x: Result<(seq<seq<int>>, Reader)>)
    ensures x.Success? ==> |x.value.0| == count
    decreases count
  {
    if count == 0 then Success(([], r))
    else
      var a := ReadArray(toks, r);
      if a.Failure? then Failure(a.error)
      else
        var b := ReadArrays(toks, a.value.1, count - 1);
        if b.Failure? then Failure(b.error)
        else Success(([a.value.0] + b.value.0, b.value.1))
  }

  /** `decodeGlobalStacks(data)` on a fresh buffer: the number of stacks,
      then each stack. */
  function DecodeGlobalStacks(toks: seq<int>): Result<seq<seq<int>>>
  {
    var count := DataBuffer.Tok(toks, 0);
    if count < 0 then Failure(NegativeArraySize)
    else
      var x := ReadArrays(toks, Start(1), count);
      if x.Failure? then Failure(x.error) else Success(x.value.0)
  }

  // ---- What the reader keeps ----

  /** Extending an entry by one element keeps the dictionary well formed. */
  lemma {:induction false} DictStep(table: seq<seq<int>>, id: int, e: int)
    requires DictOk(table) && 0 <= id < |table|
    ensures DictOk(table + [table[id] + [e]]) && Extends(table, table + [table[id] + [e]])
  {
    var t2 := table + [table[id] + [e]];
    assert t2[|table|][..|t2[|table|]| - 1] == table[id];
    assert t2[..|table|] == table;
    forall k | 1 <= k < |t2|
      ensures |t2[k]| > 0 && t2[k][..|t2[k]| - 1] in t2[..k]
    {
      if k < |table| {
        assert t2[..k] == table[..k];
      }
    }
  }

  /** One turn of the loop that is not the last. */
  lemma {:induction false} ReadLoopStep(toks: seq<int>, r: Reader, size: int, got: seq<int>, id: int, e: int)
    requires |got| < size && id == DataBuffer.Tok(toks, r.at) && 0 <= id < |r.table|
    requires |got + r.table[id]| < size && e == DataBuffer.Tok(toks, r.at + 1)
    ensures ReadLoop(toks, r, size, got)
            == ReadLoop(toks, Reader(r.at + 2, r.table + [r.table[id] + [e]]), size, got + r.table[id] + [e])
  {
  }

  /** The loop returns at least size elements, starting with those it had,
      and only extends the dictionary, each new entry an earlier one plus
      one element. */
  lemma {:induction false} ReadLoopGrows(toks: seq<int>, r: Reader, size: int, got: seq<int>)
    requires DictOk(r.table)
    ensures var x := ReadLoop(toks, r, size, got);
            x.Success? ==>
              |x.value.0| >= size && x.value.0[..|got|] == got
              && DictOk(x.value.1.table) && Extends(r.table, x.value.1.table)
    decreases size - |got|
  {
    if |got| < size {
      var id := DataBuffer.Tok(toks, r.at);
      if 0 <= id < |r.table| {
        var got' := got + r.table[id];
        if |got'| < size {
          var e := DataBuffer.Tok(toks, r.at + 1);
          var t2 := r.table + [r.table[id] + [e]];
          DictStep(r.table, id, e);
          ReadLoopStep(toks, r, size, got, id, e);
          var g2 := got' + [e];
          ReadLoopGrows(toks, Reader(r.at + 2, t2), size, g2);
          var x := ReadLoop(toks, Reader(r.at + 2, t2), size, g2);
          if x.Success? {
            PrefixOfPrefix(x.value.0, got, g2);
            ExtendsTrans(r.table, t2, x.value.1.table);
          }
        } else {
          assert got'[..|got|] == got;
        }
      }
    }
  }

  lemma {:induction false} PrefixOfPrefix(s: seq<int>, a: seq<int>, b: seq<int>)
    requires |a| <= |b| <= |s| && s[..|b|] == b && b[..|a|] == a
    ensures s[..|a|] == a
  {
    assert s[..|a|] == s[..|b|][..|a|];
  }

  /** Every array read is at least as long as its size, and the dictionary
      only grows by one-element extensions. */
  lemma {:induction false} ReadArrayGrows(toks: seq<int>, r: Reader)
    requires DictOk(r.table)
    ensures var x := ReadArray(toks, r);
            x.Success? ==>
              |x.value.0| >= DataBuffer.Tok(toks, r.at) >= 0
              && DictOk(x.value.1.table) && Extends(r.table, x.value.1.table)
  {
    ReadLoopGrows(toks, Reader(r.at + 1, r.table), DataBuffer.Tok(toks, r.at), []);
  }

  // ---- An encoder the reader inverts ----

  /** The longest of the entries from i on that starts rest, or best. */
  function Longest(table: seq<seq<int>>, rest: seq<int>, i: nat, best: nat): (r: nat)
    requires best < |table| && table[best] <= rest
    ensures r < |table| && table[r] <= rest && |table[r]| >= |table[best]|
    decreases |table| - i
  {
    if i >= |table| then best
    else if table[i] <= rest && |table[i]| > |table[best]| then Longest(table, rest, i + 1, i)
    else Longest(table, rest, i + 1, best)
  }

  /** The values an LZ78 writer emits for the rest of an array: the longest
      known phrase it starts with, then, unless that phrase ends the array,
      the next element, and the extended phrase becomes known. Returns the
      values and the dictionary after them. */
  function EncodeLoop(table: seq<seq<int>>, rest: seq<int>): (r: (seq<int>, seq<seq<int>>))
    requires |table| > 0 && table[0] == []
    ensures |r.1| > 0 && r.1[0] == []
    decreases |rest|
  {
    if |rest| == 0 then ([], table)
    else
      var id := Longest(table, rest, 0, 0);
      var p := table[id];
      if |p| == |rest| then ([id], table)
      else
        var e := rest[|p|];
        var tail := EncodeLoop(table + [p + [e]], rest[|p| + 1..]);
        ([id, e] + tail.0, tail.1)
  }

  /** One array: its length, then its phrases. */
  function EncodeArray(table: seq<seq<int>>, a: seq<int>): (r: (seq<int>, seq<seq<int>>))
    requires |table| > 0 && table[0] == []
    ensures |r.1| > 0 && r.1[0] == []
  {
    var x := EncodeLoop(table, a);
    ([|a|] + x.0, x.1)
  }

  /** The arrays one after another, sharing one dictionary. */
  function EncodeArrays(table: seq<seq<int>>, arrays: seq<seq<int>>): (r: (seq<int>, seq<seq<int>>))
    requires |table| > 0 && table[0] == []
    ensures |r.1| > 0 && r.1[0] == []
    decreases |arrays|
  {
    if |arrays| == 0 then ([], table)
    else
      var x := EncodeArray(table, arrays[0]);
      var y := EncodeArrays(x.1, arrays[1..]);
      (x.0 + y.0, y.1)
  }

  /** The whole stack table: the number of stacks, then the stacks. */
  function EncodeGlobalStacks(arrays: seq<seq<int>>): seq<int>
  {
    [|arrays|] + EncodeArrays([[]], arrays).0
  }

  // ---- Round trip ----

  /** The values of a phrase that does not end the array: the rest of the
      encoding follows the index and the element. */
  lemma {:induction false} EncodeLoopStep(table: seq<seq<int>>, rest: seq<int>, id: nat, e: int)
    requires |table| > 0 && table[0] == [] && |rest| > 0
    requires id == Longest(table, rest, 0, 0) && |table[id]| < |rest| && e == rest[|table[id]|]
    ensures rest == table[id] + [e] + rest[|table[id]| + 1..]
    ensures EncodeLoop(table, rest).0 == [id, e] + EncodeLoop(table + [table[id] + [e]], rest[|table[id]| + 1..]).0
    ensures EncodeLoop(table, rest).1 == EncodeLoop(table + [table[id] + [e]], rest[|table[id]| + 1..]).1
  {
    var p := table[id];
    assert rest[..|p|] == p;
    assert rest == rest[..|p|] + [e] + rest[|p| + 1..];
  }

  /** The loop reads back the rest of an array from its phrases, ending with
      the same dictionary as the writer. */
  lemma {:induction false} LoopRoundTrip(toks: seq<int>, r: Reader, got: seq<int>, rest: seq<int>)
    requires |r.table| > 0 && r.table[0] == []
    requires DataBuffer.HoldsAt(toks, r.at, EncodeLoop(r.table, rest).0)
    ensures var enc := EncodeLoop(r.table, rest);
            ReadLoop(toks, r, |got| + |rest|, got) == Success((got + rest, Reader(r.at + |enc.0|, enc.1)))
    decreases |rest|
  {
    if |rest| == 0 {
      assert got + rest == got;
    } else {
      var id := Longest(r.table, rest, 0, 0);
      var p := r.table[id];
      if |p| == |rest| {
        LoopLast(toks, r, got, rest);
      } else {
        var e := rest[|p|];
        var t2 := r.table + [p + [e]];
        var more := rest[|p| + 1..];
        var tail := EncodeLoop(t2, more);
        LoopInnerHolds(toks, r, rest);
        LoopRoundTrip(toks, Reader(r.at + 2, t2), got + p + [e], more);
        LoopInner(toks, r, got, rest, id, e, p, t2, more, tail);
      }
    }
  }

  /** The round trip when the longest phrase ends the array. */
  lemma {:induction false} LoopLast(toks: seq<int>, r: Reader, got: seq<int>, rest: seq<int>)
    requires |r.table| > 0 && r.table[0] == [] && |rest| > 0
    requires DataBuffer.HoldsAt(toks, r.at, EncodeLoop(r.table, rest).0)
    requires |r.table[Longest(r.table, rest, 0, 0)]| == |rest|
    ensures var enc := EncodeLoop(r.table, rest);
            ReadLoop(toks, r, |got| + |rest|, got) == Success((got + rest, Reader(r.at + |enc.0|, enc.1)))
  {
    var id := Longest(r.table, rest, 0, 0);
    var p := r.table[id];
    var enc := EncodeLoop(r.table, rest);
    assert enc == ([id], r.table);
    assert toks[r.at] == enc.0[0] == id;
    assert rest[..|p|] == p;
    LastPhrase(toks, r, got, rest, id);
  }

  /** Where the phrase inside the array leaves the rest of the encoding. */
  lemma {:induction false} LoopInnerHolds(toks: seq<int>, r: Reader, rest: seq<int>)
    requires |r.table| > 0 && r.table[0] == [] && |rest| > 0
    requires DataBuffer.HoldsAt(toks, r.at, EncodeLoop(r.table, rest).0)
    requires |r.table[Longest(r.table, rest, 0, 0)]| < |rest|
    ensures var p := r.table[Longest(r.table, rest, 0, 0)];
            var e := rest[|p|];
            DataBuffer.HoldsAt(toks, r.at + 2, EncodeLoop(r.table + [p + [e]], rest[|p| + 1..]).0)
  {
    var id := Longest(r.table, rest, 0, 0);
    var p := r.table[id];
    var e := rest[|p|];
    var enc := EncodeLoop(r.table, rest);
    EncodeLoopStep(r.table, rest, id, e);
    var tail := EncodeLoop(r.table + [p + [e]], rest[|p| + 1..]);
    assert enc.0[2..] == tail.0;
    TailHolds(toks, r.at, enc.0, 2, tail.0);
  }

  /** The round trip for a phrase inside the array, given the round trip of
      what follows it. */
  lemma {:induction false} LoopInner(toks: seq<int>, r: Reader, got: seq<int>, rest: seq<int>, id: nat, e: int,
                                     p: seq<int>, t2: seq<seq<int>>, more: seq<int>, tail: (seq<int>, seq<seq<int>>))
    requires |r.table| > 0 && r.table[0] == [] && |rest| > 0
    requires DataBuffer.HoldsAt(toks, r.at, EncodeLoop(r.table, rest).0)
    requires id == Longest(r.table, rest, 0, 0) && p == r.table[id] && |p| < |rest| && e == rest[|p|]
    requires t2 == r.table + [p + [e]] && more == rest[|p| + 1..] && tail == EncodeLoop(t2, more)
    requires ReadLoop(toks, Reader(r.at + 2, t2), |got + p + [e]| + |more|, got + p + [e])
               == Success((got + p + [e] + more, Reader(r.at + 2 + |tail.0|, tail.1)))
    ensures var enc := EncodeLoop(r.table, rest);
            ReadLoop(toks, r, |got| + |rest|, got) == Success((got + rest, Reader(r.at + |enc.0|, enc.1)))
  {
    var enc := EncodeLoop(r.table, rest);
    EncodeLoopStep(r.table, rest, id, e);
    assert rest == p + [e] + more;
    assert |got + p + [e]| + |more| == |got| + |rest|;
    assert got + p + [e] + more == got + rest;
    assert enc.0 == [id, e] + tail.0 && enc.1 == tail.1;
    assert toks[r.at] == enc.0[0] == id;
    assert toks[r.at + 1] == enc.0[1] == e;
    InnerPhrase(toks, r, |got| + |rest|, got, id, e, got + p + [e], Reader(r.at + 2, t2),
                Success((got + rest, Reader(r.at + 2 + |tail.0|, tail.1))));
  }

  /** The phrase that ends the array: its index alone. */
  lemma {:induction false} LastPhrase(toks: seq<int>, r: Reader, got: seq<int>, rest: seq<int>, id: int)
    requires DataBuffer.Tok(toks, r.at) == id && 0 <= id < |r.table| && r.table[id] == rest && |rest| > 0
    ensures ReadLoop(toks, r, |got| + |rest|, got) == Success((got + rest, Reader(r.at + 1, r.table)))
  {
  }

  /** A phrase inside the array: one turn of the loop, then the rest. */
  lemma {:induction false} InnerPhrase(toks: seq<int>, r: Reader, size: int, got: seq<int>, id: int, e: int, g2: seq<int>, r2: Reader,
                    x: Result<(seq<int>, Reader)>)
    requires DataBuffer.Tok(toks, r.at) == id && 0 <= id < |r.table| && DataBuffer.Tok(toks, r.at + 1) == e
    requires g2 == got + r.table[id] + [e] && size > |g2| - 1 && r2 == Reader(r.at + 2, r.table + [r.table[id] + [e]])
    requires ReadLoop(toks, r2, size, g2) == x
    ensures ReadLoop(toks, r, size, got) == x
  {
    ReadLoopStep(toks, r, size, got, id, e);
  }

  /** The values from position k of an encoding held at at are held at
      at + k. */
  lemma {:induction false} TailHolds(toks: seq<int>, at: int, enc: seq<int>, k: nat, tail: seq<int>)
    requires DataBuffer.HoldsAt(toks, at, enc) && k <= |enc| && enc[k..] == tail
    ensures DataBuffer.HoldsAt(toks, at + k, tail)
  {
    forall i | 0 <= i < |tail|
      ensures toks[at + k + i] == tail[i]
    {
      assert enc[k + i] == tail[i];
    }
  }

  /** readArray reads back exactly the array written. */
  lemma {:induction false} ArrayRoundTrip(toks: seq<int>, r: Reader, a: seq<int>)
    requires |r.table| > 0 && r.table[0] == []
    requires DataBuffer.HoldsAt(toks, r.at, EncodeArray(r.table, a).0)
    ensures var enc := EncodeArray(r.table, a);
            ReadArray(toks, r) == Success((a, Reader(r.at + |enc.0|, enc.1)))
  {
    var enc := EncodeArray(r.table, a);
    var loop := EncodeLoop(r.table, a);
    assert toks[r.at] == enc.0[0] == |a|;
    assert DataBuffer.HoldsAt(toks, r.at + 1, loop.0) by {
      forall i | 0 <= i < |loop.0|
        ensures toks[r.at + 1 + i] == loop.0[i]
      {
        assert enc.0[1 + i] == loop.0[i];
      }
    }
    LoopRoundTrip(toks, Reader(r.at + 1, r.table), [], a);
    assert [] + a == a;
  }

  /** Successive readArray calls read back the arrays written one after
      another. */
  lemma {:induction false} ArraysRoundTrip(toks: seq<int>, r: Reader, arrays: seq<seq<int>>)
    requires |r.table| > 0 && r.table[0] == []
    requires DataBuffer.HoldsAt(toks, r.at, EncodeArrays(r.table, arrays).0)
    ensures var enc := EncodeArrays(r.table, arrays);
            ReadArrays(toks, r, |arrays|) == Success((arrays, Reader(r.at + |enc.0|, enc.1)))
    decreases |arrays|
  {
    if |arrays| > 0 {
      var enc := EncodeArrays(r.table, arrays);
      var x := EncodeArray(r.table, arrays[0]);
      var y := EncodeArrays(x.1, arrays[1..]);
      assert DataBuffer.HoldsAt(toks, r.at, x.0) by {
        forall i | 0 <= i < |x.0|
          ensures toks[r.at + i] == x.0[i]
        {
          assert enc.0[i] == x.0[i];
        }
      }
      ArrayRoundTrip(toks, r, arrays[0]);
      var r1 := Reader(r.at + |x.0|, x.1);
      assert DataBuffer.HoldsAt(toks, r1.at, y.0) by {
        forall i | 0 <= i < |y.0|
          ensures toks[r1.at + i] == y.0[i]
        {
          assert enc.0[|x.0| + i] == y.0[i];
        }
      }
      ArraysRoundTrip(toks, r1, arrays[1..]);
      assert [arrays[0]] + arrays[1..] == arrays;
    }
  }

  /** `decodeGlobalStacks` recovers every stack of the table written. */
  lemma {:induction false} GlobalStacksRoundTrip(arrays: seq<seq<int>>)
    ensures DecodeGlobalStacks(EncodeGlobalStacks(arrays)) == Success(arrays)
  {
    var toks := EncodeGlobalStacks(arrays);
    var body := EncodeArrays([[]], arrays).0;
    assert DataBuffer.Tok(toks, 0) == |arrays|;
    assert DataBuffer.HoldsAt(toks, 1, body) by {
      forall i | 0 <= i < |body|
        ensures toks[1 + i] == body[i]
      {
      }
    }
    ArraysRoundTrip(toks, Start(1), arrays);
  }
}
