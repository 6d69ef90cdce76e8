/** `SimpleHeatmap.HtmlOut`: the writer of the compact heatmap payload. It
    appends printable characters to the page and counts them in `pos`. Whole
    6-bit symbols are written as symbol + 63; tiny varints are written as
    3-bit sub-symbols packed two per character, the first in the high half.
    A sub-symbol waiting for its partner is kept in `subByte` (-1 when none)
    and is flushed with a zero partner before the next whole symbol. */
module HtmlOut {
  import opened Common
  import opened Symbols

  datatype Out = Out(text: seq<int>, subByte: int, pos: int)

  /** A reachable writer state: no pending sub-symbol or a 3-bit one, and
      `pos` counts the characters written. */
  predicate Wf(o: Out)
  {
    -1 <= o.subByte < 8 && o.pos == |o.text|
  }

  /** The constructor. */
  function Start(): (o: Out)
    ensures Wf(o) && o.text == []
  {
    Out([], -1, 0)
  }

  /** `nextByte(ch)`: append the character `(char) ch`. */
  function NextByte(o: Out, ch: int): Out
  {
    Out(o.text + [ToCodeUnit(ch)], o.subByte, o.pos + 1)
  }

  /** `writeSubByte(v)`: keep v as pending, or emit the pending sub-symbol and
      v as one character `((subByte << 3) | v) + 63`; for 3-bit operands the
      packing is subByte * 8 + v (`JsBits.ShlOrSmall`). */
  function WriteSubByte(o: Out, v: int): (r: Out)
    requires Wf(o) && 0 <= v < 8
    ensures Wf(r)
  {
    if o.subByte == -1 then Out(o.text, v, o.pos)
    else NextByte(Out(o.text, -1, o.pos), o.subByte * 8 + v + BIAS)
  }

  /** `writeByte(v)`: flush a pending sub-symbol, then write symbol v. */
  function WriteByte(o: Out, v: int): (r: Out)
    requires Wf(o) && 0 <= v < 64
    ensures Wf(r) && r.subByte == -1
  {
    var o1 := if o.subByte != -1 then WriteSubByte(o, 0) else o;
    NextByte(o1, v + BIAS)
  }

  /** The character a pending sub-symbol is flushed as, if any. */
  function Flush(o: Out): seq<int>
  {
    if o.subByte == -1 then [] else [o.subByte * 8 + BIAS]
  }

  /** A whole symbol appears after the flushed sub-symbol, as symbol + 63. */
  lemma {:induction false} WriteByteAppends(o: Out, v: int)
    requires Wf(o) && 0 <= v < 64
    ensures WriteByte(o, v).text == o.text + Flush(o) + [v + BIAS]
  {
    InRangeIdentities(v + BIAS);
    if o.subByte != -1 {
      InRangeIdentities(o.subByte * 8 + BIAS);
    }
  }

  /** The `writeVar` loop: while v > 0x1F write `(v & 0x1F) | 0x20`, which
      is v % 32 + 32 for v >= 0, and shift v right by 5. */
  function VarLoop(o: Out, v: nat): (r: Out)
    requires Wf(o)
    ensures Wf(r) && r.subByte == -1
    decreases v
  {
    if v > 0x1F then VarLoop(WriteByte(o, v % 32 + 0x20), v / 32) else WriteByte(o, v)
  }

  lemma {:induction false} VarLoopAppends(o: Out, v: nat)
    requires Wf(o)
    ensures VarLoop(o, v).text == o.text + Flush(o) + EncodeVar(v)
    decreases v
  {
    WriteByteAppends(o, if v > 0x1F then v % 32 + 0x20 else v);
    if v > 0x1F {
      var o1 := WriteByte(o, v % 32 + 0x20);
      VarLoopAppends(o1, v / 32);
      assert Flush(o1) == [];
    }
  }

  /** `writeVar(v)`: a negative v raises IllegalArgumentException; otherwise
      the varint of v follows the flushed sub-symbol. */
  function WriteVar(o: Out, v: Int64): (r: Result<Out>)
    requires Wf(o)
    ensures r.Failure? <==> v < 0
    ensures r.Failure? ==> r.error == IllegalArgument
    ensures r.Success? ==> Wf(r.value) && r.value.subByte == -1
    ensures r.Success? ==> r.value.text == o.text + Flush(o) + EncodeVar(v)
  {
    if v < 0 then Failure(IllegalArgument)
    else
      VarLoopAppends(o, v);
      Success(VarLoop(o, v))
  }

  /** The `write36` loop: n times write `v & 0x3F` and shift v right by 6
      (v is non-negative there, so these are v % 64 and v / 64). */
  function FixedLoop(o: Out, v: nat, n: nat): (r: Out)
    requires Wf(o)
    ensures Wf(r)
    ensures n > 0 ==> r.subByte == -1
    decreases n
  {
    if n == 0 then o else FixedLoop(WriteByte(o, v % 64), v / 64, n - 1)
  }

  lemma {:induction false} FixedLoopAppends(o: Out, v: nat, n: nat)
    requires Wf(o) && n > 0
    ensures FixedLoop(o, v, n).text == o.text + Flush(o) + EncodeFixed(v, n)
    decreases n
  {
    var o1 := WriteByte(o, v % 64);
    WriteByteAppends(o, v % 64);
    if n > 1 {
      FixedLoopAppends(o1, v / 64, n - 1);
      assert Flush(o1) == [];
    } else {
      assert EncodeFixed(v, n) == [v % 64 + BIAS] + EncodeFixed(v / 64, 0);
    }
  }

  /** `(v & 0xFFFFFFF000000000L) != 0`: some bit from 36 to 63 of the 64-bit
      two's-complement representation is set. */
  predicate HighBitsSet(v: Int64)
  {
    ToUint64(v) >= 0x10_0000_0000
  }

  /** `write36(v)`: raises IllegalArgumentException exactly when v is
      negative or needs more than 36 bits; otherwise six 6-bit symbols, low
      first, follow the flushed sub-symbol. */
  function Write36(o: Out, v: Int64): (r: Result<Out>)
    requires Wf(o)
    ensures r.Failure? <==> v < 0 || v >= 0x10_0000_0000
    ensures r.Failure? ==> r.error == IllegalArgument
    ensures r.Success? ==> Wf(r.value) && r.value.subByte == -1
    ensures r.Success? ==> r.value.text == o.text + Flush(o) + EncodeFixed(v, 6)
  {
    if HighBitsSet(v) then Failure(IllegalArgument)
    else
      FixedLoopAppends(o, v, 6);
      Success(FixedLoop(o, v, 6))
  }

  /** The `writeTinyVar` loop: while v > 3 write the sub-symbol
      `(v & 3) | 4`, which is v % 4 + 4 for v >= 0, and shift v right by 2. */
  function TinyLoop(o: Out, v: nat): (r: Out)
    requires Wf(o)
    ensures Wf(r)
    decreases v
  {
    if v > 3 then TinyLoop(WriteSubByte(o, v % 4 + 4), v / 4) else WriteSubByte(o, v)
  }

  /** `writeSubByte` applied to each value of hs in turn. */
  function WriteSubBytes(o: Out, hs: seq<int>): (r: Out)
    requires Wf(o) && AllIn(hs, 0, 7)
    ensures Wf(r)
    decreases |hs|
  {
    if |hs| == 0 then o else WriteSubBytes(WriteSubByte(o, hs[0]), hs[1..])
  }

  /** The tiny-varint loop writes exactly the sub-symbols of v. */
  lemma {:induction false} TinyLoopWritesSubSymbols(o: Out, v: nat)
    requires Wf(o)
    ensures AllIn(TinySubSymbols(v), 0, 7)
    ensures TinyLoop(o, v) == WriteSubBytes(o, TinySubSymbols(v))
    decreases v
  {
    TinySubSymbolsShape(v);
    var hs := TinySubSymbols(v);
    if v > 3 {
      assert hs == [v % 4 + 4] + TinySubSymbols(v / 4);
      assert hs[1..] == TinySubSymbols(v / 4);
      TinyLoopWritesSubSymbols(WriteSubByte(o, v % 4 + 4), v / 4);
    } else {
      assert hs == [v];
      assert WriteSubBytes(WriteSubByte(o, v), []) == WriteSubByte(o, v);
    }
  }

  /** `writeTinyVar(v)`: a negative v raises IllegalArgumentException;
      otherwise the 3-bit sub-symbols of v are written one by one. */
  function WriteTinyVar(o: Out, v: Int32): (r: Result<Out>)
    requires Wf(o)
    ensures r.Failure? <==> v < 0
    ensures r.Failure? ==> r.error == IllegalArgument
    ensures r.Success? ==> AllIn(TinySubSymbols(v), 0, 7) && r.value == WriteSubBytes(o, TinySubSymbols(v))
  {
    if v < 0 then Failure(IllegalArgument)
    else
      TinyLoopWritesSubSymbols(o, v);
      Success(TinyLoop(o, v))
  }

  /** The pending sub-symbol, as a sequence of at most one. */
  function Pending(o: Out): seq<int>
  {
    if o.subByte == -1 then [] else [o.subByte]
  }

  /** Characters for an even-length stream of sub-symbols, two per character,
      the first in the high half. */
  function PackPairs(hs: seq<int>): (r: seq<int>)
    requires |hs| % 2 == 0
    ensures |r| == |hs| / 2
  {
    if |hs| == 0 then [] else [hs[0] * 8 + hs[1] + BIAS] + PackPairs(hs[2..])
  }

  /** The reading of packed characters: each yields its high and low 3 bits. */
  function Unpack(cs: seq<int>): (r: seq<int>)
    ensures |r| == 2 * |cs|
  {
    if |cs| == 0 then [] else [(cs[0] - BIAS) / 8, (cs[0] - BIAS) % 8] + Unpack(cs[1..])
  }

  /** Unpacking recovers the packed sub-symbols. */
  lemma {:induction false} UnpackPackPairs(hs: seq<int>)
    requires |hs| % 2 == 0 && AllIn(hs, 0, 7)
    ensures Unpack(PackPairs(hs)) == hs
    decreases |hs|
  {
    if |hs| > 0 {
      var p := PackPairs(hs);
      assert p[1..] == PackPairs(hs[2..]);
      UnpackPackPairs(hs[2..]);
      assert (p[0] - BIAS) / 8 == hs[0] && (p[0] - BIAS) % 8 == hs[1];
      assert hs == [hs[0], hs[1]] + hs[2..];
    }
  }

  /** The number of sub-symbols of `all` that form complete pairs. */
  function EvenPart(n: nat): (r: nat)
    ensures r <= n && r % 2 == 0 && n - r < 2
  {
    n / 2 * 2
  }

  /** The writer's view of a sub-symbol stream: all complete pairs have been
      written as characters, and an odd one out is pending. */
  predicate Packed(o: Out, hs: seq<int>, r: Out)
  {
    var all := Pending(o) + hs;
    var n := EvenPart(|all|);
    r.text == o.text + PackPairs(all[..n])
    && r.subByte == (if n < |all| then all[n] else -1)
  }

  /** A first sub-symbol with none pending becomes the pending one. */
  lemma {:induction false} PackedKeep(o: Out, hs: seq<int>, r: Out)
    requires Wf(o) && |hs| > 0 && o.subByte == -1 && 0 <= hs[0] < 8
    requires Packed(WriteSubByte(o, hs[0]), hs[1..], r)
    ensures Packed(o, hs, r)
  {
    var o1 := WriteSubByte(o, hs[0]);
    assert Pending(o1) + hs[1..] == Pending(o) + hs;
  }

  /** Packing a stream that starts with a complete pair. */
  lemma {:induction false} PackPairsFront(a: int, b: int, rest: seq<int>, n: nat)
    requires n % 2 == 0 && n <= |rest|
    ensures PackPairs(([a, b] + rest)[..n + 2]) == [a * 8 + b + BIAS] + PackPairs(rest[..n])
  {
    var front := ([a, b] + rest)[..n + 2];
    assert front == [a, b] + rest[..n];
    assert front[2..] == rest[..n];
  }

  /** A first sub-symbol completes the pending pair into one character. */
  lemma {:induction false} PackedPair(o: Out, hs: seq<int>, r: Out)
    requires Wf(o) && |hs| > 0 && o.subByte != -1 && 0 <= hs[0] < 8
    requires Packed(WriteSubByte(o, hs[0]), hs[1..], r)
    ensures Packed(o, hs, r)
  {
    var c := o.subByte * 8 + hs[0] + BIAS;
    InRangeIdentities(c);
    var all := Pending(o) + hs;
    var all1 := hs[1..];
    assert all == [o.subByte, hs[0]] + all1;
    var n1 := EvenPart(|all1|);
    assert EvenPart(|all|) == n1 + 2;
    PackPairsFront(o.subByte, hs[0], all1, n1);
    var o1 := WriteSubByte(o, hs[0]);
    assert Pending(o1) + hs[1..] == all1;
    assert r.text == o.text + PackPairs(all[..n1 + 2]);
  }

  /** Writing sub-symbols one by one packs them, together with the pending
      one, two per character. */
  lemma {:induction false} WriteSubBytesPacks(o: Out, hs: seq<int>)
    requires Wf(o) && AllIn(hs, 0, 7)
    ensures Packed(o, hs, WriteSubBytes(o, hs))
    decreases |hs|
  {
    if |hs| == 0 {
      assert Pending(o) + hs == Pending(o);
    } else {
      var o1 := WriteSubByte(o, hs[0]);
      WriteSubBytesPacks(o1, hs[1..]);
      if o.subByte == -1 {
        PackedKeep(o, hs, WriteSubBytes(o, hs));
      } else {
        PackedPair(o, hs, WriteSubBytes(o, hs));
      }
    }
  }

  /** `write(data)`: the string is appended and counted; a pending
      sub-symbol is not flushed and stays pending behind it. */
  function Write(o: Out, data: seq<int>): (r: Out)
    requires Wf(o)
    ensures Wf(r) && r.subByte == o.subByte
    ensures |r.text| == |o.text| + |data| && r.text[..|o.text|] == o.text
    ensures r.text[|o.text|..] == data && r.pos == o.pos + |data|
  {
    Out(o.text + data, o.subByte, o.pos + |data|)
  }
}
