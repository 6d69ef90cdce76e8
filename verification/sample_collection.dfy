/** `Heatmap.SampleCollection`: an append-only byte buffer kept as a rope of
    64 KiB chunks. The last chunk is the one being filled, `pos` bytes of it
    are used, and a fresh chunk is started when it is full. Its text is the
    full chunks followed by the used part of the last one; each byte becomes
    one character, `(char)` of the signed byte. */
module SampleCollection {
  import opened Common
  import opened Symbols

  const BUFFER_SIZE: int := 64 * 1024

  datatype Collection = Collection(rope: seq<seq<int>>, pos: int)

  /** Every chunk is a full buffer of bytes; before the first byte the rope
      is empty and `pos` is at the end, which forces a chunk on first use. */
  predicate Wf(c: Collection)
  {
    0 <= c.pos <= BUFFER_SIZE
    && (|c.rope| == 0 ==> c.pos == BUFFER_SIZE)
    && forall i :: 0 <= i < |c.rope| ==> |c.rope[i]| == BUFFER_SIZE
  }

  /** A new collection. */
  function Empty(): (c: Collection)
    ensures Wf(c) && Text(c) == [] && Offset(c) == 0
  {
    Collection([], BUFFER_SIZE)
  }

  /** The bytes written so far: every chunk but the last in full, then the
      first `pos` bytes of the last. */
  function Text(c: Collection): seq<int>
    requires Wf(c)
  {
    if |c.rope| == 0 then []
    else Flatten(c.rope[..|c.rope| - 1]) + c.rope[|c.rope| - 1][..c.pos]
  }

  /** `offset()`: the number of bytes written. */
  function Offset(c: Collection): int
  {
    (|c.rope| - 1) * BUFFER_SIZE + c.pos
  }

  /** A rope of full chunks holds chunk-count times the buffer size. */
  lemma {:induction false} FlattenLength(rs: seq<seq<int>>)
    requires forall i :: 0 <= i < |rs| ==> |rs[i]| == BUFFER_SIZE
    ensures |Flatten(rs)| == |rs| * BUFFER_SIZE
  {
    if |rs| > 0 {
      FlattenLength(rs[..|rs| - 1]);
    }
  }

  /** `offset()` is the length of the text, across chunk boundaries. */
  lemma {:induction false} OffsetIsLength(c: Collection)
    requires Wf(c)
    ensures Offset(c) == |Text(c)|
  {
    if |c.rope| > 0 {
      FlattenLength(c.rope[..|c.rope| - 1]);
    }
  }

  /** `nextByte(b)`: start a zeroed chunk when the last one is full, then
      store b at `pos` and advance. */
  function NextByte(c: Collection, b: int): (r: Collection)
    requires Wf(c)
    ensures Wf(r)
  {
    var c1 := if c.pos >= BUFFER_SIZE then Collection(c.rope + [seq(BUFFER_SIZE, _ => 0)], 0) else c;
    var n := |c1.rope|;
    Collection(c1.rope[n - 1 := c1.rope[n - 1][c1.pos := b]], c1.pos + 1)
  }

  /** A full last chunk is entirely part of the text. */
  lemma {:induction false} FullText(c: Collection)
    requires Wf(c) && c.pos == BUFFER_SIZE
    ensures Text(c) == Flatten(c.rope)
  {
    if |c.rope| > 0 {
      assert c.rope[|c.rope| - 1][..c.pos] == c.rope[|c.rope| - 1];
    }
  }

  /** Every byte lands at the end of the text, whether or not it opens a new
      chunk. */
  lemma {:induction false} NextByteAppends(c: Collection, b: int)
    requires Wf(c)
    ensures Text(NextByte(c, b)) == Text(c) + [b]
  {
    var r := NextByte(c, b);
    var n := |r.rope|;
    assert r.rope[..n - 1] == (if c.pos >= BUFFER_SIZE then c.rope else c.rope[..n - 1]);
    if c.pos >= BUFFER_SIZE {
      FullText(c);
      assert r.rope[n - 1][..1] == [b];
    } else {
      assert r.rope[n - 1][..r.pos] == c.rope[n - 1][..c.pos] + [b];
    }
  }

  /** `put6bit(v)`: the symbol v is stored as the byte `(byte) (v + 63)`. */
  function Put6bit(c: Collection, v: int): (r: Collection)
    requires Wf(c)
    ensures Wf(r)
  {
    NextByte(c, ToByte(v + BIAS))
  }

  /** A 6-bit symbol appends its printable character. */
  lemma {:induction false} Put6bitAppends(c: Collection, v: int)
    requires Wf(c) && 0 <= v < 64
    ensures Text(Put6bit(c, v)) == Text(c) + [v + BIAS]
  {
    InRangeIdentities(v + BIAS);
    NextByteAppends(c, v + BIAS);
  }

  /** The loop of `put30bit` and `put36bit`: n times store `v & 0x3F` and
      shift v right without sign. Started from the unsigned reading of v, the
      mask and the shift are v % 64 and v / 64. */
  function FixedPut(c: Collection, v: nat, n: nat): (r: Collection)
    requires Wf(c)
    ensures Wf(r)
    decreases n
  {
    if n == 0 then c else FixedPut(Put6bit(c, v % 64), v / 64, n - 1)
  }

  lemma {:induction false} FixedPutAppends(c: Collection, v: nat, n: nat)
    requires Wf(c)
    ensures Text(FixedPut(c, v, n)) == Text(c) + EncodeFixed(v, n)
    decreases n
  {
    if n > 0 {
      var c1 := Put6bit(c, v % 64);
      Put6bitAppends(c, v % 64);
      FixedPutAppends(c1, v / 64, n - 1);
      assert FixedPut(c, v, n) == FixedPut(c1, v / 64, n - 1);
      FixedUnfold(v, n);
      AppendOne(Text(c), v % 64 + BIAS, EncodeFixed(v / 64, n - 1), EncodeFixed(v, n),
                Text(c1), Text(FixedPut(c1, v / 64, n - 1)));
    }
  }

  lemma FixedUnfold(v: nat, n: nat)
    requires n > 0
    ensures EncodeFixed(v, n) == [v % 64 + BIAS] + EncodeFixed(v / 64, n - 1)
  {
  }

  /** `put30bit(v)`: the low 30 bits of the 32-bit pattern of v, as five
      symbols, low first. */
  function Put30bit(c: Collection, v: Int32): (r: Collection)
    requires Wf(c)
    ensures Wf(r)
    ensures Text(r) == Text(c) + EncodeFixed(ToUint32(v), 5)
    ensures FixedValue(Text(r)[|Text(c)|..]) == ToUint32(v) % Pow2(30)
  {
    FixedPutAppends(c, ToUint32(v), 5);
    var r := FixedPut(c, ToUint32(v), 5);
    assert Text(r)[|Text(c)|..] == EncodeFixed(ToUint32(v), 5);
    EncodeFixedValue(ToUint32(v), 5);
    r
  }

  /** `put36bit(v)`: the low 36 bits of the 64-bit pattern of v, as six
      symbols, low first. */
  function Put36bit(c: Collection, v: Int64): (r: Collection)
    requires Wf(c)
    ensures Wf(r)
    ensures Text(r) == Text(c) + EncodeFixed(ToUint64(v), 6)
    ensures FixedValue(Text(r)[|Text(c)|..]) == ToUint64(v) % Pow2(36)
  {
    FixedPutAppends(c, ToUint64(v), 6);
    var r := FixedPut(c, ToUint64(v), 6);
    assert Text(r)[|Text(c)|..] == EncodeFixed(ToUint64(v), 6);
    EncodeFixedValue(ToUint64(v), 6);
    r
  }

  /** The varint loop of both `putInt` overloads: while v > 0x1F store
      `(v & 0x1F) | 0x20`, which is v % 32 + 32 for v >= 0, and shift v
      right by 5; then store v. */
  function VarPut(c: Collection, v: nat): (r: Collection)
    requires Wf(c)
    ensures Wf(r)
    decreases v
  {
    if v > 0x1F then VarPut(Put6bit(c, v % 32 + 0x20), v / 32) else Put6bit(c, v)
  }

  lemma {:induction false} VarPutAppends(c: Collection, v: nat)
    requires Wf(c)
    ensures Text(VarPut(c, v)) == Text(c) + EncodeVar(v)
    decreases v
  {
    if v > 0x1F {
      var d := v % 32 + 0x20;
      var c' := Put6bit(c, d);
      Put6bitAppends(c, d);
      VarPutAppends(c', v / 32);
      assert VarPut(c, v) == VarPut(c', v / 32);
      assert EncodeVar(v) == [d + BIAS] + EncodeVar(v / 32);
      AppendOne(Text(c), d + BIAS, EncodeVar(v / 32), EncodeVar(v), Text(c'), Text(VarPut(c', v / 32)));
    } else {
      Put6bitAppends(c, v);
      assert VarPut(c, v) == Put6bit(c, v) && EncodeVar(v) == [v + BIAS];
    }
  }

  /** Appending x and then the rest of e is appending e. */
  lemma {:induction false} AppendOne(t: seq<int>, x: int, e': seq<int>, e: seq<int>, t1: seq<int>, t2: seq<int>)
    requires e == [x] + e' && t1 == t + [x] && t2 == t1 + e'
    ensures t2 == t + e
  {
  }

  /** `putInt(int)`: a negative value raises IllegalArgumentException;
      otherwise its varint is appended and reads back as v. */
  function PutInt(c: Collection, v: Int32): (r: Result<Collection>)
    requires Wf(c)
    ensures r.Failure? <==> v < 0
    ensures r.Failure? ==> r.error == IllegalArgument
    ensures r.Success? ==> Wf(r.value) && Text(r.value) == Text(c) + EncodeVar(v)
    ensures r.Success? ==> VarValue(Text(r.value)[|Text(c)|..]) == v
  {
    if v < 0 then Failure(IllegalArgument)
    else
      VarPutAppends(c, v);
      var r := VarPut(c, v);
      assert Text(r)[|Text(c)|..] == EncodeVar(v);
      EncodeVarValue(v);
      Success(r)
  }

  /** `putInt(long)`: the same layout for a 64-bit value; `(int) v & 0x1F`
      keeps the same five low bits as `v & 0x1F`. */
  function PutLong(c: Collection, v: Int64): (r: Result<Collection>)
    requires Wf(c)
    ensures r.Failure? <==> v < 0
    ensures r.Failure? ==> r.error == IllegalArgument
    ensures r.Success? ==> Wf(r.value) && Text(r.value) == Text(c) + EncodeVar(v)
    ensures r.Success? ==> VarValue(Text(r.value)[|Text(c)|..]) == v
  {
    if v < 0 then Failure(IllegalArgument)
    else
      VarPutAppends(c, v);
      var r := VarPut(c, v);
      assert Text(r)[|Text(c)|..] == EncodeVar(v);
      EncodeVarValue(v);
      Success(r)
  }

  /** The characters of a byte string: `(char) b` sign-extends the byte. */
  function Chars(bytes: seq<int>): (r: seq<int>)
    ensures |r| == |bytes|
  {
    seq(|bytes|, i requires 0 <= i < |bytes| => ToCodeUnit(bytes[i]))
  }

  /** Printable bytes are their own characters. */
  lemma {:induction false} CharsOfPrintable(bytes: seq<int>)
    requires AllIn(bytes, 0, 127)
    ensures Chars(bytes) == bytes
  {
    forall i | 0 <= i < |bytes|
      ensures Chars(bytes)[i] == bytes[i]
    {
      InRangeIdentities(bytes[i]);
    }
  }

  predicate AllWf(cs: seq<Collection>)
  {
    forall i :: 0 <= i < |cs| ==> Wf(cs[i])
  }

  /** The static `toString(collections...)`: the characters of every
      collection, in order. */
  function Concat(cs: seq<Collection>): seq<int>
    requires AllWf(cs)
  {
    if |cs| == 0 then [] else Concat(cs[..|cs| - 1]) + Chars(Text(cs[|cs| - 1]))
  }

  /** The sum of the offsets, which the static `toString` reserves. */
  function TotalOffset(cs: seq<Collection>): int
  {
    if |cs| == 0 then 0 else TotalOffset(cs[..|cs| - 1]) + Offset(cs[|cs| - 1])
  }

  /** The reserved size is exactly the length of the result. */
  lemma {:induction false} ConcatLength(cs: seq<Collection>)
    requires AllWf(cs)
    ensures |Concat(cs)| == TotalOffset(cs)
  {
    if |cs| > 0 {
      ConcatLength(cs[..|cs| - 1]);
      OffsetIsLength(cs[|cs| - 1]);
    }
  }

  /** The result of two collections is the first one's text followed by the
      second one's: the offsets of the second shift by the first's length. */
  lemma {:induction false} ConcatTwo(a: Collection, b: Collection)
    requires Wf(a) && Wf(b) && AllIn(Text(a), 0, 127) && AllIn(Text(b), 0, 127)
    ensures Concat([a, b]) == Text(a) + Text(b)
    ensures |Concat([a, b])| == Offset(a) + Offset(b)
  {
    assert [a, b][..1] == [a];
    assert [a][..0] == [];
    assert Concat([a]) == Chars(Text(a));
    assert Concat([a, b]) == Concat([a]) + Chars(Text(b));
    CharsOfPrintable(Text(a));
    CharsOfPrintable(Text(b));
    OffsetIsLength(a);
    OffsetIsLength(b);
  }
}
