/** The viewer's `DataBuffer` (the class of the same name in heatmap.js and in
    simple_heatmap.js): reads the printable symbols back with JavaScript
    32-bit operators. A position outside the text reads as NaN, which the
    bitwise operators turn into 0 and which fails every comparison. */
module DataBuffer {
  import opened Common
  import opened JsBits
  import opened Symbols

  /** `byteAt(pos)`: the code unit minus 63, or None for NaN. */
  function ByteAt(data: seq<int>, pos: int): Option<int>
  {
    if 0 <= pos < |data| then Some(data[pos] - BIAS) else None
  }

  /** `b & 0x1F`, NaN counting as 0. */
  function Low5(b: Option<int>): nat
  {
    match b
    case None => 0
    case Some(x) => Mask(x, 5)
  }

  /** `b << s`, NaN counting as 0. */
  function ShlByte(b: Option<int>, s: int): Int32
  {
    match b
    case None => 0
    case Some(x) => Shl(x, s)
  }

  function HasMore(data: seq<int>, pos: int): bool
  {
    pos < |data|
  }

  /** The do-while loop of `nextVarInt` and `varInt(pos)`: OR in the low five
      bits of each symbol at the current shift, and go on while the symbol
      is at least 0x20. Yields the value and the position after the last
      symbol read. */
  function VarLoop(data: seq<int>, pos: int, shift: nat, res: int): (r: (Int32, int))
    ensures r.1 > pos
    decreases |data| - pos
  {
    var b := ByteAt(data, pos);
    var res' := BitOr(res, Shl(Low5(b), shift));
    if b.Some? && b.value >= 0x20 then VarLoop(data, pos + 1, shift + 5, res')
    else (res', pos + 1)
  }

  /** `nextVarInt()` from position pos: the value and the new position. */
  function NextVarInt(data: seq<int>, pos: int): (r: (Int32, int))
    ensures r.1 > pos
  {
    VarLoop(data, pos, 0, 0)
  }

  /** `decodeEvents`: read varints while the buffer has more. */
  function DecodeFrom(data: seq<int>, pos: int): seq<Int32>
    decreases |data| - pos
  {
    if HasMore(data, pos) then
      var (v, pos') := NextVarInt(data, pos);
      [v] + DecodeFrom(data, pos')
    else []
  }

  function DecodeEvents(data: seq<int>): seq<Int32>
  {
    DecodeFrom(data, 0)
  }

  /** The left-associated OR chain `(b0 << 0) | (b1 << 6) | ... ` over n
      symbols starting at pos: `int30`/`intAt` (n = 5), `int24` (n = 4) and
      `int36` (n = 6). */
  function FixedRead(data: seq<int>, pos: int, n: nat): Int32
    requires n >= 1
  {
    if n == 1 then ShlByte(ByteAt(data, pos), 0)
    else BitOr(FixedRead(data, pos, n - 1), ShlByte(ByteAt(data, pos + n - 1), 6 * (n - 1)))
  }

  function Int30(data: seq<int>, pos: int): Int32 { FixedRead(data, pos, 5) }
  function Int24(data: seq<int>, pos: int): Int32 { FixedRead(data, pos, 4) }
  function Int36(data: seq<int>, pos: int): Int32 { FixedRead(data, pos, 6) }

  // ---------------------------------------------------------------------
  // Varints: the JavaScript loop against a reference reading

  /** Reference reading of a varint at p in plain arithmetic: the digits
      b % 32 of the symbols up to and including the first one below 0x20,
      low digit first. */
  function RefVar(data: seq<int>, p: int): (r: (nat, int))
    ensures r.1 > p
    decreases |data| - p
  {
    match ByteAt(data, p)
    case None => (0, p + 1)
    case Some(b) =>
      if b >= 0x20 then
        var rest := RefVar(data, p + 1);
        (b % 32 + 32 * rest.0, rest.1)
      else (b % 32, p + 1)
  }

  /** `b & 0x1F` is the Euclidean remainder of b by 32, negative b included. */
  lemma {:induction false} Low5Digit(b: int)
    ensures Low5(Some(b)) == b % 32
  {
    var m := b % TWO_32;
    Pow2Constants();
    assert Low5(Some(b)) == m % 32;
    assert b == TWO_32 * (b / TWO_32) + m;
    assert m == 32 * (m / 32) + m % 32;
    DivModUnique(b, 32, 0x800_0000 * (b / TWO_32) + m / 32, m % 32);
  }

  /** OR-ing one 5-bit digit in at shift 5k adds it, as long as the total
      stays a positive 31-bit value. */
  lemma {:induction false} DigitStep(acc: int, d: nat, k: nat)
    requires d < 32 && 0 <= acc < Pow2(5 * k) && acc + d * Pow2(5 * k) < TWO_31
    ensures BitOr(acc, Shl(d, 5 * k)) == acc + d * Pow2(5 * k)
  {
    if d == 0 {
      DigitZero(acc, k);
    } else {
      DigitNonzero(acc, d, k);
    }
  }

  lemma {:induction false} DigitZero(acc: int, k: nat)
    requires 0 <= acc < Pow2(5 * k) && acc < TWO_31
    ensures BitOr(acc, Shl(0, 5 * k)) == acc + 0 * Pow2(5 * k)
  {
    ShlZero(5 * k);
    assert 0 * Pow2(5 * k) == 0;
    BitOrDisjoint(acc, 0, 5 * k);
  }

  lemma {:induction false} DigitNonzero(acc: int, d: nat, k: nat)
    requires 0 < d < 32 && 0 <= acc < Pow2(5 * k) && acc + d * Pow2(5 * k) < TWO_31
    ensures BitOr(acc, Shl(d, 5 * k)) == acc + d * Pow2(5 * k)
  {
    assert 5 * k < 31 by {
      MulGrows(Pow2(5 * k), d);
      Pow2Constants();
      Pow2Strict(5 * k, 31);
    }
    ShlSmall(d, 5 * k);
    BitOrDisjoint(acc, d, 5 * k);
  }

  /** After digit d at shift 5k the accumulator stays below the next shift. */
  lemma {:induction false} DigitBelow(acc: int, d: nat, k: nat)
    requires 0 <= acc < Pow2(5 * k) && d < 32
    ensures 0 <= acc + d * Pow2(5 * k) < Pow2(5 * (k + 1))
  {
    var P := Pow2(5 * k);
    MulNonNegative(31 - d, P);
    MulDistributes(P, 31 - d, d);
    MulNonNegative(d, P);
    Pow2Add(5 * k, 5);
    assert Pow2(5) == 32;
    assert 5 * (k + 1) == 5 * k + 5;
  }

  /** The remaining value v, one shift up, completes the digits read so far. */
  lemma {:induction false} DigitSplit(acc: int, d: nat, v: nat, k: nat)
    ensures acc + d * Pow2(5 * k) + v * Pow2(5 * (k + 1)) == acc + (d + 32 * v) * Pow2(5 * k)
    ensures 0 <= v * Pow2(5 * (k + 1))
  {
    var P := Pow2(5 * k);
    MulDistributes(P, d, 32 * v);
    MulAssociates(P, 32, v);
    Pow2Add(5 * k, 5);
    assert Pow2(5) == 32;
    assert 5 * (k + 1) == 5 * k + 5;
    MulNonNegative(v, 32 * P);
  }

  /** One iteration of the varint loop on a symbol with the continuation flag. */
  lemma {:induction false} VarLoopGoesOn(data: seq<int>, p: int, sh: nat, res: int, b: int)
    requires ByteAt(data, p) == Some(b) && b >= 0x20
    ensures VarLoop(data, p, sh, res) == VarLoop(data, p + 1, sh + 5, BitOr(res, Shl(Low5(Some(b)), sh)))
  {
  }

  /** The accumulated low digits and the rest of the value, shifted into
      place, fit a positive 31-bit integer. */
  predicate VarFits(data: seq<int>, p: int, k: nat, acc: int)
  {
    0 <= acc < Pow2(5 * k) && acc + RefVar(data, p).0 * Pow2(5 * k) < TWO_31
  }

  /** A continuation symbol moves the loop on with its digit added in at
      shift 5k, and the rest of the value still fits. */
  lemma {:induction false} VarLoopContinues(data: seq<int>, p: int, k: nat, acc: int, acc': int)
    requires ByteAt(data, p).Some? && ByteAt(data, p).value >= 0x20 && VarFits(data, p, k, acc)
    requires acc' == acc + (ByteAt(data, p).value % 32) * Pow2(5 * k)
    ensures VarFits(data, p + 1, k + 1, acc') && RefVar(data, p).1 == RefVar(data, p + 1).1
    ensures acc' + RefVar(data, p + 1).0 * Pow2(5 * (k + 1)) == acc + RefVar(data, p).0 * Pow2(5 * k)
    ensures VarLoop(data, p, 5 * k, acc) == VarLoop(data, p + 1, 5 * (k + 1), acc')
  {
    var b := ByteAt(data, p).value;
    var d := b % 32;
    var v := RefVar(data, p + 1).0;
    var P := Pow2(5 * k);
    assert RefVar(data, p).0 == d + 32 * v;
    Low5Digit(b);
    DigitBelow(acc, d, k);
    DigitSplit(acc, d, v, k);
    assert d * P <= (d + 32 * v) * P by {
      MulDistributes(P, d, 32 * v);
      MulNonNegative(32 * v, P);
    }
    DigitStep(acc, d, k);
    VarLoopGoesOn(data, p, 5 * k, acc, b);
    assert 5 * k + 5 == 5 * (k + 1);
  }

  /** The final symbol of a varint adds its digit and stops the loop. */
  lemma {:induction false} VarLoopEnds(data: seq<int>, p: int, k: nat, acc: int)
    requires !(ByteAt(data, p).Some? && ByteAt(data, p).value >= 0x20) && VarFits(data, p, k, acc)
    ensures VarLoop(data, p, 5 * k, acc) == (acc + RefVar(data, p).0 * Pow2(5 * k), p + 1)
    ensures RefVar(data, p).1 == p + 1
  {
    var d := Low5(ByteAt(data, p));
    RefVarEnds(data, p);
    VarLoopStops(data, p, 5 * k, acc);
    DigitStep(acc, d, k);
  }

  /** The reference value of a final symbol is its digit. */
  lemma {:induction false} RefVarEnds(data: seq<int>, p: int)
    requires !(ByteAt(data, p).Some? && ByteAt(data, p).value >= 0x20)
    ensures RefVar(data, p) == (Low5(ByteAt(data, p)), p + 1)
  {
    if ByteAt(data, p).Some? {
      Low5Digit(ByteAt(data, p).value);
    }
  }

  /** The loop stops after a final symbol, OR-ing its digit in. */
  lemma {:induction false} VarLoopStops(data: seq<int>, p: int, sh: nat, acc: int)
    requires !(ByteAt(data, p).Some? && ByteAt(data, p).value >= 0x20)
    ensures VarLoop(data, p, sh, acc) == (BitOr(acc, Shl(Low5(ByteAt(data, p)), sh)), p + 1)
  {
  }

  /** The JavaScript loop computes the reference value whenever that value,
      shifted into place, stays a positive 31-bit integer. */
  lemma {:induction false} VarLoopMatchesRef(data: seq<int>, p: int, k: nat, acc: int)
    requires VarFits(data, p, k, acc)
    ensures VarLoop(data, p, 5 * k, acc) == (acc + RefVar(data, p).0 * Pow2(5 * k), RefVar(data, p).1)
    decreases |data| - p
  {
    var b := ByteAt(data, p);
    if b.Some? && b.value >= 0x20 {
      var acc' := acc + (b.value % 32) * Pow2(5 * k);
      VarLoopContinues(data, p, k, acc, acc');
      VarLoopMatchesRef(data, p + 1, k + 1, acc');
    } else {
      VarLoopEnds(data, p, k, acc);
    }
  }

  // ---------------------------------------------------------------------
  // Round trips with the writers' layouts

  /** The value the i-th `nextVarInt` call of the underlying buffer
      returns, given the stream toks of values the buffer holds; past the
      end the buffer reads NaN, which the varint loop turns into 0. */
  function Tok(toks: seq<int>, i: int): int
  {
    if 0 <= i < |toks| then toks[i] else 0
  }

  /** The code units e occur in data from position p on. */
  predicate HoldsAt(data: seq<int>, p: int, e: seq<int>)
  {
    0 <= p && p + |e| <= |data| && forall i :: 0 <= i < |e| ==> data[p + i] == e[i]
  }

  /** The symbols after the first one of a varint of w encode w / 32. */
  lemma {:induction false} VarTail(data: seq<int>, p: int, w: nat)
    requires w > 0x1F && HoldsAt(data, p, EncodeVar(w))
    ensures ByteAt(data, p) == Some(w % 32 + 0x20)
    ensures |EncodeVar(w)| == 1 + |EncodeVar(w / 32)| && HoldsAt(data, p + 1, EncodeVar(w / 32))
  {
    var q := w / 32;
    assert data[p] == EncodeVar(w)[0];
    forall i | 0 <= i < |EncodeVar(q)|
      ensures data[p + 1 + i] == EncodeVar(q)[i]
    {
      assert data[p + (i + 1)] == EncodeVar(w)[i + 1];
    }
  }

  /** A varint below 32 is a single symbol, read as itself. */
  lemma {:induction false} RefVarLast(data: seq<int>, p: int, w: nat)
    requires w <= 0x1F && HoldsAt(data, p, EncodeVar(w))
    ensures RefVar(data, p) == (w, p + |EncodeVar(w)|)
  {
    assert EncodeVar(w) == [w + BIAS];
    assert data[p] == EncodeVar(w)[0];
    assert ByteAt(data, p) == Some(w);
    assert w % 32 == w;
  }

  /** The reference reading inverts the varint layout. */
  lemma {:induction false} RefVarReads(data: seq<int>, p: int, w: nat)
    requires HoldsAt(data, p, EncodeVar(w))
    ensures RefVar(data, p) == (w, p + |EncodeVar(w)|)
    decreases w
  {
    if w <= 0x1F {
      RefVarLast(data, p, w);
    } else {
      VarTail(data, p, w);
      RefVarReads(data, p + 1, w / 32);
      RefVarStep(data, p, w, p + 1 + |EncodeVar(w / 32)|);
    }
  }

  /** RefVarReads past a continuation symbol, given the rest. */
  lemma {:induction false} RefVarStep(data: seq<int>, p: int, w: nat, end: int)
    requires w > 0x1F && ByteAt(data, p) == Some(w % 32 + 0x20)
    requires RefVar(data, p + 1) == (w / 32, end)
    ensures RefVar(data, p) == (w, end)
  {
    var b := w % 32 + 0x20;
    assert b >= 0x20 && b % 32 == w % 32;
    assert RefVar(data, p) == (b % 32 + 32 * (w / 32), end);
  }

  /** `nextVarInt` at a varint of a value below 2^31 reads the value and
      stops right after it. */
  lemma {:induction false} NextVarIntAt(data: seq<int>, p: int, v: nat)
    requires v < TWO_31 && HoldsAt(data, p, EncodeVar(v))
    ensures NextVarInt(data, p) == (v, p + |EncodeVar(v)|)
  {
    RefVarReads(data, p, v);
    assert Pow2(0) == 1;
    VarLoopMatchesRef(data, p, 0, 0);
  }

  /** `nextVarInt` reads back what `writeVar`/`putInt` wrote, for every value
      below 2^31, and stops right after the encoding. */
  lemma {:induction false} NextVarIntRoundTrip(pre: seq<int>, v: nat, rest: seq<int>)
    requires v < TWO_31
    ensures NextVarInt(pre + EncodeVar(v) + rest, |pre|) == (v, |pre| + |EncodeVar(v)|)
  {
    var data := pre + EncodeVar(v) + rest;
    assert HoldsAt(data, |pre|, EncodeVar(v));
    NextVarIntAt(data, |pre|, v);
  }

  /** Consecutive pieces of an occurrence occur one after the other. */
  lemma {:induction false} HoldsAtSplit(data: seq<int>, p: int, a: seq<int>, b: seq<int>)
    requires HoldsAt(data, p, a + b)
    ensures HoldsAt(data, p, a) && HoldsAt(data, p + |a|, b)
  {
    forall i | 0 <= i < |a|
      ensures data[p + i] == a[i]
    {
      assert data[p + i] == (a + b)[i];
    }
    forall i | 0 <= i < |b|
      ensures data[p + |a| + i] == b[i]
    {
      assert data[p + (|a| + i)] == (a + b)[|a| + i];
    }
  }

  /** Every text occurs in itself framed by a prefix and a suffix. */
  lemma {:induction false} HoldsAtMiddle(pre: seq<int>, e: seq<int>, rest: seq<int>)
    ensures HoldsAt(pre + e + rest, |pre|, e)
  {
  }

  /** `decodeEvents` on varints written back to back returns them in order. */
  lemma {:induction false} DecodeFromRoundTrip(pre: seq<int>, vs: seq<nat>)
    requires forall i :: 0 <= i < |vs| ==> vs[i] < TWO_31
    ensures DecodeFrom(pre + EncodeVars(vs), |pre|) == vs
    decreases |vs|
  {
    var data := pre + EncodeVars(vs);
    if |vs| > 0 {
      var e := EncodeVar(vs[0]);
      var tail := EncodeVars(vs[1..]);
      assert data == pre + e + tail == (pre + e) + tail;
      NextVarIntRoundTrip(pre, vs[0], tail);
      DecodeFromRoundTrip(pre + e, vs[1..]);
      DecodeFromStep(data, |pre|, vs[0], |pre| + |e|, vs[1..]);
      assert [vs[0]] + vs[1..] == vs;
    } else {
      assert DecodeFrom(data, |pre|) == [];
    }
  }

  /** DecodeFrom over one varint, given what follows. */
  lemma {:induction false} DecodeFromStep(data: seq<int>, pos: int, v: nat, pos': int, rest: seq<nat>)
    requires pos < pos' <= |data| && 0 <= pos && NextVarInt(data, pos) == (v, pos')
    requires DecodeFrom(data, pos') == rest
    ensures DecodeFrom(data, pos) == [v] + rest
  {
    assert HasMore(data, pos);
  }

  lemma {:induction false} DecodeEventsRoundTrip(vs: seq<nat>)
    requires forall i :: 0 <= i < |vs| ==> vs[i] < TWO_31
    ensures DecodeEvents(EncodeVars(vs)) == vs
  {
    assert [] + EncodeVars(vs) == EncodeVars(vs);
    DecodeFromRoundTrip([], vs);
  }

  // ---------------------------------------------------------------------
  // Fixed words

  /** Symbol i of a fixed word read from the buffer is digit i of the value. */
  lemma {:induction false} FixedSymbolRead(data: seq<int>, p: int, v: nat, n: nat, i: nat)
    requires HoldsAt(data, p, EncodeFixed(v, n)) && i < n
    ensures ByteAt(data, p + i) == Some((v / Pow2(6 * i)) % 64)
  {
    assert data[p + i] == EncodeFixed(v, n)[i];
    EncodeFixedAt(v, n, i);
  }

  lemma {:induction false} Pow2AtMost24(i: nat)
    requires i <= 4
    ensures Pow2(6 * i) <= 0x100_0000
  {
    Pow2Monotone(6 * i, 24);
    Pow2Add(18, 6);
    Pow2Constants();
  }

  /** A 6-bit digit shifted by at most 24 stays a positive 31-bit value. */
  lemma {:induction false} DigitShift(s: nat, i: nat)
    requires s < 64 && i <= 4
    ensures s * Pow2(6 * i) <= 63 * Pow2(6 * i) < 0x4000_0000
    ensures Shl(s, 6 * i) == s * Pow2(6 * i)
  {
    var P := Pow2(6 * i);
    Pow2AtMost24(i);
    assert s * P <= 63 * P by { MulNonNegative(63 - s, P); MulDistributes(P, 63 - s, s); }
    ShlSmall(s, 6 * i);
  }

  /** The low 6(i+1) bits are the low 6i bits plus digit i in place. */
  lemma {:induction false} FixedLowStep(v: nat, i: nat)
    ensures v % Pow2(6 * (i + 1)) == v % Pow2(6 * i) + ((v / Pow2(6 * i)) % 64) * Pow2(6 * i)
  {
    Pow2Add(6 * i, 6);
    assert Pow2(6) == 64;
    assert 6 * (i + 1) == 6 * i + 6;
    DivModSplit(v, Pow2(6 * i), 64);
  }

  /** One more 6-bit symbol OR-ed in above i symbols adds it in place. */
  lemma {:induction false} FixedReadNext(data: seq<int>, p: int, i: nat, low: int, s: nat)
    requires 1 <= i <= 4 && ByteAt(data, p + i) == Some(s) && s < 64
    requires FixedRead(data, p, i) == low && 0 <= low < Pow2(6 * i)
    ensures FixedRead(data, p, i + 1) == low + s * Pow2(6 * i)
  {
    DigitShift(s, i);
    assert low + s * Pow2(6 * i) < TWO_31 by {
      Pow2AtMost24(i);
    }
    BitOrDisjoint(low, s, 6 * i);
  }

  /** Reading m <= 5 symbols of a fixed word yields its low 6m bits. */
  lemma {:induction false} FixedReadLow(data: seq<int>, p: int, v: nat, n: nat, m: nat)
    requires HoldsAt(data, p, EncodeFixed(v, n)) && 1 <= m <= n && m <= 5
    ensures FixedRead(data, p, m) == v % Pow2(6 * m)
  {
    var i := m - 1;
    var s := (v / Pow2(6 * i)) % 64;
    FixedSymbolRead(data, p, v, n, i);
    FixedLowStep(v, i);
    if m == 1 {
      assert Pow2(0) == 1 && v / 1 == v && v % 1 == 0;
      DigitShift(s, 0);
    } else {
      FixedReadLow(data, p, v, n, i);
      FixedReadNext(data, p, i, v % Pow2(6 * i), s);
    }
  }

  /** `int30` / `intAt` read back `put30bit` exactly below 2^30. */
  lemma {:induction false} Int30RoundTrip(pre: seq<int>, v: nat, rest: seq<int>)
    requires v < Pow2(30)
    ensures Int30(pre + EncodeFixed(v, 5) + rest, |pre|) == v
  {
    var data := pre + EncodeFixed(v, 5) + rest;
    assert HoldsAt(data, |pre|, EncodeFixed(v, 5));
    FixedReadLow(data, |pre|, v, 5, 5);
    DivModUnique(v, Pow2(30), 0, v);
  }

  /** `intAt` of a word written by `put30bit` below 2^30. */
  lemma {:induction false} Int30At(data: seq<int>, q: int, v: nat)
    requires HoldsAt(data, q, EncodeFixed(v, 5)) && v < Pow2(30)
    ensures Int30(data, q) == v
  {
    assert data == data[..q] + EncodeFixed(v, 5) + data[q + 5..];
    Int30RoundTrip(data[..q], v, data[q + 5..]);
  }

  /** `int24` reads the low 24 bits of a fixed word. */
  lemma {:induction false} Int24Reads(pre: seq<int>, v: nat, n: nat, rest: seq<int>)
    requires 4 <= n <= 6
    ensures Int24(pre + EncodeFixed(v, n) + rest, |pre|) == v % Pow2(24)
  {
    var data := pre + EncodeFixed(v, n) + rest;
    assert HoldsAt(data, |pre|, EncodeFixed(v, n));
    FixedReadLow(data, |pre|, v, n, 4);
  }

  /** Wrapping to a signed 32-bit value does not change the residue mod 2^32. */
  lemma {:induction false} ModOfWrapped(x: int)
    ensures ToUint32(ToInt32(x)) == ToUint32(x)
  {
    var m := (x + TWO_31) % TWO_32;
    var q := (x + TWO_31) / TWO_32;
    assert x + TWO_31 == TWO_32 * q + m;
    assert ToInt32(x) == m - TWO_31;
    var r := x % TWO_32;
    assert x == TWO_32 * (x / TWO_32) + r;
    // m - 2^31 and x differ by a multiple of 2^32, so they share a residue
    if m >= TWO_31 {
      DivModUnique(m - TWO_31, TWO_32, 0, m - TWO_31);
      DivModUnique(x, TWO_32, q, m - TWO_31);
    } else {
      DivModUnique(m - TWO_31, TWO_32, -1, m + TWO_31);
      DivModUnique(x, TWO_32, q - 1, m + TWO_31);
    }
  }

  /** `s << 30` keeps the two low bits of s, at bits 30 and 31. */
  lemma {:induction false} TopShift(s: nat)
    requires s < 64
    ensures ToUint32(Shl(s, 30)) == (s % 4) * Pow2(30)
  {
    Pow2Constants();
    assert ToInt32(s) == s && ToUint32(30) == 30 by { InRangeIdentities(s); InRangeIdentities(30); }
    assert Shl(s, 30) == ToInt32(s * Pow2(30));
    ModOfWrapped(s * Pow2(30));
    var q := s / 4;
    assert s * Pow2(30) == TWO_32 * q + (s % 4) * Pow2(30);
    DivModUnique(s * Pow2(30), TWO_32, q, (s % 4) * Pow2(30));
  }

  /** The low 32 bits are the low 30 bits plus the two low bits of digit 5. */
  lemma {:induction false} Low32Split(v: nat)
    ensures v % TWO_32 == v % Pow2(30) + (((v / Pow2(30)) % 64) % 4) * Pow2(30)
  {
    Pow2Constants();
    DivModSplit(v, Pow2(30), 4);
    DivModSplit(v / Pow2(30), 4, 16);
  }

  /** `int36` keeps only the low 32 bits of a 36-bit word, read as a signed
      32-bit integer: bits 32..35 are lost and bit 31 becomes the sign. */
  lemma {:induction false} Int36Reads(pre: seq<int>, v: nat, rest: seq<int>)
    ensures Int36(pre + EncodeFixed(v, 6) + rest, |pre|) == ToInt32(v % TWO_32)
  {
    var data := pre + EncodeFixed(v, 6) + rest;
    assert HoldsAt(data, |pre|, EncodeFixed(v, 6));
    FixedReadLow(data, |pre|, v, 6, 5);
    var low := v % Pow2(30);
    var s := (v / Pow2(30)) % 64;
    assert ByteAt(data, |pre| + 5) == Some(s) by {
      FixedSymbolRead(data, |pre|, v, 6, 5);
    }
    assert Int36(data, |pre|) == BitOr(low, Shl(s, 30));
    assert ToUint32(Shl(s, 30)) == (s % 4) * Pow2(30) by { TopShift(s); }
    assert ToUint32(low) == low by { Pow2Constants(); InRangeIdentities(low); }
    assert OrNat(low, (s % 4) * Pow2(30)) == v % TWO_32 by {
      OrDisjoint(low, s % 4, 30);
      Low32Split(v);
    }
  }

  /** Hence `int36` equals the written value whenever it is below 2^31. */
  lemma {:induction false} Int36RoundTrip(pre: seq<int>, v: nat, rest: seq<int>)
    requires v < TWO_31
    ensures Int36(pre + EncodeFixed(v, 6) + rest, |pre|) == v
  {
    Int36Reads(pre, v, rest);
    DivModUnique(v, TWO_32, 0, v);
    InRangeIdentities(v);
  }
}
