/** The printable-symbol integer layouts shared by the Java writers
    (`SimpleHeatmap.HtmlOut`, `Heatmap.SampleCollection`) and the JavaScript
    readers. A symbol is a 6-bit value written as the code unit symbol + 63.

    - a varint: 5 data bits per symbol, low first, 0x20 set on all but the last;
    - a fixed word: n symbols of 6 bits, low first (n = 5 for 30 bits, 6 for 36);
    - a tiny varint: 3-bit sub-symbols `(v & 3) | 4` while v > 3, then v. */
module Symbols {
  import opened Common

  /** Offset added to every 6-bit symbol: symbol 0 is the character '?'. */
  const BIAS: int := 63

  /** The code units of a varint. */
  function EncodeVar(v: nat): (r: seq<int>)
    ensures |r| >= 1
    decreases v
  {
    if v > 0x1F then [v % 32 + 0x20 + BIAS] + EncodeVar(v / 32) else [v + BIAS]
  }

  /** Reassembles 5-bit chunks, low first: the value a varint denotes. */
  function VarValue(s: seq<int>): int
  {
    if |s| == 0 then 0 else (s[0] - BIAS) % 32 + 32 * VarValue(s[1..])
  }

  /** The chunks of a varint reassemble to the value written. */
  lemma {:induction false} EncodeVarValue(v: nat)
    ensures VarValue(EncodeVar(v)) == v
    decreases v
  {
    if v > 0x1F {
      EncodeVarValue(v / 32);
      assert EncodeVar(v)[1..] == EncodeVar(v / 32);
    }
  }

  /** Every code unit of a varint is printable ('?' to '~'); all but the last
      carry the continuation flag, the last one does not. */
  lemma {:induction false} EncodeVarShape(v: nat)
    ensures AllIn(EncodeVar(v), BIAS, BIAS + 0x3F)
    ensures forall i :: 0 <= i < |EncodeVar(v)| - 1 ==> EncodeVar(v)[i] - BIAS >= 0x20
    ensures EncodeVar(v)[|EncodeVar(v)| - 1] - BIAS < 0x20
    decreases v
  {
    if v > 0x1F {
      EncodeVarShape(v / 32);
      assert EncodeVar(v)[1..] == EncodeVar(v / 32);
    }
  }

  /** A varint of v has one symbol per started group of 5 bits: at most
      k symbols whenever v < 2^(5k). */
  lemma {:induction false} EncodeVarLength(v: nat, k: nat)
    requires v < Pow2(5 * k)
    ensures |EncodeVar(v)| <= Max(k, 1)
    decreases v
  {
    if v > 0x1F {
      assert k >= 2 by {
        if k <= 1 {
          Pow2Monotone(5 * k, 5);
          Pow2Constants();
        }
      }
      Pow2Add(5, 5 * (k - 1));
      Pow2Constants();
      assert v / 32 < Pow2(5 * (k - 1));
      EncodeVarLength(v / 32, k - 1);
    }
  }

  /** The code units of a fixed word of n symbols. */
  function EncodeFixed(v: nat, n: nat): (r: seq<int>)
    ensures |r| == n
  {
    if n == 0 then [] else [v % 64 + BIAS] + EncodeFixed(v / 64, n - 1)
  }

  /** Reassembles 6-bit symbols, low first. */
  function FixedValue(s: seq<int>): int
  {
    if |s| == 0 then 0 else (s[0] - BIAS) + 64 * FixedValue(s[1..])
  }

  /** n fixed symbols keep exactly the low 6n bits of the value. */
  lemma {:induction false} EncodeFixedValue(v: nat, n: nat)
    ensures FixedValue(EncodeFixed(v, n)) == v % Pow2(6 * n)
  {
    if n > 0 {
      EncodeFixedValue(v / 64, n - 1);
      assert EncodeFixed(v, n)[1..] == EncodeFixed(v / 64, n - 1);
      var p := Pow2(6 * (n - 1));
      Pow2Add(6, 6 * (n - 1));
      Pow2Constants();
      assert Pow2(6 * n) == 64 * p;
      DivModSplit(v, 64, p);
    }
  }

  /** Every code unit of a fixed word is printable. */
  lemma {:induction false} EncodeFixedShape(v: nat, n: nat)
    ensures AllIn(EncodeFixed(v, n), BIAS, BIAS + 0x3F)
  {
    if n > 0 {
      EncodeFixedShape(v / 64, n - 1);
      assert EncodeFixed(v, n)[1..] == EncodeFixed(v / 64, n - 1);
    }
  }

  /** The i-th symbol of a fixed word is the i-th 6-bit digit of the value. */
  lemma {:induction false} EncodeFixedAt(v: nat, n: nat, i: nat)
    requires i < n
    ensures EncodeFixed(v, n)[i] == (v / Pow2(6 * i)) % 64 + BIAS
  {
    if i > 0 {
      EncodeFixedAt(v / 64, n - 1, i - 1);
      assert EncodeFixed(v, n)[i] == EncodeFixed(v / 64, n - 1)[i - 1];
      Pow2Add(6, 6 * (i - 1));
      assert Pow2(6) == 64;
      DivDiv(v, 64, Pow2(6 * (i - 1)));
    }
  }

  /** Dividing twice is dividing by the product. */
  lemma {:induction false} DivDiv(v: nat, a: nat, b: nat)
    requires a > 0 && b > 0
    ensures v / a / b == v / (a * b)
  {
    var q := v / a / b;
    var r := (v / a) % b;
    var r0 := v % a;
    assert v / a == b * q + r;
    assert v == a * (v / a) + r0;
    MulDistributes(a, b * q, r);
    MulAssociates(a, b, q);
    assert v == (a * b) * q + (a * r + r0);
    MulDistributes(a, b - 1 - r, r);
    MulNonNegative(a, b - 1 - r);
    MulDistributes(a, b, -1);
    MulNonNegative(a, r);
    DivModUnique(v, a * b, q, a * r + r0);
  }

  /** v mod (a*b) splits into the low digit and the next one. */
  lemma {:induction false} DivModSplit(v: nat, a: nat, b: nat)
    requires a > 0 && b > 0
    ensures v % (a * b) == v % a + a * ((v / a) % b)
  {
    var q := v / a;
    var r := v % a;
    var q2 := q / b;
    var r2 := q % b;
    assert v == a * q + r;
    assert q == b * q2 + r2;
    MulDistributes(a, b * q2, r2);
    MulAssociates(a, b, q2);
    assert a * q == (a * b) * q2 + a * r2;
    assert v == (a * b) * q2 + (a * r2 + r);
    MulDistributes(a, b - 1 - r2, r2);
    MulNonNegative(a, b - 1 - r2);
    MulDistributes(a, b, -1);
    assert a * r2 <= a * (b - 1) == a * b - a;
    MulNonNegative(a, r2);
    DivModUnique(v, a * b, q2, a * r2 + r);
  }

  /** The 3-bit sub-symbols of a tiny varint. */
  function TinySubSymbols(v: nat): (r: seq<int>)
    ensures |r| >= 1
    decreases v
  {
    if v > 3 then [v % 4 + 4] + TinySubSymbols(v / 4) else [v]
  }

  /** Reassembles 2-bit chunks, low first; bit 2 of each sub-symbol is the
      continuation flag and carries no data. */
  function TinyValue(s: seq<int>): int
  {
    if |s| == 0 then 0 else s[0] % 4 + 4 * TinyValue(s[1..])
  }

  lemma {:induction false} TinySubSymbolsValue(v: nat)
    ensures TinyValue(TinySubSymbols(v)) == v
    decreases v
  {
    if v > 3 {
      var t := TinySubSymbols(v);
      assert t == [v % 4 + 4] + TinySubSymbols(v / 4);
      assert t[1..] == TinySubSymbols(v / 4);
      TinySubSymbolsValue(v / 4);
      assert TinyValue(t) == t[0] % 4 + 4 * TinyValue(t[1..]);
    } else {
      assert TinySubSymbols(v) == [v];
      assert TinyValue([v]) == v % 4 + 4 * TinyValue([]);
    }
  }

  /** Every sub-symbol fits 3 bits; all but the last carry the continuation
      bit 4, the last one does not. */
  lemma {:induction false} TinySubSymbolsShape(v: nat)
    ensures AllIn(TinySubSymbols(v), 0, 7)
    ensures forall i :: 0 <= i < |TinySubSymbols(v)| - 1 ==> TinySubSymbols(v)[i] >= 4
    ensures TinySubSymbols(v)[|TinySubSymbols(v)| - 1] < 4
    decreases v
  {
    if v > 3 {
      TinySubSymbolsShape(v / 4);
      assert TinySubSymbols(v)[1..] == TinySubSymbols(v / 4);
    }
  }

  /** The code units of a sequence of varints written back to back. */
  function EncodeVars(vs: seq<nat>): (r: seq<int>)
    ensures |vs| > 0 ==> |r| > 0
  {
    if |vs| == 0 then [] else EncodeVar(vs[0]) + EncodeVars(vs[1..])
  }

  lemma {:induction false} EncodeVarsAppend(a: seq<nat>, b: seq<nat>)
    ensures EncodeVars(a + b) == EncodeVars(a) + EncodeVars(b)
  {
    if |a| > 0 {
      assert (a + b)[1..] == a[1..] + b;
      EncodeVarsAppend(a[1..], b);
    } else {
      assert a + b == b;
    }
  }
}
