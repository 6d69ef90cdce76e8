/** Shared vocabulary of the converter model: failure-carrying results, the
    exceptions the Java and JavaScript code can raise, powers of two, and the
    fixed-width integer conversions of both languages. */
module Common {

  /** The exceptions the modelled code throws; each names the Java or
      JavaScript error it stands for. */
  datatype Error =
    | IllegalArgument     // IllegalArgumentException from the writers
    | NullKey             // NullPointerException from IndexInt/IndexLong on key 0
    | IllegalState        // IllegalStateException from Heatmap once `finish` is set
    | IndexOutOfBounds    // Array/StringIndexOutOfBoundsException
    | NegativeArraySize   // NegativeArraySizeException
    | TypeError           // JavaScript TypeError (a property read on undefined)
    | Undefined           // a JavaScript read past the end of an array, which yields undefined
    | DivideByZero        // ArithmeticException from a Java integer division by zero

  datatype Option<+T> = None | Some(value: T)

  datatype Result<+T> = Success(value: T) | Failure(error: Error) {
    predicate IsFailure() { Failure? }

    function PropagateFailure<U>(): Result<U>
      requires Failure?
    {
      Failure(error)
    }

    function Extract(): T
      requires Success?
    {
      value
    }
  }

  function Pow2(n: nat): (r: nat)
    ensures r >= 1
  {
    if n == 0 then 1 else 2 * Pow2(n - 1)
  }

  lemma {:induction false} Pow2Add(a: nat, b: nat)
    ensures Pow2(a + b) == Pow2(a) * Pow2(b)
  {
    if a > 0 {
      Pow2Add(a - 1, b);
      assert Pow2(a + b) == 2 * Pow2(a - 1 + b);
    }
  }

  lemma {:induction false} Pow2Monotone(a: nat, b: nat)
    requires a <= b
    ensures Pow2(a) <= Pow2(b)
  {
    if a < b {
      Pow2Monotone(a, b - 1);
    }
  }

  /** Pow2(n) is strictly below Pow2(m) exactly when n < m. */
  lemma {:induction false} Pow2Strict(n: nat, m: nat)
    ensures n < m <==> Pow2(n) < Pow2(m)
  {
    if n < m {
      Pow2Monotone(n + 1, m);
    } else {
      Pow2Monotone(m, n);
    }
  }

  const TWO_31: int := 0x8000_0000
  const TWO_32: int := 0x1_0000_0000
  const TWO_63: int := 0x8000_0000_0000_0000
  const TWO_64: int := 0x1_0000_0000_0000_0000

  lemma {:induction false} Pow2Constants()
    ensures Pow2(5) == 32 && Pow2(6) == 64 && Pow2(18) == 0x4_0000
    ensures Pow2(30) == 0x4000_0000 && Pow2(31) == TWO_31 && Pow2(32) == TWO_32
    ensures Pow2(36) == 0x10_0000_0000
  {
    assert Pow2(5) == 32;
    assert Pow2(6) == 64;
    assert Pow2(12) == 0x1000 by { Pow2Add(6, 6); }
    assert Pow2(18) == 0x4_0000 by { Pow2Add(12, 6); }
    assert Pow2(24) == 0x100_0000 by { Pow2Add(18, 6); }
    assert Pow2(30) == 0x4000_0000 by { Pow2Add(24, 6); }
    assert Pow2(36) == 0x10_0000_0000 by { Pow2Add(30, 6); }
  }

  /** A Java `int` / JavaScript 32-bit integer. */
  type Int32 = x: int | -TWO_31 <= x < TWO_31
  /** A Java `long`. */
  type Int64 = x: int | -TWO_63 <= x < TWO_63

  /** Two's-complement wrap-around to 32 bits (Java `(int)` cast, JavaScript ToInt32). */
  function ToInt32(x: int): (r: Int32)
    ensures (r - x) % TWO_32 == 0
  {
    (x + TWO_31) % TWO_32 - TWO_31
  }

  /** The unsigned 32-bit reading of x (JavaScript ToUint32, Java `>>>` on an int). */
  function ToUint32(x: int): (r: nat)
    ensures r < TWO_32 && (r - x) % TWO_32 == 0
  {
    x % TWO_32
  }

  /** The unsigned 64-bit reading of x (Java `>>>` on a long). */
  function ToUint64(x: int): (r: nat)
    ensures r < TWO_64 && (r - x) % TWO_64 == 0
  {
    x % TWO_64
  }

  /** Java `(byte)` cast. */
  function ToByte(x: int): (r: int)
    ensures -128 <= r < 128 && (r - x) % 256 == 0
  {
    (x + 128) % 256 - 128
  }

  /** Java `(char)` conversion of a sign-extended value: a UTF-16 code unit. */
  function ToCodeUnit(x: int): (r: nat)
    ensures r < 0x1_0000 && (r - x) % 0x1_0000 == 0
  {
    x % 0x1_0000
  }

  lemma {:induction false} InRangeIdentities(x: int)
    ensures 0 <= x < TWO_31 ==> ToInt32(x) == x && ToUint32(x) == x
    ensures 0 <= x < 0x1_0000 ==> ToCodeUnit(x) == x
    ensures -128 <= x < 128 ==> ToByte(x) == x
  {
  }

  /** Concatenation of a sequence of sequences. */
  function Flatten<T>(ss: seq<seq<T>>): (r: seq<T>)
  {
    if |ss| == 0 then [] else Flatten(ss[..|ss| - 1]) + ss[|ss| - 1]
  }

  lemma {:induction false} FlattenAppend<T>(a: seq<seq<T>>, b: seq<seq<T>>)
    ensures Flatten(a + b) == Flatten(a) + Flatten(b)
  {
    if |b| == 0 {
      assert a + b == a;
    } else {
      assert (a + b)[..|a + b| - 1] == a + b[..|b| - 1];
      FlattenAppend(a, b[..|b| - 1]);
    }
  }

  lemma {:induction false} FlattenOne<T>(s: seq<T>)
    ensures Flatten([s]) == s
  {
    assert [s][..0] == [];
  }

  /** Every element wrapped in Some: an array slot that was written. */
  function Somes<T>(s: seq<T>): (r: seq<Option<T>>)
    ensures |r| == |s| && forall i :: 0 <= i < |s| ==> r[i] == Some(s[i])
  {
    seq(|s|, i requires 0 <= i < |s| => Some(s[i]))
  }

  /** Every element of s lies in [lo, hi]. */
  predicate AllIn(s: seq<int>, lo: int, hi: int)
  {
    forall i :: 0 <= i < |s| ==> lo <= s[i] <= hi
  }

  predicate NoDuplicates<T(==)>(s: seq<T>)
  {
    forall i, j :: 0 <= i < j < |s| ==> s[i] != s[j]
  }

  function Sum(s: seq<int>): int
  {
    if |s| == 0 then 0 else Sum(s[..|s| - 1]) + s[|s| - 1]
  }

  lemma {:induction false} SumAppend(a: seq<int>, b: seq<int>)
    ensures Sum(a + b) == Sum(a) + Sum(b)
  {
    if |b| == 0 {
      assert a + b == a;
    } else {
      assert (a + b)[..|a + b| - 1] == a + b[..|b| - 1];
      SumAppend(a, b[..|b| - 1]);
    }
  }

  /** Multiplying by a positive factor does not shrink a natural. */
  lemma {:induction false} MulGrows(a: nat, p: nat)
    requires p >= 1
    ensures a <= a * p
  {
    assert a * p == a * (p - 1) + a;
  }

  lemma {:induction false} MulDistributes(a: int, x: int, y: int)
    ensures a * (x + y) == a * x + a * y
  {
  }

  lemma {:induction false} MulAssociates(a: int, b: int, c: int)
    ensures a * (b * c) == (a * b) * c
  {
  }

  lemma {:induction false} MulNonNegative(a: nat, b: nat)
    ensures a * b >= 0
  {
  }

  /** Division and remainder are determined by any decomposition with a
      remainder in range. */
  lemma {:induction false} DivModUnique(v: int, d: int, q: int, r: int)
    requires d > 0 && v == d * q + r && 0 <= r < d
    ensures v / d == q && v % d == r
  {
    var q0 := v / d;
    var r0 := v % d;
    assert v == d * q0 + r0;
    assert d * (q - q0) == r0 - r by {
      assert d * q - d * q0 == d * (q - q0);
    }
    if q > q0 {
      MulGrows(d, q - q0);
    } else if q < q0 {
      assert d * (q0 - q) == r - r0;
      MulGrows(d, q0 - q);
    }
  }

  function Min(a: int, b: int): int { if a < b then a else b }
  function Max(a: int, b: int): int { if a < b then b else a }
}
