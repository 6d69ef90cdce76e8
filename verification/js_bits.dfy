/** The JavaScript 32-bit bitwise operators the viewer's decoders rely on,
    stated on mathematical integers: every operand goes through ToInt32 or
    ToUint32 and every shift count is taken modulo 32, as the language
    prescribes. */
module JsBits {
  import opened Common

  /** Bitwise OR of two naturals, one bit at a time from the low end. */
  function OrNat(a: nat, b: nat): nat
    decreases a
  {
    if a == 0 then b
    else if b == 0 then a
    else (if a % 2 == 1 || b % 2 == 1 then 1 else 0) + 2 * OrNat(a / 2, b / 2)
  }

  /** JavaScript `a | b`. */
  function BitOr(a: int, b: int): Int32
  {
    ToInt32(OrNat(ToUint32(a), ToUint32(b)))
  }

  /** JavaScript `a << s`. */
  function Shl(a: int, s: int): Int32
  {
    ToInt32(ToInt32(a) * Pow2(ToUint32(s) % 32))
  }

  /** JavaScript `a & (2^k - 1)`: the low k bits of the two's-complement
      representation, which is the unsigned reading modulo 2^k. */
  function Mask(a: int, k: nat): nat
    requires k <= 31
  {
    ToUint32(a) % Pow2(k)
  }

  /** A mask of the low k bits is the Euclidean remainder modulo 2^k, also
      for negative operands: Java's `h & (capacity - 1)` with a power-of-two
      capacity is `h % capacity` in Dafny's arithmetic. */
  lemma {:induction false} MaskIsRemainder(a: int, k: nat)
    requires k <= 31
    ensures Mask(a, k) == a % Pow2(k)
  {
    assert TWO_32 == Pow2(k) * Pow2(32 - k) by {
      Pow2Add(k, 32 - k);
      Pow2Constants();
    }
    ModMod(a, Pow2(k), Pow2(32 - k));
  }

  /** Reducing modulo a multiple of p first does not change the remainder
      modulo p. */
  lemma {:induction false} ModMod(a: int, p: int, big: int)
    requires p > 0 && big > 0
    ensures (a % (p * big)) % p == a % p
  {
    var m := p * big;
    var q := a / m;
    var u := a % m;
    assert a == m * q + u;
    var q2 := u / p;
    var r := u % p;
    assert u == p * q2 + r;
    assert p * (big * q + q2) == m * q + p * q2 by {
      MulDistributes(p, big * q, q2);
      MulAssociates(p, big, q);
    }
    DivModUnique(a, p, big * q + q2, r);
  }

  /** When the bits of a and b do not overlap, OR is addition. */
  lemma {:induction false} OrDisjoint(a: nat, c: nat, k: nat)
    requires a < Pow2(k)
    ensures OrNat(a, c * Pow2(k)) == a + c * Pow2(k)
    decreases a
  {
    var b := c * Pow2(k);
    if a == 0 || b == 0 {
    } else {
      assert k > 0;
      var h := Pow2(k - 1);
      var m := c * h;
      assert b == 2 * m by {
        assert Pow2(k) == 2 * h;
        assert c * (2 * h) == 2 * (c * h);
      }
      assert b / 2 == m && b % 2 == 0;
      assert a / 2 < h;
      OrDisjoint(a / 2, c, k - 1);
      assert OrNat(a / 2, m) == a / 2 + m;
    }
  }

  /** A left shift that stays inside the positive 31-bit range is multiplication. */
  lemma {:induction false} ShlSmall(a: int, s: nat)
    requires 0 <= a && s < 32 && a * Pow2(s) < TWO_31
    ensures Shl(a, s) == a * Pow2(s)
  {
    var x := a * Pow2(s);
    assert 0 <= a < TWO_31 by {
      MulGrows(a, Pow2(s));
    }
    assert ToInt32(a) == a by { InRangeIdentities(a); }
    assert ToUint32(s) == s by { InRangeIdentities(s); }
    assert s % 32 == s;
    assert 0 <= x by { MulNonNegative(a, Pow2(s)); }
    assert ToInt32(x) == x by { InRangeIdentities(x); }
  }

  lemma {:induction false} ShlZero(s: int)
    ensures Shl(0, s) == 0
  {
  }

  /** OR of two non-negative 31-bit values with disjoint bits is their sum. */
  lemma {:induction false} BitOrDisjoint(a: int, c: nat, k: nat)
    requires 0 <= a < Pow2(k) && a + c * Pow2(k) < TWO_31
    ensures BitOr(a, c * Pow2(k)) == a + c * Pow2(k)
  {
    var b := c * Pow2(k);
    assert 0 <= b by { MulNonNegative(c, Pow2(k)); }
    assert ToUint32(a) == a && ToUint32(b) == b by {
      InRangeIdentities(a);
      InRangeIdentities(b);
    }
    assert OrNat(a, b) == a + b by { OrDisjoint(a, c, k); }
    InRangeIdentities(a + b);
  }

  lemma {:induction false} OrNatCommutes(a: nat, b: nat)
    ensures OrNat(a, b) == OrNat(b, a)
    decreases a + b
  {
    if a != 0 && b != 0 {
      OrNatCommutes(a / 2, b / 2);
    }
  }

  /** Packing two 3-bit values as `(s << 3) | v` is s * 8 + v. */
  lemma {:induction false} ShlOrSmall(s: int, v: int)
    requires 0 <= s < 8 && 0 <= v < 8
    ensures BitOr(Shl(s, 3), v) == s * 8 + v
  {
    assert Pow2(3) == 8;
    ShlSmall(s, 3);
    assert ToUint32(s * 8) == s * 8 && ToUint32(v) == v by {
      InRangeIdentities(s * 8);
      InRangeIdentities(v);
    }
    OrNatCommutes(s * 8, v);
    BitOrDisjoint(v, s, 3);
  }
}
