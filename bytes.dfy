/**
 * Byte values and Python's bitwise operators on them.
 *
 * The encoder works on Python `bytes`, whose items are the integers 0..255,
 * and combines them with the integer operators `^`, `|`, `&`, `<<` and `>>`.
 * Each is defined here on non-negative integers, bit by bit from the lowest.
 */
module Bytes {

  /** An item of a Python `bytes` object. */
  newtype byte = x: int | 0 <= x < 256

  /** A non-zero multiple of `m` is at least `m` away from zero. */
  lemma MultipleBound(k: int, m: int)
    requires m > 0
    ensures k >= 1 ==> k * m >= m
    ensures k <= -1 ==> k * m <= -m
  {
    if k >= 1 {
      assert k * m == (k - 1) * m + m;
      assert (k - 1) * m >= 0;
    } else if k <= -1 {
      assert k * m == (k + 1) * m - m;
      assert (k + 1) * m <= 0;
    }
  }

  /** Quotient and remainder are the only such pair: `y == d * m + r` with `0 <= r < m`. */
  lemma DivModUnique(y: int, m: int, d: int, r: int)
    requires m > 0 && 0 <= r < m && y == d * m + r
    ensures y / m == d && y % m == r
  {
    assert y == (y / m) * m + y % m;
    assert (d - y / m) * m == y % m - r;
    MultipleBound(d - y / m, m);
  }

  /** `2^k`. */
  function Pow2(k: nat): (p: nat)
    ensures p > 0
  {
    if k == 0 then 1 else 2 * Pow2(k - 1)
  }

  /** Python's `a ^ b` on non-negative integers, taken bit by bit from the lowest. */
  function Xor(a: nat, b: nat): nat
    decreases a + b
  {
    if a == 0 then b
    else if b == 0 then a
    else 2 * Xor(a / 2, b / 2) + (a + b) % 2
  }

  /**
   * `Xor` works bit by bit for every pair of operands: its lowest bit is the
   * XOR of the lowest bits, and the bits above are the XOR of the bits above.
   */
  lemma XorBits(a: nat, b: nat)
    ensures Xor(a, b) % 2 == (a + b) % 2 && Xor(a, b) / 2 == Xor(a / 2, b / 2)
  {
    if a != 0 && b != 0 {
      SplitLowBit(Xor(a, b), Xor(a / 2, b / 2), (a + b) % 2);
    }
  }

  /** The XOR of two `k`-bit numbers is a `k`-bit number. */
  lemma {:induction false} XorBound(a: nat, b: nat, k: nat)
    requires a < Pow2(k) && b < Pow2(k)
    ensures Xor(a, b) < Pow2(k)
    decreases a + b
  {
    if a != 0 && b != 0 {
      assert k > 0;
      XorBound(a / 2, b / 2, k - 1);
    }
  }

  /** XOR with the same value twice is the identity. */
  lemma {:induction false} XorTwice(a: nat, b: nat)
    ensures Xor(Xor(a, b), b) == a
    decreases a + b
  {
    if a == 0 {
      XorSelf(b);
    } else if b != 0 {
      var low := Xor(a / 2, b / 2);
      var c := 2 * low + (a + b) % 2;
      assert Xor(a, b) == c;
      XorTwice(a / 2, b / 2);
      assert Xor(low, b / 2) == a / 2;
      if c == 0 {
        assert low == 0 && a / 2 == b / 2 && a % 2 == b % 2;
        assert a == b;
      } else {
        SplitLowBit(c, low, (a + b) % 2);
        assert (c + b) % 2 == a % 2;
        assert Xor(c, b) == 2 * Xor(low, b / 2) + a % 2;
      }
    }
  }

  /** A number made of a lowest bit and the bits above it splits back into them. */
  lemma SplitLowBit(c: nat, low: nat, bit: nat)
    requires bit < 2 && c == 2 * low + bit
    ensures c / 2 == low && c % 2 == bit
  {
  }

  /** A number XORed with itself is zero. */
  lemma {:induction false} XorSelf(a: nat)
    ensures Xor(a, a) == 0
    decreases a
  {
    if a != 0 {
      XorSelf(a / 2);
    }
  }

  /** Python's `a | b` on non-negative integers. */
  function Or(a: nat, b: nat): (r: nat)
    ensures a <= r && b <= r
    decreases a + b
  {
    if a == 0 then b
    else if b == 0 then a
    else 2 * Or(a / 2, b / 2) + (if a % 2 == 1 || b % 2 == 1 then 1 else 0)
  }

  /** Python's `a & b` on non-negative integers. */
  function And(a: nat, b: nat): (r: nat)
    ensures r <= a && r <= b
    decreases a + b
  {
    if a == 0 || b == 0 then 0
    else 2 * And(a / 2, b / 2) + (if a % 2 == 1 && b % 2 == 1 then 1 else 0)
  }

  /** `Or` works bit by bit: a lowest bit is set when either one is, and the bits above are OR-ed. */
  lemma OrBits(a: nat, b: nat)
    ensures Or(a, b) % 2 == (if a % 2 == 1 || b % 2 == 1 then 1 else 0)
    ensures Or(a, b) / 2 == Or(a / 2, b / 2)
  {
    if a != 0 && b != 0 {
      SplitLowBit(Or(a, b), Or(a / 2, b / 2), if a % 2 == 1 || b % 2 == 1 then 1 else 0);
    }
  }

  /** `And` works bit by bit: a lowest bit is set when both are, and the bits above are AND-ed. */
  lemma AndBits(a: nat, b: nat)
    ensures And(a, b) % 2 == (if a % 2 == 1 && b % 2 == 1 then 1 else 0)
    ensures And(a, b) / 2 == And(a / 2, b / 2)
  {
    if a != 0 && b != 0 {
      SplitLowBit(And(a, b), And(a / 2, b / 2), if a % 2 == 1 && b % 2 == 1 then 1 else 0);
    }
  }

  /** `|` does not depend on the order of its operands. */
  lemma {:induction false} OrCommutes(a: nat, b: nat)
    ensures Or(a, b) == Or(b, a)
    decreases a + b
  {
    if a != 0 && b != 0 {
      OrCommutes(a / 2, b / 2);
    }
  }

  /** OR-ing `a << k` with a number below `2^k` adds them: their bits do not overlap. */
  lemma {:induction false} OrDisjoint(a: nat, c: nat, k: nat)
    requires c < Pow2(k)
    ensures Or(a * Pow2(k), c) == a * Pow2(k) + c
  {
    var x := a * Pow2(k);
    if k > 0 && x != 0 && c != 0 {
      assert x == 2 * (a * Pow2(k - 1));
      assert x / 2 == a * Pow2(k - 1) && x % 2 == 0;
      OrDisjoint(a, c / 2, k - 1);
    }
  }

  /** The remainder modulo `2p` from the remainder of the halved number modulo `p`. */
  lemma ModDouble(x: nat, p: nat)
    requires p > 0
    ensures x % (2 * p) == 2 * (x / 2 % p) + x % 2
  {
    var q := x / 2 / p;
    assert x / 2 == q * p + x / 2 % p;
    assert x == q * (2 * p) + (2 * (x / 2 % p) + x % 2);
    DivModUnique(x, 2 * p, q, 2 * (x / 2 % p) + x % 2);
  }

  /** AND-ing with `2^k - 1` keeps the low `k` bits. */
  lemma {:induction false} AndLowMask(x: nat, k: nat)
    ensures And(x, Pow2(k) - 1) == x % Pow2(k)
  {
    if k == 0 {
      assert Pow2(k) == 1;
    } else if x != 0 {
      var p := Pow2(k - 1);
      assert Pow2(k) == 2 * p;
      assert (2 * p - 1) / 2 == p - 1 && (2 * p - 1) % 2 == 1;
      var low := And(x / 2, p - 1);
      assert And(x, 2 * p - 1) == 2 * low + x % 2;
      AndLowMask(x / 2, k - 1);
      assert low == x / 2 % p;
      ModDouble(x, p);
      assert 2 * low + x % 2 == x % (2 * p);
    }
  }

  /** `a ^ b` on two bytes. */
  function XorByte(a: byte, b: byte): (r: byte)
    ensures r as int == Xor(a as nat, b as nat)
  {
    assert Pow2(8) == 256;
    XorBound(a as nat, b as nat, 8);
    Xor(a as nat, b as nat) as byte
  }

  /** XOR with the same byte twice is the identity on bytes. */
  lemma XorByteTwice(a: byte, b: byte)
    ensures XorByte(XorByte(a, b), b) == a
  {
    XorTwice(a as nat, b as nat);
  }
}
