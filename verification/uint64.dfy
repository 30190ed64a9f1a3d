/**
 Go's `uint64` arithmetic on mathematical integers: values lie in
 [0, 2^64), and `+`, `-`, `*` wrap around modulo 2^64. Division is exact
 integer division (it never wraps), and `&` is bitwise AND.
 */
module UInt64 {

  /** 2^64: the number of distinct `uint64` values. */
  const Modulus: nat := 0x1_0000_0000_0000_0000

  type u64 = x: int | 0 <= x < Modulus

  function Pow2(k: nat): (r: nat)
    ensures r >= 1
  {
    if k == 0 then 1 else 2 * Pow2(k - 1)
  }

  /** `a + b` with wrap-around. */
  function Add(a: u64, b: u64): u64
  {
    (a + b) % Modulus
  }

  /** `a - b` with wrap-around (Dafny's `%` never returns a negative number). */
  function Sub(a: u64, b: u64): u64
  {
    (a - b) % Modulus
  }

  /** `a * b` keeping the low 64 bits. */
  function Mul(a: u64, b: u64): u64
  {
    (a * b) % Modulus
  }

  /** Unsigned `a / b`; Go panics when `b` is zero. */
  function Div(a: u64, b: u64): (r: u64)
    requires b != 0
    ensures r * b <= a < (r + 1) * b
  {
    a / b
  }

  /** Bit `i` of `x` (0 or 1), counting from the least significant bit. */
  function Bit(x: nat, i: nat): nat
  {
    (x / Pow2(i)) % 2
  }

  /** Bitwise AND of two naturals, one bit at a time from the least significant end. */
  function AndBits(a: nat, b: nat): (r: nat)
    ensures r <= a && r <= b
    decreases a
  {
    if a == 0 || b == 0 then 0
    else 2 * AndBits(a / 2, b / 2) + (if a % 2 == 1 && b % 2 == 1 then 1 else 0)
  }

  /** `a & b`. */
  function And(a: u64, b: u64): u64
  {
    AndBits(a, b)
  }

  // ----- Wrap-around arithmetic -----

  /** Subtracting what was added gives back the original value, wrap-around included. */
  lemma SubAdd(x: u64, t: u64)
    ensures Sub(Add(x, t), t) == x
  {
    if x + t >= Modulus {
      assert Add(x, t) == x + t - Modulus;
    }
  }

  /** Adding what was subtracted gives back the original value, wrap-around included. */
  lemma AddSub(x: u64, t: u64)
    ensures Add(Sub(x, t), t) == x
  {
    if x - t < 0 {
      assert Sub(x, t) == x - t + Modulus;
    }
  }

  /** A wrapped product inside a wrapped sum wraps only once: the sum is taken modulo 2^64. */
  lemma AddMul(x: u64, a: u64, b: u64)
    ensures Add(x, Mul(a, b)) == (x + a * b) % Modulus
  {
    var t := a * b;
    DivModUnique(t, Modulus, t / Modulus, t % Modulus);
    ModAddMultiple(x + t % Modulus, Modulus, t / Modulus);
  }

  /** The same for a wrapped product inside a wrapped difference. */
  lemma SubMul(x: u64, a: u64, b: u64)
    ensures Sub(x, Mul(a, b)) == (x - a * b) % Modulus
  {
    var t := a * b;
    DivModUnique(t, Modulus, t / Modulus, t % Modulus);
    ModAddMultiple(x - t, Modulus, t / Modulus);
  }

  // ----- Facts about division and remainders -----

  /** Quotient and remainder are determined by the equation `a == d * q + r` with `0 <= r < d`. */
  lemma DivModUnique(a: int, d: int, q: int, r: int)
    requires d > 0
    requires 0 <= r < d
    requires a == d * q + r
    ensures a / d == q && a % d == r
  {
    var q0, r0 := a / d, a % d;
    assert d * (q - q0) == r0 - r;
    if q - q0 >= 1 {
      MulAtLeast(d, q - q0);
    } else if q - q0 <= -1 {
      MulAtLeast(d, q0 - q);
    }
  }

  lemma MulAtLeast(d: int, k: int)
    requires d > 0 && k >= 1
    ensures d * k >= d
  {
  }

  /** Adding a multiple of `d` does not change the remainder modulo `d`. */
  lemma ModAddMultiple(x: int, d: int, k: int)
    requires d > 0
    ensures (x + d * k) % d == x % d
  {
    DivModUnique(x + d * k, d, x / d + k, x % d);
  }

  /** Reducing modulo a multiple of `c` first does not change the remainder modulo `c`. */
  lemma ModMod(a: int, c: int, e: int)
    requires c > 0 && e > 0
    ensures (a % (c * e)) % c == a % c
  {
    var q := a / (c * e);
    assert a == (c * e) * q + a % (c * e);
    assert (c * e) * q == c * (e * q);
    ModAddMultiple(a % (c * e), c, e * q);
  }

  lemma Pow2Add(i: nat, j: nat)
    ensures Pow2(i + j) == Pow2(i) * Pow2(j)
    decreases i
  {
    if i > 0 {
      Pow2Add(i - 1, j);
    }
  }

  lemma Pow2Is2To64()
    ensures Pow2(64) == Modulus
  {
    assert Pow2(4) == 16;
    Pow2Add(4, 4);
    assert Pow2(8) == 0x100;
    Pow2Add(8, 8);
    assert Pow2(16) == 0x1_0000;
    Pow2Add(16, 16);
    assert Pow2(32) == 0x1_0000_0000;
    Pow2Add(32, 32);
  }

  /** `2^k` divides `2^64` for every `k <= 64`. */
  lemma Pow2DividesModulus(k: nat)
    requires k <= 64
    ensures Modulus == Pow2(k) * Pow2(64 - k)
  {
    Pow2Add(k, 64 - k);
    Pow2Is2To64();
  }

  /** `t` is a multiple of `p`: `t == p * (t / p)`. */
  lemma MultipleOf(t: int, p: int)
    requires p > 0 && t % p == 0
    ensures t == p * (t / p)
  {
  }

  /**
   Wrapping modulo `p * e` and then reducing modulo `p` gives the same as
   reducing modulo `p`, and adding a multiple of `p` changes nothing.
   */
  lemma WrapKeepsResidue(a: int, t: int, p: int, e: int)
    requires p > 0 && e > 0
    requires t % p == 0
    ensures ((a + t) % (p * e)) % p == a % p
  {
    ModMod(a + t, p, e);
    MultipleOf(t, p);
    ModAddMultiple(a, p, t / p);
  }

  /** The same as `WrapKeepsResidue` for subtraction. */
  lemma WrapSubKeepsResidue(a: int, t: int, p: int, e: int)
    requires p > 0 && e > 0
    requires t % p == 0
    ensures ((a - t) % (p * e)) % p == a % p
  {
    ModMod(a - t, p, e);
    MultipleOf(t, p);
    var c := t / p;
    assert a - t == a + p * -c;
    ModAddMultiple(a, p, -c);
  }

  /** With `t` a multiple of `2^k`, adding `t` keeps the low `k` bits. */
  lemma AddKeepsLowBits(x: u64, t: u64, k: nat)
    requires k <= 64
    requires t % Pow2(k) == 0
    ensures Add(x, t) % Pow2(k) == x % Pow2(k)
  {
    Pow2DividesModulus(k);
    WrapKeepsResidue(x, t, Pow2(k), Pow2(64 - k));
  }

  /** With `t` a multiple of `2^k`, subtracting `t` keeps the low `k` bits. */
  lemma SubKeepsLowBits(x: u64, t: u64, k: nat)
    requires k <= 64
    requires t % Pow2(k) == 0
    ensures Sub(x, t) % Pow2(k) == x % Pow2(k)
  {
    Pow2DividesModulus(k);
    WrapSubKeepsResidue(x, t, Pow2(k), Pow2(64 - k));
  }

  /** A wrapped product with a multiple of `2^k` is still a multiple of `2^k`. */
  lemma MulKeepsMultiple(a: u64, b: u64, k: nat)
    requires k <= 64
    requires a % Pow2(k) == 0
    ensures Mul(a, b) % Pow2(k) == 0
  {
    Pow2DividesModulus(k);
    ProductOfMultiple(a, b, Pow2(k));
    WrapKeepsResidue(0, a * b, Pow2(k), Pow2(64 - k));
  }

  lemma ProductOfMultiple(a: int, b: int, p: int)
    requires p > 0 && a % p == 0
    ensures (a * b) % p == 0
  {
    MultipleOf(a, p);
    var c := a / p;
    assert a * b == p * (c * b);
    DivModUnique(a * b, p, c * b, 0);
  }

  // ----- Bitwise AND -----

  /** The defining step of `AndBits`, valid also when an operand is zero. */
  lemma AndBitsStep(a: nat, b: nat)
    ensures AndBits(a, b) == 2 * AndBits(a / 2, b / 2) + (if a % 2 == 1 && b % 2 == 1 then 1 else 0)
  {
  }

  /** `AndBits` is bitwise: bit `i` of the result is set exactly when it is set in both operands. */
  lemma {:induction false} AndBitsIsBitwise(a: nat, b: nat, i: nat)
    ensures Bit(AndBits(a, b), i) == (if Bit(a, i) == 1 && Bit(b, i) == 1 then 1 else 0)
    decreases i
  {
    var r, h := AndBits(a, b), AndBits(a / 2, b / 2);
    AndBitsStep(a, b);
    assert r / 2 == h && r % 2 == (if a % 2 == 1 && b % 2 == 1 then 1 else 0);
    if i == 0 {
      assert Pow2(0) == 1;
      assert Bit(r, 0) == r % 2 && Bit(a, 0) == a % 2 && Bit(b, 0) == b % 2;
    } else {
      AndBitsIsBitwise(a / 2, b / 2, i - 1);
      BitOfHalf(a, i);
      BitOfHalf(b, i);
      BitOfHalf(r, i);
    }
  }

  /** Bit `i` of `x` is bit `i - 1` of `x / 2`. */
  lemma BitOfHalf(x: nat, i: nat)
    requires i > 0
    ensures Bit(x, i) == Bit(x / 2, i - 1)
  {
    DivDiv(x, 2, Pow2(i - 1));
  }

  lemma DivDiv(x: nat, c: nat, e: nat)
    requires c > 0 && e > 0
    ensures x / (c * e) == (x / c) / e
  {
    var q, r := (x / c) / e, (x / c) % e;
    assert x == c * (x / c) + x % c;
    assert x / c == e * q + r;
    assert x == (c * e) * q + (c * r + x % c) by {
      assert c * (e * q + r) == (c * e) * q + c * r;
    }
    assert c * r + x % c < c * e by {
      assert r <= e - 1;
      assert c * r <= c * (e - 1);
    }
    DivModUnique(x, c * e, q, c * r + x % c);
  }

  /** A mask below `2^k` only looks at the low `k` bits of the other operand. */
  lemma {:induction false} AndIgnoresHighBits(a: nat, m: nat, k: nat)
    requires m < Pow2(k)
    ensures AndBits(a, m) == AndBits(a % Pow2(k), m)
    decreases k
  {
    if k == 0 {
      assert m == 0;
    } else {
      var a' := a % Pow2(k);
      AndBitsStep(a, m);
      AndBitsStep(a', m);
      SplitRemainder(a, 2, Pow2(k - 1));
      AndIgnoresHighBits(a / 2, m / 2, k - 1);
    }
  }

  /**
   The remainder modulo `c * p` splits into a low digit modulo `c` and a
   high part modulo `p`: dividing by `c` commutes with the reduction.
   */
  lemma SplitRemainder(a: nat, c: nat, p: nat)
    requires c > 0 && p > 0
    ensures a % (c * p) == c * ((a / c) % p) + a % c
    ensures (a % (c * p)) / c == (a / c) % p
    ensures (a % (c * p)) % c == a % c
  {
    var q, r := (a / c) / p, (a / c) % p;
    assert a == c * (a / c) + a % c;
    assert a == (c * p) * q + (c * r + a % c) by {
      assert c * (a / c) == c * (p * q + r) == (c * p) * q + c * r;
    }
    assert c * r + a % c < c * p by {
      assert r <= p - 1;
      assert c * r <= c * (p - 1);
    }
    DivModUnique(a, c * p, q, c * r + a % c);
    DivModUnique(c * r + a % c, c, r, a % c);
  }
}
