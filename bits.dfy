/** Arithmetic on Python's unbounded non-negative integers: powers of two,
    single bits, exclusive or, and the facts about them that the CRC
    registers and the signal helpers need. `x & (2^k - 1)` is written
    `x % Pow2(k)` and `x >> k` is `x / Pow2(k)`; both agree with Python's
    operators for every integer, negative ones included. */
module Bits {

  function Pow2(n: nat): (r: nat)
    ensures r >= 1
  {
    if n == 0 then 1 else 2 * Pow2(n - 1)
  }

  /** Bit `i` of `x`, as Python's `x & (1 << i) != 0`. */
  predicate Bit(x: nat, i: nat) {
    (x / Pow2(i)) % 2 == 1
  }

  /** Python's `a ^ b` on non-negative integers. */
  function Xor(a: nat, b: nat): (r: nat)
    decreases a + b
  {
    if a == 0 && b == 0 then 0 else 2 * Xor(a / 2, b / 2) + (a + b) % 2
  }

  lemma Pow2Add(m: nat, n: nat)
    ensures Pow2(m + n) == Pow2(m) * Pow2(n)
  {
    if m > 0 {
      Pow2Add(m - 1, n);
    }
  }

  lemma Pow2Monotone(m: nat, n: nat)
    requires m <= n
    ensures Pow2(m) <= Pow2(n)
  {
    if m < n {
      Pow2Monotone(m, n - 1);
    }
  }

  /** A positive multiple of `d` is at least `d`. */
  lemma MulAtLeast(a: int, d: int)
    requires a >= 1 && d > 0
    ensures a * d >= d
  {
    var i := 1;
    while i < a
      invariant 1 <= i <= a
      invariant i * d >= d
    {
      assert (i + 1) * d == i * d + d;
      i := i + 1;
    }
  }

  lemma MulSub(a: int, b: int, d: int)
    ensures a * d - b * d == (a - b) * d
  {
  }

  /** Euclidean division is determined by quotient and remainder. */
  lemma DivModUnique(x: int, d: int, q: int, r: int)
    requires d > 0 && 0 <= r < d && x == q * d + r
    ensures x / d == q && x % d == r
  {
    var q', r' := x / d, x % d;
    assert x == q' * d + r';
    if q' > q {
      MulAtLeast(q' - q, d);
      MulSub(q', q, d);
    } else if q' < q {
      MulAtLeast(q - q', d);
      MulSub(q, q', d);
    }
  }

  lemma ModAddMultiple(k: nat, m: nat, x: nat)
    requires m > 0
    ensures (k * m + x) % m == x % m
  {
    DivModUnique(k * m + x, m, k + x / m, x % m);
  }

  /** Doubling and adding a bit commutes with reduction modulo `2P`. */
  lemma ModDouble(y: nat, e: nat, p: nat)
    requires e < 2 && p > 0
    ensures (2 * y + e) % (2 * p) == 2 * (y % p) + e
  {
    assert y == (y / p) * p + y % p;
    DivModUnique(2 * y + e, 2 * p, y / p, 2 * (y % p) + e);
  }

  lemma ModDoubleOf(x: nat, y: nat, e: nat, p: nat)
    requires e < 2 && p > 0 && x == 2 * y + e
    ensures x % (2 * p) == 2 * (y % p) + e
  {
    ModDouble(y, e, p);
  }

  lemma SumParity(u: nat, v: nat, a: nat, b: nat)
    requires u % 2 == a % 2 && v % 2 == b % 2
    ensures (u + v) % 2 == (a + b) % 2
  {
  }

  /** Halving commutes with reduction modulo `2P`. */
  lemma ModHalf(a: nat, p: nat)
    requires p > 0
    ensures (a % (2 * p)) / 2 == (a / 2) % p
    ensures (a % (2 * p)) % 2 == a % 2
  {
    var h := a / 2;
    assert a == 2 * h + a % 2;
    ModDouble(h, a % 2, p);
  }

  /** Reducing modulo `2d` keeps bit `log d`. */
  lemma ModKeepsTopBit(x: nat, d: nat)
    requires d > 0
    ensures ((x % (2 * d)) / d) % 2 == (x / d) % 2
  {
    var q, r := x / d, x % d;
    var s, t := q / 2, q % 2;
    assert x == s * (2 * d) + (t * d + r) by {
      assert x == q * d + r;
      calc {
        q * d;
        (2 * s + t) * d;
        { MulAddRight(2 * s, t, d); }
        (2 * s) * d + t * d;
        { MulRotate(s, 2, d); }
        s * (2 * d) + t * d;
      }
    }
    assert 0 <= t * d + r < 2 * d by {
      MulMonotone(t, 1, d);
    }
    DivModUnique(x, 2 * d, s, t * d + r);
    DivModUnique(t * d + r, d, t, r);
  }

  lemma BitOfMod(x: nat, w: nat)
    requires w > 0
    ensures Bit(x % Pow2(w), w - 1) == Bit(x, w - 1)
  {
    ModKeepsTopBit(x, Pow2(w - 1));
  }

  lemma XorUnfold(a: nat, b: nat)
    ensures Xor(a, b) == 2 * Xor(a / 2, b / 2) + (a + b) % 2
  {
  }

  lemma {:induction false} XorBound(a: nat, b: nat, k: nat)
    requires a < Pow2(k) && b < Pow2(k)
    ensures Xor(a, b) < Pow2(k)
  {
    if k > 0 && !(a == 0 && b == 0) {
      XorBound(a / 2, b / 2, k - 1);
    }
  }

  lemma {:induction false} XorZero(a: nat)
    ensures Xor(a, 0) == a
  {
    if a != 0 {
      XorZero(a / 2);
    }
  }

  /** High bits never flow down through an exclusive or. */
  lemma {:induction false} XorMod(a: nat, b: nat, k: nat)
    ensures Xor(a, b) % Pow2(k) == Xor(a % Pow2(k), b % Pow2(k))
  {
    if k == 0 {
      assert Xor(0, 0) == 0;
    } else {
      var p := Pow2(k - 1);
      var m := Pow2(k);
      assert m == 2 * p;
      XorMod(a / 2, b / 2, k - 1);
      XorModStep(a, b, p);
    }
  }

  /** The step of XorMod: one more low bit. */
  lemma XorModStep(a: nat, b: nat, p: nat)
    requires p > 0
    requires Xor(a / 2, b / 2) % p == Xor((a / 2) % p, (b / 2) % p)
    ensures Xor(a, b) % (2 * p) == Xor(a % (2 * p), b % (2 * p))
  {
    var a', b' := a % (2 * p), b % (2 * p);
    var y, e := Xor(a / 2, b / 2), (a + b) % 2;
    XorUnfold(a, b);
    ModDoubleOf(Xor(a, b), y, e, p);
    ModHalf(a, p);
    ModHalf(b, p);
    SumParity(a', b', a, b);
    calc {
      Xor(a', b');
      { XorUnfold(a', b'); }
      2 * Xor(a' / 2, b' / 2) + (a' + b') % 2;
      2 * Xor((a / 2) % p, (b / 2) % p) + e;
      2 * (y % p) + e;
    }
  }


  lemma DoubleMod(c: nat, w: nat)
    ensures (2 * c) % Pow2(w) == (2 * (c % Pow2(w))) % Pow2(w)
  {
    var m := Pow2(w);
    assert 2 * c == (2 * (c / m)) * m + 2 * (c % m);
    ModAddMultiple(2 * (c / m), m, 2 * (c % m));
  }

  /** Dividing twice is dividing by the product. */
  lemma DivDiv(x: nat, a: nat, b: nat)
    requires a > 0 && b > 0
    ensures x / a / b == x / (a * b)
  {
    var q1, r1 := x / a, x % a;
    var q2, r2 := q1 / b, q1 % b;
    DivDivParts(x, a, b, q1, r1, q2, r2);
    DivModUnique(x, a * b, q2, r2 * a + r1);
  }

  lemma DivDivParts(x: int, a: int, b: int, q1: int, r1: int, q2: int, r2: int)
    requires a > 0 && b > 0 && 0 <= r1 < a && 0 <= r2 < b
    requires x == q1 * a + r1 && q1 == q2 * b + r2
    ensures x == q2 * (a * b) + (r2 * a + r1) && 0 <= r2 * a + r1 < a * b
  {
    calc {
      q1 * a;
      (q2 * b + r2) * a;
      { MulAddRight(q2 * b, r2, a); }
      (q2 * b) * a + r2 * a;
      { MulRotate(q2, b, a); }
      q2 * (a * b) + r2 * a;
    }
    MulMonotone(r2, b - 1, a);
    MulSub(b, 1, a);
    MulCommutes(a, b);
  }

  lemma MulAddRight(u: int, v: int, a: int)
    ensures (u + v) * a == u * a + v * a
  {
  }

  lemma MulRotate(q: int, b: int, a: int)
    ensures (q * b) * a == q * (a * b)
  {
  }

  lemma MulMonotone(r: int, s: int, a: int)
    requires r <= s && a >= 0
    ensures r * a <= s * a
  {
  }

  lemma MulCommutes(a: int, b: int)
    ensures a * b == b * a
  {
  }

  /** The powers of two the CRC widths use. */
  lemma Pow2Values()
    ensures Pow2(8) == 0x100 && Pow2(9) == 0x200
    ensures Pow2(16) == 0x1_0000 && Pow2(17) == 0x2_0000
  {
    assert Pow2(4) == 16;
    Pow2Add(4, 4);
    Pow2Add(8, 8);
    Pow2Add(8, 9);
  }

  lemma ModMod(c: nat, m: nat)
    requires m > 0
    ensures (c % m) % m == c % m
  {
    DivModUnique(c % m, m, 0, c % m);
  }

  lemma ModSmall(c: nat, m: nat)
    requires c < m
    ensures c % m == c
  {
    DivModUnique(c, m, 0, c);
  }

  /** Bit 0 of `x / q` ignores the multiples of `2q` added to `x`. */
  lemma BitIgnoresHigh(h: nat, rest: nat, q: nat)
    requires q > 0
    ensures ((2 * h) * q + rest) / q % 2 == (rest / q) % 2
  {
    assert rest == (rest / q) * q + rest % q;
    assert (2 * h) * q + rest == (2 * h + rest / q) * q + rest % q;
    DivModUnique((2 * h) * q + rest, q, 2 * h + rest / q, rest % q);
    ModAddMultiple(h, 2, rest / q);
  }

  /** Bit `j` of `x / 2` is bit `j + 1` of `x`. */
  lemma BitOfHalf(x: nat, j: nat)
    ensures Bit(x / 2, j) == Bit(x, j + 1)
  {
    DivDiv(x, 2, Pow2(j));
  }
}
