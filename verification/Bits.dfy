/** Powers of two, division facts and the machine's bitwise operators on natural numbers. */
module Bits {
  const TWO_32: nat := 0x1_0000_0000
  const TWO_64: nat := 0x1_0000_0000_0000_0000

  function Pow2(n: nat): (p: nat)
    ensures p > 0
  {
    if n == 0 then 1 else 2 * Pow2(n - 1)
  }

  lemma {:induction false} Pow2Add(a: nat, b: nat)
    ensures Pow2(a + b) == Pow2(a) * Pow2(b)
  {
    if a == 0 {
    } else {
      Pow2Add(a - 1, b);
      assert Pow2(a + b) == 2 * Pow2(a - 1 + b);
    }
  }

  lemma {:induction false} Pow2Mono(a: nat, b: nat)
    requires a <= b
    ensures Pow2(a) <= Pow2(b)
  {
    if a < b {
      Pow2Mono(a, b - 1);
    }
  }

  lemma EvenPower(k: nat)
    ensures Pow2(k + 1) == 2 * Pow2(k)
  {
  }

  /** The sizes of the machine's bytes, half words and words. */
  lemma Pow2Sizes()
    ensures Pow2(1) == 2 && Pow2(3) == 8 && Pow2(4) == 16 && Pow2(8) == 0x100
    ensures Pow2(16) == 0x1_0000 && Pow2(32) == 0x1_0000_0000 && Pow2(64) == 0x1_0000_0000_0000_0000
  {
    assert Pow2(1) == 2 && Pow2(3) == 8;
    PowSquare(1, 2);
    PowSquare(2, 4);
    PowSquare(4, 16);
    PowSquare(8, 0x100);
    PowSquare(16, 0x1_0000);
    PowSquare(32, 0x1_0000_0000);
  }

  lemma WordSizes()
    ensures TWO_32 == Pow2(32) && TWO_64 == Pow2(64)
  {
    Pow2Sizes();
  }

  lemma PowSquare(k: nat, p: nat)
    requires Pow2(k) == p
    ensures Pow2(2 * k) == p * p
  {
    Pow2Add(k, k);
  }

  lemma MulMono(a: int, b: int, c: int)
    requires a <= b && c >= 0
    ensures a * c <= b * c
  {
  }

  lemma MulAssoc(a: int, b: int, c: int)
    ensures a * (b * c) == (a * b) * c
  {
  }

  lemma MulDist(a: int, b: int, c: int)
    ensures (a + b) * c == a * c + b * c
  {
  }

  lemma NonzeroMultiple(d: int, m: int)
    requires m > 0 && d != 0
    ensures d * m >= m || d * m <= -m
  {
    if d > 0 {
      MulMono(1, d, m);
    } else {
      MulMono(d, -1, m);
    }
  }

  /** A quotient and a remainder in range are the only ones. */
  lemma DivModUnique(x: int, q: int, r: int, m: int)
    requires m > 0 && 0 <= r < m && x == q * m + r
    ensures x / m == q && x % m == r
  {
    var d := x / m - q;
    assert x == (x / m) * m + x % m;
    assert d * m == r - x % m by {
      assert d * m == (x / m) * m - q * m;
    }
    if d != 0 {
      NonzeroMultiple(d, m);
    }
  }

  lemma DivModIdentity(x: int, m: int)
    requires m > 0
    ensures x == (x / m) * m + x % m && 0 <= x % m < m
  {
  }

  lemma ModSmall(x: nat, m: nat)
    requires x < m
    ensures x % m == x
  {
  }

  lemma DivBound(x: nat, m: nat)
    requires m > 0
    ensures 0 <= x / m <= x
  {
    DivModIdentity(x, m);
    MulMono(1, m, x / m);
  }

  lemma DivDecreases(x: nat, m: nat)
    requires m >= 2 && x > 0
    ensures x / m < x
  {
    DivModIdentity(x, m);
    MulMono(2, m, x / m);
  }

  /** Dividing twice is dividing by the product. */
  lemma DivDiv(x: nat, a: nat, b: nat)
    requires a > 0 && b > 0
    ensures a * b > 0 && x / a / b == x / (a * b)
  {
    var y := x / a;
    var q, r, t := y / b, y % b, x % a;
    var m := a * b;
    MulMono(1, a, b);
    assert x == y * a + t && y == q * b + r;
    assert x == q * m + (r * a + t) by {
      assert (q * b + r) * a == q * b * a + r * a;
      MulAssoc(q, b, a);
    }
    MulMono(r + 1, b, a);
    DivModUnique(x, q, r * a + t, m);
  }

  /** A multiple of the modulus may be dropped before a multiplication. */
  lemma ModMul(x: int, y: int, m: int)
    requires m > 0
    ensures ((x % m) * y) % m == (x * y) % m
  {
    var q := (x / m) * y;
    var p := (x % m) * y;
    assert x == (x / m) * m + x % m;
    assert x * y == q * m + p by {
      calc {
        x * y;
        ((x / m) * m + x % m) * y;
        (x / m) * m * y + p;
        { assert (x / m) * m * y == (x / m) * y * m; }
        q * m + p;
      }
    }
    ModShift(p, q, m);
  }

  lemma ModShift(p: int, q: int, m: int)
    requires m > 0
    ensures (q * m + p) % m == p % m
  {
    assert p == (p / m) * m + p % m;
    assert q * m + p == (q + p / m) * m + p % m;
    DivModUnique(q * m + p, q + p / m, p % m, m);
  }

  /** One digit of a ripple: the carry out of place p is the carry into place base * p. */
  lemma CarryStep(low: int, v: int, c: int, w: int, x: int, c': int, p: int, base: int)
    requires w + c' * base == x + c
    requires low + c * p == v
    ensures low + p * w + c' * (base * p) == v + p * x
  {
    assert (w + c' * base) * p == (x + c) * p;
    MulDist(w, c' * base, p);
    MulDist(x, c, p);
    MulAssoc(c', base, p);
  }

  // ---- bitwise operators, one bit at a time ----

  function BitOr(a: nat, b: nat): nat
    decreases a + b
  {
    if a == 0 && b == 0 then 0
    else (if a % 2 == 1 || b % 2 == 1 then 1 else 0) + 2 * BitOr(a / 2, b / 2)
  }

  function BitAnd(a: nat, b: nat): nat {
    if a == 0 then 0
    else (if a % 2 == 1 && b % 2 == 1 then 1 else 0) + 2 * BitAnd(a / 2, b / 2)
  }

  function BitXor(a: nat, b: nat): nat
    decreases a + b
  {
    if a == 0 && b == 0 then 0
    else (if a % 2 != b % 2 then 1 else 0) + 2 * BitXor(a / 2, b / 2)
  }

  /** An `or` of operands that share no bit is their sum. */
  lemma {:induction false} OrDisjoint(a: nat, b: nat, k: nat)
    requires b < Pow2(k)
    ensures BitOr(a * Pow2(k), b) == a * Pow2(k) + b
    decreases k
  {
    if k == 0 {
      OrZero(a);
    } else {
      var h := a * Pow2(k - 1);
      assert a * Pow2(k) == 2 * h;
      OrDisjoint(a, b / 2, k - 1);
      assert (2 * h) / 2 == h && (2 * h) % 2 == 0;
    }
  }

  lemma {:induction false} OrCommutes(a: nat, b: nat)
    ensures BitOr(a, b) == BitOr(b, a)
    decreases a + b
  {
    if a != 0 || b != 0 {
      OrCommutes(a / 2, b / 2);
    }
  }

  lemma {:induction false} OrZero(a: nat)
    ensures BitOr(a, 0) == a
  {
    if a != 0 {
      OrZero(a / 2);
    }
  }

  /** Masking with 2^k - 1 keeps the low k bits. */
  lemma {:induction false} AndLowMask(a: nat, k: nat)
    ensures BitAnd(a, Pow2(k) - 1) == a % Pow2(k)
    decreases k
  {
    if k == 0 {
      AndZero(a);
    } else {
      MaskHalf(Pow2(k - 1));
      AndLowMask(a / 2, k - 1);
      ModTwice(a, Pow2(k - 1));
    }
  }

  /** An even mask clears the lowest bit and masks the others. */
  lemma AndEven(a: nat, m: nat)
    ensures BitAnd(a, 2 * m) == 2 * BitAnd(a / 2, m)
  {
    assert 2 * m % 2 == 0 && 2 * m / 2 == m;
    if a == 0 {
      assert BitAnd(0, m) == 0;
    } else {
      assert BitAnd(a, 2 * m) == 0 + 2 * BitAnd(a / 2, 2 * m / 2);
    }
  }

  /** An odd mask keeps the lowest bit and masks the others. */
  lemma AndOdd(a: nat, m: nat)
    ensures BitAnd(a, 2 * m + 1) == a % 2 + 2 * BitAnd(a / 2, m)
  {
  }

  lemma MaskHalf(p: nat)
    requires p > 0
    ensures (2 * p - 1) / 2 == p - 1 && (2 * p - 1) % 2 == 1
  {
  }

  lemma ModTwice(a: nat, p: nat)
    requires p > 0
    ensures a % (2 * p) == 2 * (a / 2 % p) + a % 2
  {
    var h := a / 2;
    var q, r := h / p, h % p;
    assert h == q * p + r;
    MulAssoc(q, 2, p);
    DivModUnique(a, q, 2 * r + a % 2, 2 * p);
  }

  lemma {:induction false} AndZero(a: nat)
    ensures BitAnd(a, 0) == 0
  {
    if a != 0 {
      AndZero(a / 2);
    }
  }

  /** An `xor` is zero exactly when its operands are equal. */
  lemma {:induction false} XorZero(a: nat, b: nat)
    ensures BitXor(a, b) == 0 <==> a == b
    decreases a + b
  {
    if a != 0 || b != 0 {
      XorZero(a / 2, b / 2);
    }
  }

  /** An `xor` with 2^k - 1 complements a k-bit number. */
  lemma {:induction false} XorLowMask(a: nat, k: nat)
    requires a < Pow2(k)
    ensures BitXor(a, Pow2(k) - 1) == Pow2(k) - 1 - a
    decreases k
  {
    if k > 0 {
      MaskHalf(Pow2(k - 1));
      XorLowMask(a / 2, k - 1);
    }
  }

  // ---- number of significant bits ----

  /** Number of bits needed to write `v`; zero needs none. */
  function BitLength(v: nat): nat {
    if v == 0 then 0 else 1 + BitLength(v / 2)
  }

  lemma {:induction false} BitLengthBounds(v: nat)
    ensures v < Pow2(BitLength(v))
    ensures v > 0 ==> BitLength(v) > 0 && Pow2(BitLength(v) - 1) <= v
  {
    if v > 0 {
      BitLengthBounds(v / 2);
    }
  }

  lemma BitLengthUnique(v: nat, k: nat)
    requires k > 0 && Pow2(k - 1) <= v < Pow2(k)
    ensures BitLength(v) == k
  {
    BitLengthBounds(v);
    var n := BitLength(v);
    if n < k {
      Pow2Mono(n, k - 1);
    } else if n > k {
      Pow2Mono(k, n - 1);
    }
  }

  /** A value fits in k bits exactly when its bit length is at most k. */
  lemma BitLengthFits(v: nat, k: nat)
    ensures BitLength(v) <= k <==> v < Pow2(k)
  {
    BitLengthBounds(v);
    if BitLength(v) <= k {
      Pow2Mono(BitLength(v), k);
    } else {
      Pow2Mono(k, BitLength(v) - 1);
    }
  }
}
