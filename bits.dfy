/** Fixed-width unsigned integers and the bitwise operators the simulator uses.
    Values are naturals; `&`, `|` and `^` are defined bit by bit (least significant
    bit first), shifts are division and multiplication by powers of two. */
module Bits {

  type uint8 = x: nat | x < 0x100
  type uint32 = x: nat | x < 0x1_0000_0000
  type uint64 = x: nat | x < 0x1_0000_0000_0000_0000

  /** 2^k, the value of `1 << k` when it does not overflow. */
  function Pow2(k: nat): (r: nat)
    ensures r >= 1
  {
    if k == 0 then 1 else 2 * Pow2(k - 1)
  }

  /** The test the cache constructor applies to its geometry: n is 2^k for some k. */
  predicate IsPow2(n: nat)
    decreases n
  {
    n == 1 || (n > 1 && n % 2 == 0 && IsPow2(n / 2))
  }

  /** `a & b` */
  function BitAnd(a: nat, b: nat): nat
    decreases a + b
  {
    if a == 0 && b == 0 then 0
    else 2 * BitAnd(a / 2, b / 2) + (if a % 2 == 1 && b % 2 == 1 then 1 else 0)
  }

  /** `a | b` */
  function BitOr(a: nat, b: nat): nat
    decreases a + b
  {
    if a == 0 && b == 0 then 0
    else 2 * BitOr(a / 2, b / 2) + (if a % 2 == 1 || b % 2 == 1 then 1 else 0)
  }

  /** `a ^ b` */
  function BitXor(a: nat, b: nat): nat
    decreases a + b
  {
    if a == 0 && b == 0 then 0
    else 2 * BitXor(a / 2, b / 2) + (if a % 2 != b % 2 then 1 else 0)
  }

  /** `x >> k` */
  function Shr(x: nat, k: nat): nat
  {
    DivModLe(x, Pow2(k));
    x / Pow2(k)
  }

  /** `(x << k)` on a 32-bit unsigned value: bits shifted past bit 31 are lost. */
  function Shl32(x: nat, k: nat): (r: uint32)
  {
    (x * Pow2(k)) % 0x1_0000_0000
  }

  // ---------------------------------------------------------------------------
  // Powers of two

  lemma {:induction false} Pow2Add(a: nat, b: nat)
    ensures Pow2(a + b) == Pow2(a) * Pow2(b)
  {
    if a > 0 {
      Pow2Add(a - 1, b);
      assert Pow2(a + b) == 2 * Pow2(a - 1 + b);
    }
  }

  /** The powers of two that are the widths the simulator works with. */
  lemma Pow2Of16()
    ensures Pow2(16) == 0x1_0000
  {
    Pow2Add(2, 2);
    Pow2Add(4, 4);
    Pow2Add(8, 8);
  }

  lemma Pow2Of32()
    ensures Pow2(32) == 0x1_0000_0000
  {
    Pow2Of16();
    Pow2Add(16, 16);
  }

  lemma Pow2Of64()
    ensures Pow2(64) == 0x1_0000_0000_0000_0000
  {
    Pow2Of32();
    Pow2Add(32, 32);
  }

  lemma {:induction false} Pow2Monotone(a: nat, b: nat)
    requires a <= b
    ensures Pow2(a) <= Pow2(b)
  {
    if a < b {
      Pow2Monotone(a, b - 1);
    }
  }

  /** IsPow2 is exactly "is a power of two". */
  lemma {:induction false} IsPow2Pow2(k: nat)
    ensures IsPow2(Pow2(k))
  {
    if k > 0 {
      IsPow2Pow2(k - 1);
      assert Pow2(k) / 2 == Pow2(k - 1);
    }
  }

  lemma {:induction false} IsPow2Exists(n: nat)
    requires IsPow2(n)
    ensures exists k: nat :: Pow2(k) == n
    decreases n
  {
    if n == 1 {
      assert Pow2(0) == n;
    } else {
      IsPow2Exists(n / 2);
      var k: nat :| Pow2(k) == n / 2;
      assert Pow2(k + 1) == n;
    }
  }

  lemma {:induction false} Pow2IsPow2(n: nat, k: nat)
    requires Pow2(k) == n
    ensures IsPow2(n)
  {
    IsPow2Pow2(k);
  }

  // ---------------------------------------------------------------------------
  // Division and remainder by powers of two

  lemma MulMonotone(a: nat, b: nat, d: nat)
    requires a <= b
    ensures a * d <= b * d
  {
    var c := b - a;
    assert b * d == a * d + c * d;
  }

  /** Quotient and remainder are determined by `x == q * d + r` with `r < d`. */
  lemma DivModUnique(x: nat, d: nat, q: nat, r: nat)
    requires 0 <= r < d
    requires x == q * d + r
    ensures x / d == q && x % d == r
  {
    var q', r' := x / d, x % d;
    assert x == q' * d + r';
    if q' < q {
      MulMonotone(q' + 1, q, d);
    } else if q' > q {
      MulMonotone(q + 1, q', d);
    }
  }

  /** The remainder by 2P is assembled from the remainder of x/2 by P and the low bit. */
  lemma ModDouble(x: nat, p: nat)
    requires p >= 1
    ensures x % (2 * p) == 2 * ((x / 2) % p) + x % 2
    ensures x / (2 * p) == (x / 2) / p
  {
    var h := x / 2;
    var q, t := h / p, h % p;
    assert x == q * (2 * p) + (2 * t + x % 2);
    DivModUnique(x, 2 * p, q, 2 * t + x % 2);
  }

  lemma LowPartBound(w: nat, q: nat, p: nat, r: nat)
    requires w < q && r < p
    ensures w * p + r < p * q
  {
    MulMonotone(w, q - 1, p);
    assert (q - 1) * p == q * p - p;
  }

  lemma DivModParts(x: nat, d: nat)
    requires d >= 1
    ensures x == (x / d) * d + x % d && x % d < d
  {
  }

  /** A number below q * d divided by d is below q. */
  lemma DivBelow(x: nat, d: nat, q: nat)
    requires d >= 1 && x < q * d
    ensures x / d < q
  {
    DivModParts(x, d);
    if x / d >= q {
      MulMonotone(q, x / d, d);
    }
  }

  /** Dividing or reducing a natural number never makes it larger. */
  lemma DivModLe(x: nat, d: nat)
    requires d >= 1
    ensures 0 <= x / d <= x && 0 <= x % d <= x && x % d < d
  {
    DivModParts(x, d);
    MulMonotone(1, d, x / d);
  }

  /** A shift that loses no bits is a multiplication. */
  lemma Shl32Exact(x: nat, k: nat)
    requires x * Pow2(k) < 0x1_0000_0000
    ensures Shl32(x, k) == x * Pow2(k)
  {
    DivModUnique(x * Pow2(k), 0x1_0000_0000, 0, x * Pow2(k));
  }

  lemma SplitMul(y: nat, z: nat, q: nat, w: nat, p: nat)
    requires y == z * q + w
    ensures y * p == z * (p * q) + w * p
  {
  }

  lemma DivDivNat(x: nat, p: nat, q: nat)
    requires p >= 1 && q >= 1
    ensures x / p / q == x / (p * q)
  {
    var y, r := x / p, x % p;
    var z, w := y / q, y % q;
    DivModParts(x, p);
    DivModParts(y, q);
    SplitMul(y, z, q, w, p);
    LowPartBound(w, q, p, r);
    DivModUnique(x, p * q, z, w * p + r);
  }

  /** `(x >> a) >> b == x >> (a + b)` */
  lemma DivDiv(x: nat, a: nat, b: nat)
    ensures x / Pow2(a) / Pow2(b) == x / Pow2(a + b)
  {
    Pow2Add(a, b);
    DivDivNat(x, Pow2(a), Pow2(b));
  }

  // ---------------------------------------------------------------------------
  // Bitwise operators

  /** `x & (2^k - 1)` keeps the k low bits: it is `x % 2^k`. */
  lemma {:induction false} AndLowMask(x: nat, k: nat)
    ensures BitAnd(x, Pow2(k) - 1) == x % Pow2(k)
  {
    if k == 0 {
      AndZero(x);
    } else {
      AndLowMask(x / 2, k - 1);
      AndLowMaskStep(x, Pow2(k - 1));
    }
  }

  /** One bit more: if masking x/2 by P - 1 is reducing it mod P, masking x by
      2P - 1 is reducing it mod 2P. */
  lemma AndLowMaskStep(x: nat, p: nat)
    requires p >= 1 && BitAnd(x / 2, p - 1) == (x / 2) % p
    ensures BitAnd(x, 2 * p - 1) == x % (2 * p)
  {
    AndOddMask(x, p);
    ModDouble(x, p);
  }

  /** With an odd mask 2P - 1, the low bit of x is kept and the rest is masked by
      P - 1. */
  lemma AndOddMask(x: nat, p: nat)
    requires p >= 1
    ensures BitAnd(x, 2 * p - 1) == 2 * BitAnd(x / 2, p - 1) + x % 2
  {
    var m := 2 * p - 1;
    DivModUnique(m, 2, p - 1, 1);
  }

  lemma {:induction false} AndZero(x: nat)
    ensures BitAnd(x, 0) == 0
    decreases x
  {
    if x > 0 {
      AndZero(x / 2);
    }
  }

  lemma {:induction false} OrZero(x: nat)
    ensures BitOr(x, 0) == x
    decreases x
  {
    if x > 0 {
      OrZero(x / 2);
    }
  }

  lemma {:induction false} XorZero(x: nat)
    ensures BitXor(x, 0) == x && BitXor(0, x) == x
    decreases x
  {
    if x > 0 {
      XorZero(x / 2);
    }
  }

  /** When the low part fits below a bit position where the high part is all zero,
      `high | low` is `high + low`: the two sets of bits do not overlap. */
  lemma {:induction false} OrDisjointAdd(high: nat, low: nat, k: nat)
    requires high % Pow2(k) == 0 && low < Pow2(k)
    ensures BitOr(high, low) == high + low
  {
    if k == 0 {
      OrZero(high);
    } else {
      ModDouble(high, Pow2(k - 1));
      OrDisjointAdd(high / 2, low / 2, k - 1);
    }
  }

  lemma {:induction false} OrCommutes(a: nat, b: nat)
    ensures BitOr(a, b) == BitOr(b, a)
    decreases a + b
  {
    if a != 0 || b != 0 {
      OrCommutes(a / 2, b / 2);
    }
  }

  /** `a ^ b` of two k-bit values is a k-bit value. */
  lemma {:induction false} XorBound(a: nat, b: nat, k: nat)
    requires a < Pow2(k) && b < Pow2(k)
    ensures BitXor(a, b) < Pow2(k)
  {
    if k > 0 && (a != 0 || b != 0) {
      XorBound(a / 2, b / 2, k - 1);
    }
  }

  lemma MulDouble(x: nat, p: nat)
    ensures x * (2 * p) == 2 * (x * p)
  {
  }

  /** Xor works on each block of bits independently: xoring two values made of a
      high part above bit k and a low part below it xors the parts separately. */
  lemma {:induction false} XorConcat(h1: nat, l1: nat, h2: nat, l2: nat, k: nat)
    requires l1 < Pow2(k) && l2 < Pow2(k)
    ensures BitXor(h1 * Pow2(k) + l1, h2 * Pow2(k) + l2) == BitXor(h1, h2) * Pow2(k) + BitXor(l1, l2)
  {
    if k == 0 {
      XorZero(0);
    } else {
      var p := Pow2(k - 1);
      XorConcat(h1, l1 / 2, h2, l2 / 2, k - 1);
      var a, b := h1 * Pow2(k) + l1, h2 * Pow2(k) + l2;
      assert Pow2(k) == 2 * p;
      MulDouble(h1, p);
      MulDouble(h2, p);
      assert a / 2 == h1 * p + l1 / 2 && a % 2 == l1 % 2;
      assert b / 2 == h2 * p + l2 / 2 && b % 2 == l2 % 2;
      var x := BitXor(h1, h2);
      MulDouble(x, p);
    }
  }

  /** Xor works on the bits above and below position k separately: the high part
      of `a ^ b` is the xor of the high parts, the low part the xor of the low
      parts. */
  lemma XorSplit(a: nat, b: nat, k: nat)
    ensures BitXor(a, b) / Pow2(k) == BitXor(Shr(a, k), Shr(b, k))
    ensures BitXor(a, b) % Pow2(k) == BitXor(a % Pow2(k), b % Pow2(k))
  {
    var P := Pow2(k);
    DivModLe(a, P);
    DivModLe(b, P);
    var ha, la, hb, lb := a / P, a % P, b / P, b % P;
    DivModParts(a, P);
    DivModParts(b, P);
    XorConcat(ha, la, hb, lb, k);
    XorBound(la, lb, k);
    var x, low := BitXor(ha, hb), BitXor(la, lb);
    DivModUnique(BitXor(a, b), P, x, low);
  }

  /** The low k bits of `a ^ b` are the xor of the low k bits of a and b. */
  lemma XorLowBits(a: nat, b: nat, k: nat)
    ensures BitAnd(BitXor(a, b), Pow2(k) - 1) == BitXor(a % Pow2(k), b % Pow2(k))
  {
    XorSplit(a, b, k);
    AndLowMask(BitXor(a, b), k);
  }
}
