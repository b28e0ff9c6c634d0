/** Go's bitwise `|`, `&`, `>>` and `<<` on non-negative integers, as the shard map uses
    them to round shard counts up to a power of two and to route hashes to shards.  Every
    operation works one bit at a time from the lowest, so the proofs need only halving. */
module Bits {
  import opened GoTypes

  /** a | b. */
  function Or(a: nat, b: nat): nat
    decreases a + b
  {
    if a == 0 && b == 0 then 0
    else (if a % 2 == 1 || b % 2 == 1 then 1 else 0) + 2 * Or(a / 2, b / 2)
  }

  /** a & b. */
  function And(a: nat, b: nat): nat
    decreases a + b
  {
    if a == 0 && b == 0 then 0
    else (if a % 2 == 1 && b % 2 == 1 then 1 else 0) + 2 * And(a / 2, b / 2)
  }

  /** a >> s. */
  function Shr(a: nat, s: nat): nat
  {
    if s == 0 then a else Shr(a / 2, s - 1)
  }

  /** a << s. */
  function Shl(a: nat, s: nat): nat
  {
    if s == 0 then a else 2 * Shl(a, s - 1)
  }

  /** The low s bits of a: the conversion to an s-bit unsigned integer. */
  function Low(a: nat, s: nat): nat
  {
    if s == 0 then 0 else a % 2 + 2 * Low(a / 2, s - 1)
  }

  /** s one bits: 2^s - 1. */
  function Ones(s: nat): nat
  {
    if s == 0 then 0 else 1 + 2 * Ones(s - 1)
  }

  /** One smearing step of nextPowerOf2: n |= n >> s. */
  function Step(x: nat, s: nat): nat
  {
    Or(x, Shr(x, s))
  }

  /** The number of bits of x: the least L with x < 2^L. */
  function BitLength(x: nat): (L: nat)
    ensures x < Pow2(L)
    ensures x > 0 ==> L >= 1 && Pow2(L - 1) <= x
  {
    if x == 0 then 0 else 1 + BitLength(x / 2)
  }

  lemma {:induction false} OnesPow2(s: nat)
    ensures Ones(s) == Pow2(s) - 1
  {
    if s > 0 {
      OnesPow2(s - 1);
    }
  }

  lemma {:induction false} ShlPow2(s: nat)
    ensures Shl(1, s) == Pow2(s)
  {
    if s > 0 {
      ShlPow2(s - 1);
    }
  }

  lemma {:induction false} Pow2Monotone(i: nat, j: nat)
    requires i <= j
    ensures Pow2(i) <= Pow2(j)
  {
    if i < j {
      Pow2Monotone(i, j - 1);
    }
  }

  /** Shifting by i and then by j is shifting by i + j. */
  lemma {:induction false} ShrShr(x: nat, i: nat, j: nat)
    ensures Shr(Shr(x, i), j) == Shr(x, i + j)
  {
    if i > 0 {
      ShrShr(x / 2, i - 1, j);
    }
  }

  /** x >> k is 0 exactly when x < 2^k. */
  lemma {:induction false} ShrZero(x: nat, k: nat)
    ensures Shr(x, k) == 0 <==> x < Pow2(k)
  {
    if k > 0 {
      ShrZero(x / 2, k - 1);
    }
  }

  lemma {:induction false} ShrAtMost(x: nat, k: nat)
    ensures Shr(x, k) <= x
  {
    if k > 0 {
      ShrAtMost(x / 2, k - 1);
    }
  }

  /** A value is its high part shifted back plus its low part, and the low part is below
      2^k. */
  lemma {:induction false} Split(x: nat, k: nat)
    ensures x == Shl(Shr(x, k), k) + Low(x, k)
    ensures Low(x, k) < Pow2(k)
  {
    if k > 0 {
      Split(x / 2, k - 1);
      ShlShr(x, k);
    }
  }

  lemma {:induction false} ShlShr(x: nat, k: nat)
    requires k > 0
    ensures Shl(Shr(x, k), k) == 2 * Shl(Shr(x / 2, k - 1), k - 1)
  {
  }

  /** The low k bits are below 2^k. */
  lemma {:induction false} LowBound(x: nat, k: nat)
    ensures Low(x, k) < Pow2(k)
  {
    if k > 0 {
      LowBound(x / 2, k - 1);
    }
  }

  /** Converting to uint32 gives a uint32. */
  lemma Low32(x: nat)
    ensures Low(x, 32) < 0x1_0000_0000
  {
    LowBound(x, 32);
    Pow2At32();
  }

  /** The low k bits of a value below 2^k are the value. */
  lemma {:induction false} LowSmall(x: nat, k: nat)
    requires x < Pow2(k)
    ensures Low(x, k) == x
  {
    if k > 0 {
      LowSmall(x / 2, k - 1);
    }
  }

  /** The low k bits of all ones are k ones. */
  lemma {:induction false} LowOnes(s: nat, k: nat)
    requires k <= s
    ensures Low(Ones(s), k) == Ones(k)
  {
    if k > 0 {
      LowOnes(s - 1, k - 1);
    }
  }

  /** s ones shifted right by j <= s are s - j ones. */
  lemma {:induction false} OnesShr(s: nat, j: nat)
    requires j <= s
    ensures Shr(Ones(s), j) == Ones(s - j)
  {
    if j > 0 {
      OnesShr(s - 1, j - 1);
    }
  }

  /** w + j ones are w ones shifted left by j, followed by j ones. */
  lemma {:induction false} OnesJoin(w: nat, j: nat)
    ensures Ones(w + j) == Shl(Ones(w), j) + Ones(j)
  {
    if j > 0 {
      OnesJoin(w, j - 1);
    }
  }

  lemma {:induction false} OrZero(a: nat)
    ensures Or(a, 0) == a
    decreases a
  {
    if a != 0 {
      OrZero(a / 2);
    }
  }

  /** Or of two values below 2^L is below 2^L. */
  lemma {:induction false} OrBound(a: nat, b: nat, L: nat)
    requires a < Pow2(L) && b < Pow2(L)
    ensures Or(a, b) < Pow2(L)
  {
    if L > 0 && (a != 0 || b != 0) {
      OrBound(a / 2, b / 2, L - 1);
    }
  }

  /** Or commutes with shifting right. */
  lemma {:induction false} OrShr(a: nat, b: nat, k: nat)
    ensures Shr(Or(a, b), k) == Or(Shr(a, k), Shr(b, k))
  {
    if k > 0 {
      assert Or(a, b) / 2 == Or(a / 2, b / 2);
      OrShr(a / 2, b / 2, k - 1);
    }
  }

  /** Or with a value below 2^w leaves the bits from w up alone. */
  lemma {:induction false} OrHigh(a: nat, r: nat, b: nat, w: nat)
    requires r < Pow2(w) && b < Pow2(w)
    ensures Or(Shl(a, w) + r, b) == Shl(a, w) + Or(r, b)
  {
    if w == 0 {
      OrZero(a);
    } else {
      var x := Shl(a, w) + r;
      assert x / 2 == Shl(a, w - 1) + r / 2 && x % 2 == r % 2;
      OrHigh(a, r / 2, b / 2, w - 1);
      if x == 0 {
        assert Or(x, b) == Or(r, b);
      } else if r == 0 && b == 0 {
        OrZero(x);
        OrZero(0);
      }
    }
  }

  /** Or with all ones below 2^w gives all ones. */
  lemma {:induction false} OrOnes(r: nat, w: nat)
    requires r < Pow2(w)
    ensures Or(r, Ones(w)) == Ones(w)
  {
    if w > 0 {
      var m := Ones(w);
      assert m % 2 == 1 && m / 2 == Ones(w - 1);
      assert r / 2 < Pow2(w - 1);
      OrOnes(r / 2, w - 1);
      assert Or(r, m) == 1 + 2 * Or(r / 2, m / 2);
    }
  }

  /** And with k ones keeps the low k bits. */
  lemma {:induction false} AndOnes(h: nat, k: nat)
    ensures And(h, Ones(k)) == Low(h, k)
  {
    if k == 0 {
      AndZero(h);
    } else {
      AndOnes(h / 2, k - 1);
    }
  }

  lemma {:induction false} AndZero(a: nat)
    ensures And(a, 0) == 0
    decreases a
  {
    if a != 0 {
      AndZero(a / 2);
    }
  }

  /** x < 2^L has its top w bits set: x >> (L - w) is w ones. */
  ghost predicate TopOnes(x: nat, L: nat, w: nat)
  {
    w <= L && x < Pow2(L) && Shr(x, L - w) == Ones(w)
  }

  /** A value with its top bit set has a block of one top one. */
  lemma {:induction false} TopBit(x: nat, L: nat)
    requires L >= 1 && Pow2(L - 1) <= x < Pow2(L)
    ensures TopOnes(x, L, 1)
  {
    ShrShr(x, L - 1, 1);
    ShrZero(x, L);
    ShrZero(x, L - 1);
    assert Shr(Shr(x, L - 1), 1) == Shr(x, L - 1) / 2;
  }

  /** Once all L bits are set, x is L ones. */
  lemma TopAll(x: nat, L: nat)
    requires TopOnes(x, L, L)
    ensures x == Ones(L)
  {
  }

  /** One smearing step by w doubles the block of top ones, up to all L bits. */
  lemma {:induction false} StepDoubles(x: nat, L: nat, w: nat)
    requires 1 <= w && TopOnes(x, L, Min(w, L))
    ensures TopOnes(Step(x, w), L, Min(2 * w, L))
  {
    if w >= L {
      Pow2Monotone(L, w);
      ShrZero(x, w);
      OrZero(x);
    } else {
      DoubleTop(x, L, w);
    }
  }

  lemma {:induction false} DoubleTop(x: nat, L: nat, w: nat)
    requires 1 <= w < L && TopOnes(x, L, w)
    ensures TopOnes(Step(x, w), L, Min(2 * w, L))
  {
    var w' := Min(2 * w, L);
    var d, j := L - w', w' - w;
    var y := Step(x, w);
    // The step stays below 2^L.
    ShrAtMost(x, w);
    OrBound(x, Shr(x, w), L);
    // Shifted right by d, the step is the step of X = x >> d.
    var X := Shr(x, d);
    OrShr(x, Shr(x, w), d);
    ShrShr(x, w, d);
    ShrShr(x, d, w);
    assert Shr(y, d) == Or(X, Shr(X, w));
    // X is w ones followed by j low bits r.
    ShrShr(x, d, j);
    assert Shr(X, j) == Ones(w);
    Split(X, j);
    var r := Low(X, j);
    assert X == Shl(Ones(w), j) + r;
    // X >> w is j ones, since j <= w.
    ShrShr(X, j, w - j);
    OnesShr(w, w - j);
    assert Shr(X, w) == Ones(j);
    // Or-ing j ones into the low bits gives w + j ones.
    OnesPow2(j);
    OrHigh(Ones(w), r, Ones(j), j);
    OrOnes(r, j);
    OnesJoin(w, j);
    assert Shr(y, d) == Ones(w');
  }

  /** The low k bits of 2^k are all zero. */
  lemma {:induction false} LowPow2(k: nat)
    ensures Low(Pow2(k), k) == 0
  {
    if k > 0 {
      LowPow2(k - 1);
      assert Pow2(k) % 2 == 0 && Pow2(k) / 2 == Pow2(k - 1);
    }
  }

  /** Clear low bits stay clear in fewer bits. */
  lemma {:induction false} LowZeroDown(y: nat, a: nat, t: nat)
    requires t <= a && Low(y, a) == 0
    ensures Low(y, t) == 0
  {
    if t > 0 {
      LowZeroDown(y / 2, a - 1, t - 1);
    }
  }

  /** If the low s + t bits of y are clear, so are the low t bits of y >> s. */
  lemma {:induction false} LowZeroShr(y: nat, s: nat, t: nat)
    requires Low(y, s + t) == 0
    ensures Low(Shr(y, s), t) == 0
  {
    if s > 0 {
      LowZeroShr(y / 2, s - 1, t);
    }
  }

  /** Or keeps low bits clear that both operands have clear. */
  lemma {:induction false} LowZeroOr(a: nat, b: nat, t: nat)
    requires Low(a, t) == 0 && Low(b, t) == 0
    ensures Low(Or(a, b), t) == 0
  {
    if t > 0 && (a != 0 || b != 0) {
      LowZeroOr(a / 2, b / 2, t - 1);
    }
  }

  /** A smearing step by s moves clear low bits down by s: it only copies bits downwards. */
  lemma {:induction false} StepLowZero(y: nat, s: nat, t: nat)
    requires Low(y, s + t) == 0
    ensures Low(Step(y, s), t) == 0
  {
    LowZeroDown(y, s + t, t);
    LowZeroShr(y, s, t);
    LowZeroOr(y, Shr(y, s), t);
  }

  /** Or never clears a bit of its first operand. */
  lemma {:induction false} OrAtLeast(a: nat, b: nat)
    ensures Or(a, b) >= a
    decreases a + b
  {
    if a != 0 || b != 0 {
      OrAtLeast(a / 2, b / 2);
    }
  }

  /** Smearing 0 leaves 0. */
  lemma {:induction false} StepZero(s: nat)
    ensures Step(0, s) == 0
  {
    ShrZero(0, s);
  }

  /** The bit length is the only L with 2^(L-1) <= x < 2^L. */
  lemma {:induction false} BitLengthUnique(x: nat, L: nat)
    requires L >= 1 && Pow2(L - 1) <= x < Pow2(L)
    ensures BitLength(x) == L
  {
    var M := BitLength(x);
    if M < L {
      Pow2Monotone(M, L - 1);
    } else if M > L {
      Pow2Monotone(L, M - 1);
    }
  }

  /** 2^(a + b) = 2^a * 2^b. */
  lemma {:induction false} Pow2Add(a: nat, b: nat)
    ensures Pow2(a + b) == Pow2(a) * Pow2(b)
  {
    if b > 0 {
      Pow2Add(a, b - 1);
    }
  }

  /** The size of the 32-bit range. */
  lemma Pow2At32()
    ensures Pow2(32) == 0x1_0000_0000
  {
    assert Pow2(4) == 16;
    Pow2Add(4, 4);
    assert Pow2(8) == 0x100;
    Pow2Add(8, 8);
    assert Pow2(16) == 0x1_0000;
    Pow2Add(16, 16);
  }

  /** The powers of two the 32- and 64-bit integer ranges are built from. */
  lemma Pow2Values()
    ensures Pow2(32) == 0x1_0000_0000 && Pow2(33) == 0x2_0000_0000
    ensures Pow2(62) == 0x4000_0000_0000_0000 && Pow2(63) == 0x8000_0000_0000_0000
  {
    assert Pow2(4) == 16;
    Pow2Add(4, 4);
    assert Pow2(8) == 0x100;
    Pow2Add(8, 8);
    assert Pow2(16) == 0x1_0000;
    Pow2Add(16, 16);
    assert Pow2(32) == 0x1_0000_0000;
    assert Pow2(32) == 2 * Pow2(31);
    assert Pow2(31) == 0x8000_0000;
    Pow2Add(31, 31);
    assert Pow2(62) == 0x4000_0000_0000_0000;
  }

  function Min(a: nat, b: nat): nat { if a < b then a else b }
}
