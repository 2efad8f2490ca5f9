/**
 * Arbitrary-precision GF(2) polynomial arithmetic.
 *
 * A `nat` stands for the polynomial whose coefficient of x^k is bit k of the
 * number. Addition of polynomials is carry-less: it is `Xor`. These are the
 * big-integer operations the table generator relies on (`significant_bits`,
 * `get_bit`, `<<`, `^`), defined by halving so that every fact about them is
 * proved by induction on the number of bits.
 */
module GF2 {

  /** 2^k */
  function Pow2(k: nat): (p: nat)
    ensures p >= 1
  {
    if k == 0 then 1 else 2 * Pow2(k - 1)
  }

  /** `a << k` on an unbounded integer */
  function Shl(a: nat, k: nat): (r: nat)
  {
    if k == 0 then a else 2 * Shl(a, k - 1)
  }

  /** Bit k of a (the coefficient of x^k) */
  function Bit(a: nat, k: nat): (isSet: bool)
  {
    if k == 0 then a % 2 == 1 else Bit(a / 2, k - 1)
  }

  /** Number of bits needed to write a; 0 for 0 (the degree plus one) */
  function SignificantBits(a: nat): (n: nat)
  {
    if a == 0 then 0 else 1 + SignificantBits(a / 2)
  }

  /** Bitwise exclusive or: addition of GF(2) polynomials */
  function Xor(a: nat, b: nat): (r: nat)
    decreases a + b
  {
    if a == 0 then b
    else if b == 0 then a
    else 2 * Xor(a / 2, b / 2) + (if a % 2 == b % 2 then 0 else 1)
  }

  /** Bitwise and */
  function And(a: nat, b: nat): (r: nat)
  {
    if a == 0 || b == 0 then 0
    else 2 * And(a / 2, b / 2) + (if a % 2 == 1 && b % 2 == 1 then 1 else 0)
  }

  /** Carry-less product q·m of two GF(2) polynomials */
  function ClMul(q: nat, m: nat): (p: nat)
  {
    if q == 0 then 0 else Xor(if q % 2 == 1 then m else 0, 2 * ClMul(q / 2, m))
  }

  /*** Powers, shifts and bits ***/

  lemma {:induction false} Pow2Add(a: nat, b: nat)
    ensures Pow2(a + b) == Pow2(a) * Pow2(b)
  {
    if b > 0 {
      Pow2Add(a, b - 1);
      assert Pow2(a + b) == 2 * Pow2(a + b - 1);
    }
  }

  lemma {:induction false} Pow2Monotonic(a: nat, b: nat)
    requires a <= b
    ensures Pow2(a) <= Pow2(b)
  {
    if a < b {
      Pow2Monotonic(a, b - 1);
    }
  }

  lemma {:induction false} DoubleFactor(a: nat, p: nat)
    ensures 2 * (a * p) == a * (2 * p)
  {
  }

  lemma {:induction false} ShlIsMul(a: nat, k: nat)
    ensures Shl(a, k) == a * Pow2(k)
  {
    if k > 0 {
      ShlIsMul(a, k - 1);
      DoubleFactor(a, Pow2(k - 1));
    }
  }

  lemma {:induction false} ShlAdd(a: nat, j: nat, k: nat)
    ensures Shl(Shl(a, j), k) == Shl(a, j + k)
  {
    if k > 0 {
      ShlAdd(a, j, k - 1);
    }
  }

  lemma {:induction false} ShlZeroOne(k: nat)
    ensures Shl(0, k) == 0 && Shl(1, k) == Pow2(k)
  {
    if k > 0 {
      ShlZeroOne(k - 1);
    }
  }

  /** Shl(a, k) halves to Shl(a, k - 1) plus the halved low part. */
  lemma {:induction false} HalveShlPlus(a: nat, k: nat, x: nat)
    requires k > 0 && x < Pow2(k)
    ensures (Shl(a, k) + x) / 2 == Shl(a, k - 1) + x / 2
    ensures (Shl(a, k) + x) % 2 == x % 2
    ensures x / 2 < Pow2(k - 1)
  {
  }

  lemma {:induction false} SignificantBitsBounds(a: nat)
    ensures a < Pow2(SignificantBits(a))
    ensures a > 0 ==> Pow2(SignificantBits(a) - 1) <= a
  {
    if a > 0 {
      SignificantBitsBounds(a / 2);
    }
  }

  /** SignificantBits is determined by the power of two bracketing a. */
  lemma {:induction false} SignificantBitsOf(a: nat, k: nat)
    requires k >= 1 && Pow2(k - 1) <= a < Pow2(k)
    ensures SignificantBits(a) == k
  {
    if k > 1 {
      SignificantBitsOf(a / 2, k - 1);
    }
  }

  /** A nonzero value is its top bit 2^(n-1) plus a rest below it, n its number of bits. */
  lemma {:induction false} TopSplit(a: nat)
    requires a > 0
    ensures Pow2(SignificantBits(a) - 1) <= a
    ensures a - Pow2(SignificantBits(a) - 1) < Pow2(SignificantBits(a) - 1)
  {
    SignificantBitsBounds(a);
    assert Pow2(SignificantBits(a)) == 2 * Pow2(SignificantBits(a) - 1);
  }

  /** a fits in k bits exactly when it has at most k significant bits. */
  lemma {:induction false} BelowPow2(a: nat, k: nat)
    ensures a < Pow2(k) <==> SignificantBits(a) <= k
  {
    SignificantBitsBounds(a);
    if a < Pow2(k) && a > 0 && SignificantBits(a) > k {
      Pow2Monotonic(k, SignificantBits(a) - 1);
    }
    if SignificantBits(a) <= k {
      Pow2Monotonic(SignificantBits(a), k);
    }
  }

  lemma {:induction false} SignificantBitsDouble(a: nat)
    requires a > 0
    ensures SignificantBits(2 * a) == SignificantBits(a) + 1
  {
    assert (2 * a) / 2 == a;
  }

  /*** Exclusive or ***/

  /** Xor acts bit by bit on the lowest bit and on the rest. */
  lemma {:induction false} XorHalves(a: nat, b: nat)
    ensures Xor(a, b) / 2 == Xor(a / 2, b / 2)
    ensures Xor(a, b) % 2 == if a % 2 == b % 2 then 0 else 1
  {
  }

  /** Two numbers with the same lowest bit and the same upper bits are equal. */
  lemma {:induction false} SameHalves(x: nat, y: nat)
    requires x / 2 == y / 2 && x % 2 == y % 2
    ensures x == y
  {
  }

  lemma {:induction false} XorSelf(a: nat)
    ensures Xor(a, a) == 0
  {
    if a > 0 {
      XorSelf(a / 2);
    }
  }

  lemma {:induction false} XorComm(a: nat, b: nat)
    ensures Xor(a, b) == Xor(b, a)
    decreases a + b
  {
    if a > 0 && b > 0 {
      XorComm(a / 2, b / 2);
    }
  }

  lemma {:induction false} XorAssoc(a: nat, b: nat, c: nat)
    ensures Xor(Xor(a, b), c) == Xor(a, Xor(b, c))
    decreases a + b + c
  {
    if a + b + c > 0 {
      XorAssoc(a / 2, b / 2, c / 2);
      XorHalves(a, b);
      XorHalves(Xor(a, b), c);
      XorHalves(b, c);
      XorHalves(a, Xor(b, c));
      SameHalves(Xor(Xor(a, b), c), Xor(a, Xor(b, c)));
    }
  }

  /** Xor(a, b) == 0 only when a == b. */
  lemma {:induction false} XorZeroEqual(a: nat, b: nat)
    requires Xor(a, b) == 0
    ensures a == b
    decreases a + b
  {
    if a > 0 && b > 0 {
      XorHalves(a, b);
      XorZeroEqual(a / 2, b / 2);
    }
  }

  /** (a ^ b) ^ b == a: Xor with the same value twice cancels. */
  lemma {:induction false} XorCancel(a: nat, b: nat)
    ensures Xor(Xor(a, b), b) == a
  {
    XorAssoc(a, b, b);
    XorSelf(b);
  }

  /** Rearranging four terms: (a ^ b) ^ (c ^ d) == (a ^ c) ^ (b ^ d). */
  lemma {:induction false} XorSwapMiddle(a: nat, b: nat, c: nat, d: nat)
    ensures Xor(Xor(a, b), Xor(c, d)) == Xor(Xor(a, c), Xor(b, d))
  {
    calc {
      Xor(Xor(a, b), Xor(c, d));
      { XorAssoc(a, b, Xor(c, d)); }
      Xor(a, Xor(b, Xor(c, d)));
      { XorAssoc(b, c, d); XorComm(b, c); XorAssoc(c, b, d); }
      Xor(a, Xor(c, Xor(b, d)));
      { XorAssoc(a, c, Xor(b, d)); }
      Xor(Xor(a, c), Xor(b, d));
    }
  }

  /** Inserting y twice: x ^ t == (x ^ y) ^ (y ^ t). */
  lemma {:induction false} XorInsert(x: nat, y: nat, t: nat)
    ensures Xor(x, t) == Xor(Xor(x, y), Xor(y, t))
  {
    XorAssoc(x, y, Xor(y, t));
    XorAssoc(y, y, t);
    XorSelf(y);
  }

  /** Xor keeps a value inside k bits. */
  lemma {:induction false} XorBound(a: nat, b: nat, k: nat)
    requires a < Pow2(k) && b < Pow2(k)
    ensures Xor(a, b) < Pow2(k)
  {
    if k > 0 && a > 0 && b > 0 {
      XorBound(a / 2, b / 2, k - 1);
    }
  }

  /** Xor of doubled values is the doubled Xor (low bits are zero). */
  lemma {:induction false} XorDouble(a: nat, b: nat)
    ensures Xor(2 * a, 2 * b) == 2 * Xor(a, b)
  {
    if a > 0 && b > 0 {
      assert (2 * a) / 2 == a && (2 * b) / 2 == b && (2 * a) % 2 == (2 * b) % 2;
    }
  }

  lemma {:induction false} XorShl(a: nat, b: nat, k: nat)
    ensures Xor(Shl(a, k), Shl(b, k)) == Shl(Xor(a, b), k)
  {
    if k > 0 {
      XorShl(a, b, k - 1);
      XorDouble(Shl(a, k - 1), Shl(b, k - 1));
    }
  }

  /**
   * Xor works independently on the bits at and above position k and the bits
   * below it: (a·2^k + x) ^ (b·2^k + y) == (a ^ b)·2^k + (x ^ y) for x, y < 2^k.
   */
  lemma {:induction false} XorSplit(a: nat, x: nat, b: nat, y: nat, k: nat)
    requires x < Pow2(k) && y < Pow2(k)
    ensures Xor(Shl(a, k) + x, Shl(b, k) + y) == Shl(Xor(a, b), k) + Xor(x, y)
    decreases k, 1
  {
    if k > 0 {
      HalveShlPlus(a, k, x);
      HalveShlPlus(b, k, y);
      XorSplitHalves(a, x, b, y, k);
      XorSplitStep(a, x, b, y, k);
    }
  }

  /** XorSplit one bit lower, on the halves of both sides. */
  lemma {:induction false} XorSplitHalves(a: nat, x: nat, b: nat, y: nat, k: nat)
    requires k > 0 && x / 2 < Pow2(k - 1) && y / 2 < Pow2(k - 1)
    ensures Xor(Shl(a, k - 1) + x / 2, Shl(b, k - 1) + y / 2) == Shl(Xor(a, b), k - 1) + Xor(x / 2, y / 2)
    decreases k, 0
  {
    XorSplit(a, x / 2, b, y / 2, k - 1);
  }

  /** The inductive step of XorSplit: from k - 1 bits to k bits. */
  lemma {:induction false} XorSplitStep(a: nat, x: nat, b: nat, y: nat, k: nat)
    requires k > 0 && x < Pow2(k) && y < Pow2(k)
    requires Xor(Shl(a, k - 1) + x / 2, Shl(b, k - 1) + y / 2) == Shl(Xor(a, b), k - 1) + Xor(x / 2, y / 2)
    ensures Xor(Shl(a, k) + x, Shl(b, k) + y) == Shl(Xor(a, b), k) + Xor(x, y)
  {
    XorLowBitShl(a, x, b, y, k);
    XorLowBit(x, y);
    assert Shl(Xor(a, b), k) == 2 * Shl(Xor(a, b), k - 1);
  }

  /** XorLowBit on a·2^k + x and b·2^k + y, with the halves written out. */
  lemma {:induction false} XorLowBitShl(a: nat, x: nat, b: nat, y: nat, k: nat)
    requires k > 0 && x < Pow2(k) && y < Pow2(k)
    ensures Xor(Shl(a, k) + x, Shl(b, k) + y) == 2 * Xor(Shl(a, k - 1) + x / 2, Shl(b, k - 1) + y / 2) + (if x % 2 == y % 2 then 0 else 1)
  {
    HalveShlPlus(a, k, x);
    HalveShlPlus(b, k, y);
  }

  /** Xor(x, y) is twice the Xor of the halves plus the Xor of the low bits. */
  lemma {:induction false} XorLowBit(x: nat, y: nat)
    ensures Xor(x, y) == 2 * Xor(x / 2, y / 2) + (if x % 2 == y % 2 then 0 else 1)
  {
    XorBits(x / 2, x % 2, y / 2, y % 2);
    assert 2 * (x / 2) + x % 2 == x && 2 * (y / 2) + y % 2 == y;
  }

  /** Xor on the lowest bit and on the rest separately. */
  lemma {:induction false} XorBits(a: nat, p: nat, b: nat, q: nat)
    requires p < 2 && q < 2
    ensures Xor(2 * a + p, 2 * b + q) == 2 * Xor(a, b) + (if p == q then 0 else 1)
  {
    assert (2 * a + p) / 2 == a && (2 * a + p) % 2 == p;
    assert (2 * b + q) / 2 == b && (2 * b + q) % 2 == q;
  }

  /** Bits below position k and bits at or above it do not overlap: Xor is addition. */
  lemma {:induction false} XorDisjoint(a: nat, k: nat, y: nat)
    requires y < Pow2(k)
    ensures Xor(Shl(a, k), y) == Shl(a, k) + y
  {
    ShlZeroOne(k);
    XorSplit(a, 0, 0, y, k);
  }

  /*** Carry-less multiplication ***/

  /** Carry-less multiplication distributes over Xor in its first argument. */
  lemma {:induction false} ClMulXor(p: nat, q: nat, m: nat)
    ensures ClMul(Xor(p, q), m) == Xor(ClMul(p, m), ClMul(q, m))
    decreases p + q
  {
    if p == 0 || q == 0 {
    } else {
      var pq := Xor(p, q);
      XorHalves(p, q);
      var bp := if p % 2 == 1 then m else 0;
      var bq := if q % 2 == 1 then m else 0;
      var bpq := if pq % 2 == 1 then m else 0;
      assert Xor(bp, bq) == bpq by {
        if p % 2 == 1 && q % 2 == 1 {
          XorSelf(m);
        } else if p % 2 == 0 && q % 2 == 1 {
        } else if p % 2 == 1 && q % 2 == 0 {
        } else {
        }
      }
      ClMulXor(p / 2, q / 2, m);
      var cp, cq := ClMul(p / 2, m), ClMul(q / 2, m);
      XorDouble(cp, cq);
      calc {
        Xor(ClMul(p, m), ClMul(q, m));
        Xor(Xor(bp, 2 * cp), Xor(bq, 2 * cq));
        { XorSwapMiddle(bp, 2 * cp, bq, 2 * cq); }
        Xor(Xor(bp, bq), Xor(2 * cp, 2 * cq));
        Xor(bpq, 2 * ClMul(pq / 2, m));
      }
      if pq == 0 {
        XorZeroEqual(p, q);
        XorSelf(ClMul(p, m));
      }
    }
  }

  lemma {:induction false} ClMulDouble(q: nat, m: nat)
    ensures ClMul(2 * q, m) == 2 * ClMul(q, m)
  {
    if q > 0 {
      assert (2 * q) / 2 == q && (2 * q) % 2 == 0;
    }
  }

  /** Multiplying by x^k is shifting left by k. */
  lemma {:induction false} ClMulShl(q: nat, k: nat, m: nat)
    ensures ClMul(Shl(q, k), m) == Shl(ClMul(q, m), k)
  {
    if k > 0 {
      ClMulShl(q, k - 1, m);
      ClMulDouble(Shl(q, k - 1), m);
    }
  }

  lemma {:induction false} ClMulOne(m: nat)
    ensures ClMul(1, m) == m
  {
  }

  /** x^i · m == m << i */
  lemma {:induction false} ClMulPow2(i: nat, m: nat)
    ensures ClMul(Pow2(i), m) == Shl(m, i)
  {
    ShlIsMul(1, i);
    ClMulShl(1, i, m);
    ClMulOne(m);
  }

  /** The degree of a product of nonzero polynomials is the sum of the degrees. */
  lemma {:induction false} ClMulSignificantBits(q: nat, m: nat)
    requires q > 0 && m > 0
    ensures SignificantBits(ClMul(q, m)) == SignificantBits(q) + SignificantBits(m) - 1
  {
    if q == 1 {
      ClMulOne(m);
    } else {
      var c := ClMul(q / 2, m);
      ClMulSignificantBits(q / 2, m);
      assert c > 0;
      SignificantBitsDouble(c);
      var t := if q % 2 == 1 then m else 0;
      assert ClMul(q, m) == Xor(t, 2 * c);
      XorBelowTop(t, 2 * c);
    }
  }

  /*** Remainder of GF(2) polynomial division ***/

  lemma {:induction false} ShlSignificantBits(m: nat, d: nat)
    requires m > 0
    ensures SignificantBits(Shl(m, d)) == SignificantBits(m) + d
  {
    if d > 0 {
      ShlSignificantBits(m, d - 1);
      SignificantBitsDouble(Shl(m, d - 1));
    }
  }

  /** Two values with the same top bit: their Xor has a lower top bit. */
  lemma {:induction false} XorSameTop(a: nat, b: nat)
    requires SignificantBits(a) == SignificantBits(b) >= 1
    ensures SignificantBits(Xor(a, b)) < SignificantBits(a)
  {
    if SignificantBits(a) == 1 {
      assert a == 1 && b == 1;
    } else {
      XorSameTop(a / 2, b / 2);
      XorHalves(a, b);
    }
  }

  /** Xor with a value below 2^k leaves bit k of 2^k + rest alone. */
  lemma {:induction false} XorOverTop(t: nat, rest: nat, k: nat)
    requires t < Pow2(k) && rest < Pow2(k)
    ensures Xor(t, Pow2(k) + rest) == Pow2(k) + Xor(t, rest)
  {
    ShlZeroOne(k);
    var a, b := Shl(0, k) + t, Shl(1, k) + rest;
    XorSplit(0, t, 1, rest, k);
    assert Xor(0, 1) == 1;
    assert a == t && b == Pow2(k) + rest;
  }

  /** Xor with a value of lower degree keeps the degree. */
  lemma {:induction false} XorBelowTop(t: nat, v: nat)
    requires SignificantBits(t) < SignificantBits(v)
    ensures SignificantBits(Xor(t, v)) == SignificantBits(v)
  {
    var k := SignificantBits(v) - 1;
    TopSplit(v);
    BelowPow2(t, k);
    XorUnderTop(t, v - Pow2(k), k);
  }

  /** Xor with a value below 2^k keeps the top bit of 2^k + rest. */
  lemma {:induction false} XorUnderTop(t: nat, rest: nat, k: nat)
    requires t < Pow2(k) && rest < Pow2(k)
    ensures SignificantBits(Xor(t, Pow2(k) + rest)) == k + 1
  {
    XorOverTop(t, rest, k);
    XorBound(t, rest, k);
    TopPlusBits(Xor(t, rest), k);
  }

  /** 2^k plus anything below it has exactly k + 1 bits. */
  lemma {:induction false} TopPlusBits(x: nat, k: nat)
    requires x < Pow2(k)
    ensures SignificantBits(Pow2(k) + x) == k + 1
  {
    assert Pow2(k + 1) == 2 * Pow2(k);
    SignificantBitsOf(Pow2(k) + x, k + 1);
  }

  /**
   * Xor-ing m, aligned with the top bit of v, clears that top bit: the
   * result has fewer significant bits than v.
   */
  lemma {:induction false} CancelTop(v: nat, m: nat)
    requires m > 0 && SignificantBits(v) >= SignificantBits(m)
    ensures SignificantBits(Xor(v, Shl(m, SignificantBits(v) - SignificantBits(m)))) < SignificantBits(v)
  {
    ShlSignificantBits(m, SignificantBits(v) - SignificantBits(m));
    XorSameTop(v, Shl(m, SignificantBits(v) - SignificantBits(m)));
  }

  /**
   * The remainder of dividing v by m: long division that repeatedly cancels
   * the top bit of v with a shifted copy of m, until v has fewer
   * significant bits than m.
   */
  function Remainder(v: nat, m: nat): (r: nat)
    requires m > 0
    ensures SignificantBits(r) < SignificantBits(m)
    decreases SignificantBits(v)
  {
    if SignificantBits(v) < SignificantBits(m) then v
    else
      CancelTop(v, m);
      Remainder(Xor(v, Shl(m, SignificantBits(v) - SignificantBits(m))), m)
  }

  /** The quotient that goes with Remainder. */
  ghost function Quotient(v: nat, m: nat): (q: nat)
    requires m > 0
    decreases SignificantBits(v)
  {
    if SignificantBits(v) < SignificantBits(m) then 0
    else
      CancelTop(v, m);
      var d := SignificantBits(v) - SignificantBits(m);
      Xor(Pow2(d), Quotient(Xor(v, Shl(m, d)), m))
  }

  /** v is a remainder modulo m: it has lower degree than m. */
  ghost predicate IsReduced(r: nat, m: nat)
  {
    SignificantBits(r) < SignificantBits(m)
  }

  /**
   * The remainder has lower degree than m, and v differs from it by a
   * multiple of m: v == Quotient(v, m)·m + Remainder(v, m) over GF(2).
   */
  lemma {:induction false} RemainderIsRemainder(v: nat, m: nat)
    requires m > 0
    ensures IsReduced(Remainder(v, m), m)
    ensures Xor(v, Remainder(v, m)) == ClMul(Quotient(v, m), m)
    decreases SignificantBits(v)
  {
    if SignificantBits(v) < SignificantBits(m) {
      XorSelf(v);
    } else {
      CancelTop(v, m);
      var d := SignificantBits(v) - SignificantBits(m);
      var v' := Xor(v, Shl(m, d));
      RemainderIsRemainder(v', m);
      var r := Remainder(v', m);
      calc {
        Xor(v, r);
        { XorCancel(v, Shl(m, d)); }
        Xor(Xor(v', Shl(m, d)), r);
        { XorAssoc(v', Shl(m, d), r); XorComm(Shl(m, d), r); XorAssoc(v', r, Shl(m, d)); }
        Xor(Xor(v', r), Shl(m, d));
        { ClMulPow2(d, m); }
        Xor(ClMul(Quotient(v', m), m), ClMul(Pow2(d), m));
        { ClMulXor(Quotient(v', m), Pow2(d), m); XorComm(Quotient(v', m), Pow2(d)); }
        ClMul(Quotient(v, m), m);
      }
    }
  }

  /** Reduced values are closed under Xor. */
  lemma {:induction false} ReducedXor(r1: nat, r2: nat, m: nat)
    requires m > 0 && IsReduced(r1, m) && IsReduced(r2, m)
    ensures IsReduced(Xor(r1, r2), m)
  {
    BelowPow2(r1, SignificantBits(m) - 1);
    BelowPow2(r2, SignificantBits(m) - 1);
    XorBound(r1, r2, SignificantBits(m) - 1);
    BelowPow2(Xor(r1, r2), SignificantBits(m) - 1);
  }

  /** A remainder is unique: two reduced values that differ from v by multiples of m are equal. */
  lemma {:induction false} RemainderUnique(v: nat, m: nat, r1: nat, q1: nat, r2: nat, q2: nat)
    requires m > 0
    requires IsReduced(r1, m) && Xor(v, r1) == ClMul(q1, m)
    requires IsReduced(r2, m) && Xor(v, r2) == ClMul(q2, m)
    ensures r1 == r2
  {
    calc {
      Xor(r1, r2);
      { XorInsert(r1, v, r2); }
      Xor(Xor(r1, v), Xor(v, r2));
      { XorComm(r1, v); ClMulXor(q1, q2, m); }
      ClMul(Xor(q1, q2), m);
    }
    ReducedXor(r1, r2, m);
    if Xor(q1, q2) != 0 {
      ClMulSignificantBits(Xor(q1, q2), m);
      assert false;
    }
    XorZeroEqual(r1, r2);
  }

  /** The characterisation of Remainder: any reduced r with v ^ r a multiple of m is it. */
  lemma {:induction false} RemainderCharacterised(v: nat, m: nat, r: nat, q: nat)
    requires m > 0 && IsReduced(r, m) && Xor(v, r) == ClMul(q, m)
    ensures Remainder(v, m) == r
  {
    RemainderIsRemainder(v, m);
    RemainderUnique(v, m, r, q, Remainder(v, m), Quotient(v, m));
  }

  /** A value of lower degree than m is its own remainder. */
  lemma {:induction false} RemainderOfReduced(v: nat, m: nat)
    requires m > 0 && IsReduced(v, m)
    ensures Remainder(v, m) == v
  {
  }

  /** Taking the remainder is linear: it commutes with Xor. */
  lemma {:induction false} RemainderXor(a: nat, b: nat, m: nat)
    requires m > 0
    ensures Remainder(Xor(a, b), m) == Xor(Remainder(a, m), Remainder(b, m))
  {
    var ra, rb := Remainder(a, m), Remainder(b, m);
    RemainderIsRemainder(a, m);
    RemainderIsRemainder(b, m);
    calc {
      Xor(Xor(a, b), Xor(ra, rb));
      { XorSwapMiddle(a, b, ra, rb); }
      Xor(Xor(a, ra), Xor(b, rb));
      { ClMulXor(Quotient(a, m), Quotient(b, m), m); }
      ClMul(Xor(Quotient(a, m), Quotient(b, m)), m);
    }
    ReducedXor(ra, rb, m);
    RemainderCharacterised(Xor(a, b), m, Xor(ra, rb), Xor(Quotient(a, m), Quotient(b, m)));
  }

  /** Shifting commutes with reduction: (a·x^k) mod m == ((a mod m)·x^k) mod m. */
  lemma {:induction false} RemainderShl(a: nat, k: nat, m: nat)
    requires m > 0
    ensures Remainder(Shl(a, k), m) == Remainder(Shl(Remainder(a, m), k), m)
  {
    var ra := Remainder(a, m);
    var t := Remainder(Shl(ra, k), m);
    RemainderIsRemainder(a, m);
    RemainderIsRemainder(Shl(ra, k), m);
    calc {
      Xor(Shl(a, k), t);
      { XorInsert(Shl(a, k), Shl(ra, k), t); }
      Xor(Xor(Shl(a, k), Shl(ra, k)), Xor(Shl(ra, k), t));
      { XorShl(a, ra, k); ClMulShl(Quotient(a, m), k, m); }
      Xor(ClMul(Shl(Quotient(a, m), k), m), ClMul(Quotient(Shl(ra, k), m), m));
      { ClMulXor(Shl(Quotient(a, m), k), Quotient(Shl(ra, k), m), m); }
      ClMul(Xor(Shl(Quotient(a, m), k), Quotient(Shl(ra, k), m)), m);
    }
    RemainderCharacterised(Shl(a, k), m, t, Xor(Shl(Quotient(a, m), k), Quotient(Shl(ra, k), m)));
  }

  /** The remainder fits in SignificantBits(m) - 1 bits. */
  lemma {:induction false} RemainderBound(v: nat, m: nat)
    requires m > 0
    ensures Remainder(v, m) < Pow2(SignificantBits(m) - 1)
  {
    RemainderIsRemainder(v, m);
    SignificantBitsBounds(m);
    BelowPow2(Remainder(v, m), SignificantBits(m) - 1);
  }
}
