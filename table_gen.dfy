/**
 * Construction of the rolling-hash tables by GF(2) polynomial division
 * (the generator used when the window size is configurable).
 */
module TableGen {
  import opened GF2
  import opened Words
  import opened PolyTable

  /** The generator's own copy of the modulus. */
  const POLYNOMIAL: u64 := 0xbfe6b8a5bf378d83

  /*** reduce ***/

  /** A value with bit k set has more than k significant bits. */
  lemma {:induction false} BitSetBits(a: nat, k: nat)
    requires Bit(a, k)
    ensures SignificantBits(a) > k
  {
    if k > 0 {
      BitSetBits(a / 2, k - 1);
    }
  }

  /** The top bit of a value with k + 1 significant bits is bit k. */
  lemma {:induction false} TopBitOfBits(a: nat, k: nat)
    requires SignificantBits(a) == k + 1
    ensures Bit(a, k)
  {
    if k > 0 {
      TopBitOfBits(a / 2, k - 1);
    }
  }

  /**
   * GF(2) remainder of `value` modulo `modulo`, truncated to 64 bits, by the
   * descending long-division loop: for each alignment i from the highest
   * down to 0, if the bit of `result` level with the top bit of
   * `modulo << i` is set, Xor that shifted modulus in.
   */
  method Reduce(value: nat, modulo: nat) returns (r: u64)
    requires modulo > 0
    ensures r == Remainder(value, modulo) % TWO_64
    ensures SignificantBits(value) < SignificantBits(modulo) ==> r == value % TWO_64
  {
    var moduloBits := SignificantBits(modulo);
    var valueBits := SignificantBits(value);
    if valueBits < moduloBits {
      return value % TWO_64;
    }
    var result := LongDivision(value, modulo);
    r := result % TWO_64;
  }

  /** The loop of reduce, for a value with at least as many bits as the modulus. */
  method LongDivision(value: nat, modulo: nat) returns (result: nat)
    requires modulo > 0 && SignificantBits(modulo) <= SignificantBits(value)
    ensures result == Remainder(value, modulo)
  {
    var moduloBits := SignificantBits(modulo);
    var valueBits := SignificantBits(value);
    result := value;
    ghost var quotient: nat := 0;
    XorSelf(value);
    for i := valueBits - moduloBits + 1 downto 0
      // every bit at position moduloBits - 1 + i or above is zero
      invariant SignificantBits(result) <= SignificantBits(modulo) - 1 + i
      // value and result differ by a multiple of modulo
      invariant Xor(value, result) == ClMul(quotient, modulo)
    {
      result, quotient := DivisionStep(value, modulo, result, quotient, i);
    }
    RemainderCharacterised(value, modulo, result, quotient);
  }

  /**
   * The loop body of reduce at alignment i: if the bit of `result` level with
   * the top bit of `modulo << i` is set, Xor that shifted modulus in.
   */
  method DivisionStep(value: nat, modulo: nat, result: nat, ghost quotient: nat, i: nat) returns (next: nat, ghost nextQuotient: nat)
    requires modulo > 0
    requires SignificantBits(result) <= SignificantBits(modulo) + i
    requires Xor(value, result) == ClMul(quotient, modulo)
    ensures next == if Bit(result, SignificantBits(modulo) + i - 1) then Xor(result, Shl(modulo, i)) else result
    ensures SignificantBits(next) <= SignificantBits(modulo) - 1 + i
    ensures Xor(value, next) == ClMul(nextQuotient, modulo)
  {
    if Bit(result, SignificantBits(modulo) + i - 1) {
      CancelStep(value, modulo, result, quotient, i);
      next := Xor(result, Shl(modulo, i));
      nextQuotient := Xor(quotient, Pow2(i));
    } else {
      if SignificantBits(result) == SignificantBits(modulo) + i {
        TopBitOfBits(result, SignificantBits(modulo) + i - 1);
      }
      next, nextQuotient := result, quotient;
    }
  }

  /**
   * One step of the division: when bit SignificantBits(modulo) - 1 + i of
   * `before` is its top bit, Xoring in modulo·x^i clears it and adds x^i to
   * the quotient.
   */
  lemma {:induction false} CancelStep(value: nat, modulo: nat, before: nat, quotient: nat, i: nat)
    requires modulo > 0
    requires SignificantBits(before) <= SignificantBits(modulo) + i
    requires Bit(before, SignificantBits(modulo) + i - 1)
    requires Xor(value, before) == ClMul(quotient, modulo)
    ensures SignificantBits(Xor(before, Shl(modulo, i))) <= SignificantBits(modulo) - 1 + i
    ensures Xor(value, Xor(before, Shl(modulo, i))) == ClMul(Xor(quotient, Pow2(i)), modulo)
  {
    BitSetBits(before, SignificantBits(modulo) + i - 1);
    ShlSignificantBits(modulo, i);
    XorSameTop(before, Shl(modulo, i));
    CancelQuotient(value, modulo, before, quotient, i);
  }

  /** Xoring in modulo·x^i adds x^i to the quotient. */
  lemma {:induction false} CancelQuotient(value: nat, modulo: nat, before: nat, quotient: nat, i: nat)
    requires Xor(value, before) == ClMul(quotient, modulo)
    ensures Xor(value, Xor(before, Shl(modulo, i))) == ClMul(Xor(quotient, Pow2(i)), modulo)
  {
    calc {
      Xor(value, Xor(before, Shl(modulo, i)));
      { XorAssoc(value, before, Shl(modulo, i)); }
      Xor(ClMul(quotient, modulo), Shl(modulo, i));
      { ClMulPow2(i, modulo); ClMulXor(quotient, Pow2(i), modulo); }
      ClMul(Xor(quotient, Pow2(i)), modulo);
    }
  }

  /*** Table::new ***/

  /**
   * `i << (degree - 1)` on a usize, which wraps to 64 bits; degree - 1 is 63
   * (PolynomialDegree).
   */
  function ShiftedIndexWrapping(i: nat): (w: u64)
  {
    Shl(i, 63) % TWO_64
  }

  /** Entry i of the shift table, as the generator defines it. */
  function ShiftEntry(i: nat): (entry: u64)
    // the two Xored terms occupy disjoint bits: bit 63 and bits 0 to 62
    ensures entry == Shl(i % 2, 63) + Remainder(Shl(i, 63), POLYNOMIAL)
  {
    var reduced := Remainder(Shl(i, 63), POLYNOMIAL) % TWO_64;
    Pow2Literals();
    XorBound(reduced, ShiftedIndexWrapping(i), 64);
    RemainderFits63(Shl(i, 63));
    ShiftedIndexKeepsLowBit(i);
    XorComm(reduced, Shl(i % 2, 63));
    XorDisjoint(i % 2, 63, reduced);
    Xor(reduced, ShiftedIndexWrapping(i))
  }

  /** Entry i of the drop table for the given window size. */
  function DropEntry(i: nat, windowSize: nat): (entry: u64)
    // the truncation to 64 bits loses nothing
    ensures entry == Remainder(Shl(i, windowSize * 8), POLYNOMIAL) && entry < TWO_63
  {
    RemainderFits63(Shl(i, windowSize * 8));
    Remainder(Shl(i, windowSize * 8), POLYNOMIAL) % TWO_64
  }

  /** The tables that `Table::new(windowSize)` builds. */
  function TableFor(windowSize: nat): (t: Table)
    ensures t.Shaped()
  {
    Table(seq(TWO_8, i requires 0 <= i => ShiftEntry(i)), seq(TWO_8, i requires 0 <= i => DropEntry(i, windowSize)))
  }

  /**
   * Fills both 256-entry tables, entry by entry; the result is therefore a
   * deterministic function of the window size.
   */
  method NewTable(windowSize: nat) returns (t: Table)
    ensures t == TableFor(windowSize)
    ensures t.Shaped()
  {
    var shift := new u64[TWO_8](_ => 0);
    var drop := new u64[TWO_8](_ => 0);

    var modulo := POLYNOMIAL;
    var degree := SignificantBits(modulo);
    for i := 0 to TWO_8
      invariant forall j :: 0 <= j < i ==> shift[j] == ShiftEntry(j)
      invariant forall j :: 0 <= j < i ==> drop[j] == DropEntry(j, windowSize)
    {
      FillShift(shift, i, modulo, degree);
      FillDrop(drop, i, windowSize, modulo);
    }
    t := Table(shift[..], drop[..]);
    assert t.shift == TableFor(windowSize).shift;
    assert t.drop == TableFor(windowSize).drop;
  }

  /** Entry i of the shift table: the reduced `i << (degree - 1)` Xored with its wrapped value. */
  method FillShift(shift: array<u64>, i: nat, modulo: nat, degree: nat)
    requires i < shift.Length
    requires modulo == POLYNOMIAL && degree == SignificantBits(POLYNOMIAL)
    requires forall j :: 0 <= j < i ==> shift[j] == ShiftEntry(j)
    modifies shift
    ensures forall j :: 0 <= j < i + 1 ==> shift[j] == ShiftEntry(j)
  {
    PolynomialDegree();
    var reduced := Reduce(Shl(i, degree - 1), modulo);
    var wrapped: u64 := Shl(i, degree - 1) % TWO_64;
    var entry := Xor(reduced, wrapped);
    ShiftEntryOf(i, reduced, wrapped);
    shift[i] := entry;
  }

  lemma {:induction false} ShiftEntryOf(i: nat, reduced: nat, wrapped: nat)
    requires reduced == Remainder(Shl(i, 63), POLYNOMIAL) % TWO_64
    requires wrapped == Shl(i, 63) % TWO_64
    ensures Xor(reduced, wrapped) == ShiftEntry(i)
  {
  }

  /** Entry i of the drop table: the reduced `i << (8 * windowSize)`. */
  method FillDrop(drop: array<u64>, i: nat, windowSize: nat, modulo: nat)
    requires i < drop.Length
    requires modulo == POLYNOMIAL
    requires forall j :: 0 <= j < i ==> drop[j] == DropEntry(j, windowSize)
    modifies drop
    ensures forall j :: 0 <= j < i + 1 ==> drop[j] == DropEntry(j, windowSize)
  {
    drop[i] := Reduce(Shl(i, windowSize * 8), modulo);
  }

  /*** Facts about the tables ***/

  /** Both copies of the modulus agree. */
  lemma {:induction false} PolynomialsAgree()
    ensures POLYNOMIAL == PolyTable.POLYNOMIAL
  {
  }

  /** The top set bit of the modulus is bit 63: the generator's `degree` is 64. */
  lemma {:induction false} PolynomialDegree()
    ensures SignificantBits(POLYNOMIAL) == 64
  {
    Pow2Literals();
    SignificantBitsOf(POLYNOMIAL, 64);
  }

  /** Every remainder modulo POLYNOMIAL fits in 63 bits, so truncating it to 64 bits loses nothing. */
  lemma {:induction false} RemainderFits63(v: nat)
    ensures Remainder(v, POLYNOMIAL) < TWO_63
    ensures Remainder(v, POLYNOMIAL) % TWO_64 == Remainder(v, POLYNOMIAL)
  {
    RemainderBound(v, POLYNOMIAL);
    PolynomialDegree();
    Pow2Literals();
    BelowTwo63Fits(Remainder(v, POLYNOMIAL));
  }

  lemma {:induction false} ShlZero(k: nat)
    ensures Shl(0, k) == 0
  {
    ShlIsMul(0, k);
  }

  /** i·2^63 truncated to 64 bits keeps only bit 0 of i, at position 63. */
  lemma {:induction false} ShiftedIndexKeepsLowBit(i: nat)
    ensures ShiftedIndexWrapping(i) == Shl(i % 2, 63)
  {
    PolynomialDegree();
    Pow2Literals();
    ShlIsMul(i, 63);
    ShlIsMul(i % 2, 63);
    WrapTimesTwo63(i);
  }

  /**
   * shift[i] is the remainder of i·x^63 in its low 63 bits, with bit 63
   * equal to bit 0 of i (what the wrapping `i << 63` leaves).
   */
  lemma {:induction false} ShiftEntryShape(i: nat)
    ensures ShiftEntry(i) == Shl(i % 2, 63) + Remainder(Shl(i, 63), POLYNOMIAL)
    ensures ShiftEntry(i) / TWO_63 == i % 2
    ensures ShiftEntry(i) % TWO_63 == Remainder(Shl(i, 63), POLYNOMIAL)
  {
    PolynomialDegree();
    var rem := Remainder(Shl(i, 63), POLYNOMIAL);
    RemainderFits63(Shl(i, 63));
    ShiftedIndexKeepsLowBit(i);
    Pow2Literals();
    XorComm(rem, Shl(i % 2, 63));
    XorDisjoint(i % 2, 63, rem);
    ShlIsMul(i % 2, 63);
  }

  /** drop[i] is the remainder of i·x^(8·windowSize), so it fits in 63 bits. */
  lemma {:induction false} DropEntryShape(i: nat, windowSize: nat)
    ensures DropEntry(i, windowSize) == Remainder(Shl(i, windowSize * 8), POLYNOMIAL)
    ensures DropEntry(i, windowSize) < TWO_63
  {
    RemainderFits63(Shl(i, windowSize * 8));
  }

  /** Entry 0 of both tables is 0, so a zero byte contributes nothing. */
  lemma {:induction false} TableZeroEntries(windowSize: nat)
    ensures TableFor(windowSize).shift[0] == 0
    ensures TableFor(windowSize).drop[0] == 0
  {
    ShlZero(63);
    ShlZero(windowSize * 8);
    PolynomialDegree();
    ShiftEntryShape(0);
  }
}
