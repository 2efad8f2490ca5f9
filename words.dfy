/**
 * Fixed-width machine integers as bounded naturals. Wrap-around is written
 * out explicitly (`% TWO_64`) wherever the modelled code relies on it.
 */
module Words {
  import opened GF2

  const TWO_8: nat := 0x100
  const TWO_55: nat := 0x80_0000_0000_0000
  const TWO_63: nat := 0x8000_0000_0000_0000
  const TWO_64: nat := 0x1_0000_0000_0000_0000

  type u8 = x: nat | x < TWO_8
  type u64 = x: nat | x < TWO_64
  /** A 64-bit target, where usize and u64 agree. */
  type usize = u64

  /** `x << 8` on a u64: the bits shifted past bit 63 are lost. */
  function Shl8Wrapping(x: u64): (r: u64)
  {
    (x * TWO_8) % TWO_64
  }

  /** A value below 2^63 survives truncation to 64 bits. */
  lemma {:induction false} BelowTwo63Fits(x: nat)
    requires x < TWO_63
    ensures x % TWO_64 == x
  {
  }

  /** Truncating i·2^63 to 64 bits keeps only the lowest bit of i. */
  lemma {:induction false} WrapTimesTwo63(i: nat)
    ensures (i * TWO_63) % TWO_64 == (i % 2) * TWO_63
  {
    assert i * TWO_63 == (i / 2) * TWO_64 + (i % 2) * TWO_63;
  }

  /** Multiplying by 2^8 moves the top byte of a 63-bit value to bit 63 and up. */
  lemma {:induction false} TopByteTimes256(x: nat, s: nat, l: nat)
    requires x == s * TWO_55 + l && l < TWO_55
    ensures x * TWO_8 == s * TWO_63 + l * TWO_8
    ensures l * TWO_8 < TWO_63
  {
  }

  /** Truncating to 64 bits keeps bit 63 only from the lowest bit of its multiplier. */
  lemma {:induction false} WrapAbove63(x: nat, s: nat, low: nat)
    requires x == s * TWO_63 + low && low < TWO_63
    ensures x % TWO_64 == (s % 2) * TWO_63 + low
  {
    assert s * TWO_63 + low == (s / 2) * TWO_64 + ((s % 2) * TWO_63 + low);
  }

  lemma {:induction false} Pow2Of63(k: nat)
    requires k == 63
    ensures Pow2(k) == TWO_63
  {
    Pow2Of63Literal();
  }

  lemma {:induction false} Pow2Of16()
    ensures Pow2(16) == 0x1_0000
  {
    assert Pow2(8) == 0x100;
    Pow2Add(8, 8);
  }

  lemma {:induction false} Pow2Of48()
    ensures Pow2(48) == 0x1_0000_0000_0000
  {
    Pow2Of16();
    Pow2Add(16, 16);
    Pow2Add(32, 16);
  }

  lemma {:induction false} Pow2Of55Literal()
    ensures Pow2(55) == TWO_55
  {
    Pow2Of48();
    assert Pow2(7) == 0x80;
    Pow2Add(48, 7);
  }

  lemma {:induction false} Pow2Of63Literal()
    ensures Pow2(63) == TWO_63
  {
    Pow2Of55Literal();
    assert Pow2(8) == 0x100;
    Pow2Add(55, 8);
  }

  /** The byte at bits 55..62 of a 63-bit value is a byte. */
  lemma {:induction false} TopByteBound(x: nat)
    requires x < TWO_63
    ensures x / TWO_55 < TWO_8
  {
  }

  /** The powers of two the model uses, as literals. */
  lemma {:induction false} Pow2Literals()
    ensures Pow2(8) == TWO_8
    ensures Pow2(55) == TWO_55
    ensures Pow2(63) == TWO_63
    ensures Pow2(64) == TWO_64
  {
    assert Pow2(8) == TWO_8;
    Pow2Of55Literal();
    Pow2Of63Literal();
    assert Pow2(64) == 2 * Pow2(63);
  }
}
