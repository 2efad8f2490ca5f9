/**
 * The Rabin rolling hash: the remainder, modulo POLYNOMIAL, of the last
 * window-size bytes read as one polynomial, and the O(1) recurrence the
 * chunker uses to keep it up to date.
 */
module RabinHash {
  import opened GF2
  import opened Words
  import PolyTable
  import opened TableGen

  /** Bytes read as one big-endian number: byte j is the coefficient block of x^(8·(n-1-j)). */
  function Poly(bytes: seq<u8>): (p: nat)
  {
    if bytes == [] then 0 else Shl(Poly(bytes[..|bytes| - 1]), 8) + bytes[|bytes| - 1]
  }

  function Zeros(n: nat): (z: seq<u8>)
    ensures |z| == n && forall k :: 0 <= k < n ==> z[k] == 0
  {
    seq(n, _ => 0)
  }

  /** The last w bytes of `hashed`, oldest first, padded in front with zero bytes. */
  function Recent(hashed: seq<u8>, w: nat): (r: seq<u8>)
    ensures |r| == w
  {
    if |hashed| >= w then hashed[|hashed| - w..] else Zeros(w - |hashed|) + hashed
  }

  /** The hash of a window: the GF(2) remainder of its bytes modulo POLYNOMIAL. */
  function WindowHash(hashed: seq<u8>, w: nat): (h: u64)
    ensures h < TWO_63
  {
    RemainderFits63(Poly(Recent(hashed, w)));
    Remainder(Poly(Recent(hashed, w)), POLYNOMIAL)
  }

  /** What the rolling update needs to know about a table. */
  ghost predicate RollingSafe(t: PolyTable.Table)
  {
    t.Shaped() &&
    (forall i :: 0 <= i < TWO_8 ==> t.drop[i] < TWO_63) &&
    (forall i :: 0 <= i < TWO_8 ==> t.shift[i] / TWO_63 == i % 2)
  }

  /** The generated tables are safe for the rolling update. */
  lemma {:induction false} TableForRollingSafe(windowSize: nat)
    ensures RollingSafe(TableFor(windowSize))
  {
    var t := TableFor(windowSize);
    forall i | 0 <= i < TWO_8
      ensures t.drop[i] < TWO_63 && t.shift[i] / TWO_63 == i % 2
    {
      DropEntryShape(i, windowSize);
      ShiftEntryShape(i);
    }
  }

  /** The top byte of the 63-bit hash, bits 55 to 62, which an 8-bit shift pushes out. */
  function ShiftedByte(hash: u64): (top: nat)
  {
    hash / TWO_55
  }

  /**
   * hash' = (hash << 8) ^ incoming ^ drop[dropped] ^ shift[shiftedByte],
   * with the 64-bit wrap of `<<` written out.
   */
  function RollHash(t: PolyTable.Table, hash: u64, incoming: u8, dropped: u8): (next: u64)
    requires t.Shaped() && hash < TWO_63
    // bit 63 stays clear when the drop entry has it clear and the shift entry carries the parity of its index there
    ensures t.drop[dropped] < TWO_63 && t.shift[ShiftedByte(hash)] / TWO_63 == ShiftedByte(hash) % 2 ==> next < TWO_63
  {
    Pow2Literals();
    var h1 := Xor(Shl8Wrapping(hash), incoming);
    XorBound(Shl8Wrapping(hash), incoming, 64);
    var h2 := Xor(h1, t.drop[dropped]);
    XorBound(h1, t.drop[dropped], 64);
    XorBound(h2, t.shift[ShiftedByte(hash)], 64);
    var rolled := Xor(h2, t.shift[ShiftedByte(hash)]);
    if t.drop[dropped] < TWO_63 && t.shift[ShiftedByte(hash)] / TWO_63 == ShiftedByte(hash) % 2 then
      UpdateKeepsBit63(hash, incoming, t.drop[dropped], t.shift[ShiftedByte(hash)]);
      rolled
    else
      rolled
  }

  /*** The shape of the wrapped shift ***/

  lemma {:induction false} Shl63(a: nat)
    ensures Shl(a, 63) == a * TWO_63
  {
    ShlIsMul(a, 63);
    Pow2Literals();
  }

  /** Xor works separately on bit 63 and on the 63 bits below it. */
  lemma {:induction false} XorAt63(a: nat, x: nat, b: nat, y: nat)
    requires x < TWO_63 && y < TWO_63
    ensures Xor(Shl(a, 63) + x, Shl(b, 63) + y) == Shl(Xor(a, b), 63) + Xor(x, y)
    ensures Xor(x, y) < TWO_63
  {
    XorSplit63(a, x, b, y);
    XorBound63(x, y);
  }

  lemma {:induction false} XorSplit63(a: nat, x: nat, b: nat, y: nat)
    requires x < TWO_63 && y < TWO_63
    ensures Xor(Shl(a, 63) + x, Shl(b, 63) + y) == Shl(Xor(a, b), 63) + Xor(x, y)
  {
    var k := 63;
    Pow2Of63(k);
    XorSplit(a, x, b, y, k);
  }

  lemma {:induction false} XorBound63(x: nat, y: nat)
    requires x < TWO_63 && y < TWO_63
    ensures Xor(x, y) < TWO_63
  {
    var k := 63;
    Pow2Of63(k);
    XorBound(x, y, k);
  }

  /**
   * A hash with bit 63 clear, shifted left by 8 with wrap-around, keeps bit 0
   * of its top byte at bit 63 and its low 55 bits, shifted, below it.
   */
  lemma {:induction false} WrappedShiftShape(hash: u64)
    requires hash < TWO_63
    ensures Shl8Wrapping(hash) == Shl(ShiftedByte(hash) % 2, 63) + Shl(hash % TWO_55, 8)
    ensures Shl(hash % TWO_55, 8) < TWO_63
    ensures Shl(hash, 8) == Shl(ShiftedByte(hash), 63) + Shl(hash % TWO_55, 8)
  {
    var s, l := ShiftedByte(hash), hash % TWO_55;
    var a := s % 2;
    Pow2Literals();
    ShlIsMul(l, 8);
    ShlIsMul(hash, 8);
    Shl63(a);
    Shl63(s);
    TopByteTimes256(hash, s, l);
    var shifted, low := hash * TWO_8, l * TWO_8;
    WrapAbove63(shifted, s, low);
  }

  /** The wrapped shift plus shift[shiftedByte] reduces the shifted hash exactly. */
  lemma {:induction false} ShiftOutTopByte(hash: u64)
    requires hash < TWO_63
    ensures Xor(Shl8Wrapping(hash), ShiftEntry(ShiftedByte(hash))) == Remainder(Shl(hash, 8), POLYNOMIAL)
  {
    var s, low := ShiftedByte(hash), Shl(hash % TWO_55, 8);
    var a := s % 2;
    var rs := Remainder(Shl(s, 63), POLYNOMIAL);
    assert Shl8Wrapping(hash) == Shl(a, 63) + low && low < TWO_63 && Shl(hash, 8) == Shl(s, 63) + low by {
      WrappedShiftShape(hash);
    }
    assert ShiftEntry(s) == Shl(a, 63) + rs && rs < TWO_63 by {
      ShiftEntryShape(s);
      RemainderFits63(Shl(s, 63));
    }
    // the wrapped bit 63 of the shifted hash meets bit 63 of shift[s] and cancels
    assert Xor(Shl8Wrapping(hash), ShiftEntry(s)) == Xor(low, rs) by {
      XorTop63Cancels(Shl8Wrapping(hash), ShiftEntry(s), a, low, rs);
    }
    // the unwrapped shift is the top byte at x^63 plus `low`, which is already reduced
    assert Remainder(Shl(hash, 8), POLYNOMIAL) == Xor(rs, low) by {
      assert Shl(hash, 8) == Xor(Shl(s, 63), low) by {
        Pow2Literals();
        XorDisjoint(s, 63, low);
      }
      RemainderXor(Shl(s, 63), low, POLYNOMIAL);
      assert Remainder(low, POLYNOMIAL) == low by {
        PolynomialDegree();
        Pow2Literals();
        BelowPow2(low, 63);
        RemainderOfReduced(low, POLYNOMIAL);
      }
    }
    XorComm(rs, low);
  }

  /*** Bounds ***/

  /**
   * Bit 63 cancels in the update when the shifted hash and the shift entry
   * carry the same bit there and the other two terms have it clear.
   */
  lemma {:induction false} Bit63Cancels(shifted: nat, incoming: nat, d: nat, sh: nat, a: nat, low: nat)
    requires shifted == Shl(a, 63) + low && low < TWO_63
    requires sh == Shl(a, 63) + sh % TWO_63
    requires incoming < TWO_63 && d < TWO_63
    ensures Xor(Xor(Xor(shifted, incoming), d), sh) < TWO_63
  {
    var y1, x1 := Xor(shifted, incoming), Xor(low, incoming);
    XorBelow63(shifted, a, low, incoming);
    var y2, x2 := Xor(y1, d), Xor(x1, d);
    XorBelow63(y1, a, x1, d);
    var rest := sh % TWO_63;
    XorTop63Cancels(y2, sh, a, x2, rest);
  }

  /** A term below bit 63 leaves bit 63 of the other alone. */
  lemma {:induction false} XorBelow63(v: nat, a: nat, x: nat, y: nat)
    requires v == Shl(a, 63) + x && x < TWO_63 && y < TWO_63
    ensures Xor(v, y) == Shl(a, 63) + Xor(x, y)
    ensures Xor(x, y) < TWO_63
  {
    var k := 63;
    Pow2Of63(k);
    var top, xy := Shl(a, k), Xor(x, y);
    XorDisjoint(a, k, x);
    XorAssoc(top, x, y);
    XorBound(x, y, k);
    XorDisjoint(a, k, xy);
  }

  /** Equal bits 63 cancel. */
  lemma {:induction false} XorTop63Cancels(u: nat, v: nat, a: nat, x: nat, y: nat)
    requires u == Shl(a, 63) + x && v == Shl(a, 63) + y && x < TWO_63 && y < TWO_63
    ensures Xor(u, v) == Xor(x, y)
    ensures Xor(x, y) < TWO_63
  {
    var k := 63;
    XorAt63(a, x, a, y);
    XorSelf(a);
    ShlZero(k);
  }

  /** The rolling update keeps bit 63 of the hash clear, whatever the bytes. */
  lemma {:induction false} RollHashBound(t: PolyTable.Table, hash: u64, incoming: u8, dropped: u8)
    requires RollingSafe(t) && hash < TWO_63
    ensures RollHash(t, hash, incoming, dropped) < TWO_63
  {
    var s := ShiftedByte(hash);
    assert t.drop[dropped] < TWO_63 && t.shift[s] / TWO_63 == s % 2;
  }

  /** The three Xors of the update leave bit 63 clear under the table shape the update relies on. */
  lemma {:induction false} UpdateKeepsBit63(hash: u64, incoming: u8, dropTerm: nat, shiftTerm: nat)
    requires hash < TWO_63 && dropTerm < TWO_63 && shiftTerm / TWO_63 == ShiftedByte(hash) % 2
    ensures Xor(Xor(Xor(Shl8Wrapping(hash), incoming), dropTerm), shiftTerm) < TWO_63
  {
    var s := ShiftedByte(hash);
    WrappedShiftShape(hash);
    assert shiftTerm == Shl(s % 2, 63) + shiftTerm % TWO_63 by {
      Shl63(s % 2);
    }
    Bit63Cancels(Shl8Wrapping(hash), incoming, dropTerm, shiftTerm, s % 2, Shl(hash % TWO_55, 8));
  }

  /*** The window as a polynomial ***/

  lemma {:induction false} ShlPlus(a: nat, b: nat, k: nat)
    ensures Shl(a + b, k) == Shl(a, k) + Shl(b, k)
  {
    if k > 0 {
      ShlPlus(a, b, k - 1);
    }
  }

  lemma {:induction false} PolyBound(bytes: seq<u8>)
    ensures Poly(bytes) < Pow2(8 * |bytes|)
    decreases |bytes|
  {
    if bytes != [] {
      var front := bytes[..|bytes| - 1];
      PolyBound(front);
      ShlIsMul(Poly(front), 8);
      Pow2Add(8 * |front|, 8);
      Pow2Literals();
    }
  }

  /** The oldest byte of a window sits above all the others. */
  lemma {:induction false} PolyPrepend(d: u8, rest: seq<u8>)
    ensures Poly([d] + rest) == Shl(d, 8 * |rest|) + Poly(rest)
    decreases |rest|
  {
    if rest != [] {
      var front := rest[..|rest| - 1];
      assert ([d] + rest)[..|rest|] == [d] + front;
      PolyPrepend(d, front);
      ShlPlus(Shl(d, 8 * |front|), Poly(front), 8);
      ShlAdd(d, 8 * |front|, 8);
    }
  }

  /** Sliding the window by one byte drops its oldest byte and appends the new one. */
  lemma {:induction false} RecentStep(hashed: seq<u8>, b: u8, w: nat)
    requires w > 0
    ensures Recent(hashed + [b], w) == Recent(hashed, w)[1..] + [b]
  {
    if |hashed| >= w {
      RecentStepFull(hashed, b, w);
    } else {
      RecentStepShort(hashed, b, w);
    }
  }

  /** Sliding a full window. */
  lemma {:induction false} RecentStepFull(hashed: seq<u8>, b: u8, w: nat)
    requires 0 < w <= |hashed|
    ensures Recent(hashed + [b], w) == Recent(hashed, w)[1..] + [b]
  {
    assert (hashed + [b])[|hashed| + 1 - w..] == hashed[|hashed| - w + 1..] + [b];
  }

  /** Sliding a window still padded with zeros. */
  lemma {:induction false} RecentStepShort(hashed: seq<u8>, b: u8, w: nat)
    requires |hashed| < w
    ensures Recent(hashed + [b], w) == Recent(hashed, w)[1..] + [b]
  {
    if |hashed| + 1 == w {
      RecentStepFilling(hashed, b, w);
    } else {
      RecentStepPadded(hashed, b, w);
    }
  }

  /** The last zero of the padding leaves. */
  lemma {:induction false} RecentStepFilling(hashed: seq<u8>, b: u8, w: nat)
    requires |hashed| + 1 == w
    ensures Recent(hashed + [b], w) == Recent(hashed, w)[1..] + [b]
  {
    assert Recent(hashed, w) == [0] + hashed;
  }

  /** One zero of the padding leaves and more remain. */
  lemma {:induction false} RecentStepPadded(hashed: seq<u8>, b: u8, w: nat)
    requires |hashed| + 1 < w
    ensures Recent(hashed + [b], w) == Recent(hashed, w)[1..] + [b]
  {
    var k := w - |hashed| - 1;
    assert Zeros(k + 1) == [0] + Zeros(k);
    assert Recent(hashed, w) == Zeros(k + 1) + hashed;
    assert Recent(hashed + [b], w) == Zeros(k) + (hashed + [b]);
  }

  /**
   * The polynomial of the slid window, in GF(2) terms: shift the old window
   * up by one byte, cancel the byte that left it, add the new byte.
   */
  lemma {:induction false} WindowPolyStep(hashed: seq<u8>, b: u8, w: nat)
    requires w > 0
    ensures Poly(Recent(hashed + [b], w)) ==
      Xor(Xor(Shl(Poly(Recent(hashed, w)), 8), Shl(Recent(hashed, w)[0], 8 * w)), b)
  {
    var r := Recent(hashed, w);
    var d, rest := r[0], r[1..];
    var k := 8 * w;
    var shifted, top, low := Shl(Poly(r), 8), Shl(d, k), Shl(Poly(rest), 8);
    ShiftedWindowSplit(r, d, rest, w);
    ShiftedRestBound(rest, w);
    CancelTop(shifted, top, low, d, k);
    RecentStep(hashed, b, w);
    PolyAppend(rest, b);
  }

  /** Shifting a window up by one byte puts its oldest byte at x^(8·w), above the shifted rest. */
  lemma {:induction false} ShiftedWindowSplit(r: seq<u8>, d: u8, rest: seq<u8>, w: nat)
    requires |r| == w > 0 && d == r[0] && rest == r[1..]
    ensures Shl(Poly(r), 8) == Shl(d, 8 * w) + Shl(Poly(rest), 8)
  {
    assert r == [d] + rest;
    PolyPrepend(d, rest);
    ShlPlus(Shl(d, 8 * |rest|), Poly(rest), 8);
    ShlAdd(d, 8 * |rest|, 8);
  }

  /** The rest of a window, shifted up by one byte, stays below x^(8·w). */
  lemma {:induction false} ShiftedRestBound(rest: seq<u8>, w: nat)
    requires |rest| + 1 == w
    ensures Shl(Poly(rest), 8) < Pow2(8 * w)
  {
    PolyBound(rest);
    ShlIsMul(Poly(rest), 8);
    Pow2Add(8 * |rest|, 8);
  }

  /** Xoring out a top term that lies wholly above the low part leaves the low part. */
  lemma {:induction false} CancelTop(x: nat, top: nat, low: nat, d: nat, k: nat)
    requires x == top + low && top == Shl(d, k) && low < Pow2(k)
    ensures Xor(x, top) == low
  {
    XorDisjoint(d, k, low);
    XorComm(top, low);
    XorCancel(low, top);
  }

  /** Appending a byte shifts the polynomial by 8 and sets the new low byte. */
  lemma {:induction false} PolyAppend(rest: seq<u8>, b: u8)
    ensures Poly(rest + [b]) == Xor(Shl(Poly(rest), 8), b)
  {
    assert (rest + [b])[..|rest|] == rest;
    Pow2Literals();
    XorDisjoint(Poly(rest), 8, b);
  }

  /** Rearranging the three Xors of the update. */
  lemma {:induction false} XorRotate(a: nat, b: nat, c: nat, d: nat)
    ensures Xor(Xor(Xor(a, b), c), d) == Xor(Xor(Xor(a, d), c), b)
  {
    XorAssoc(a, b, c);
    XorComm(b, c);
    XorAssoc(a, c, b);
    XorAssoc(Xor(a, c), b, d);
    XorComm(b, d);
    XorAssoc(Xor(a, c), d, b);
    XorAssoc(a, c, d);
    XorComm(c, d);
    XorAssoc(a, d, c);
  }

  /**
   * The rolling update is exact: starting from the hash of a window, it
   * yields the hash of the window slid by one byte, with the tables built
   * for that window size.
   */
  lemma {:induction false} RollHashCorrect(hashed: seq<u8>, b: u8, w: nat)
    requires w > 0
    ensures RollHash(TableFor(w), WindowHash(hashed, w), b, Recent(hashed, w)[0]) == WindowHash(hashed + [b], w)
  {
    var t, r := TableFor(w), Recent(hashed, w);
    var p, d := Poly(r), r[0];
    var h := WindowHash(hashed, w);
    var k := 8;
    RollHashTerms(t, h, b, d, w);
    // the shifted hash and the shifted window leave the same remainder
    RemainderShl(p, k, POLYNOMIAL);
    NewWindowRemainder(hashed, b, w);
  }

  /** The update, term by term: the shifted hash reduced, the dropped byte's term, the new byte. */
  lemma {:induction false} RollHashTerms(t: PolyTable.Table, h: u64, b: u8, d: u8, w: nat)
    requires t == TableFor(w) && h < TWO_63
    ensures RollHash(t, h, b, d) == Xor(Xor(Remainder(Shl(h, 8), POLYNOMIAL), Remainder(Shl(d, 8 * w), POLYNOMIAL)), b)
  {
    var s := ShiftedByte(h);
    TopByteBound(h);
    var shiftTerm, dropTerm := t.shift[s], t.drop[d];
    DropEntryShape(d, w);
    TableForEntries(w, s);
    var wrapped := Shl8Wrapping(h);
    RollHashUnfold(t, h, b, d, wrapped, dropTerm, shiftTerm);
    XorRotate(wrapped, b, dropTerm, shiftTerm);
    ShiftOutTopByte(h);
  }

  lemma {:induction false} TableForEntries(w: nat, i: nat)
    requires i < TWO_8
    ensures TableFor(w).shift[i] == ShiftEntry(i) && TableFor(w).drop[i] == DropEntry(i, w)
  {
  }

  /** RollHash is the three Xors of the update. */
  lemma {:induction false} RollHashUnfold(t: PolyTable.Table, h: u64, b: u8, d: u8, wrapped: nat, dropTerm: nat, shiftTerm: nat)
    requires t.Shaped() && h < TWO_63
    requires wrapped == Shl8Wrapping(h) && dropTerm == t.drop[d] && shiftTerm == t.shift[ShiftedByte(h)]
    ensures RollHash(t, h, b, d) == Xor(Xor(Xor(wrapped, b), dropTerm), shiftTerm)
  {
  }

  /** The hash of the slid window, term by term. */
  lemma {:induction false} NewWindowRemainder(hashed: seq<u8>, b: u8, w: nat)
    requires w > 0
    ensures WindowHash(hashed + [b], w) ==
      Xor(Xor(Remainder(Shl(Poly(Recent(hashed, w)), 8), POLYNOMIAL), Remainder(Shl(Recent(hashed, w)[0], 8 * w), POLYNOMIAL)), b)
  {
    var r := Recent(hashed, w);
    var shifted, top := Shl(Poly(r), 8), Shl(r[0], 8 * w);
    var lhs := Xor(shifted, top);
    WindowPolyStep(hashed, b, w);
    RemainderXor(lhs, b, POLYNOMIAL);
    RemainderXor(shifted, top, POLYNOMIAL);
    ByteIsReduced(b);
  }

  /** A byte is already reduced modulo POLYNOMIAL. */
  lemma {:induction false} ByteIsReduced(b: u8)
    ensures Remainder(b, POLYNOMIAL) == b
  {
    PolynomialDegree();
    Pow2Literals();
    Pow2Monotonic(8, 63);
    BelowPow2(b, 63);
    RemainderOfReduced(b, POLYNOMIAL);
  }

  /** After a reset the window is all zeros and its hash is 0. */
  lemma {:induction false} EmptyWindowHash(w: nat)
    ensures Recent([], w) == Zeros(w)
    ensures WindowHash([], w) == 0
  {
    assert Zeros(w) + [] == Zeros(w);
    PolyOfZeros(w);
  }

  lemma {:induction false} PolyOfZeros(n: nat)
    ensures Poly(Zeros(n)) == 0
  {
    if n > 0 {
      assert Zeros(n)[..n - 1] == Zeros(n - 1);
      PolyOfZeros(n - 1);
      ShlZero(8);
    }
  }

  /**
   * The hash depends only on the last w hashed bytes: hashing a long input
   * and hashing only its last w bytes from a reset window agree.
   */
  lemma {:induction false} RollingEquivalence(hashed: seq<u8>, w: nat)
    requires |hashed| >= w
    ensures WindowHash(hashed, w) == WindowHash(hashed[|hashed| - w..], w)
  {
    assert Recent(hashed[|hashed| - w..], w) == Recent(hashed, w);
  }
}
