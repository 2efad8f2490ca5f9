/**
 * The two reduction tables of the Rabin rolling hash and the constants they
 * are built from.
 */
module PolyTable {
  import opened Words

  /** Window size of the default build and of the default options. */
  const DEFAULT_WINDOW_SIZE: nat := 64

  /** The fixed modulus polynomial of the rolling hash. */
  const POLYNOMIAL: u64 := 0xbfe6b8a5bf378d83

  /**
   * `shift[b]` and `drop[b]`, one 64-bit word per byte value b. Sequences
   * stand for the fixed-size arrays; `Shaped` says they hold 256 entries.
   */
  datatype Table = Table(shift: seq<u64>, drop: seq<u64>)
  {
    predicate Shaped()
    {
      |shift| == TWO_8 && |drop| == TWO_8
    }
  }
}
