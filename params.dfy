/**
 * The WOTS+ parameter sets. The hash width N selects the set: 32 bytes for
 * WOTSP-SHA2_256 / WOTSP-SHAKE_256 and 64 bytes for WOTSP-SHA2_512 /
 * WOTSP-SHAKE_512. W, LOG_W and L2 are the same for every set; L1 and LEN
 * follow from N.
 */
module Params {
  import opened Bytes

  /** The hash widths the parameter table admits. */
  predicate ValidN(n: nat)
  {
    n == 32 || n == 64
  }

  /** The Winternitz parameter. */
  const W: nat := 16

  /** Binary logarithm of W: the number of bits in one digit. */
  const LOG_W: nat := 4

  /** Number of base-W digits of an N-byte message, as the table fixes it. */
  function L1(n: nat): (r: nat)
    requires ValidN(n)
    ensures r * LOG_W == 8 * n
  {
    if n == 32 then 64 else 128
  }

  /** Number of base-W checksum digits. */
  const L2: nat := 3

  /** Left shift that moves the L2 lg W checksum bits to the top of whole bytes. */
  const CSUM_SHIFT: nat := 8 - (L2 * LOG_W) % 8

  /** Number of bytes the shifted checksum is written into. */
  const CSUM_BYTES: nat := (L2 * LOG_W + 7) / 8

  /** For W = 16 the checksum is shifted by 4 bits, a factor of 16, and written into 2 bytes. */
  lemma ChecksumLayout()
    ensures CSUM_SHIFT == 4 && Pow(2, CSUM_SHIFT) == 16 && CSUM_BYTES == 2
  {
  }

  /** Number of chains: message digits plus checksum digits. */
  function Len(n: nat): nat
    requires ValidN(n)
  {
    L1(n) + L2
  }

  /** Floor of the binary logarithm. */
  function Log2(x: nat): nat
    requires x >= 1
  {
    if x == 1 then 0 else 1 + Log2(x / 2)
  }

  /** Log2(x) is the exponent of the largest power of two not above x. */
  lemma {:induction false} Log2Bracket(x: nat)
    requires x >= 1
    ensures Pow(2, Log2(x)) <= x < Pow(2, Log2(x) + 1)
  {
    if x > 1 {
      Log2Bracket(x / 2);
    }
  }

  lemma WIsTwoToLogW()
    ensures W == Pow(2, LOG_W)
  {
  }

  /** The table's L1 is ceil(8N / lg W). */
  lemma L1Formula(n: nat)
    requires ValidN(n)
    ensures L1(n) == (8 * n + LOG_W - 1) / LOG_W
  {
  }

  /** The table's L2 is floor(lg(L1 (W - 1)) / lg W) + 1, for both hash widths. */
  lemma L2Formula(n: nat)
    requires ValidN(n)
    ensures L2 == Log2(L1(n) * (W - 1)) / LOG_W + 1
  {
    var m := L1(n) * (W - 1);
    Log2Bracket(m);
    var e := Log2(m);
    if e < 9 {
      PowMonotone(2, e + 1, 9);
      assert false;
    }
    if e > 10 {
      PowMonotone(2, 11, e);
      assert false;
    }
  }

  /** LEN agrees with the table: 67 for N = 32 and 131 for N = 64. */
  lemma LenTable()
    ensures Len(32) == 67 && Len(64) == 131
  {
  }

  /**
   * The largest checksum, L1 (W - 1), fits in L2 base-W digits, and needs all
   * of them: W^(L2-1) <= L1 (W - 1) < W^L2.
   */
  lemma ChecksumFits(n: nat)
    requires ValidN(n)
    ensures Pow(W, L2 - 1) <= L1(n) * (W - 1) < Pow(W, L2)
  {
    assert Pow(W, L2) == 4096;
  }
}
