/** Bytes, powers and fixed-width big-endian expansions shared by the whole model. */
module Bytes {

  /** An unsigned 8-bit value (Rust `u8`). */
  type byte = x: int | 0 <= x < 256

  function Pow(b: nat, e: nat): (r: nat)
    ensures b > 0 ==> r > 0
  {
    if e == 0 then 1 else b * Pow(b, e - 1)
  }

  /** `len` zero bytes, as a freshly declared `[0u8; len]`. */
  function Zeros(len: nat): seq<byte>
  {
    seq(len, _ => 0)
  }

  /** A sequence is its prefix of length k followed by the rest. */
  lemma SplitAt<T>(s: seq<T>, k: nat)
    requires k <= |s|
    ensures s == s[..k] + s[k..]
  {
  }

  /** Bitwise exclusive or of two bytes (Rust `^` on `u8`). */
  function Xor(a: byte, b: byte): byte
  {
    ((a as bv8) ^ (b as bv8)) as int
  }

  /**
   * The `len` least significant base-`b` digits of `x`, most significant
   * first. With b = 256 this is the toByte(x, len) of RFC 8391, section 2.4.
   */
  function BigEndian(x: nat, b: nat, len: nat): (r: seq<nat>)
    requires b > 1
    ensures |r| == len
    ensures forall k :: 0 <= k < len ==> r[k] < b
    decreases len
  {
    if len == 0 then [] else BigEndian(x / b, b, len - 1) + [x % b]
  }

  /** The value of a big-endian digit string in base `b`. */
  function FromBigEndian(s: seq<nat>, b: nat): nat
  {
    if s == [] then 0 else FromBigEndian(s[..|s| - 1], b) * b + s[|s| - 1]
  }

  // ---------------------------------------------------------------------
  // Division facts

  lemma DivModUnique(x: int, d: int, q: int, r: int)
    requires d > 0 && 0 <= r < d && x == q * d + r
    ensures x / d == q && x % d == r
  {
    var q0, r0 := x / d, x % d;
    assert x == q0 * d + r0;
    assert (q0 + 1) * d == q0 * d + d;
    assert (q + 1) * d == q * d + d;
    if q0 < q {
      MulMono(q0 + 1, q, d);
      assert false;
    } else if q < q0 {
      MulMono(q + 1, q0, d);
      assert false;
    }
  }

  lemma MulMono(a: int, c: int, b: nat)
    requires a <= c
    ensures a * b <= c * b
  {
    assert c * b - a * b == (c - a) * b;
  }

  lemma Distribute(q: int, b: int, r: int, a: int)
    ensures (q * b + r) * a == q * (a * b) + r * a
  {
  }

  lemma BelowProduct(r2: int, r: int, a: nat, b: nat)
    requires 0 <= r2 < b && 0 <= r < a
    ensures r2 * a + r < a * b
  {
    MulMono(r2, b - 1, a);
    assert (b - 1) * a == a * b - a;
  }

  /** Dividing by a and then by b is dividing by a b, and the two remainders make up the remainder by a b. */
  lemma NestedDivMod(x: nat, a: nat, b: nat)
    requires a > 0 && b > 0
    ensures x / a / b == x / (a * b)
    ensures x / a % b * a + x % a == x % (a * b)
  {
    var q, r := x / a, x % a;
    var q2, r2 := q / b, q % b;
    assert x == q * a + r;
    assert q == q2 * b + r2;
    Distribute(q2, b, r2, a);
    BelowProduct(r2, r, a, b);
    DivModUnique(x, a * b, q2, r2 * a + r);
  }

  lemma {:induction false} PowMonotone(b: nat, e1: nat, e2: nat)
    requires b > 0 && e1 <= e2
    ensures Pow(b, e1) <= Pow(b, e2)
    decreases e2
  {
    if e1 < e2 {
      PowMonotone(b, e1, e2 - 1);
      MulMono(1, b, Pow(b, e2 - 1));
    }
  }

  // ---------------------------------------------------------------------
  // Big-endian expansion

  /** Digit k of the expansion is (x >> (len-1-k) digit widths) mod b. */
  lemma {:induction false} BigEndianAt(x: nat, b: nat, len: nat, k: nat)
    requires b > 1 && k < len
    ensures BigEndian(x, b, len)[k] == x / Pow(b, len - 1 - k) % b
    decreases len, 1
  {
    if k < len - 1 {
      BigEndianAtInit(x, b, len, k);
    } else {
      assert Pow(b, 0) == 1;
    }
  }

  /** The step of BigEndianAt for a digit other than the last. */
  lemma {:induction false} BigEndianAtInit(x: nat, b: nat, len: nat, k: nat)
    requires b > 1 && k < len - 1
    ensures BigEndian(x, b, len)[k] == x / Pow(b, len - 1 - k) % b
    decreases len, 0
  {
    var y := x / b;
    assert BigEndian(x, b, len)[k] == BigEndian(y, b, len - 1)[k];
    BigEndianAt(y, b, len - 1, k);
    NestedDivMod(x, b, Pow(b, len - 2 - k));
  }

  lemma BigEndianAll(x: nat, b: nat, len: nat)
    requires b > 1
    ensures forall k :: 0 <= k < len ==> BigEndian(x, b, len)[k] == x / Pow(b, len - 1 - k) % b
  {
    forall k | 0 <= k < len
      ensures BigEndian(x, b, len)[k] == x / Pow(b, len - 1 - k) % b
    {
      BigEndianAt(x, b, len, k);
    }
  }

  /** Reading the expansion back gives x modulo b^len. */
  lemma {:induction false} BigEndianRoundTrip(x: nat, b: nat, len: nat)
    requires b > 1
    ensures FromBigEndian(BigEndian(x, b, len), b) == x % Pow(b, len)
    decreases len, 1
  {
    if len > 0 {
      BigEndianRoundTripStep(x, b, len);
    }
  }

  /** The step of BigEndianRoundTrip: peel off the least significant digit. */
  lemma {:induction false} BigEndianRoundTripStep(x: nat, b: nat, len: nat)
    requires b > 1 && len > 0
    ensures FromBigEndian(BigEndian(x, b, len), b) == x % Pow(b, len)
    decreases len, 0
  {
    var s := BigEndian(x, b, len);
    assert s[..len - 1] == BigEndian(x / b, b, len - 1);
    BigEndianRoundTrip(x / b, b, len - 1);
    NestedDivMod(x, b, Pow(b, len - 1));
  }

  lemma BigEndianRoundTripExact(x: nat, b: nat, len: nat)
    requires b > 1 && x < Pow(b, len)
    ensures FromBigEndian(BigEndian(x, b, len), b) == x
  {
    BigEndianRoundTrip(x, b, len);
    DivModUnique(x, Pow(b, len), 0, x);
  }

  /** A string of base-b digits denotes a value below b^|s|. */
  lemma {:induction false} FromBigEndianBound(s: seq<nat>, b: nat)
    requires b > 1
    requires forall k :: 0 <= k < |s| ==> s[k] < b
    ensures FromBigEndian(s, b) < Pow(b, |s|)
  {
    if s != [] {
      var init := s[..|s| - 1];
      FromBigEndianBound(init, b);
      BelowProduct(FromBigEndian(init, b), s[|s| - 1], b, Pow(b, |init|));
    }
  }

  /** The other direction of the round trip: expanding the value of a digit string gives the string back. */
  lemma {:induction false} BigEndianOfValue(s: seq<nat>, b: nat)
    requires b > 1
    requires forall k :: 0 <= k < |s| ==> s[k] < b
    ensures BigEndian(FromBigEndian(s, b), b, |s|) == s
  {
    if s != [] {
      var init := s[..|s| - 1];
      var v := FromBigEndian(s, b);
      DivModUnique(v, b, FromBigEndian(init, b), s[|s| - 1]);
      BigEndianOfValue(init, b);
      assert s == init + [s[|s| - 1]];
    }
  }

  /** Raising digits never lowers the value. */
  lemma {:induction false} FromBigEndianMonotone(s: seq<nat>, t: seq<nat>, b: nat)
    requires |s| == |t|
    requires forall k :: 0 <= k < |s| ==> s[k] <= t[k]
    ensures FromBigEndian(s, b) <= FromBigEndian(t, b)
  {
    if s != [] {
      FromBigEndianMonotone(s[..|s| - 1], t[..|t| - 1], b);
      MulMono(FromBigEndian(s[..|s| - 1], b), FromBigEndian(t[..|t| - 1], b), b);
    }
  }

  /** If x < y, the expansion of x is strictly below that of y at some digit. */
  lemma SomeDigitBelow(x: nat, y: nat, b: nat, len: nat)
    requires b > 1 && x < y < Pow(b, len)
    ensures exists k :: 0 <= k < len && BigEndian(x, b, len)[k] < BigEndian(y, b, len)[k]
  {
    var dx, dy := BigEndian(x, b, len), BigEndian(y, b, len);
    if forall k :: 0 <= k < len ==> dy[k] <= dx[k] {
      FromBigEndianMonotone(dy, dx, b);
      BigEndianRoundTripExact(x, b, len);
      BigEndianRoundTripExact(y, b, len);
      assert false;
    }
  }
}
