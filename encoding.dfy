/**
 * The base-W digit encoder (RFC 8391, sections 2.6 and 3.1.5): a message is
 * split into 4-bit digits, high nibble first, and followed by the base-W
 * digits of its checksum.
 */
module Encoding {
  import opened Bytes
  import opened Params
  import opened Hash

  /** All 2 |input| base-16 digits of `input`, each byte's high nibble first. */
  function Nibbles(input: seq<byte>): (r: seq<byte>)
    ensures |r| == 2 * |input|
    ensures forall k :: 0 <= k < |r| ==> r[k] < W
  {
    if input == [] then [] else [input[0] / W, input[0] % W] + Nibbles(input[1..])
  }

  /** Digits 2i and 2i+1 are the high and the low nibble of byte i. */
  lemma {:induction false} NibblesAt(input: seq<byte>, i: nat)
    requires i < |input|
    ensures Nibbles(input)[2 * i] == input[i] / W
    ensures Nibbles(input)[2 * i + 1] == input[i] % W
  {
    if i > 0 {
      NibblesAt(input[1..], i - 1);
    }
  }

  /** Joins pairs of base-16 digits back into bytes: the inverse of Nibbles. */
  function PackNibbles(ds: seq<byte>): (r: seq<byte>)
    requires |ds| % 2 == 0
    requires forall k :: 0 <= k < |ds| ==> ds[k] < W
    ensures |r| == |ds| / 2
  {
    if ds == [] then [] else [ds[0] * W + ds[1]] + PackNibbles(ds[2..])
  }

  lemma {:induction false} PackNibblesOfNibbles(input: seq<byte>)
    ensures PackNibbles(Nibbles(input)) == input
  {
    if input != [] {
      var ds := Nibbles(input);
      assert ds[2..] == Nibbles(input[1..]);
      PackNibblesOfNibbles(input[1..]);
    }
  }

  lemma {:induction false} NibblesOfPackNibbles(ds: seq<byte>)
    requires |ds| % 2 == 0
    requires forall k :: 0 <= k < |ds| ==> ds[k] < W
    ensures Nibbles(PackNibbles(ds)) == ds
  {
    if ds != [] {
      var b := ds[0] * W + ds[1];
      DivModUnique(b, W, ds[0], ds[1]);
      NibblesOfPackNibbles(ds[2..]);
      assert ds == [ds[0], ds[1]] + ds[2..];
    }
  }

  /** Different messages have different message digits. */
  lemma NibblesInjective(a: seq<byte>, b: seq<byte>)
    requires Nibbles(a) == Nibbles(b)
    ensures a == b
  {
    PackNibblesOfNibbles(a);
    PackNibblesOfNibbles(b);
  }

  /**
   * Writes the first hi-lo base-16 digits of `input` to output[lo..hi)
   * (Rust `base_w`). It reads input[0 .. ceil((hi-lo)/2)); a shorter input
   * is an out-of-bounds index in the source, hence the precondition.
   */
  method BaseW(output: array<byte>, lo: nat, hi: nat, input: seq<byte>)
    requires lo <= hi <= output.Length
    requires hi - lo <= 2 * |input|
    modifies output
    ensures output[lo..hi] == Nibbles(input)[..hi - lo]
    ensures output[..lo] == old(output[..lo]) && output[hi..] == old(output[hi..])
  {
    var i := 0;
    var bits := 0;
    var total: byte := 0;
    var out := lo;
    while out < hi
      invariant lo <= out <= hi && i <= |input|
      invariant bits == 0 ==> out - lo == 2 * i
      invariant bits != 0 ==> bits == LOG_W && out - lo == 2 * i - 1 && 1 <= i && total == input[i - 1]
      invariant forall j :: lo <= j < out ==> output[j] == Nibbles(input)[j - lo]
      invariant forall k :: 0 <= k < output.Length && !(lo <= k < out) ==> output[k] == old(output[k])
    {
      if bits == 0 {
        total := input[i];
        i := i + 1;
        bits := bits + 8;
      }
      bits := bits - LOG_W;
      output[out] := total / Pow(2, bits) % W;
      ShiftMask(total, bits);
      NibblesAt(input, i - 1);
      out := out + 1;
    }
    assert forall j :: 0 <= j < hi - lo ==> output[lo..hi][j] == Nibbles(input)[j];
    assert forall j :: 0 <= j < lo ==> output[..lo][j] == old(output[..lo])[j];
    assert forall j :: 0 <= j < output.Length - hi ==> output[hi..][j] == old(output[hi..])[j];
  }

  /** `(b >> bits) & (W - 1)` for the two shifts base_w uses: the high or the low nibble. */
  lemma ShiftMask(b: byte, bits: nat)
    requires bits == 0 || bits == LOG_W
    ensures b / Pow(2, bits) % W == if bits == LOG_W then b / W else b % W
  {
    assert Pow(2, LOG_W) == W;
  }

  /** The checksum of message digits: the sum of W-1-d over the digits, folded left. */
  function Csum(ds: seq<byte>): (r: int)
    ensures r <= |ds| * (W - 1)
  {
    if ds == [] then 0 else Csum(ds[..|ds| - 1]) + (W - 1 - ds[|ds| - 1])
  }

  /** For digits below W the checksum lies in [0, |ds| (W-1)]. */
  lemma {:induction false} CsumBounds(ds: seq<byte>)
    requires forall k :: 0 <= k < |ds| ==> ds[k] < W
    ensures 0 <= Csum(ds) <= |ds| * (W - 1)
  {
    if ds != [] {
      CsumBounds(ds[..|ds| - 1]);
    }
  }

  /**
   * Raising any digits lowers the checksum: if every digit of `hi` is at least
   * the matching digit of `lo`, the checksum of `hi` is at most that of `lo`,
   * and strictly less when the two differ.
   */
  lemma {:induction false} CsumAntitone(lo: seq<byte>, hi: seq<byte>)
    requires |lo| == |hi|
    requires forall k :: 0 <= k < |lo| ==> lo[k] <= hi[k]
    ensures Csum(hi) <= Csum(lo)
    ensures lo != hi ==> Csum(hi) < Csum(lo)
  {
    if lo != [] {
      var m := |lo| - 1;
      CsumAntitone(lo[..m], hi[..m]);
      if lo != hi && lo[m] == hi[m] {
        assert lo == lo[..m] + [lo[m]] && hi == hi[..m] + [hi[m]];
        assert lo[..m] != hi[..m];
      }
    }
  }

  /** The L2 base-W digits of a checksum, most significant first. */
  function ChecksumDigits(c: nat): (r: seq<byte>)
    ensures |r| == L2
  {
    BigEndian(c, W, L2)
  }

  /** The full message encoding: L1 message digits followed by L2 checksum digits. */
  function MessageDigits(n: nat, msg: seq<byte>): (r: seq<byte>)
    requires ValidN(n) && |msg| == n
    ensures |r| == Len(n)
    ensures forall k :: 0 <= k < |r| ==> r[k] < W
  {
    var m := Nibbles(msg);
    CsumBounds(m);
    m + ChecksumDigits(Csum(m))
  }

  /**
   * The encoding of a message: its first L1 digits are the nibbles of the
   * message, and the last L2 digits spell out exactly the checksum of those,
   * which lies in [0, L1 (W-1)].
   */
  lemma MessageDigitsChecksum(n: nat, msg: seq<byte>)
    requires ValidN(n) && |msg| == n
    ensures MessageDigits(n, msg)[..L1(n)] == Nibbles(msg)
    ensures 0 <= Csum(Nibbles(msg)) <= L1(n) * (W - 1)
    ensures FromBigEndian(MessageDigits(n, msg)[L1(n)..], W) == Csum(Nibbles(msg))
  {
    var m := Nibbles(msg);
    CsumBounds(m);
    ChecksumFits(n);
    BigEndianRoundTripExact(Csum(m), W, L2);
    assert MessageDigits(n, msg)[L1(n)..] == ChecksumDigits(Csum(m));
  }

  /**
   * The WOTS+ property the checksum exists for: for two different messages,
   * some digit of the second encoding is strictly smaller than the matching
   * digit of the first, so no signature can be walked forward into one for
   * another message.
   */
  lemma SomeDigitDecreases(n: nat, m1: seq<byte>, m2: seq<byte>)
    requires ValidN(n) && |m1| == n && |m2| == n && m1 != m2
    ensures exists k :: 0 <= k < Len(n) && MessageDigits(n, m2)[k] < MessageDigits(n, m1)[k]
  {
    var d1, d2 := MessageDigits(n, m1), MessageDigits(n, m2);
    var a, b := Nibbles(m1), Nibbles(m2);
    if forall k :: 0 <= k < L1(n) ==> a[k] <= b[k] {
      if a == b {
        NibblesInjective(m1, m2);
      }
      CsumAntitone(a, b);
      CsumBounds(a);
      CsumBounds(b);
      ChecksumFits(n);
      SomeDigitBelow(Csum(b), Csum(a), W, L2);
      var k :| 0 <= k < L2 && ChecksumDigits(Csum(b))[k] < ChecksumDigits(Csum(a))[k];
      assert d2[L1(n) + k] < d1[L1(n) + k];
    } else {
      var k :| 0 <= k < L1(n) && b[k] < a[k];
      assert d2[k] < d1[k];
    }
  }

  /**
   * Shifting a checksum below 2^12 left by 4 bits, writing it as 2 big-endian
   * bytes and taking 3 base-16 digits of those gives its 3 base-16 digits.
   */
  lemma ShiftedChecksumDigits(c: nat)
    requires c < 4096
    ensures Nibbles(ToByte(c * 16, 2))[..3] == ChecksumDigits(c)
  {
    var bs := ToByte(c * 16, 2);
    ToByteDigits(c * 16, 2);
    assert bs[0] == c / 16 by {
      assert bs[0] == c * 16 / 256 % 256;
      DivModUnique(c * 16, 256, c / 16, c % 16 * 16);
    }
    assert bs[1] == c % 16 * 16 by {
      DivModUnique(c * 16, 256, c / 16, c % 16 * 16);
    }
    var ds := ChecksumDigits(c);
    BigEndianAll(c, W, L2);
    NestedDivMod(c, 16, 16);
    NibblesAt(bs, 0);
    NibblesAt(bs, 1);
  }

  /**
   * The message digits followed by the first L2 digits of the shifted
   * checksum bytes are the message encoding.
   */
  lemma ConcatenationResult(n: nat, msg: seq<byte>, digits: seq<byte>, csumBytes: seq<byte>)
    requires ValidN(n) && |msg| == n && |digits| == Len(n)
    requires digits[..L1(n)] == Nibbles(msg)
    requires Csum(Nibbles(msg)) >= 0 && csumBytes == ToByte(Csum(Nibbles(msg)) * 16, 2)
    requires digits[L1(n)..Len(n)] == Nibbles(csumBytes)[..L2]
    ensures digits == MessageDigits(n, msg)
  {
    var sum := Csum(Nibbles(msg));
    CsumBounds(Nibbles(msg));
    ChecksumFits(n);
    ShiftedChecksumDigits(sum);
    SplitAt(digits, L1(n));
  }

  /** Rust `concatenation`: the base-W message digits followed by the checksum digits. */
  method Concatenation(n: nat, msg: seq<byte>) returns (digits: seq<byte>)
    requires ValidN(n) && |msg| == n
    ensures digits == MessageDigits(n, msg)
  {
    var output := new byte[Len(n)](_ => 0);
    BaseW(output, 0, L1(n), msg);
    assert output[..L1(n)] == Nibbles(msg);

    CsumBounds(Nibbles(msg));
    var csum: nat := Csum(output[..L1(n)]);

    ChecksumLayout();
    csum := csum * Pow(2, CSUM_SHIFT);
    var csumBytes := new byte[CSUM_BYTES](_ => 0);
    ByteArray(csumBytes, 0, csumBytes.Length, csum);
    assert csumBytes[..] == csumBytes[0..2];
    BaseW(output, L1(n), Len(n), csumBytes[..]);

    digits := output[..];
    ConcatenationResult(n, msg, digits, csumBytes[..]);
  }
}
