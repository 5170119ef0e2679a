/**
 * The keyed hash functions PRF and F built around an opaque core hash, and
 * the big-endian integer-to-bytes conversion they use for their padding.
 * The core hash (SHA-256 or SHA-512) is not modelled: every operation takes
 * it as a parameter `h` whose digests are N bytes long.
 */
module Hash {
  import opened Bytes
  import opened Params

  /** The core hash: a function from byte strings to digests. */
  type CoreHash = seq<byte> -> seq<byte>

  /** Every digest of `h` is `n` bytes long. */
  ghost predicate HashWidth(h: CoreHash, n: nat)
  {
    forall m :: |h(m)| == n
  }

  /** Padding value that starts the buffer of F. */
  const PADDING_F: nat := 0

  /** Padding value that starts the buffer of PRF. */
  const PADDING_PRF: nat := 3

  /** The `len`-byte big-endian encoding of x, truncated to its low `len` bytes (toByte). */
  function ToByte(x: nat, len: nat): (r: seq<byte>)
    ensures |r| == len
  {
    BigEndian(x, 256, len)
  }

  /** Byte k of toByte(x, len) is digit len-1-k of x in base 256. */
  lemma ToByteDigits(x: nat, len: nat)
    ensures forall k :: 0 <= k < len ==> ToByte(x, len)[k] == x / Pow(256, len - 1 - k) % 256
  {
    BigEndianAll(x, 256, len);
  }

  /** Reading ToByte back as a big-endian number gives x modulo 256^len, so x itself when it fits. */
  lemma ToByteRoundTrip(x: nat, len: nat)
    ensures FromBigEndian(ToByte(x, len), 256) == x % Pow(256, len)
    ensures x < Pow(256, len) ==> FromBigEndian(ToByte(x, len), 256) == x
  {
    BigEndianRoundTrip(x, 256, len);
    if x < Pow(256, len) {
      BigEndianRoundTripExact(x, 256, len);
    }
  }

  /**
   * The other direction: any len bytes read as a big-endian number give a
   * value below 256^len whose toByte is those same bytes.
   */
  lemma ToByteOfValue(s: seq<byte>)
    ensures FromBigEndian(s, 256) < Pow(256, |s|)
    ensures ToByte(FromBigEndian(s, 256), |s|) == s
  {
    FromBigEndianBound(s, 256);
    BigEndianOfValue(s, 256);
  }

  /** A value below 256 encodes as len-1 zero bytes followed by the value itself. */
  lemma {:induction false} ToBytePadding(p: nat, len: nat)
    requires p < 256 && len > 0
    ensures ToByte(p, len) == Zeros(len - 1) + [p]
  {
    var r := ToByte(p, len);
    ToByteDigits(p, len);
    forall k | 0 <= k < len
      ensures r[k] == (Zeros(len - 1) + [p])[k]
    {
      if k < len - 1 {
        PowMonotone(256, 1, len - 1 - k);
        DivModUnique(p, Pow(256, len - 1 - k), 0, p);
      }
    }
  }

  /**
   * Writes the big-endian encoding of x into output[lo..hi) (Rust `byte_array`):
   * the loop runs from the last byte down, storing `x & 0xff` and shifting
   * x right by 8 each time.
   */
  method ByteArray(output: array<byte>, lo: nat, hi: nat, x: nat)
    requires lo <= hi <= output.Length
    modifies output
    ensures output[lo..hi] == ToByte(x, hi - lo)
    ensures forall k :: 0 <= k < output.Length && !(lo <= k < hi) ==> output[k] == old(output[k])
  {
    var input := x;
    var i := hi;
    while i > lo
      invariant lo <= i <= hi
      invariant input == x / Pow(256, hi - i)
      invariant forall j :: i <= j < hi ==> output[j] == x / Pow(256, hi - 1 - j) % 256
      invariant forall k :: 0 <= k < output.Length && !(i <= k < hi) ==> output[k] == old(output[k])
    {
      i := i - 1;
      output[i] := input % 256;
      NestedDivMod(x, Pow(256, hi - 1 - i), 256);
      assert Pow(256, hi - i) == Pow(256, hi - 1 - i) * 256;
      input := input / 256;
    }
    var t := ToByte(x, hi - lo);
    ToByteDigits(x, hi - lo);
    assert forall j :: lo <= j < hi ==> output[j] == t[j - lo];
  }

  /** The buffer PRF hashes: toByte(3, N) || key || input, 2N + 32 bytes. */
  function PrfBuf(n: nat, key: seq<byte>, input: seq<byte>): (buf: seq<byte>)
    requires ValidN(n) && |key| == n && |input| == 32
    ensures |buf| == 2 * n + 32
  {
    ToByte(PADDING_PRF, n) + key + input
  }

  /**
   * The buffer F hashes: toByte(0, N) || key || the first 32 bytes of input,
   * then zero bytes up to 3N. Only 32 input bytes are copied whatever N is.
   */
  function FBuf(n: nat, key: seq<byte>, input: seq<byte>): (buf: seq<byte>)
    requires ValidN(n) && |key| == n && |input| == n
    ensures |buf| == 3 * n
  {
    ToByte(PADDING_F, n) + key + input[..32] + Zeros(n - 32)
  }

  /** For N = 32 the F buffer holds the whole input; for N = 64 its last 32 bytes are zero whatever the input. */
  lemma FBufLayout(n: nat, key: seq<byte>, input: seq<byte>)
    requires ValidN(n) && |key| == n && |input| == n
    ensures n == 32 ==> FBuf(n, key, input) == ToByte(PADDING_F, n) + key + input
    ensures n == 64 ==> FBuf(n, key, input)[2 * n + 32..] == Zeros(32)
    ensures FBuf(n, key, input)[..n] == Zeros(n)
  {
    ToBytePadding(PADDING_F, n);
    assert n == 32 ==> input[..32] == input;
  }

  /**
   * Domain separation: byte N-1 of every PRF buffer is 3 and of every F
   * buffer is 0, so no PRF call and no F call ever hash the same string,
   * although for N = 32 the two buffers have the same length.
   */
  lemma DomainSeparation(n: nat, k1: seq<byte>, x1: seq<byte>, k2: seq<byte>, x2: seq<byte>)
    requires ValidN(n) && |k1| == n && |x1| == 32 && |k2| == n && |x2| == n
    ensures PrfBuf(n, k1, x1)[n - 1] == 3 && FBuf(n, k2, x2)[n - 1] == 0
    ensures n == 32 ==> |PrfBuf(n, k1, x1)| == |FBuf(n, k2, x2)|
    ensures PrfBuf(n, k1, x1) != FBuf(n, k2, x2)
  {
    ToBytePadding(PADDING_PRF, n);
    ToBytePadding(PADDING_F, n);
    assert PrfBuf(n, k1, x1)[n - 1] == ToByte(PADDING_PRF, n)[n - 1];
    assert FBuf(n, k2, x2)[n - 1] == ToByte(PADDING_F, n)[n - 1];
  }

  /** PRF(key, input) for an N-byte key and a 32-byte input (Rust `prf`). */
  method Prf(h: CoreHash, n: nat, key: seq<byte>, input: seq<byte>) returns (r: seq<byte>)
    requires ValidN(n) && HashWidth(h, n)
    requires |key| == n && |input| == 32
    ensures r == h(PrfBuf(n, key, input))
    ensures |r| == n
  {
    var buf := new byte[2 * n + 32](_ => 0);
    ByteArray(buf, 0, n, PADDING_PRF);
    for i := 0 to n
      invariant buf[..n] == ToByte(PADDING_PRF, n)
      invariant forall j :: n <= j < n + i ==> buf[j] == key[j - n]
    {
      buf[n + i] := key[i];
    }
    for i := 0 to 32
      invariant buf[..n] == ToByte(PADDING_PRF, n)
      invariant forall j :: n <= j < 2 * n ==> buf[j] == key[j - n]
      invariant forall j :: 2 * n <= j < 2 * n + i ==> buf[j] == input[j - 2 * n]
    {
      buf[2 * n + i] := input[i];
    }
    assert buf[..] == PrfBuf(n, key, input);
    r := h(buf[..]);
  }

  /** F(key, input) for an N-byte key and an N-byte input (Rust `hash_f`). */
  method HashF(h: CoreHash, n: nat, key: seq<byte>, input: seq<byte>) returns (r: seq<byte>)
    requires ValidN(n) && HashWidth(h, n)
    requires |key| == n && |input| == n
    ensures r == h(FBuf(n, key, input))
    ensures |r| == n
  {
    var buf := new byte[3 * n](_ => 0);
    ByteArray(buf, 0, n, PADDING_F);
    for i := 0 to n
      invariant buf[..n] == ToByte(PADDING_F, n)
      invariant forall j :: n <= j < n + i ==> buf[j] == key[j - n]
      invariant forall j :: n + i <= j < 3 * n ==> buf[j] == 0
    {
      buf[n + i] := key[i];
    }
    for i := 0 to 32
      invariant buf[..n] == ToByte(PADDING_F, n)
      invariant forall j :: n <= j < 2 * n ==> buf[j] == key[j - n]
      invariant forall j :: 2 * n <= j < 2 * n + i ==> buf[j] == input[j - 2 * n]
      invariant forall j :: 2 * n + i <= j < 3 * n ==> buf[j] == 0
    {
      buf[2 * n + i] := input[i];
    }
    assert buf[..] == FBuf(n, key, input);
    r := h(buf[..]);
  }
}
