/**
 * The chaining function of lib.rs. As written it differs from RFC 8391,
 * section 3.1.2: every executed step sets the hash field to 0 (not to the
 * step index) and masks the ORIGINAL input (not the running value), and the
 * output is never initialised from the input. So every executed step
 * computes the same value, and a call that executes no step leaves the
 * output as it was.
 */
module Chaining {
  import opened Bytes
  import opened Params
  import opened Hash
  import opened Address

  /** Loop index i of chain(start, steps) executes a step: it lies in [start, start+steps) and below W. */
  predicate Executes(start: nat, steps: nat, i: nat)
  {
    start <= i < start + steps && i < W
  }

  /** Whether chain(start, steps) executes at least one step. */
  predicate Runs(start: nat, steps: nat): (r: bool)
    ensures r <==> exists i: nat :: Executes(start, steps, i)
  {
    if steps > 0 && start < W then
      assert Executes(start, steps, start);
      true
    else
      false
  }

  /** The address a step derives its key under: hash field 0, keymask field 0. */
  function KeyAdrs(a: seq<byte>): (r: seq<byte>)
    requires |a| == ADRS_BYTES
    ensures |r| == ADRS_BYTES
  {
    SetField(SetField(a, HASH_OFFSET, Enc32(0)), KEYMASK_OFFSET, Enc32(0))
  }

  /** The address a step derives its bitmask under, and that it leaves behind: then keymask field 1. */
  function MaskAdrs(a: seq<byte>): (r: seq<byte>)
    requires |a| == ADRS_BYTES
    ensures |r| == ADRS_BYTES
  {
    SetField(KeyAdrs(a), KEYMASK_OFFSET, Enc32(1))
  }

  /** Byte-wise exclusive or of two equally long byte strings. */
  function XorBytes(a: seq<byte>, b: seq<byte>): (r: seq<byte>)
    requires |a| == |b|
    ensures |r| == |a|
  {
    seq(|a|, k requires 0 <= k < |a| => Xor(a[k], b[k]))
  }

  /** The value one executed step stores in the output. */
  function ChainStep(h: CoreHash, n: nat, pubSeed: seq<byte>, a: seq<byte>, input: seq<byte>): (r: seq<byte>)
    requires ValidN(n) && HashWidth(h, n)
    requires |pubSeed| == n && |a| == ADRS_BYTES && |input| == n
    ensures |r| == n
  {
    var key := h(PrfBuf(n, pubSeed, KeyAdrs(a)));
    var mask := h(PrfBuf(n, pubSeed, MaskAdrs(a)));
    h(FBuf(n, key, XorBytes(input, mask)))
  }

  /** The key and mask addresses keep bytes [0, 24) and fix bytes [24, 32). */
  lemma KeyMaskLayout(a: seq<byte>)
    requires |a| == ADRS_BYTES
    ensures KeyAdrs(a) == a[..HASH_OFFSET] + Enc32(0) + Enc32(0)
    ensures MaskAdrs(a) == a[..HASH_OFFSET] + Enc32(0) + Enc32(1)
  {
    var k, m := KeyAdrs(a), MaskAdrs(a);
    assert k == k[..HASH_OFFSET] + k[HASH_OFFSET..KEYMASK_OFFSET] + k[KEYMASK_OFFSET..];
    assert m == m[..HASH_OFFSET] + m[HASH_OFFSET..KEYMASK_OFFSET] + m[KEYMASK_OFFSET..];
  }

  /** Key and mask addresses depend only on bytes [0, 24), the prefix and the chain field. */
  lemma KeyMaskDependOnPrefix(a: seq<byte>, b: seq<byte>)
    requires |a| == ADRS_BYTES && |b| == ADRS_BYTES
    requires a[..HASH_OFFSET] == b[..HASH_OFFSET]
    ensures KeyAdrs(a) == KeyAdrs(b) && MaskAdrs(a) == MaskAdrs(b)
  {
    KeyMaskLayout(a);
    KeyMaskLayout(b);
  }

  /** A step run on the address a step left behind uses the same key and mask addresses again. */
  lemma MaskAdrsStable(a: seq<byte>)
    requires |a| == ADRS_BYTES
    ensures MaskAdrs(a)[..HASH_OFFSET] == a[..HASH_OFFSET]
    ensures KeyAdrs(MaskAdrs(a)) == KeyAdrs(a) && MaskAdrs(MaskAdrs(a)) == MaskAdrs(a)
  {
    KeyMaskLayout(a);
    KeyMaskDependOnPrefix(MaskAdrs(a), a);
  }

  /** A step's value depends only on bytes [0, 24) of the address it starts from. */
  lemma ChainStepDependsOnPrefix(h: CoreHash, n: nat, pubSeed: seq<byte>, a: seq<byte>, b: seq<byte>, input: seq<byte>)
    requires ValidN(n) && HashWidth(h, n)
    requires |pubSeed| == n && |a| == ADRS_BYTES && |b| == ADRS_BYTES && |input| == n
    requires a[..HASH_OFFSET] == b[..HASH_OFFSET]
    ensures ChainStep(h, n, pubSeed, a, input) == ChainStep(h, n, pubSeed, b, input)
  {
    KeyMaskDependOnPrefix(a, b);
  }

  /**
   * Rust `chain`: for i in [start, start+steps) with i < W, derive key and
   * bitmask with PRF under the address (hash 0, keymask 0 then 1) and store
   * F(key, input XOR bitmask) in output[off..off+N). When some step runs,
   * the output is that value whatever the step count, and the address ends
   * with hash 0 and keymask 1; when none runs, neither changes.
   */
  method Chain(h: CoreHash, n: nat, output: array<byte>, off: nat, input: seq<byte>,
               start: nat, steps: nat, pubSeed: seq<byte>, address: Adrs)
    requires ValidN(n) && HashWidth(h, n)
    requires off + n <= output.Length && |input| == n && |pubSeed| == n
    requires address.Valid() && output != address.bytes
    modifies output, address.bytes
    ensures Runs(start, steps) ==>
              output[off..off + n] == ChainStep(h, n, pubSeed, old(address.bytes[..]), input) &&
              address.bytes[..] == MaskAdrs(old(address.bytes[..]))
    ensures !Runs(start, steps) ==>
              output[..] == old(output[..]) && address.bytes[..] == old(address.bytes[..])
    ensures forall k :: 0 <= k < output.Length && !(off <= k < off + n) ==> output[k] == old(output[k])
  {
    ghost var a0 := address.bytes[..];
    MaskAdrsStable(a0);
    for i := start to start + steps
      invariant Runs(start, i - start) ==>
                  output[off..off + n] == ChainStep(h, n, pubSeed, a0, input) &&
                  address.bytes[..] == MaskAdrs(a0)
      invariant !Runs(start, i - start) ==>
                  output[..] == old(output[..]) && address.bytes[..] == a0
      invariant forall k :: 0 <= k < output.Length && !(off <= k < off + n) ==> output[k] == old(output[k])
    {
      if i < W {
        ghost var before := address.bytes[..];
        assert KeyAdrs(before) == KeyAdrs(a0) && MaskAdrs(before) == MaskAdrs(a0);
        address.SetHash(0);
        address.SetKeymask(0);
        var key := Prf(h, n, pubSeed, address.bytes[..]);
        address.SetKeymask(1);
        var bitmask := Prf(h, n, pubSeed, address.bytes[..]);
        ghost var mask := bitmask;
        for j := 0 to n
          invariant |bitmask| == n
          invariant forall k :: 0 <= k < j ==> bitmask[k] == Xor(input[k], mask[k])
          invariant forall k :: j <= k < n ==> bitmask[k] == mask[k]
        {
          bitmask := bitmask[j := Xor(input[j], bitmask[j])];
        }
        assert bitmask == XorBytes(input, mask);
        var f := HashF(h, n, key, bitmask);
        forall k | 0 <= k < n {
          output[off + k] := f[k];
        }
        assert output[off..off + n] == f;
      }
    }
  }

  /**
   * Walking a steps and then b more from the result, as two successive calls
   * on one working address do, applies the step value twice, where one call
   * walking a+b steps applies it once.
   */
  method ChainTwice(h: CoreHash, n: nat, output: array<byte>, off: nat, input: seq<byte>,
                    a: nat, b: nat, pubSeed: seq<byte>, address: Adrs)
    requires ValidN(n) && HashWidth(h, n)
    requires off + n <= output.Length && |input| == n && |pubSeed| == n
    requires address.Valid() && output != address.bytes
    requires Runs(0, a) && Runs(a, b)
    modifies output, address.bytes
    ensures output[off..off + n] ==
              ChainStep(h, n, pubSeed, old(address.bytes[..]), ChainStep(h, n, pubSeed, old(address.bytes[..]), input))
    ensures address.bytes[..] == MaskAdrs(old(address.bytes[..]))
  {
    ghost var a0 := address.bytes[..];
    Chain(h, n, output, off, input, 0, a, pubSeed, address);
    var mid := output[off..off + n];
    Chain(h, n, output, off, mid, a, b, pubSeed, address);
    MaskAdrsStable(a0);
    ChainStepDependsOnPrefix(h, n, pubSeed, MaskAdrs(a0), a0, mid);
  }

  /**
   * A 32-byte core hash that maps every PRF buffer to zero bytes and an F
   * buffer to a marker byte when the masked input starts with 0.
   */
  function MarkerHash(m: seq<byte>): (r: seq<byte>)
    ensures |r| == 32
  {
    if |m| == 96 && m[31] == 0 && m[64] == 0 then [1] + Zeros(31) else Zeros(32)
  }

  /**
   * Chain composition fails: under MarkerHash, one step from the zero
   * value followed by a second step gives a different value from the one
   * step alone, which is all a call walking both step counts writes.
   */
  lemma ChainDoesNotCompose(pubSeed: seq<byte>, a: seq<byte>)
    requires |pubSeed| == 32 && |a| == ADRS_BYTES
    ensures HashWidth(MarkerHash, 32)
    ensures ChainStep(MarkerHash, 32, pubSeed, MaskAdrs(a), ChainStep(MarkerHash, 32, pubSeed, a, Zeros(32)))
            != ChainStep(MarkerHash, 32, pubSeed, a, Zeros(32))
  {
    ToBytePadding(PADDING_PRF, 32);
    ToBytePadding(PADDING_F, 32);
    var once := ChainStep(MarkerHash, 32, pubSeed, a, Zeros(32));
    assert MarkerHash(PrfBuf(32, pubSeed, KeyAdrs(a))) == Zeros(32);
    assert MarkerHash(PrfBuf(32, pubSeed, MaskAdrs(a))) == Zeros(32);
    assert XorBytes(Zeros(32), Zeros(32)) == Zeros(32);
    assert FBuf(32, Zeros(32), Zeros(32))[64] == 0;
    assert once == [1] + Zeros(31);
    var b := MaskAdrs(a);
    assert MarkerHash(PrfBuf(32, pubSeed, KeyAdrs(b))) == Zeros(32);
    assert MarkerHash(PrfBuf(32, pubSeed, MaskAdrs(b))) == Zeros(32);
    var masked := XorBytes(once, Zeros(32));
    assert masked[0] == 1;
    assert FBuf(32, Zeros(32), masked)[64] == 1;
    assert ChainStep(MarkerHash, 32, pubSeed, b, once)[0] == 0;
  }
}
