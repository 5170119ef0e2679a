/**
 * The WOTS+ key and signature operations of lib.rs: public-key generation
 * from a secret key, signing, and public-key reconstruction from a
 * signature. Each walks the LEN chains in order with one working copy of
 * the key pair's address, so what a chain call leaves in the hash and
 * keymask fields is seen by the secret-value derivation of the next
 * position.
 */
module Wots {
  import opened Bytes
  import opened Params
  import opened Hash
  import opened Address
  import opened Encoding
  import opened Chaining

  /** Rust `SecKey`: the secret seed and the key pair's address. */
  datatype SecKey = SecKey(seed: seq<byte>, address: seq<byte>)

  /** Rust `Signature`: LEN chain values of N bytes, the public seed and the key pair's address. */
  datatype Signature = Signature(inner: seq<byte>, pubSeed: seq<byte>, address: seq<byte>)

  /** Rust `PubKey`: LEN chain values of N bytes, the public seed and the key pair's address. */
  datatype PubKey = PubKey(inner: seq<byte>, pubSeed: seq<byte>, address: seq<byte>)

  /** The fixed widths the Rust array types give a secret key. */
  predicate SecKeyWidths(n: nat, sk: SecKey)
  {
    |sk.seed| == n && |sk.address| == ADRS_BYTES
  }

  /**
   * Byte offset of chain value i in a buffer of N-byte chain values: i N,
   * written as a sum so that the buffer proofs stay linear.
   */
  function Offset(i: nat, n: nat): nat
  {
    if i == 0 then 0 else Offset(i - 1, n) + n
  }

  /** Offset(i, n) is the source's product i * N. */
  lemma {:induction false} OffsetIsProduct(i: nat, n: nat)
    ensures Offset(i, n) == i * n
  {
    if i > 0 {
      OffsetIsProduct(i - 1, n);
      assert (i - 1) * n + n == i * n;
    }
  }

  /** Chain value j ends at or before the offset of any later chain value. */
  lemma {:induction false} OffsetOrder(j: nat, i: nat, n: nat)
    requires j < i
    ensures Offset(j, n) + n <= Offset(i, n)
  {
    if j + 1 < i {
      OffsetOrder(j, i - 1, n);
    }
  }

  /** The fixed widths the Rust array types give a signature: LEN N-byte chain values, an N-byte seed, an address. */
  predicate SignatureWidths(n: nat, sig: Signature)
    requires ValidN(n)
  {
    |sig.inner| == Offset(Len(n), n) && |sig.pubSeed| == n && |sig.address| == ADRS_BYTES
  }

  /** Chain value i of a buffer of `count` N-byte values: bytes [i N, i N + N). */
  function Chunk(s: seq<byte>, n: nat, count: nat, i: nat): (r: seq<byte>)
    requires |s| == Offset(count, n) && i < count
    ensures |r| == n
  {
    OffsetOrder(i, count, n);
    s[Offset(i, n)..Offset(i, n) + n]
  }

  /**
   * The buffer holds the expected chain values below i, and its bytes from
   * i N on are still zero, as a freshly declared buffer.
   */
  ghost predicate Filled(inner: seq<byte>, n: nat, count: nat, i: nat, expected: seq<seq<byte>>)
    requires |inner| == Offset(count, n) && i <= count && |expected| == count
  {
    && (forall j :: 0 <= j < i ==> Chunk(inner, n, count, j) == expected[j])
    && (forall k :: Offset(i, n) <= k < |inner| ==> inner[k] == 0)
  }

  /**
   * Writing chain value i, and nothing outside it, into a buffer filled up to
   * i extends it to i+1; so does writing nothing when value i is expected to
   * be zero.
   */
  lemma FilledStep(before: seq<byte>, after: seq<byte>, n: nat, count: nat, i: nat, expected: seq<seq<byte>>)
    requires |before| == Offset(count, n) && |after| == Offset(count, n) && i < count && |expected| == count
    requires Filled(before, n, count, i, expected)
    requires forall k :: 0 <= k < |after| && !(Offset(i, n) <= k < Offset(i, n) + n) ==> after[k] == before[k]
    requires Chunk(after, n, count, i) == expected[i] || (after == before && expected[i] == Zeros(n))
    ensures Filled(after, n, count, i + 1, expected)
  {
    OffsetOrder(i, count, n);
    forall j | 0 <= j < i
      ensures Chunk(after, n, count, j) == expected[j]
    {
      OffsetOrder(j, i, n);
      OffsetOrder(j, count, n);
      assert forall k :: 0 <= k < n ==> Chunk(after, n, count, j)[k] == after[Offset(j, n) + k];
    }
    if after == before {
      assert Chunk(before, n, count, i) == Zeros(n);
    }
  }

  /** The address with its chain field set to i. */
  function ChainAdrs(a: seq<byte>, i: nat): (r: seq<byte>)
    requires |a| == ADRS_BYTES && i < U32_LIMIT
    ensures |r| == ADRS_BYTES
  {
    SetField(a, CHAIN_OFFSET, Enc32(i))
  }

  /**
   * The address secret value i is derived under: chain field i; hash and
   * keymask fields as a previous chain call left them (0 and 1) when one has
   * run a step, the key pair's own bytes otherwise.
   */
  function SecretAdrs(a: seq<byte>, i: nat, carried: bool): (r: seq<byte>)
    requires |a| == ADRS_BYTES && i < U32_LIMIT
    ensures |r| == ADRS_BYTES
  {
    if carried then MaskAdrs(ChainAdrs(a, i)) else ChainAdrs(a, i)
  }

  /** Secret value i: PRF(seed, address). */
  function SecretValue(h: CoreHash, n: nat, sk: SecKey, i: nat, carried: bool): (r: seq<byte>)
    requires ValidN(n) && HashWidth(h, n) && SecKeyWidths(n, sk) && i < U32_LIMIT
    ensures |r| == n
  {
    h(PrfBuf(n, sk.seed, SecretAdrs(sk.address, i, carried)))
  }

  /** Some chain before position i runs a step when signing with these digits. */
  predicate StepTaken(digits: seq<byte>, i: nat)
    requires i <= |digits|
  {
    exists k :: 0 <= k < i && digits[k] > 0
  }

  /** Chain value i of a signature: zero for digit 0, otherwise one chain step from secret value i. */
  function SignChunk(h: CoreHash, n: nat, sk: SecKey, pubSeed: seq<byte>, digits: seq<byte>, i: nat): (r: seq<byte>)
    requires ValidN(n) && HashWidth(h, n) && SecKeyWidths(n, sk) && |pubSeed| == n
    requires i < |digits| <= Len(n)
    ensures |r| == n
  {
    if digits[i] == 0 then Zeros(n)
    else ChainStep(h, n, pubSeed, ChainAdrs(sk.address, i), SecretValue(h, n, sk, i, StepTaken(digits, i)))
  }

  /** Chain value i of a generated public key: one chain step from secret value i. */
  function PubKeyChunk(h: CoreHash, n: nat, sk: SecKey, pubSeed: seq<byte>, i: nat): (r: seq<byte>)
    requires ValidN(n) && HashWidth(h, n) && SecKeyWidths(n, sk) && |pubSeed| == n
    requires i < Len(n)
    ensures |r| == n
  {
    ChainStep(h, n, pubSeed, ChainAdrs(sk.address, i), SecretValue(h, n, sk, i, i > 0))
  }

  /**
   * Chain value i of a public key reconstructed from a signature: one chain
   * step from the signature's value i under the signature's own address
   * (whose chain field is never set) when digit i is below W-1, zero when it
   * is W-1.
   */
  function VerifyChunk(h: CoreHash, n: nat, sig: Signature, digits: seq<byte>, i: nat): (r: seq<byte>)
    requires ValidN(n) && HashWidth(h, n) && SignatureWidths(n, sig)
    requires i < |digits| == Len(n)
    ensures |r| == n
  {
    if digits[i] < W - 1 then ChainStep(h, n, sig.pubSeed, sig.address, Chunk(sig.inner, n, Len(n), i))
    else Zeros(n)
  }

  /** Setting the chain field of a secret-value address to the next position. */
  lemma Rechain(a: seq<byte>, i: nat, carried: bool)
    requires |a| == ADRS_BYTES && i + 1 < U32_LIMIT
    ensures SetField(SecretAdrs(a, i, carried), CHAIN_OFFSET, Enc32(i + 1)) == SecretAdrs(a, i + 1, carried)
  {
    var c := ChainAdrs(a, i);
    SetFieldOverwrite(a, CHAIN_OFFSET, Enc32(i), Enc32(i + 1));
    if carried {
      var e := Enc32(i + 1);
      var k1 := SetField(c, HASH_OFFSET, Enc32(0));
      var k2 := SetField(k1, KEYMASK_OFFSET, Enc32(0));
      SetFieldCommute(k2, KEYMASK_OFFSET, Enc32(1), CHAIN_OFFSET, e);
      SetFieldCommute(k1, KEYMASK_OFFSET, Enc32(0), CHAIN_OFFSET, e);
      SetFieldCommute(c, HASH_OFFSET, Enc32(0), CHAIN_OFFSET, e);
    }
  }

  /** A secret-value address agrees with the chain address on bytes [0, 24), and a chain step leaves the carried form. */
  lemma SecretAdrsPrefix(a: seq<byte>, i: nat, carried: bool)
    requires |a| == ADRS_BYTES && i < U32_LIMIT
    ensures SecretAdrs(a, i, carried)[..HASH_OFFSET] == ChainAdrs(a, i)[..HASH_OFFSET]
    ensures MaskAdrs(SecretAdrs(a, i, carried)) == SecretAdrs(a, i, true)
  {
    MaskAdrsStable(ChainAdrs(a, i));
  }

  /** Secret values of different positions are derived under different addresses. */
  lemma SecretAdrsSeparate(a: seq<byte>, i: nat, ci: bool, j: nat, cj: bool)
    requires |a| == ADRS_BYTES && i < U32_LIMIT && j < U32_LIMIT && i != j
    ensures SecretAdrs(a, i, ci) != SecretAdrs(a, j, cj)
  {
    SecretAdrsPrefix(a, i, ci);
    SecretAdrsPrefix(a, j, cj);
    var si, sj := SecretAdrs(a, i, ci), SecretAdrs(a, j, cj);
    assert si[CHAIN_OFFSET..CHAIN_OFFSET + 4] == ChainAdrs(a, i)[CHAIN_OFFSET..CHAIN_OFFSET + 4] == Enc32(i);
    assert sj[CHAIN_OFFSET..CHAIN_OFFSET + 4] == ChainAdrs(a, j)[CHAIN_OFFSET..CHAIN_OFFSET + 4] == Enc32(j);
    SetFieldSame(si, CHAIN_OFFSET);
    SetFieldSame(sj, CHAIN_OFFSET);
    ChainFieldSeparates(si, sj, i, j);
  }

  /**
   * Because a chain call's result does not depend on its step count, chain
   * value i of a signature equals chain value i of the public key whenever
   * digit i is positive and the secret value was derived under the same
   * address: at position 0, or once an earlier chain has run a step.
   */
  lemma SignRevealsPubKeyChunk(h: CoreHash, n: nat, sk: SecKey, pubSeed: seq<byte>, digits: seq<byte>, i: nat)
    requires ValidN(n) && HashWidth(h, n) && SecKeyWidths(n, sk) && |pubSeed| == n
    requires |digits| == Len(n) && i < Len(n)
    requires digits[i] > 0 && (i == 0 || StepTaken(digits, i))
    ensures SignChunk(h, n, sk, pubSeed, digits, i) == PubKeyChunk(h, n, sk, pubSeed, i)
  {
  }

  /**
   * The working address at the top of iteration i of sign and from_seckey:
   * the key pair's address before the first iteration, then the address
   * secret value i-1 was derived under, as the chain call left it.
   */
  function AdrsBefore(a: seq<byte>, i: nat, carried: bool): (r: seq<byte>)
    requires |a| == ADRS_BYTES && i <= U32_LIMIT
    ensures |r| == ADRS_BYTES
  {
    if i == 0 then a else SecretAdrs(a, i - 1, carried)
  }

  /** set_chain(i) on the address left by iteration i-1 gives the address secret value i is derived under. */
  lemma NextSecretAdrs(a0: seq<byte>, i: nat, carried: bool, prev: seq<byte>, a: seq<byte>)
    requires |a0| == ADRS_BYTES && i < U32_LIMIT && (i == 0 ==> !carried)
    requires prev == AdrsBefore(a0, i, carried)
    requires a == SetField(prev, CHAIN_OFFSET, Enc32(i))
    ensures a == SecretAdrs(a0, i, carried)
  {
    if i > 0 {
      Rechain(a0, i - 1, carried);
    }
  }

  /** The value a chain call writes from secret value i, under that value's address, is chain value i of the signature. */
  lemma SignChunkValue(h: CoreHash, n: nat, sk: SecKey, pubSeed: seq<byte>, digits: seq<byte>, i: nat,
                       a: seq<byte>, secret: seq<byte>)
    requires ValidN(n) && HashWidth(h, n) && SecKeyWidths(n, sk) && |pubSeed| == n
    requires |digits| == Len(n) && i < Len(n) && digits[i] > 0
    requires a == SecretAdrs(sk.address, i, StepTaken(digits, i))
    requires secret == h(PrfBuf(n, sk.seed, a))
    ensures ChainStep(h, n, pubSeed, a, secret) == SignChunk(h, n, sk, pubSeed, digits, i)
  {
    SecretAdrsPrefix(sk.address, i, StepTaken(digits, i));
    ChainStepDependsOnPrefix(h, n, pubSeed, a, ChainAdrs(sk.address, i), secret);
  }

  /** The value a chain call writes from secret value i, under that value's address, is chain value i of the public key. */
  lemma PubKeyChunkValue(h: CoreHash, n: nat, sk: SecKey, pubSeed: seq<byte>, i: nat,
                         a: seq<byte>, secret: seq<byte>)
    requires ValidN(n) && HashWidth(h, n) && SecKeyWidths(n, sk) && |pubSeed| == n
    requires i < Len(n)
    requires a == SecretAdrs(sk.address, i, i > 0)
    requires secret == h(PrfBuf(n, sk.seed, a))
    ensures ChainStep(h, n, pubSeed, a, secret) == PubKeyChunk(h, n, sk, pubSeed, i)
  {
    SecretAdrsPrefix(sk.address, i, i > 0);
    ChainStepDependsOnPrefix(h, n, pubSeed, a, ChainAdrs(sk.address, i), secret);
  }

  /** All LEN chain values of a signature. */
  function SignChunks(h: CoreHash, n: nat, sk: SecKey, pubSeed: seq<byte>, digits: seq<byte>): (r: seq<seq<byte>>)
    requires ValidN(n) && HashWidth(h, n) && SecKeyWidths(n, sk) && |pubSeed| == n
    requires |digits| == Len(n)
    ensures |r| == Len(n)
  {
    seq(Len(n), j requires 0 <= j < Len(n) => SignChunk(h, n, sk, pubSeed, digits, j))
  }

  /** All LEN chain values of a generated public key. */
  function PubKeyChunks(h: CoreHash, n: nat, sk: SecKey, pubSeed: seq<byte>): (r: seq<seq<byte>>)
    requires ValidN(n) && HashWidth(h, n) && SecKeyWidths(n, sk) && |pubSeed| == n
    ensures |r| == Len(n)
  {
    seq(Len(n), j requires 0 <= j < Len(n) => PubKeyChunk(h, n, sk, pubSeed, j))
  }

  /** All LEN chain values of a public key reconstructed from a signature. */
  function VerifyChunks(h: CoreHash, n: nat, sig: Signature, digits: seq<byte>): (r: seq<seq<byte>>)
    requires ValidN(n) && HashWidth(h, n) && SignatureWidths(n, sig)
    requires |digits| == Len(n)
    ensures |r| == Len(n)
  {
    seq(Len(n), j requires 0 <= j < Len(n) => VerifyChunk(h, n, sig, digits, j))
  }

  /**
   * The working address through iteration i of sign: set_chain(i) gives the
   * address of secret value i, and the chain call leaves the address the
   * next iteration starts from.
   */
  lemma SignAdrsStep(n: nat, a0: seq<byte>, digits: seq<byte>, i: nat, prev: seq<byte>, a: seq<byte>, aAfter: seq<byte>)
    requires ValidN(n) && |a0| == ADRS_BYTES && |digits| == Len(n) && i < Len(n)
    requires prev == AdrsBefore(a0, i, StepTaken(digits, i))
    requires a == SetField(prev, CHAIN_OFFSET, Enc32(i))
    requires digits[i] > 0 ==> aAfter == MaskAdrs(a)
    requires digits[i] == 0 ==> aAfter == a
    ensures a == SecretAdrs(a0, i, StepTaken(digits, i))
    ensures aAfter == AdrsBefore(a0, i + 1, StepTaken(digits, i + 1))
  {
    var carried := StepTaken(digits, i);
    NextSecretAdrs(a0, i, carried, prev, a);
    if digits[i] > 0 {
      SecretAdrsPrefix(a0, i, carried);
      assert StepTaken(digits, i + 1);
    } else {
      assert StepTaken(digits, i + 1) == carried;
    }
  }

  /**
   * The loop invariant of sign after i iterations: the working address is
   * AdrsBefore(i), chain values below i are the signature's and the bytes
   * from i N on are still zero.
   */
  ghost predicate SignLoopInv(h: CoreHash, n: nat, sk: SecKey, pubSeed: seq<byte>, digits: seq<byte>, i: nat,
                              inner: seq<byte>, adrs: seq<byte>)
    requires ValidN(n) && HashWidth(h, n) && SecKeyWidths(n, sk) && |pubSeed| == n
    requires |digits| == Len(n) && i <= Len(n)
  {
    && |inner| == Offset(Len(n), n)
    && adrs == AdrsBefore(sk.address, i, StepTaken(digits, i))
    && Filled(inner, n, Len(n), i, SignChunks(h, n, sk, pubSeed, digits))
  }

  /** One iteration of sign, given what set_chain, prf and chain did, keeps the loop invariant. */
  lemma SignLoopStep(h: CoreHash, n: nat, sk: SecKey, pubSeed: seq<byte>, digits: seq<byte>, i: nat,
                     prev: seq<byte>, a: seq<byte>, secret: seq<byte>,
                     before: seq<byte>, after: seq<byte>, aAfter: seq<byte>)
    requires ValidN(n) && HashWidth(h, n) && SecKeyWidths(n, sk) && |pubSeed| == n
    requires |digits| == Len(n) && i < Len(n)
    requires SignLoopInv(h, n, sk, pubSeed, digits, i, before, prev)
    requires a == SetField(prev, CHAIN_OFFSET, Enc32(i))
    requires secret == h(PrfBuf(n, sk.seed, a))
    requires |after| == |before|
    requires forall k :: 0 <= k < |after| && !(Offset(i, n) <= k < Offset(i, n) + n) ==> after[k] == before[k]
    requires Runs(0, digits[i]) ==>
               Chunk(after, n, Len(n), i) == ChainStep(h, n, pubSeed, a, secret) && aAfter == MaskAdrs(a)
    requires !Runs(0, digits[i]) ==> after == before && aAfter == a
    ensures SignLoopInv(h, n, sk, pubSeed, digits, i + 1, after, aAfter)
  {
    SignAdrsStep(n, sk.address, digits, i, prev, a, aAfter);
    if digits[i] > 0 {
      SignChunkValue(h, n, sk, pubSeed, digits, i, a, secret);
    }
    FilledStep(before, after, n, Len(n), i, SignChunks(h, n, sk, pubSeed, digits));
  }

  /** Iteration i of sign: set_chain(i), derive secret value i, walk digit i steps of chain i. */
  method SignPosition(h: CoreHash, n: nat, sk: SecKey, pubSeed: seq<byte>, digits: seq<byte>, i: nat,
                      inner: array<byte>, address: Adrs)
    requires ValidN(n) && HashWidth(h, n) && SecKeyWidths(n, sk) && |pubSeed| == n
    requires |digits| == Len(n) && i < Len(n)
    requires address.Valid() && inner != address.bytes
    requires SignLoopInv(h, n, sk, pubSeed, digits, i, inner[..], address.bytes[..])
    modifies inner, address.bytes
    ensures SignLoopInv(h, n, sk, pubSeed, digits, i + 1, inner[..], address.bytes[..])
  {
    ghost var prev := address.bytes[..];
    address.SetChain(i);
    var secret := Prf(h, n, sk.seed, address.bytes[..]);
    ghost var before, a := inner[..], address.bytes[..];
    OffsetOrder(i, Len(n), n);
    Chain(h, n, inner, Offset(i, n), secret, 0, digits[i], pubSeed, address);
    SignLoopStep(h, n, sk, pubSeed, digits, i, prev, a, secret, before, inner[..], address.bytes[..]);
  }

  /** Rust `SecKey::sign`: chain i of the signature walks digit i steps from secret value i. */
  method Sign(h: CoreHash, n: nat, sk: SecKey, pubSeed: seq<byte>, msg: seq<byte>) returns (sig: Signature)
    requires ValidN(n) && HashWidth(h, n) && SecKeyWidths(n, sk)
    requires |pubSeed| == n && |msg| == n
    ensures sig.pubSeed == pubSeed && sig.address == sk.address
    ensures |sig.inner| == Offset(Len(n), n)
    ensures forall i :: 0 <= i < Len(n) ==>
              Chunk(sig.inner, n, Len(n), i) == SignChunk(h, n, sk, pubSeed, MessageDigits(n, msg), i)
  {
    var lengths := Concatenation(n, msg);
    var address := new Adrs.Copy(sk.address);
    var inner := new byte[Offset(Len(n), n)](_ => 0);
    for i := 0 to Len(n)
      invariant address.Valid() && inner != address.bytes
      invariant SignLoopInv(h, n, sk, pubSeed, lengths, i, inner[..], address.bytes[..])
    {
      SignPosition(h, n, sk, pubSeed, lengths, i, inner, address);
    }
    sig := Signature(inner[..], pubSeed, sk.address);
  }

  /** The loop invariant of from_seckey after i iterations. */
  ghost predicate PubKeyLoopInv(h: CoreHash, n: nat, sk: SecKey, pubSeed: seq<byte>, i: nat,
                                inner: seq<byte>, adrs: seq<byte>)
    requires ValidN(n) && HashWidth(h, n) && SecKeyWidths(n, sk) && |pubSeed| == n
    requires i <= Len(n)
  {
    && |inner| == Offset(Len(n), n)
    && adrs == AdrsBefore(sk.address, i, true)
    && Filled(inner, n, Len(n), i, PubKeyChunks(h, n, sk, pubSeed))
  }

  /** One iteration of from_seckey, given what set_chain, prf and chain did, keeps the loop invariant. */
  lemma PubKeyLoopStep(h: CoreHash, n: nat, sk: SecKey, pubSeed: seq<byte>, i: nat,
                       prev: seq<byte>, a: seq<byte>, secret: seq<byte>,
                       before: seq<byte>, after: seq<byte>, aAfter: seq<byte>)
    requires ValidN(n) && HashWidth(h, n) && SecKeyWidths(n, sk) && |pubSeed| == n
    requires i < Len(n)
    requires PubKeyLoopInv(h, n, sk, pubSeed, i, before, prev)
    requires a == SetField(prev, CHAIN_OFFSET, Enc32(i))
    requires secret == h(PrfBuf(n, sk.seed, a))
    requires |after| == |before|
    requires forall k :: 0 <= k < |after| && !(Offset(i, n) <= k < Offset(i, n) + n) ==> after[k] == before[k]
    requires Chunk(after, n, Len(n), i) == ChainStep(h, n, pubSeed, a, secret) && aAfter == MaskAdrs(a)
    ensures PubKeyLoopInv(h, n, sk, pubSeed, i + 1, after, aAfter)
  {
    assert AdrsBefore(sk.address, i, true) == AdrsBefore(sk.address, i, i > 0);
    NextSecretAdrs(sk.address, i, i > 0, prev, a);
    SecretAdrsPrefix(sk.address, i, i > 0);
    PubKeyChunkValue(h, n, sk, pubSeed, i, a, secret);
    FilledStep(before, after, n, Len(n), i, PubKeyChunks(h, n, sk, pubSeed));
  }

  /** Iteration i of from_seckey: set_chain(i), derive secret value i, walk W-1 steps of chain i. */
  method PubKeyPosition(h: CoreHash, n: nat, sk: SecKey, pubSeed: seq<byte>, i: nat,
                        inner: array<byte>, address: Adrs)
    requires ValidN(n) && HashWidth(h, n) && SecKeyWidths(n, sk) && |pubSeed| == n
    requires i < Len(n)
    requires address.Valid() && inner != address.bytes
    requires PubKeyLoopInv(h, n, sk, pubSeed, i, inner[..], address.bytes[..])
    modifies inner, address.bytes
    ensures PubKeyLoopInv(h, n, sk, pubSeed, i + 1, inner[..], address.bytes[..])
  {
    ghost var prev := address.bytes[..];
    address.SetChain(i);
    var secret := Prf(h, n, sk.seed, address.bytes[..]);
    ghost var before, a := inner[..], address.bytes[..];
    OffsetOrder(i, Len(n), n);
    Chain(h, n, inner, Offset(i, n), secret, 0, W - 1, pubSeed, address);
    PubKeyLoopStep(h, n, sk, pubSeed, i, prev, a, secret, before, inner[..], address.bytes[..]);
  }

  /** Rust `PubKey::from_seckey`: chain i of the public key walks W-1 steps from secret value i. */
  method FromSecKey(h: CoreHash, n: nat, sk: SecKey, pubSeed: seq<byte>) returns (pk: PubKey)
    requires ValidN(n) && HashWidth(h, n) && SecKeyWidths(n, sk)
    requires |pubSeed| == n
    ensures pk.pubSeed == pubSeed && pk.address == sk.address
    ensures |pk.inner| == Offset(Len(n), n)
    ensures forall i :: 0 <= i < Len(n) ==>
              Chunk(pk.inner, n, Len(n), i) == PubKeyChunk(h, n, sk, pubSeed, i)
  {
    var address := new Adrs.Copy(sk.address);
    var inner := new byte[Offset(Len(n), n)](_ => 0);
    for i := 0 to Len(n)
      invariant address.Valid() && inner != address.bytes
      invariant PubKeyLoopInv(h, n, sk, pubSeed, i, inner[..], address.bytes[..])
    {
      PubKeyPosition(h, n, sk, pubSeed, i, inner, address);
    }
    pk := PubKey(inner[..], pubSeed, sk.address);
  }

  /**
   * The loop invariant of from_signature after i iterations: the working
   * address still agrees with the signature's on bytes [0, 24).
   */
  ghost predicate VerifyLoopInv(h: CoreHash, n: nat, sig: Signature, digits: seq<byte>, i: nat,
                                inner: seq<byte>, adrs: seq<byte>)
    requires ValidN(n) && HashWidth(h, n) && SignatureWidths(n, sig)
    requires |digits| == Len(n) && i <= Len(n)
  {
    && |inner| == Offset(Len(n), n)
    && |adrs| == ADRS_BYTES && adrs[..HASH_OFFSET] == sig.address[..HASH_OFFSET]
    && Filled(inner, n, Len(n), i, VerifyChunks(h, n, sig, digits))
  }

  /** One iteration of from_signature, given what chain did, keeps the loop invariant. */
  lemma VerifyLoopStep(h: CoreHash, n: nat, sig: Signature, digits: seq<byte>, i: nat,
                       before: seq<byte>, after: seq<byte>, a: seq<byte>, aAfter: seq<byte>)
    requires ValidN(n) && HashWidth(h, n) && SignatureWidths(n, sig)
    requires |digits| == Len(n) && i < Len(n) && digits[i] < W
    requires VerifyLoopInv(h, n, sig, digits, i, before, a)
    requires |after| == |before|
    requires forall k :: 0 <= k < |after| && !(Offset(i, n) <= k < Offset(i, n) + n) ==> after[k] == before[k]
    requires Runs(digits[i], W - 1 - digits[i]) ==>
               Chunk(after, n, Len(n), i) == ChainStep(h, n, sig.pubSeed, a, Chunk(sig.inner, n, Len(n), i)) &&
               aAfter == MaskAdrs(a)
    requires !Runs(digits[i], W - 1 - digits[i]) ==> after == before && aAfter == a
    ensures VerifyLoopInv(h, n, sig, digits, i + 1, after, aAfter)
  {
    MaskAdrsStable(a);
    ChainStepDependsOnPrefix(h, n, sig.pubSeed, a, sig.address, Chunk(sig.inner, n, Len(n), i));
    FilledStep(before, after, n, Len(n), i, VerifyChunks(h, n, sig, digits));
  }

  /** Iteration i of from_signature: walk W-1-digit i steps of chain i from the signature's value i. */
  method VerifyPosition(h: CoreHash, n: nat, sig: Signature, digits: seq<byte>, i: nat,
                        inner: array<byte>, address: Adrs)
    requires ValidN(n) && HashWidth(h, n) && SignatureWidths(n, sig)
    requires |digits| == Len(n) && i < Len(n) && digits[i] < W
    requires address.Valid() && inner != address.bytes
    requires VerifyLoopInv(h, n, sig, digits, i, inner[..], address.bytes[..])
    modifies inner, address.bytes
    ensures VerifyLoopInv(h, n, sig, digits, i + 1, inner[..], address.bytes[..])
  {
    var input := Chunk(sig.inner, n, Len(n), i);
    ghost var before, a := inner[..], address.bytes[..];
    OffsetOrder(i, Len(n), n);
    Chain(h, n, inner, Offset(i, n), input, digits[i], W - 1 - digits[i], sig.pubSeed, address);
    VerifyLoopStep(h, n, sig, digits, i, before, inner[..], a, address.bytes[..]);
  }

  /**
   * Rust `PubKey::from_signature`: chain i walks W-1-digit i more steps from
   * the signature's value i. The chain field of the working address is
   * never set, so every position uses the signature's address.
   */
  method FromSignature(h: CoreHash, n: nat, sig: Signature, msg: seq<byte>) returns (pk: PubKey)
    requires ValidN(n) && HashWidth(h, n) && SignatureWidths(n, sig)
    requires |msg| == n
    ensures pk.pubSeed == sig.pubSeed && pk.address == sig.address
    ensures |pk.inner| == Offset(Len(n), n)
    ensures forall i :: 0 <= i < Len(n) ==>
              Chunk(pk.inner, n, Len(n), i) == VerifyChunk(h, n, sig, MessageDigits(n, msg), i)
  {
    var lengths := Concatenation(n, msg);
    var address := new Adrs.Copy(sig.address);
    var inner := new byte[Offset(Len(n), n)](_ => 0);
    for i := 0 to Len(n)
      invariant address.Valid() && inner != address.bytes
      invariant VerifyLoopInv(h, n, sig, lengths, i, inner[..], address.bytes[..])
    {
      VerifyPosition(h, n, sig, lengths, i, inner, address);
    }
    pk := PubKey(inner[..], sig.pubSeed, sig.address);
  }
}
