# WOTS+ one-time signatures, modelled in Dafny

This project models the Rust crate's implementation of WOTS+, the Winternitz
one-time signature of RFC 8391, section 3.1:

- the parameter sets (`params.rs`);
- the big-endian integer-to-bytes conversion `byte_array` and the keyed
  hashes `prf` and `hash_f` (`hash.rs`);
- the 32-byte address `Adrs` with its three field setters, the base-W digit
  encoder `base_w` / `concatenation`, the chaining function `chain`, and the
  three key operations `SecKey::sign`, `PubKey::from_seckey` and
  `PubKey::from_signature` (`lib.rs`).

The core hash (SHA-256 or SHA-512) is not modelled. Every operation that
hashes takes it as a parameter `h: seq<byte> -> seq<byte>` whose digests are
N bytes long (`Hash.HashWidth`). Since `h` is a function, PRF and F are
deterministic in their key and input.

The model is parametric in the hash width N, which is 32 or 64 bytes
(`Params.ValidN`). `lib.rs` fixes its own copy of the N = 32 constants
(`lib.rs:10-19`); the model uses `params.rs` for both widths. With N = 32 it
is exactly the crate's configuration.

Modules, one per file:

| file | module | models |
|---|---|---|
| `bytes.dfy` | `Bytes` | bytes, powers, base-b big-endian expansion and its round trip |
| `params.dfy` | `Params` | N, W, LOG_W, L1, L2, LEN and the formulas behind them |
| `hash.dfy` | `Hash` | `byte_array`, the PRF and F buffers, `prf`, `hash_f` |
| `address.dfy` | `Address` | the address bytes and the `Adrs` class with its setters |
| `encoding.dfy` | `Encoding` | `base_w`, the checksum, `concatenation` |
| `chain.dfy` | `Chaining` | `chain` |
| `wots.dfy` | `Wots` | secret keys, signatures, public keys and the three key operations |

The imperative code is modelled imperatively:
- `Adrs` is a class over a 32-byte array, and its setters modify it in place.
- `base_w`, `byte_array`, `prf`, `hash_f`, `chain`, `concatenation`,
  `sign`, `from_seckey` and `from_signature` are methods that work on
  arrays.
- Each method is proved against a functional specification:
  - `Nibbles` and `MessageDigits` for the encoder;
  - `ToByte` for `byte_array`;
  - `PrfBuf` and `FBuf` for the hashes;
  - `ChainStep` for `chain`;
  - `SignChunk`, `PubKeyChunk` and `VerifyChunk` for the key operations.

The key operations' loop bodies are separate methods
(`SignPosition`, `PubKeyPosition`, `VerifyPosition`), each proved to keep its
loop invariant.

### Where the code differs from RFC 8391

The model follows the code, and the contracts state what the code does.

- **`chain` sets the hash field to 0, not to the step index** (`lib.rs:192`).
  The RFC uses the step index.
- **`chain` masks the original input on every step** (`lib.rs:197-199`).
  The RFC masks the running value.
- **`chain` never sets the output to the input.** A call that runs no step
  leaves the output as it was. A call that runs at least one step writes
  F(key, input XOR mask), whatever the step count. `Chaining.Chain` states
  both cases.
- **`from_signature` never calls `set_chain`** (`lib.rs:163-172`). Every
  position is completed under the signature's own address.
- **The working address is shared across positions.**
  - `sign` and `from_seckey` call `set_chain(i)`, but the hash and keymask
    fields keep what the previous `chain` call left (0 and 1).
  - So secret value i (i > 0) of `from_seckey` is derived under the address
    with hash 0 and keymask 1. In `sign` the same happens only once some
    earlier digit was positive (`Wots.SecretAdrs`, `Wots.StepTaken`).
- **`hash_f` copies only 32 bytes of its input** (`hash.rs:48-50`). For
  N = 64 the last 32 bytes of F's buffer are zero whatever the input
  (`Hash.FBufLayout`).
- **The setters copy 4 bytes from the memory address `c as *mut u8`**
  (`lib.rs:43`, `50`, `57`), which is undefined behaviour. The model writes
  the big-endian encoding `Enc32(c)`, the RFC's `toByte(c, 4)`.

Because of the first four differences, the RFC's round trip fails for this
code. That round trip says that the public key reconstructed from a
signature equals the generated public key, and it is not stated here. What
does hold is `Wots.SignRevealsPubKeyChunk`: since a chain call's output does
not depend on its step count, a signature value at a positive digit already
equals the matching public-key value, whenever its secret value was derived
under the same address.

## Model

| member | source | states |
|---|---|---|
| Params.WIsTwoToLogW | src/params.rs:31-35 | W = 2^LOG_W (16 = 2^4) |
| Params.L1Formula | src/params.rs:37-41 | the table's L1 (64 for N = 32, 128 for N = 64) is ceil(8N / LOG_W) |
| Params.L2Formula | src/params.rs:43-44 | L2 = 3 is floor(log2(L1 (W-1)) / LOG_W) + 1 for both widths |
| Params.W | src/params.rs:32 | definition: the Winternitz parameter W = 16; W = 2^LOG_W is stated by Params.WIsTwoToLogW |
| Params.LOG_W | src/params.rs:35 | definition: LOG_W = 4, the bits per base-W digit |
| Params.L1 | src/params.rs:37-41 | L1 is 64 for N = 32 and 128 for N = 64; its contract states L1 LOG_W = 8N, one digit per 4 message bits |
| Params.L2 | src/params.rs:44 | definition: L2 = 3; its formula is stated by Params.L2Formula and its sufficiency by Params.ChecksumFits |
| Params.Len | src/params.rs:46-47 | definition: LEN = L1 + L2; its values are stated by Params.LenTable |
| Params.LenTable | src/params.rs:46-47 | LEN = L1 + L2 is 67 for N = 32 and 131 for N = 64, the values of the parameter table |
| Params.ChecksumFits | src/params.rs:43-44 | the largest checksum L1 (W-1) fits in L2 base-W digits and needs all of them: W^(L2-1) <= L1 (W-1) < W^L2 |
| Params.Log2Bracket | src/params.rs:43 | Log2(x) is the floor of the binary logarithm: 2^Log2(x) <= x < 2^(Log2(x)+1) |
| Params.ChecksumLayout | src/lib.rs:219-220 | the checksum shift 8 - (L2 LOG_W mod 8) is 4 bits (a factor 16), and the checksum buffer has (L2 LOG_W + 7) / 8 = 2 bytes |
| Params.CSUM_SHIFT | src/lib.rs:219 | definition: the checksum shift 8 - (L2 LOG_W mod 8); its value 4 is stated by Params.ChecksumLayout |
| Params.CSUM_BYTES | src/lib.rs:220 | definition: the checksum buffer width (L2 LOG_W + 7) / 8; its value 2 is stated by Params.ChecksumLayout |
| Hash.PADDING_F | src/hash.rs:8 | definition: F's padding value is 0 |
| Hash.PADDING_PRF | src/hash.rs:9 | definition: PRF's padding value is 3 |
| Hash.ToByte | src/hash.rs:55-60 | toByte(x, len) has exactly len bytes |
| Hash.ToByteDigits | src/hash.rs:55-60 | byte k of toByte(x, len) is (x >> 8 (len-1-k)) & 0xff |
| Hash.ToByteRoundTrip | src/hash.rs:55-60 | reading toByte(x, len) back big-endian gives x mod 256^len, so x itself when x < 256^len |
| Hash.ToByteOfValue | src/hash.rs:55-60 | the converse round trip: len bytes read back big-endian give a value below 256^len whose toByte is those same bytes |
| Hash.ToBytePadding | src/hash.rs:25 | a padding value p < 256 becomes N-1 zero bytes followed by p |
| Hash.ByteArray | src/hash.rs:55-60 | `byte_array` writes toByte(x, hi-lo) into output[lo..hi) and changes no other byte |
| Hash.PrfBuf | src/hash.rs:22-33 | PRF's buffer toByte(3, N) &#124;&#124; key &#124;&#124; input has 2N + 32 bytes |
| Hash.FBuf | src/hash.rs:39-50 | F's buffer toByte(0, N) &#124;&#124; key &#124;&#124; input[0..32) &#124;&#124; zeros has 3N bytes |
| Hash.Prf | src/hash.rs:22-36 | `prf` fills its buffer to exactly PrfBuf(key, input) and returns its N-byte hash |
| Hash.HashF | src/hash.rs:39-53 | `hash_f` fills its buffer to exactly FBuf(key, input) and returns its N-byte hash |
| Hash.FBufLayout | src/hash.rs:39-53 | for N = 32 F hashes toByte(0, N) &#124;&#124; key &#124;&#124; input; for N = 64 the last 32 bytes of its buffer are zero whatever the input; the padding block is all zero |
| Hash.DomainSeparation | src/hash.rs:8-9 | byte N-1 is 3 in every PRF buffer and 0 in every F buffer, so no PRF input equals an F input, although the two lengths agree for N = 32 |
| Address.Enc32 | src/lib.rs:41-45 | a setter writes 4 bytes |
| Address.Enc32IsToByte | src/lib.rs:41-45 | the 4 bytes written for c are toByte(c, 4), most significant first |
| Address.Enc32RoundTrip | src/lib.rs:41-45 | the 4 bytes read back big-endian give c, so different u32 values give different fields |
| Address.SetField | src/lib.rs:41-59 | replacing a 4-byte field keeps the address at 32 bytes |
| Address.SetFieldAt | src/lib.rs:41-59 | after writing the field at off, bytes [off, off+4) hold the new value and every other byte is unchanged |
| Address.SetFieldSame | src/lib.rs:41-59 | writing a field with the bytes it already holds leaves the address unchanged |
| Address.SetFieldOverwrite | src/lib.rs:41-59 | writing the same field twice keeps only the second value |
| Address.SetFieldCommute | src/lib.rs:41-59 | writes to two disjoint fields commute |
| Address.ChainFieldSeparates | src/lib.rs:41-45 | two addresses whose chain fields were set to different values differ, whatever their other bytes |
| Address.Adrs.Copy | src/lib.rs:96 | the working copy holds exactly the bytes of the address it copies, in a fresh array |
| Address.Adrs.WriteField | src/lib.rs:43 | copying 4 bytes to offset off makes the address SetField(old, off, f) |
| Address.Adrs.SetChain | src/lib.rs:41-45 | `set_chain(c)` makes the address SetField(old, 20, Enc32(c)): bytes [20, 24) become c and, by SetFieldAt, the other 28 bytes are unchanged |
| Address.Adrs.SetHash | src/lib.rs:48-52 | `set_hash(h)` makes the address SetField(old, 24, Enc32(h)) |
| Address.Adrs.SetKeymask | src/lib.rs:55-59 | `set_keymask(b)` makes the address SetField(old, 28, Enc32(b)) |
| Encoding.Nibbles | src/lib.rs:230-243 | a byte string has twice as many base-16 digits, each below W |
| Encoding.NibblesAt | src/lib.rs:237-241 | digit 2i is the high nibble and digit 2i+1 the low nibble of byte i |
| Encoding.PackNibblesOfNibbles | src/lib.rs:230-243 | joining the digits in pairs gives the bytes back |
| Encoding.NibblesOfPackNibbles | src/lib.rs:230-243 | splitting joined digit pairs gives the digits back |
| Encoding.NibblesInjective | src/lib.rs:230-243 | different messages have different message digits |
| Encoding.ShiftMask | src/lib.rs:241 | `(total >> bits) & (W-1)` is the high nibble for bits = 4 and the low nibble for bits = 0 |
| Encoding.BaseW | src/lib.rs:230-243 | `base_w` writes the first hi-lo base-16 digits of input into output[lo..hi) and nothing else; input must hold at least ceil((hi-lo)/2) bytes |
| Encoding.Csum | src/lib.rs:213-215 | the fold of acc + W - 1 - x over the digits; its contract bounds it by &#124;ds&#124; (W-1) for any bytes |
| Encoding.CsumBounds | src/lib.rs:213-215 | the checksum sum of (W-1-d) lies in [0, &#124;ds&#124; (W-1)], so [0, 960] for N = 32 |
| Encoding.CsumAntitone | src/lib.rs:213-215 | raising digits lowers the checksum, strictly when some digit rises |
| Encoding.ChecksumDigits | src/lib.rs:219-222 | the checksum is written as L2 digits |
| Encoding.MessageDigits | src/lib.rs:206-225 | the encoding has LEN digits, each in [0, W-1], so the chain bound start + steps <= W-1 always holds in the key operations |
| Encoding.MessageDigitsChecksum | src/lib.rs:206-225 | the first L1 digits are the message nibbles, the checksum lies in [0, L1 (W-1)], and the last L2 digits read back big-endian are exactly the checksum |
| Encoding.SomeDigitDecreases | src/lib.rs:206-225 | for two different messages some digit of the second encoding is below the matching digit of the first |
| Encoding.ShiftedChecksumDigits | src/lib.rs:219-222 | shifting a checksum below 2^12 left by 4, writing 2 bytes and taking 3 base-16 digits gives its 3 base-16 digits, most significant first |
| Encoding.ConcatenationResult | src/lib.rs:206-225 | the message digits followed by the first L2 digits of the shifted checksum bytes are the full encoding |
| Encoding.Concatenation | src/lib.rs:206-225 | `concatenation` returns exactly MessageDigits(msg) |
| Chaining.Executes | src/lib.rs:190-191 | definition: loop index i of chain(start, steps) executes a step when start <= i < start + steps and i < W |
| Chaining.Runs | src/lib.rs:190-191 | chain(start, steps) executes at least one step exactly when some loop index executes one |
| Chaining.KeyAdrs | src/lib.rs:192-193 | the key address is 32 bytes |
| Chaining.MaskAdrs | src/lib.rs:192-196 | the mask address is 32 bytes |
| Chaining.XorBytes | src/lib.rs:197-199 | the masked input is as long as the input |
| Chaining.ChainStep | src/lib.rs:192-200 | an executed step writes F(PRF(seed, A[hash 0, keymask 0]), input XOR PRF(seed, A[hash 0, keymask 1])), N bytes |
| Chaining.KeyMaskLayout | src/lib.rs:192-196 | the key and mask addresses keep bytes [0, 24) and end in Enc32(0) Enc32(0), and Enc32(0) Enc32(1) |
| Chaining.KeyMaskDependOnPrefix | src/lib.rs:192-196 | the key and mask addresses depend only on bytes [0, 24) |
| Chaining.MaskAdrsStable | src/lib.rs:190-201 | the address a step leaves keeps bytes [0, 24), and a further step uses the same key and mask addresses |
| Chaining.ChainStepDependsOnPrefix | src/lib.rs:190-201 | a step's value depends only on bytes [0, 24) of the address |
| Chaining.Chain | src/lib.rs:182-203 | when some i in [start, start+steps) is below W, the output slice is ChainStep(address, input) and the address ends as MaskAdrs; otherwise neither output nor address changes; bytes outside the slice never change |
| Chaining.ChainTwice | src/lib.rs:182-203 | a call walking a steps followed by a call walking b more from its output writes ChainStep(A, ChainStep(A, input)), where one call walking a + b steps writes ChainStep(A, input) |
| Chaining.ChainDoesNotCompose | src/lib.rs:190-201 | for a concrete 32-byte core hash, two steps from the zero value differ from one step, so chaining a then b steps is not chaining a + b steps |
| Wots.SecKey | src/lib.rs:64-67 | definition: the secret key, a seed and the key pair's address |
| Wots.Signature | src/lib.rs:71-75 | definition: a signature, LEN N-byte chain values, the public seed and the key pair's address |
| Wots.PubKey | src/lib.rs:121-125 | definition: a public key, LEN N-byte chain values, the public seed and the key pair's address |
| Wots.OffsetIsProduct | src/lib.rs:106 | Offset(i, N) is the slice start i N |
| Wots.OffsetOrder | src/lib.rs:106 | the slice of position j ends at or before the start of any later position |
| Wots.Chunk | src/lib.rs:106 | slice i of a buffer has N bytes |
| Wots.FilledStep | src/lib.rs:103-113 | writing slice i, and nothing else, into a buffer holding the expected slices below i and zeros from i N on extends that to i+1 |
| Wots.ChainAdrs | src/lib.rs:104 | the address with chain field i is 32 bytes |
| Wots.StepTaken | src/lib.rs:103-112 | definition: some chain before position i runs a step, after which sign's working address carries hash 0 and keymask 1 (Wots.SecretAdrs) |
| Wots.SecretAdrs | src/lib.rs:104-107 | the address secret value i is derived under is 32 bytes |
| Wots.SecretValue | src/lib.rs:107 | secret value i is N bytes |
| Wots.SignChunk | src/lib.rs:103-113 | slice i of a signature is N bytes: zero for digit 0, else one chain step |
| Wots.PubKeyChunk | src/lib.rs:139-149 | slice i of a generated public key is N bytes |
| Wots.VerifyChunk | src/lib.rs:163-172 | slice i of a reconstructed public key is N bytes: one step under the signature's address when digit i < W-1, zero when it is W-1 |
| Wots.SignChunks | src/lib.rs:103-113 | a signature has LEN slices |
| Wots.PubKeyChunks | src/lib.rs:139-149 | a public key has LEN slices |
| Wots.VerifyChunks | src/lib.rs:163-172 | a reconstructed public key has LEN slices |
| Wots.AdrsBefore | src/lib.rs:103-104 | the working address at the top of an iteration is 32 bytes |
| Wots.Rechain | src/lib.rs:104 | `set_chain(i+1)` on the address of secret value i gives the address of secret value i+1 |
| Wots.SecretAdrsPrefix | src/lib.rs:104-107 | the secret-value address agrees with the chain address on bytes [0, 24), and a chain step leaves its carried form |
| Wots.SecretAdrsSeparate | src/lib.rs:104-107 | secret values of different positions are derived under different addresses |
| Wots.SignRevealsPubKeyChunk | src/lib.rs:94-152 | a signature slice with a positive digit equals the public-key slice when its secret value was derived under the same address |
| Wots.NextSecretAdrs | src/lib.rs:103-104 | `set_chain(i)` on the address left by iteration i-1 gives the address of secret value i |
| Wots.SignChunkValue | src/lib.rs:105-112 | a chain call from secret value i under its address writes signature slice i |
| Wots.PubKeyChunkValue | src/lib.rs:141-148 | a chain call from secret value i under its address writes public-key slice i |
| Wots.SignAdrsStep | src/lib.rs:103-113 | iteration i of `sign` derives secret value i under SecretAdrs(i) and leaves the address the next iteration expects |
| Wots.SignLoopStep | src/lib.rs:103-113 | one iteration of `sign` keeps the loop invariant: slices below i+1 are the signature's, the rest zero, the address as expected |
| Wots.SignPosition | src/lib.rs:104-112 | the body of `sign`'s loop takes the invariant from i to i+1 |
| Wots.Sign | src/lib.rs:94-116 | `sign` returns pub_seed, the key's own address and LEN slices, slice i being SignChunk(MessageDigits(msg), i) |
| Wots.PubKeyLoopStep | src/lib.rs:139-149 | one iteration of `from_seckey` keeps the loop invariant |
| Wots.PubKeyPosition | src/lib.rs:140-148 | the body of `from_seckey`'s loop takes the invariant from i to i+1 |
| Wots.FromSecKey | src/lib.rs:131-152 | `from_seckey` returns pub_seed, the key's own address and LEN slices, slice i being PubKeyChunk(i) |
| Wots.VerifyLoopStep | src/lib.rs:163-172 | one iteration of `from_signature` keeps the loop invariant; the working address keeps the signature's bytes [0, 24) |
| Wots.VerifyPosition | src/lib.rs:164-171 | the body of `from_signature`'s loop takes the invariant from i to i+1 |
| Wots.FromSignature | src/lib.rs:154-175 | `from_signature` returns the signature's pub_seed and address and LEN slices, slice i being VerifyChunk(MessageDigits(msg), i) |

## Left out

- `Seed::new`, `Adrs::new` and `SecKey::new` draw from `rand::random`. Keys, seeds and addresses are inputs to the model instead.
- `core_hash` and the SHA-256 / SHA-512 implementations are foreign library code. They are the parameter `h`, constrained only to return N bytes.
- The bytes the setters' `unsafe` pointer copy reads are undefined behaviour. The model writes the big-endian `Enc32(c)`, the encoding RFC 8391 gives address fields.
- `SecKey::set_seed` and `SecKey::set_address` are plain field assignments on a value. In the model a `SecKey` is built with the fields it needs.
- `cfg` feature selection and the derived traits (`Clone`, `Copy`, `Default`, `Debug`) are build configuration. The feature choice becomes the parameter n.
- `usize` values are unbounded in the model; `u32` setter arguments are bounded by `U32_LIMIT` (2^32). No `usize` value in the core overflows: the checksum is at most 960 or 1920, shifted 15360 or 30720, and the chain index is below 131.
- Chaining.Chain: walking a steps and then b more from the result does not equal walking a + b steps, because every executed step recomputes the same value from the input it was given. The second call therefore applies the step to the first call's output (Chaining.ChainTwice), and Chaining.ChainDoesNotCompose exhibits a core hash for which the two results differ.
- Cryptographic claims (unforgeability, multi-target resistance) are out of scope, and so is the RFC 8391 round trip between `sign`, `from_signature` and `from_seckey`, which does not hold for this code.
- Address.Adrs.SetChain, Address.Adrs.SetHash, Address.Adrs.SetKeymask: their ensures gives the new address as a SetField of the old one; that the other 28 bytes are unchanged is stated once, by Address.SetFieldAt.
- Wots.Sign, Wots.FromSecKey, Wots.FromSignature: the slice of position i is stated through Offset(i, N), a sum equal to i N by Wots.OffsetIsProduct, rather than through the product.
