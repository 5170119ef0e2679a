/**
 * The 32-byte WOTS+ address (RFC 8391, section 2.5). Bytes [0, 20) belong
 * to the caller's tree context; the chain, hash and keymask fields are the
 * 4-byte ranges starting at 20, 24 and 28.
 */
module Address {
  import opened Bytes
  import opened Hash

  const ADRS_BYTES: nat := 32
  const CHAIN_OFFSET: nat := 20
  const HASH_OFFSET: nat := 24
  const KEYMASK_OFFSET: nat := 28

  /** Bound of a Rust `u32`. */
  const U32_LIMIT: nat := 0x1_0000_0000

  /** The four bytes a setter writes for the value c, most significant first. */
  function Enc32(c: nat): (r: seq<byte>)
    requires c < U32_LIMIT
    ensures |r| == 4
  {
    [c / 0x100_0000 % 256, c / 0x1_0000 % 256, c / 0x100 % 256, c % 256]
  }

  /** The four bytes are toByte(c, 4), the encoding RFC 8391 gives address fields. */
  lemma Enc32IsToByte(c: nat)
    requires c < U32_LIMIT
    ensures Enc32(c) == ToByte(c, 4)
  {
    assert Pow(256, 3) == 0x100_0000 && Pow(256, 2) == 0x1_0000 && Pow(256, 1) == 0x100 && Pow(256, 0) == 1;
  }

  /** The four bytes read back as a big-endian number give c: the encoding is injective on u32 values. */
  lemma Enc32RoundTrip(c: nat)
    requires c < U32_LIMIT
    ensures FromBigEndian(Enc32(c), 256) == c
  {
    assert Pow(256, 4) == U32_LIMIT;
    Enc32IsToByte(c);
    ToByteRoundTrip(c, 4);
  }

  /** The address `a` with the 4-byte field at `off` replaced by `f`. */
  function SetField(a: seq<byte>, off: nat, f: seq<byte>): (r: seq<byte>)
    requires off + 4 <= |a| && |f| == 4
    ensures |r| == |a|
  {
    a[..off] + f + a[off + 4..]
  }

  /** SetField puts `f` at bytes [off, off+4) and leaves every other byte as it was. */
  lemma SetFieldAt(a: seq<byte>, off: nat, f: seq<byte>)
    requires off + 4 <= |a| && |f| == 4
    ensures SetField(a, off, f)[off..off + 4] == f
    ensures forall k :: 0 <= k < |a| && !(off <= k < off + 4) ==> SetField(a, off, f)[k] == a[k]
  {
  }

  /** Writing a field with the bytes it already holds changes nothing. */
  lemma SetFieldSame(a: seq<byte>, off: nat)
    requires off + 4 <= |a|
    ensures SetField(a, off, a[off..off + 4]) == a
  {
    assert a == a[..off] + a[off..off + 4] + a[off + 4..];
  }

  /** Writing a field twice keeps only the second value. */
  lemma SetFieldOverwrite(a: seq<byte>, off: nat, f: seq<byte>, g: seq<byte>)
    requires off + 4 <= |a| && |f| == 4 && |g| == 4
    ensures SetField(SetField(a, off, f), off, g) == SetField(a, off, g)
  {
    var lhs, rhs := SetField(SetField(a, off, f), off, g), SetField(a, off, g);
    SetFieldAt(a, off, f);
    SetFieldAt(SetField(a, off, f), off, g);
    SetFieldAt(a, off, g);
    forall k | 0 <= k < |a|
      ensures lhs[k] == rhs[k]
    {
      if off <= k < off + 4 {
        assert lhs[k] == lhs[off..off + 4][k - off];
        assert rhs[k] == rhs[off..off + 4][k - off];
      }
    }
  }

  /** Writes to two different fields commute. */
  lemma SetFieldCommute(a: seq<byte>, o1: nat, f: seq<byte>, o2: nat, g: seq<byte>)
    requires o1 + 4 <= |a| && o2 + 4 <= |a| && |f| == 4 && |g| == 4
    requires o1 + 4 <= o2 || o2 + 4 <= o1
    ensures SetField(SetField(a, o1, f), o2, g) == SetField(SetField(a, o2, g), o1, f)
  {
    var lhs, rhs := SetField(SetField(a, o1, f), o2, g), SetField(SetField(a, o2, g), o1, f);
    SetFieldAt(a, o1, f);
    SetFieldAt(a, o2, g);
    SetFieldAt(SetField(a, o1, f), o2, g);
    SetFieldAt(SetField(a, o2, g), o1, f);
    forall k | 0 <= k < |a|
      ensures lhs[k] == rhs[k]
    {
      if o1 <= k < o1 + 4 {
        assert rhs[k] == rhs[o1..o1 + 4][k - o1];
        assert SetField(a, o1, f)[k] == SetField(a, o1, f)[o1..o1 + 4][k - o1];
      } else if o2 <= k < o2 + 4 {
        assert lhs[k] == lhs[o2..o2 + 4][k - o2];
        assert SetField(a, o2, g)[k] == SetField(a, o2, g)[o2..o2 + 4][k - o2];
      }
    }
  }

  /**
   * Two addresses whose chain fields were set to different u32 values differ,
   * whatever their other bytes: the chain index is domain-separating.
   */
  lemma ChainFieldSeparates(a: seq<byte>, b: seq<byte>, i: nat, j: nat)
    requires |a| == ADRS_BYTES && |b| == ADRS_BYTES
    requires i < U32_LIMIT && j < U32_LIMIT && i != j
    ensures SetField(a, CHAIN_OFFSET, Enc32(i)) != SetField(b, CHAIN_OFFSET, Enc32(j))
  {
    Enc32RoundTrip(i);
    Enc32RoundTrip(j);
    SetFieldAt(a, CHAIN_OFFSET, Enc32(i));
    SetFieldAt(b, CHAIN_OFFSET, Enc32(j));
  }

  /** A WOTS+ address (Rust `Adrs`), updated in place by its setters. */
  class Adrs {
    const bytes: array<byte>

    ghost predicate Valid()
    {
      bytes.Length == ADRS_BYTES
    }

    /** A copy of the address `a` (Rust copies `Adrs` by value). */
    constructor Copy(a: seq<byte>)
      requires |a| == ADRS_BYTES
      ensures Valid() && fresh(bytes) && bytes[..] == a
    {
      bytes := new byte[ADRS_BYTES](k requires 0 <= k < ADRS_BYTES => a[k]);
    }

    /** Copies the four bytes `f` to bytes[off, off+4). */
    method WriteField(off: nat, f: seq<byte>)
      requires Valid() && off + 4 <= ADRS_BYTES && |f| == 4
      modifies bytes
      ensures bytes[..] == SetField(old(bytes[..]), off, f)
    {
      forall k | 0 <= k < 4 {
        bytes[off + k] := f[k];
      }
      assert bytes[..] == SetField(old(bytes[..]), off, f);
    }

    /** Sets the chain field, bytes [20, 24); by SetFieldAt the other 28 bytes are unchanged. */
    method SetChain(c: nat)
      requires Valid() && c < U32_LIMIT
      modifies bytes
      ensures bytes[..] == SetField(old(bytes[..]), CHAIN_OFFSET, Enc32(c))
    {
      WriteField(CHAIN_OFFSET, Enc32(c));
    }

    /** Sets the hash field, bytes [24, 28); by SetFieldAt the other 28 bytes are unchanged. */
    method SetHash(h: nat)
      requires Valid() && h < U32_LIMIT
      modifies bytes
      ensures bytes[..] == SetField(old(bytes[..]), HASH_OFFSET, Enc32(h))
    {
      WriteField(HASH_OFFSET, Enc32(h));
    }

    /** Sets the keymask field, bytes [28, 32); by SetFieldAt the other 28 bytes are unchanged. */
    method SetKeymask(b: nat)
      requires Valid() && b < U32_LIMIT
      modifies bytes
      ensures bytes[..] == SetField(old(bytes[..]), KEYMASK_OFFSET, Enc32(b))
    {
      WriteField(KEYMASK_OFFSET, Enc32(b));
    }
  }
}
