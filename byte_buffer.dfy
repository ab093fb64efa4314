/**
 * The byte codec behind every page: a fixed-length byte vector with a cursor
 * (`position`), big-endian 8-byte integers and raw byte slices, each with an
 * absolute (`...WithOffset`) and a cursor-relative variant.
 */
module ByteBuffers {
  type byte = b: int | 0 <= b < 256

  const U64_BOUND: nat := 0x1_0000_0000_0000_0000

  /** Unsigned 64-bit integers, the width of every integer the kernel stores. */
  type u64 = x: int | 0 <= x < U64_BOUND

  /** Width in bytes of an encoded integer. */
  const INT_BYTES: nat := 8

  function Pow256(n: nat): (r: nat)
    ensures r > 0
  {
    if n == 0 then 1 else 256 * Pow256(n - 1)
  }

  function Zeros(n: nat): (r: seq<byte>)
    ensures |r| == n && forall i :: 0 <= i < n ==> r[i] == 0
  {
    seq(n, _ => 0)
  }

  /** The `n` low-order bytes of `v`, most significant first. */
  function ToBigEndian(v: nat, n: nat): (r: seq<byte>)
    ensures |r| == n
  {
    if n == 0 then [] else ToBigEndian(v / 256, n - 1) + [v % 256]
  }

  /** The number whose big-endian representation is `s`. */
  function FromBigEndian(s: seq<byte>): (r: nat)
    ensures r < Pow256(|s|)
  {
    if s == [] then 0
    else
      var high := FromBigEndian(s[..|s| - 1]);
      assert high * 256 <= (Pow256(|s| - 1) - 1) * 256;
      high * 256 + s[|s| - 1]
  }

  lemma MulPos(d: int, x: int)
    requires d > 0 && x > 0
    ensures d * x >= d
  {
  }

  /** Quotient and remainder are the only ones satisfying the division equation. */
  lemma ModUnique(v: int, d: int, k: int, m: int)
    requires d > 0 && v == d * k + m && 0 <= m < d
    ensures v % d == m && v / d == k
  {
    var q, r := v / d, v % d;
    assert d * (k - q) == r - m;
    if k > q {
      MulPos(d, k - q);
    } else if q > k {
      MulPos(d, q - k);
    }
  }

  lemma ModSplit(v: nat, p: nat)
    requires p > 0
    ensures (v / 256) % p * 256 + v % 256 == v % (256 * p)
  {
    var q, r := v / 256, v % 256;
    var hi, lo := q / p, q % p;
    assert q == p * hi + lo;
    assert v == 256 * q + r;
    assert v == (256 * p) * hi + (lo * 256 + r) by {
      assert 256 * q == 256 * (p * hi) + 256 * lo;
    }
    assert lo * 256 + r < 256 * p by {
      assert lo * 256 <= (p - 1) * 256;
    }
    ModUnique(v, 256 * p, hi, lo * 256 + r);
  }

  /** Decoding an `n`-byte big-endian encoding recovers `v` modulo `256^n`. */
  lemma {:induction false} FromToBigEndian(v: nat, n: nat)
    ensures FromBigEndian(ToBigEndian(v, n)) == v % Pow256(n)
  {
    if n > 0 {
      var s := ToBigEndian(v, n);
      assert s[..n - 1] == ToBigEndian(v / 256, n - 1);
      FromToBigEndian(v / 256, n - 1);
      ModSplit(v, Pow256(n - 1));
    }
  }

  /** Encoding the decoded value of `s` in `|s|` bytes gives back `s`. */
  lemma {:induction false} ToFromBigEndian(s: seq<byte>)
    ensures ToBigEndian(FromBigEndian(s), |s|) == s
  {
    if s != [] {
      var n := |s|;
      var high := FromBigEndian(s[..n - 1]);
      ModUnique(high * 256 + s[n - 1], 256, high, s[n - 1]);
      ToFromBigEndian(s[..n - 1]);
      assert s == s[..n - 1] + [s[n - 1]];
    }
  }

  lemma Pow256Eight()
    ensures Pow256(INT_BYTES) == U64_BOUND
  {
  }

  /** `u64::to_be_bytes`. */
  function EncodeInt(v: u64): (r: seq<byte>)
    ensures |r| == INT_BYTES
  {
    ToBigEndian(v, INT_BYTES)
  }

  /** `u64::from_be_bytes`. */
  function DecodeInt(s: seq<byte>): (v: u64)
    requires |s| == INT_BYTES
  {
    Pow256Eight();
    FromBigEndian(s)
  }

  /** The integer codec is a bijection between u64 values and 8-byte sequences. */
  lemma DecodeEncodeInt(v: u64)
    ensures DecodeInt(EncodeInt(v)) == v
  {
    FromToBigEndian(v, INT_BYTES);
    Pow256Eight();
  }

  lemma EncodeDecodeInt(s: seq<byte>)
    requires |s| == INT_BYTES
    ensures EncodeInt(DecodeInt(s)) == s
  {
    ToFromBigEndian(s);
  }

  /** `s` with the bytes at `[offset, offset + |v|)` replaced by `v` (`copy_from_slice`). */
  function Splice(s: seq<byte>, offset: nat, v: seq<byte>): (r: seq<byte>)
    requires offset + |v| <= |s|
    ensures |r| == |s| && r[offset..offset + |v|] == v
    ensures forall i :: 0 <= i < |s| && !(offset <= i < offset + |v|) ==> r[i] == s[i]
  {
    s[..offset] + v + s[offset + |v|..]
  }

  /** The integer stored at `offset`. */
  function ReadInt(s: seq<byte>, offset: nat): u64
    requires offset + INT_BYTES <= |s|
  {
    DecodeInt(s[offset..offset + INT_BYTES])
  }

  /** `s` with `v` stored big-endian at `offset`. */
  function WriteInt(s: seq<byte>, offset: nat, v: u64): (r: seq<byte>)
    requires offset + INT_BYTES <= |s|
  {
    Splice(s, offset, EncodeInt(v))
  }

  /** Reading an integer back where it was written returns it; nothing else moves. */
  lemma ReadWriteInt(s: seq<byte>, offset: nat, v: u64)
    requires offset + INT_BYTES <= |s|
    ensures |WriteInt(s, offset, v)| == |s|
    ensures ReadInt(WriteInt(s, offset, v), offset) == v
    ensures forall i :: 0 <= i < |s| && !(offset <= i < offset + INT_BYTES) ==> WriteInt(s, offset, v)[i] == s[i]
  {
    DecodeEncodeInt(v);
  }

  /** An integer whose bytes lie outside a spliced range reads the same afterwards. */
  lemma ReadIntAfterSplice(s: seq<byte>, offset: nat, v: seq<byte>, at: nat)
    requires offset + |v| <= |s| && at + INT_BYTES <= |s|
    requires at + INT_BYTES <= offset || offset + |v| <= at
    ensures ReadInt(Splice(s, offset, v), at) == ReadInt(s, at)
  {
    assert Splice(s, offset, v)[at..at + INT_BYTES] == s[at..at + INT_BYTES];
  }

  /** A fixed-length byte vector with a cursor. */
  class ByteBuffer {
    const bytes: array<byte>
    var position: nat

    /** `ByteBuffer::new`: takes the bytes over, cursor at 0. */
    constructor (init: seq<byte>)
      ensures bytes[..] == init && position == 0
      ensures fresh(bytes)
    {
      bytes := new byte[|init|](i requires 0 <= i < |init| => init[i]);
      position := 0;
    }

    /** `contents`: resets the cursor and lends the bytes out for in-place writes. */
    method Contents() returns (a: array<byte>)
      modifies this
      ensures a == bytes && position == 0
    {
      position := 0;
      a := bytes;
    }

    /** `bytes`: a read-only view of the whole buffer. */
    method Bytes() returns (s: seq<byte>)
      ensures s == bytes[..]
    {
      s := bytes[..];
    }

    method GetInt() returns (v: u64)
      requires position + INT_BYTES <= bytes.Length
      modifies this
      ensures v == ReadInt(bytes[..], old(position))
      ensures position == old(position) + INT_BYTES
    {
      v := DecodeInt(bytes[position..position + INT_BYTES]);
      position := position + INT_BYTES;
    }

    method GetIntWithOffset(offset: nat) returns (v: u64)
      requires offset + INT_BYTES <= bytes.Length
      modifies this
      ensures v == ReadInt(bytes[..], offset)
      ensures position == offset + INT_BYTES
    {
      v := DecodeInt(bytes[offset..offset + INT_BYTES]);
      position := offset + INT_BYTES;
    }

    method GetBytes(len: nat) returns (s: seq<byte>)
      requires position + len <= bytes.Length
      modifies this
      ensures s == bytes[old(position)..old(position) + len]
      ensures position == old(position) + len
    {
      s := bytes[position..position + len];
      position := position + len;
    }

    method GetBytesWithOffset(offset: nat, len: nat) returns (s: seq<byte>)
      requires offset + len <= bytes.Length
      modifies this
      ensures s == bytes[offset..offset + len]
      ensures position == offset + len
    {
      position := offset + len;
      s := bytes[offset..offset + len];
    }

    method SetIntWithOffset(offset: nat, value: u64)
      requires offset + INT_BYTES <= bytes.Length
      modifies this, bytes
      ensures bytes[..] == WriteInt(old(bytes[..]), offset, value)
      ensures position == offset + INT_BYTES
    {
      CopyFromSlice(offset, EncodeInt(value));
      position := offset + INT_BYTES;
    }

    method SetBytesWithOffset(offset: nat, value: seq<byte>)
      requires offset + |value| <= bytes.Length
      modifies this, bytes
      ensures bytes[..] == Splice(old(bytes[..]), offset, value)
      ensures position == offset + |value|
    {
      CopyFromSlice(offset, value);
      position := offset + |value|;
    }

    method SetInt(value: u64)
      requires position + INT_BYTES <= bytes.Length
      modifies this, bytes
      ensures bytes[..] == WriteInt(old(bytes[..]), old(position), value)
      ensures position == old(position) + INT_BYTES
    {
      CopyFromSlice(position, EncodeInt(value));
      position := position + INT_BYTES;
    }

    method SetBytes(value: seq<byte>)
      requires position + |value| <= bytes.Length
      modifies this, bytes
      ensures bytes[..] == Splice(old(bytes[..]), old(position), value)
      ensures position == old(position) + |value|
    {
      CopyFromSlice(position, value);
      position := position + |value|;
    }

    /** Overwrites `[offset, offset + |value|)` with `value`, element by element. */
    method CopyFromSlice(offset: nat, value: seq<byte>)
      requires offset + |value| <= bytes.Length
      modifies bytes
      ensures bytes[..] == Splice(old(bytes[..]), offset, value)
    {
      var i := 0;
      while i < |value|
        invariant 0 <= i <= |value|
        invariant forall k :: 0 <= k < bytes.Length ==>
          bytes[k] == if offset <= k < offset + i then value[k - offset] else old(bytes[k])
      {
        bytes[offset + i] := value[i];
        i := i + 1;
      }
      assert forall k :: 0 <= k < bytes.Length ==> bytes[..][k] == Splice(old(bytes[..]), offset, value)[k];
    }
  }
}
