/**
 * A page: a block-sized byte buffer with offset-addressed accessors. Integers
 * are 8 bytes big-endian; a byte string is an 8-byte length prefix followed
 * by its bytes, which is the layout the log records on disk show.
 */
module Pages {
  import opened ByteBuffers

  /** Bytes a byte string of `strlen` bytes occupies on a page. */
  function MaxLength(strlen: nat): nat
  {
    strlen + INT_BYTES
  }

  /** The on-page form of a byte string. */
  function EncodeBytes(v: seq<byte>): (r: seq<byte>)
    requires |v| < U64_BOUND
    ensures |r| == MaxLength(|v|)
    ensures r[..INT_BYTES] == EncodeInt(|v|) && r[INT_BYTES..] == v
  {
    EncodeInt(|v|) + v
  }

  /** `s` with the byte string `v` stored at `offset`. */
  function WriteBytes(s: seq<byte>, offset: nat, v: seq<byte>): (r: seq<byte>)
    requires |v| < U64_BOUND && offset + MaxLength(|v|) <= |s|
  {
    Splice(s, offset, EncodeBytes(v))
  }

  /** A length prefix at `offset` whose byte string lies inside `s`. */
  predicate HasBytesAt(s: seq<byte>, offset: nat)
  {
    offset + INT_BYTES <= |s| && offset + MaxLength(ReadInt(s, offset)) <= |s|
  }

  /** The byte string stored at `offset`. */
  function ReadBytes(s: seq<byte>, offset: nat): seq<byte>
    requires HasBytesAt(s, offset)
  {
    s[offset + INT_BYTES..offset + MaxLength(ReadInt(s, offset))]
  }

  /** A byte string reads back from where it was written; no byte outside it changes. */
  lemma ReadWriteBytes(s: seq<byte>, offset: nat, v: seq<byte>)
    requires |v| < U64_BOUND && offset + MaxLength(|v|) <= |s|
    ensures |WriteBytes(s, offset, v)| == |s|
    ensures HasBytesAt(WriteBytes(s, offset, v), offset)
    ensures ReadBytes(WriteBytes(s, offset, v), offset) == v
    ensures forall i :: 0 <= i < |s| && !(offset <= i < offset + MaxLength(|v|)) ==>
      WriteBytes(s, offset, v)[i] == s[i]
  {
    var w := WriteBytes(s, offset, v);
    assert w[offset..offset + INT_BYTES] == EncodeInt(|v|);
    DecodeEncodeInt(|v|);
    assert w[offset + INT_BYTES..offset + MaxLength(|v|)] == v;
  }

  predicate IsAscii(s: string)
  {
    forall i :: 0 <= i < |s| ==> s[i] as int < 128
  }

  /** The UTF-8 bytes of an ASCII string: one byte per character. */
  function AsciiBytes(s: string): (r: seq<byte>)
    requires IsAscii(s)
    ensures |r| == |s| && forall i :: 0 <= i < |s| ==> r[i] == s[i] as int
  {
    seq(|s|, i requires 0 <= i < |s| => s[i] as int)
  }

  /** The string whose characters are the bytes of `b`, one per byte. */
  function BytesString(b: seq<byte>): (r: string)
    ensures |r| == |b|
    ensures forall i :: 0 <= i < |b| ==> r[i] as int == b[i]
  {
    seq(|b|, i requires 0 <= i < |b| => b[i] as char)
  }

  /** A string stored on a page reads back as the same string. */
  lemma StringRoundTrip(s: string)
    requires IsAscii(s)
    ensures BytesString(AsciiBytes(s)) == s
  {
    assert forall i :: 0 <= i < |s| ==> BytesString(AsciiBytes(s))[i] == s[i];
  }

  class Page {
    const bb: ByteBuffer

    /** The objects a page is made of. */
    ghost function Repr(): set<object>
    {
      {this, bb, bb.bytes}
    }

    function Size(): nat
    {
      bb.bytes.Length
    }

    ghost function Bytes(): seq<byte>
      reads bb.bytes
    {
      bb.bytes[..]
    }

    /** `Page::new(blocksize)`: a zero-filled page. */
    constructor (blocksize: nat)
      ensures Size() == blocksize && Bytes() == Zeros(blocksize)
      ensures fresh(bb) && fresh(bb.bytes)
    {
      bb := new ByteBuffer(Zeros(blocksize));
    }

    method GetInt(offset: nat) returns (v: u64)
      requires offset + INT_BYTES <= Size()
      modifies bb
      ensures v == ReadInt(Bytes(), offset)
    {
      v := bb.GetIntWithOffset(offset);
    }

    method SetInt(offset: nat, v: u64)
      requires offset + INT_BYTES <= Size()
      modifies bb, bb.bytes
      ensures Bytes() == WriteInt(old(Bytes()), offset, v)
    {
      bb.SetIntWithOffset(offset, v);
    }

    /** Reads the length prefix at `offset`, then that many bytes after it. */
    method GetBytes(offset: nat) returns (v: seq<byte>)
      requires HasBytesAt(Bytes(), offset)
      modifies bb
      ensures v == ReadBytes(Bytes(), offset)
    {
      var len := bb.GetIntWithOffset(offset);
      v := bb.GetBytes(len);
    }

    /** Reads the byte string at `offset` as a string, one character per byte. */
    method GetString(offset: nat) returns (s: string)
      requires HasBytesAt(Bytes(), offset)
      modifies bb
      ensures s == BytesString(ReadBytes(Bytes(), offset))
    {
      var v := GetBytes(offset);
      s := BytesString(v);
    }

    /** Writes the length prefix at `offset`, then the bytes after it. */
    method SetBytes(offset: nat, v: seq<byte>)
      requires |v| < U64_BOUND && offset + MaxLength(|v|) <= Size()
      modifies bb, bb.bytes
      ensures Bytes() == WriteBytes(old(Bytes()), offset, v)
    {
      ghost var before := Bytes();
      bb.SetIntWithOffset(offset, |v|);
      bb.SetBytes(v);
      assert Bytes() == WriteBytes(before, offset, v) by {
        var w := WriteBytes(before, offset, v);
        assert forall i :: 0 <= i < |before| ==> Bytes()[i] == w[i];
      }
    }

    /** Stores an ASCII string as a byte string. */
    method SetString(offset: nat, s: string)
      requires IsAscii(s) && |s| < U64_BOUND && offset + MaxLength(|s|) <= Size()
      modifies bb, bb.bytes
      ensures Bytes() == WriteBytes(old(Bytes()), offset, AsciiBytes(s))
    {
      SetBytes(offset, AsciiBytes(s));
    }
  }
}
