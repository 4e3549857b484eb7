/**
 * Byte-level encoding: CWProtocolStore* and CWProtocolRetrieve*.
 *
 * The functions say what the bytes are; class ProtocolMessage is the buffer with
 * a moving offset that the program stores into and retrieves from.  A buffer that
 * is read is total: beyond its last byte it reads as zero.
 */
module Wire {

  type byte = b: int | 0 <= b < 256

  const ETH_ALEN := 6

  type Mac = m: seq<byte> | |m| == ETH_ALEN witness [0, 0, 0, 0, 0, 0]

  function ByteAt(buf: seq<byte>, i: nat): byte {
    if i < |buf| then buf[i] else 0
  }

  /** len bytes of buf starting at off, zero-extended */
  function Slice(buf: seq<byte>, off: nat, len: nat): (s: seq<byte>)
    ensures |s| == len
    ensures forall i :: 0 <= i < len ==> s[i] == ByteAt(buf, off + i)
  {
    seq<byte>(len, (i: nat) => ByteAt(buf, off + i))
  }

  function Get8(buf: seq<byte>, off: nat): byte {
    ByteAt(buf, off)
  }

  function Get16(buf: seq<byte>, off: nat): (v: nat)
    ensures v < 0x1_0000
  {
    ByteAt(buf, off) * 0x100 + ByteAt(buf, off + 1)
  }

  function Get32(buf: seq<byte>, off: nat): (v: nat)
    ensures v < 0x1_0000_0000
  {
    Get16(buf, off) * 0x1_0000 + Get16(buf, off + 2)
  }

  // A store truncates its int argument to the width it stores.

  function Put8(v: int): (s: seq<byte>)
    ensures |s| == 1
  {
    [v % 0x100]
  }

  function Put16(v: int): (s: seq<byte>)
    ensures |s| == 2
  {
    [(v / 0x100) % 0x100, v % 0x100]
  }

  function Put32(v: int): (s: seq<byte>)
    ensures |s| == 4
  {
    Put16(v / 0x1_0000) + Put16(v)
  }

  /** Stores write the most significant byte first and drop what does not fit. */
  lemma StoredInNetworkOrder(v: int)
    ensures Put8(v) == [v % 256]
    ensures Put16(v) == [(v / 256) % 256, v % 256]
    ensures Put32(v) == [(v / 0x100_0000) % 256, (v / 0x1_0000) % 256, (v / 256) % 256, v % 256]
  {
    assert (v / 0x1_0000) / 256 == v / 0x100_0000;
  }

  /** Retrievals read them back in that order; what lies beyond the buffer is zero. */
  lemma RetrievedInNetworkOrder(buf: seq<byte>, off: nat, b: seq<nat>)
    requires |b| == 4 && forall i :: 0 <= i < 4 ==> b[i] == if off + i < |buf| then buf[off + i] else 0
    ensures Get8(buf, off) == b[0] && Get16(buf, off) == 256 * b[0] + b[1]
    ensures Get32(buf, off) == 0x100_0000 * b[0] + 0x1_0000 * b[1] + 256 * b[2] + b[3]
    ensures Slice(buf, off, 4) == b
  {
  }

  /** buf holds part at offset off */
  predicate Holds(buf: seq<byte>, off: nat, part: seq<byte>) {
    off + |part| <= |buf| && buf[off..off + |part|] == part
  }

  lemma GetPut8(buf: seq<byte>, off: nat, v: int)
    requires Holds(buf, off, Put8(v))
    ensures Get8(buf, off) == v % 0x100
  {
    assert buf[off..off + 1][0] == Put8(v)[0];
  }

  lemma GetPut16(buf: seq<byte>, off: nat, v: int)
    requires Holds(buf, off, Put16(v))
    ensures Get16(buf, off) == v % 0x1_0000
  {
    var p := buf[off..off + 2];
    assert p[0] == buf[off] && p[1] == buf[off + 1];
  }

  lemma WordHalves(v: int)
    ensures ((v / 0x1_0000) % 0x1_0000) * 0x1_0000 + v % 0x1_0000 == v % 0x1_0000_0000
  {}

  lemma GetPut32(buf: seq<byte>, off: nat, v: int)
    requires Holds(buf, off, Put32(v))
    ensures Get32(buf, off) == v % 0x1_0000_0000
  {
    HoldsParts(buf, off, Put16(v / 0x1_0000), Put16(v));
    GetPut16(buf, off, v / 0x1_0000);
    GetPut16(buf, off + 2, v);
    WordHalves(v);
  }

  lemma SliceHeld(buf: seq<byte>, off: nat, part: seq<byte>)
    requires Holds(buf, off, part)
    ensures Slice(buf, off, |part|) == part
  {
    SliceIsRange(buf, off, |part|);
  }

  lemma SliceIsRange(buf: seq<byte>, off: nat, len: nat)
    requires off + len <= |buf|
    ensures Slice(buf, off, len) == buf[off..off + len]
  {}

  lemma HoldsParts(buf: seq<byte>, off: nat, a: seq<byte>, b: seq<byte>)
    requires Holds(buf, off, a + b)
    ensures Holds(buf, off, a) && Holds(buf, off + |a|, b)
  {
    var w := buf[off..off + |a + b|];
    assert w[..|a|] == a == buf[off..off + |a|];
    assert w[|a|..] == b == buf[off + |a|..off + |a| + |b|];
  }

  lemma HoldsMiddle(pre: seq<byte>, part: seq<byte>, post: seq<byte>)
    ensures Holds(pre + part + post, |pre|, part)
  {}

  /** CWProtocolMessage: a buffer and the offset of the next byte to store or retrieve */
  class ProtocolMessage {
    var msg: array<byte>
    var offset: nat

    /** CW_CREATE_PROTOCOL_MESSAGE: a zeroed buffer of the given size */
    constructor (size: nat)
      ensures offset == 0 && fresh(msg) && msg.Length == size
      ensures msg[..] == seq(size, (i: nat) => 0)
    {
      msg := new byte[size](_ => 0);
      offset := 0;
    }

    /** A received buffer */
    constructor Received(buf: seq<byte>)
      ensures offset == 0 && fresh(msg) && msg[..] == buf
    {
      msg := new byte[|buf|](i requires 0 <= i < |buf| => buf[i]);
      offset := 0;
    }

    /** What has been stored so far */
    ghost function Written(): seq<byte>
      reads this, msg
      requires offset <= msg.Length
    {
      msg[..offset]
    }

    method Store8(val: int)
      requires offset + 1 <= msg.Length
      modifies this`offset, msg
      ensures offset == old(offset) + 1
      ensures Written() == old(Written()) + Put8(val)
      ensures msg[offset..] == old(msg[offset..])[1..]
    {
      msg[offset] := val % 0x100;
      offset := offset + 1;
    }

    method Store16(val: int)
      requires offset + 2 <= msg.Length
      modifies this`offset, msg
      ensures offset == old(offset) + 2
      ensures Written() == old(Written()) + Put16(val)
      ensures msg[offset..] == old(msg[offset..])[2..]
    {
      msg[offset] := (val / 0x100) % 0x100;
      msg[offset + 1] := val % 0x100;
      offset := offset + 2;
    }

    method Store32(val: int)
      requires offset + 4 <= msg.Length
      modifies this`offset, msg
      ensures offset == old(offset) + 4
      ensures Written() == old(Written()) + Put32(val)
      ensures msg[offset..] == old(msg[offset..])[4..]
    {
      msg[offset] := (val / 0x100_0000) % 0x100;
      msg[offset + 1] := (val / 0x1_0000) % 0x100;
      msg[offset + 2] := (val / 0x100) % 0x100;
      msg[offset + 3] := val % 0x100;
      offset := offset + 4;
    }

    method StoreRawBytes(bytes: seq<byte>)
      requires offset + |bytes| <= msg.Length
      modifies this`offset, msg
      ensures offset == old(offset) + |bytes|
      ensures Written() == old(Written()) + bytes
      ensures msg[offset..] == old(msg[offset..])[|bytes|..]
    {
      forall i | 0 <= i < |bytes| {
        msg[offset + i] := bytes[i];
      }
      offset := offset + |bytes|;
    }

    /** CWProtocolStoreMessage copies what the other message holds up to its offset. */
    method StoreMessage(other: ProtocolMessage)
      requires other != this && other.msg != msg
      requires other.offset <= other.msg.Length
      requires offset + other.offset <= msg.Length
      modifies this`offset, msg
      ensures offset == old(offset) + other.offset
      ensures Written() == old(Written()) + other.Written()
      ensures msg[offset..] == old(msg[offset..])[other.offset..]
    {
      StoreRawBytes(other.msg[..other.offset]);
    }

    method Retrieve8() returns (val: byte)
      modifies this`offset
      ensures offset == old(offset) + 1
      ensures val == Get8(msg[..], old(offset))
    {
      val := if offset < msg.Length then msg[offset] else 0;
      offset := offset + 1;
    }

    method Retrieve16() returns (val: nat)
      modifies this`offset
      ensures offset == old(offset) + 2
      ensures val == Get16(msg[..], old(offset))
    {
      var hi: int := Retrieve8();
      var lo: int := Retrieve8();
      val := hi * 0x100 + lo;
    }

    method Retrieve32() returns (val: nat)
      modifies this`offset
      ensures offset == old(offset) + 4
      ensures val == Get32(msg[..], old(offset))
    {
      var hi := Retrieve16();
      var lo := Retrieve16();
      val := hi * 0x1_0000 + lo;
    }

    method RetrieveRawBytes(len: nat) returns (bytes: seq<byte>)
      modifies this`offset
      ensures offset == old(offset) + len
      ensures bytes == Slice(msg[..], old(offset), len)
    {
      bytes := Slice(msg[..], offset, len);
      offset := offset + len;
    }
  }
}
