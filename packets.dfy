// The 16-byte command packet of the Grizzly register protocol and the two
// ways the driver frames one: `set_register` (write) and `read_register`
// (read).
//
// Byte 0 is the first register address, bits 0-6 of byte 1 the number of
// registers, bit 7 of byte 1 the write flag; a write carries its data in
// bytes 2-15 and every unused byte is zero.

module Packets {
  import opened Bytes

  const PACKET_LEN: nat := 16
  /** At most 14 data bytes fit behind the two header bytes. */
  const MAX_WRITE: nat := 14
  /** The length field has seven bits. */
  const MAX_READ: nat := 0x7f
  const WRITE_FLAG: nat := 0x80

  /** The exceptions the protocol layer raises. */
  datatype Error =
    | PayloadTooLong      // AssertionError in set_register: more than 14 bytes
    | ReadTooLong         // AssertionError in read_register: more than 127 bytes
    | WrongPacketLength   // AssertionError in send_bytes / exchange_bytes
    | CharRange           // ValueError from chr(): a header value outside 0..255
    | AccelTooHigh        // ValueError in limit_acceleration: accel >= 143
    | AccelNotPositive    // ValueError in limit_acceleration: accel <= 0
    | CurrentNotPositive  // ValueError in limit_current: curr <= 0

  datatype Result<+T> = Ok(value: T) | Err(error: Error)

  /** The values Python 2's `chr` accepts. */
  predicate IsByte(v: int)
  {
    0 <= v < 256
  }

  function Zeros(n: nat): (z: seq<byte>)
    ensures |z| == n
    ensures forall i :: 0 <= i < n ==> z[i] == 0
  {
    seq(n, _ => 0)
  }

  /** Every byte of `p` from index `from` on is zero padding. */
  predicate PaddedFrom(p: seq<byte>, from: nat)
  {
    forall k :: from <= k < |p| ==> p[k] == 0
  }

  /** The header fields of a command packet and, for a write, its data bytes. */
  datatype Frame = Frame(addr: byte, length: nat, write: bool, data: seq<byte>)

  /**
   * How a 16-byte packet reads under the documented format: the length is
   * byte 1 without its top bit (`& 0x7f`), the write flag is that top bit,
   * and a write's data are the `length` bytes after the header (at most the
   * 14 the packet has room for).
   */
  function ParseFrame(p: seq<byte>): (f: Frame)
    requires |p| == PACKET_LEN
    ensures f.length <= MAX_READ
    ensures f.write ==> |f.data| <= MAX_WRITE && f.data == p[2..2 + |f.data|]
    ensures !f.write ==> f.data == []
  {
    var len := p[1] as int % 128;
    var write := p[1] as int >= WRITE_FLAG;
    var n := if len <= MAX_WRITE then len else MAX_WRITE;
    Frame(p[0], len, write, if write then p[2..2 + n] else [])
  }

  /**
   * The packet `set_register` sends for an already byte-cast payload:
   * address, `len(data) | 0x80` (an addition, as the length is below 128),
   * the payload, then zeros up to 16 bytes.
   */
  function WriteFrame(addr: byte, payload: seq<byte>): (p: seq<byte>)
    requires |payload| <= MAX_WRITE
    ensures |p| == PACKET_LEN
  {
    [addr, (|payload| + WRITE_FLAG) as byte] + payload + Zeros(MAX_WRITE - |payload|)
  }

  /** The packet `read_register` sends: address, length with bit 7 clear, zeros. */
  function ReadFrame(addr: byte, numBytes: nat): (p: seq<byte>)
    requires numBytes <= MAX_READ
    ensures |p| == PACKET_LEN
  {
    [addr, numBytes as byte] + Zeros(MAX_WRITE)
  }

  /** A write packet carries its address, its length, the write flag and its payload, then zeros. */
  lemma ParseWriteFrame(addr: byte, payload: seq<byte>)
    requires |payload| <= MAX_WRITE
    ensures ParseFrame(WriteFrame(addr, payload)) == Frame(addr, |payload|, true, payload)
    ensures PaddedFrom(WriteFrame(addr, payload), 2 + |payload|)
  {
    var p := WriteFrame(addr, payload);
    assert p[2..2 + |payload|] == payload;
  }

  /** Conversely, every well-formed write packet is the frame of the data it carries. */
  lemma WriteFrameOfParse(p: seq<byte>)
    requires |p| == PACKET_LEN
    requires ParseFrame(p).write && ParseFrame(p).length <= MAX_WRITE
    requires PaddedFrom(p, 2 + ParseFrame(p).length)
    ensures WriteFrame(ParseFrame(p).addr, ParseFrame(p).data) == p
  {
    var f := ParseFrame(p);
    var q := WriteFrame(f.addr, f.data);
    assert p[1] as int == f.length + WRITE_FLAG;
    forall k | 0 <= k < PACKET_LEN
      ensures q[k] == p[k]
    {
      if 2 <= k < 2 + f.length {
        assert q[k] == f.data[k - 2];
      }
    }
  }

  /** A read packet carries its address and length with the write flag clear, then zeros. */
  lemma ParseReadFrame(addr: byte, numBytes: nat)
    requires numBytes <= MAX_READ
    ensures ParseFrame(ReadFrame(addr, numBytes)) == Frame(addr, numBytes, false, [])
    ensures PaddedFrom(ReadFrame(addr, numBytes), 2)
  {
  }

  /** Conversely, every read packet with zero padding is the frame of its header. */
  lemma ReadFrameOfParse(p: seq<byte>)
    requires |p| == PACKET_LEN
    requires !ParseFrame(p).write && PaddedFrom(p, 2)
    ensures ReadFrame(ParseFrame(p).addr, ParseFrame(p).length) == p
  {
    var q := ReadFrame(ParseFrame(p).addr, ParseFrame(p).length);
    forall k | 0 <= k < PACKET_LEN
      ensures q[k] == p[k]
    {
    }
  }

  /**
   * The framing half of `set_register`: the length check, the header, the
   * loop that appends each datum cast to a byte, then the zero padding.
   */
  method BuildWriteFrame(addr: int, data: seq<int>) returns (r: Result<seq<byte>>)
    ensures |data| > MAX_WRITE ==> r == Err(PayloadTooLong)
    ensures |data| <= MAX_WRITE && !IsByte(addr) ==> r == Err(CharRange)
    ensures |data| <= MAX_WRITE && IsByte(addr) ==> r == Ok(WriteFrame(addr as byte, CastAll(data)))
  {
    if |data| > MAX_WRITE {
      return Err(PayloadTooLong);
    }
    if !IsByte(addr) {
      return Err(CharRange);
    }
    var header: seq<byte> := [addr as byte, (|data| + WRITE_FLAG) as byte];
    var cmd := header;
    for i := 0 to |data|
      invariant cmd == header + CastAll(data[..i])
    {
      assert CastAll(data[..i + 1]) == CastAll(data[..i]) + [CastToByte(data[i])];
      cmd := cmd + [CastToByte(data[i])];
    }
    assert data[..|data|] == data;
    cmd := cmd + Zeros(PACKET_LEN - |cmd|);
    return Ok(cmd);
  }

  /**
   * The framing half of `read_register`: the length check, then the header
   * (whose `chr` calls reject an address outside 0..255 and a negative
   * length) and the zero padding.
   */
  method BuildReadFrame(addr: int, numBytes: int) returns (r: Result<seq<byte>>)
    ensures numBytes > MAX_READ ==> r == Err(ReadTooLong)
    ensures numBytes <= MAX_READ && !(IsByte(addr) && numBytes >= 0) ==> r == Err(CharRange)
    ensures 0 <= numBytes <= MAX_READ && IsByte(addr) ==> r == Ok(ReadFrame(addr as byte, numBytes))
  {
    if numBytes > MAX_READ {
      return Err(ReadTooLong);
    }
    if !IsByte(addr) || numBytes < 0 {
      return Err(CharRange);
    }
    var cmd: seq<byte> := [addr as byte, numBytes as byte];
    cmd := cmd + Zeros(PACKET_LEN - |cmd|);
    return Ok(cmd);
  }
}
