// The low-level link to one Grizzly: `GrizzlyUSB.send_bytes` and
// `GrizzlyUSB.exchange_bytes`. Each USB control transfer is recorded in a
// log instead of being performed; what the device answers to an inbound
// transfer is supplied by the caller.

module Transport {
  import opened Bytes
  import opened Packets
  import opened Registers

  /**
   * One control transfer as the driver issues it. The out-transfer is the
   * HID Set_Report request (0x21, 0x09, 0x0300, 0) carrying a packet; the
   * in-transfer is Get_Report (0xa1, 0x01, 0x0301, 0) asking for `length`
   * bytes and receiving `received`.
   */
  datatype Transfer =
    | SetReport(packet: seq<byte>)
    | GetReport(length: nat, received: seq<byte>)

  /**
   * The class constant `COMMAND_GET_ADDR`, written out byte by byte as the
   * source spells it; device discovery sends it to learn a board's address.
   */
  const COMMAND_GET_ADDR: seq<byte> := [0x9b, 0x01, 0, 0, 0, 0, 0, 0, 0, 0, 0, 0, 0, 0, 0, 0]

  /** The literal is the read packet for one byte of the AddressList register. */
  lemma CommandGetAddrIsRead()
    ensures COMMAND_GET_ADDR == ReadFrame(ADDRESS_LIST, 1)
  {
  }

  /** The number of bytes `exchange_bytes` asks for: `(ord(cmd[1]) & 0x7f) + 1`. */
  function RequestedLength(cmd: seq<byte>): (n: nat)
    requires |cmd| >= 2
    ensures 1 <= n <= MAX_READ + 1
  {
    cmd[1] as int % 128 + 1
  }

  /**
   * What an in-transfer asking for `length` bytes hands back when the device
   * offers `reply`: never more than was asked for.
   */
  function Received(reply: seq<byte>, length: nat): (got: seq<byte>)
    ensures |got| <= length
    ensures got <= reply
    ensures |reply| >= length ==> |got| == length
  {
    if |reply| <= length then reply else reply[..length]
  }

  /** The result of `exchange_bytes`: the received bytes without the leading one (`[1::]`). */
  function Response(cmd: seq<byte>, reply: seq<byte>): (data: seq<byte>)
    requires |cmd| >= 2
    ensures |data| < RequestedLength(cmd)
  {
    var got := Received(reply, RequestedLength(cmd));
    if got == [] then [] else got[1..]
  }

  /** The two transfers `exchange_bytes` performs for `cmd` when the device offers `reply`. */
  function ExchangeLog(cmd: seq<byte>, reply: seq<byte>): seq<Transfer>
    requires |cmd| >= 2
  {
    [SetReport(cmd), GetReport(RequestedLength(cmd), Received(reply, RequestedLength(cmd)))]
  }

  /**
   * For a read packet of `numBytes` bytes, `exchange_bytes` asks for one
   * byte more than `numBytes` and returns at most `numBytes` bytes; a reply
   * that is long enough gives exactly the `numBytes` bytes after the first.
   */
  lemma ReadResponse(addr: byte, numBytes: nat, reply: seq<byte>)
    requires numBytes <= MAX_READ
    ensures RequestedLength(ReadFrame(addr, numBytes)) == numBytes + 1
    ensures |Response(ReadFrame(addr, numBytes), reply)| <= numBytes
    ensures |reply| > numBytes ==> Response(ReadFrame(addr, numBytes), reply) == reply[1..numBytes + 1]
  {
    var cmd := ReadFrame(addr, numBytes);
    assert cmd[1] as int == numBytes;
    if |reply| > numBytes {
      assert Received(reply, numBytes + 1) == reply[..numBytes + 1];
    }
  }

  /** The handle on one claimed Grizzly board; discovery is outside this model. */
  class GrizzlyUSB {
    /** Every control transfer issued so far, oldest first. */
    var log: seq<Transfer>

    constructor ()
      ensures log == []
    {
      log := [];
    }

    /** `send_bytes`: a packet of exactly 16 bytes goes out in one transfer; anything else is refused. */
    method SendBytes(cmd: seq<byte>) returns (r: Result<()>)
      modifies this
      ensures r.Ok? <==> |cmd| == PACKET_LEN
      ensures r.Err? ==> r.error == WrongPacketLength
      ensures log == old(log) + (if r.Ok? then [SetReport(cmd)] else [])
    {
      if |cmd| != PACKET_LEN {
        return Err(WrongPacketLength);
      }
      log := log + [SetReport(cmd)];
      return Ok(());
    }

    /**
     * `exchange_bytes`: a packet of exactly 16 bytes goes out, then one
     * in-transfer asks for the length in its header plus one; the bytes
     * after the first are returned.
     */
    method ExchangeBytes(cmd: seq<byte>, reply: seq<byte>) returns (r: Result<seq<byte>>)
      modifies this
      ensures r.Ok? <==> |cmd| == PACKET_LEN
      ensures r.Err? ==> r.error == WrongPacketLength && log == old(log)
      ensures r.Ok? ==> r.value == Response(cmd, reply) && log == old(log) + ExchangeLog(cmd, reply)
    {
      if |cmd| != PACKET_LEN {
        return Err(WrongPacketLength);
      }
      log := log + [SetReport(cmd)];
      var numBytes := cmd[1] as int % 128;
      var got := Received(reply, numBytes + 1);
      log := log + [GetReport(numBytes + 1, got)];
      return Ok(if got == [] then [] else got[1..]);
    }
  }
}
