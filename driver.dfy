// The high-level command API of the Grizzly driver (class `Grizzly`):
// raw register reads and writes, integer registers, the typed operations
// built on them, and the reset detector with its one piece of state.
//
// Every operation's effect is stated as the control transfers it appends
// to the transport log; a read takes the bytes the device would answer as
// a parameter.

module Driver {
  import opened Bytes
  import opened Packets
  import opened Transport
  import opened Registers

  /** The acceleration limit must stay below this value. */
  const ACCEL_CEILING: int := 143

  /** One PID unit in the controller's 16.16 fixed point. */
  const FIXED_ONE: real := 65536.0

  /** The out-transfer that writes `payload` starting at register `addr`. */
  function WriteTransfer(addr: byte, payload: seq<byte>): Transfer
    requires |payload| <= MAX_WRITE
  {
    SetReport(WriteFrame(addr, payload))
  }

  /** One raw current unit in amps: `(5/1024) * (1000/66)`. */
  const AMP_STEP: real := (5.0 / 1024.0) * (1000.0 / 66.0)

  /**
   * The value an integer read of `numBytes` registers at `addr` yields when
   * the device offers `reply`: always a signed 32-bit value; when the reply
   * holds the status byte and all `numBytes` bytes, those bytes decoded
   * unsigned below width 4 and as `<i` from width 4 on.
   */
  function ReadValue(addr: byte, numBytes: nat, reply: seq<byte>): (v: int)
    requires numBytes <= MAX_READ
    ensures Int32(v)
    ensures |reply| > numBytes && numBytes < 4 ==> v == FromLE(reply[1..numBytes + 1])
    ensures |reply| > numBytes && numBytes >= 4 ==> v == UnpackInt32(reply[1..numBytes + 1])
  {
    ReadResponse(addr, numBytes, reply);
    DecodeInt(Response(ReadFrame(addr, numBytes), reply))
  }

  /** Python's `int()` on a float: truncation toward zero. */
  function Truncate(x: real): (n: int)
    ensures 0.0 <= x ==> 0 <= n && n as real <= x < n as real + 1.0
    ensures x < 0.0 ==> n <= 0 && n as real - 1.0 < x <= n as real
  {
    if x >= 0.0 then x.Floor else -((-x).Floor)
  }

  /**
   * `init_pid`'s conversion of a gain: `int(x * 2**16)`. The 16.16 value is
   * the gain truncated toward zero to a multiple of 2^-16.
   */
  function FixedPoint(k: real): (v: int)
    ensures 0.0 <= k ==> 0 <= v && v as real / FIXED_ONE <= k < (v + 1) as real / FIXED_ONE
    ensures k < 0.0 ==> v <= 0 && (v - 1) as real / FIXED_ONE < k <= v as real / FIXED_ONE
  {
    Truncate(k * FIXED_ONE)
  }

  /**
   * `limit_current`'s conversion of amps to raw units:
   * `int(curr * (1024/5) * (66/1000))`. For a non-negative current it is the
   * number of whole raw units (each `AMP_STEP` amps) that fit in `curr`.
   */
  function CurrentLimitRaw(curr: real): (r: int)
    ensures 0.0 <= curr ==> 0 <= r && r as real * AMP_STEP <= curr < (r + 1) as real * AMP_STEP
    ensures curr < 0.0 ==> r <= 0 && (r - 1) as real * AMP_STEP < curr <= r as real * AMP_STEP
  {
    Truncate(curr * (1024.0 / 5.0) * (66.0 / 1000.0))
  }

  /** Five amps is 67.584 raw units, so `limit_current(5.0)` writes 67. */
  lemma LimitCurrentFive()
    ensures CurrentLimitRaw(5.0) == 67
  {
  }

  /**
   * `read_motor_current`'s conversion of the raw reading to amps, centred
   * on 511: the sign of the result is the raw reading's side of 511.
   */
  function Amps(raw: int): (a: real)
    ensures a == 0.0 <==> raw == 511
    ensures a > 0.0 <==> raw > 511
    ensures a < 0.0 <==> raw < 511
  {
    (5.0 / 1024.0) * (1000.0 / 66.0) * (raw - 511) as real
  }

  /**
   * Reading back what a write of `n` bytes put into the registers: when the
   * device answers a read of the same width with a status byte followed by
   * those bytes, the integer read returns the value written, for every
   * signed 32-bit value at width 4 and every unsigned value below 256^n at
   * widths 1 to 3.
   */
  lemma ReadBackWritten(addr: byte, val: int, n: nat, status: byte)
    requires 1 <= n <= MAX_WRITE
    requires (n >= 4 && Int32(val)) || (n < 4 && 0 <= val < Pow256(n))
    ensures ReadValue(addr, n, [status] + LeBytes(val, n)) == val
  {
    var reply := [status] + LeBytes(val, n);
    ReadResponse(addr, n, reply);
    assert reply[1..n + 1] == LeBytes(val, n);
    if n >= 4 {
      RoundTripSigned(val, n);
    } else {
      RoundTripUnsigned(val, n);
    }
  }

  /** An encoder count written by `write_encoder` reads back unchanged through `read_encoder`. */
  lemma EncoderRoundTrip(count: int, status: byte)
    requires Int32(count)
    ensures ReadValue(ENCODER_COUNT, 4, [status] + LeBytes(count, 4)) == count
  {
    ReadBackWritten(ENCODER_COUNT, count, 4, status);
  }

  /**
   * A gain written by `init_pid` and read back by `read_pid_constants` comes
   * back as its fixed-point value: the gain truncated toward zero to a
   * multiple of 2^-16, so within 2^-16 of the original.
   */
  lemma PidRoundTrip(addr: byte, k: real, status: byte)
    requires Int32(FixedPoint(k))
    ensures ReadValue(addr, 4, [status] + LeBytes(FixedPoint(k), 4)) as real / FIXED_ONE
            == FixedPoint(k) as real / FIXED_ONE
    ensures var back := FixedPoint(k) as real / FIXED_ONE;
            (k >= 0.0 ==> back <= k < back + 1.0 / FIXED_ONE) &&
            (k < 0.0 ==> back - 1.0 / FIXED_ONE < k <= back)
  {
    ReadBackWritten(addr, FixedPoint(k), 4, status);
  }

  /**
   * At width 4 the read-back of any written value is its low 32 bits taken
   * as a signed 32-bit integer: a value outside that range wraps.
   */
  lemma ReadBackWraps(addr: byte, val: int, status: byte)
    ensures var low := val % TWO_32;
            ReadValue(addr, 4, [status] + LeBytes(val, 4)) == (if low < TWO_31 then low else low - TWO_32)
  {
    var reply := [status] + LeBytes(val, 4);
    assert reply[1..5] == LeBytes(val, 4);
    assert LeBytes(val, 4)[..4] == LeBytes(val, 4);
    FromLEOfLeBytes(val, 4);
    assert Pow256(4) == TWO_32;
  }

  /**
   * A gain of 32768 or more does not fit the 16.16 register: 32768 is
   * written as 2^31 and reads back through `read_pid_constants` as -32768.
   */
  lemma PidGainWraps(addr: byte, status: byte)
    ensures FixedPoint(32768.0) == TWO_31
    ensures ReadValue(addr, 4, [status] + LeBytes(FixedPoint(32768.0), 4)) as real / FIXED_ONE == -32768.0
  {
    ReadBackWraps(addr, TWO_31, status);
    DivModUnique(TWO_31, TWO_32, 0, TWO_31);
  }

  /**
   * A gain of 0.5 is written by `init_pid` as 32768 and comes back from
   * `read_pid_constants` as 0.5: a gain on the 2^-16 grid survives exactly.
   */
  lemma PidHalfRoundTrip(status: byte)
    ensures FixedPoint(0.5) == 32768
    ensures ReadValue(P_CONSTANT, 4, [status] + LeBytes(FixedPoint(0.5), 4)) as real / FIXED_ONE == 0.5
  {
    ReadBackWritten(P_CONSTANT, 32768, 4, status);
  }

  /** The host side of one Grizzly board. */
  class Grizzly {
    /** The USB link (`_dev`). */
    const dev: GrizzlyUSB
    /** The last uptime reading (`_ticks`). */
    var ticks: int

    /**
     * Opens the link, clears the stored uptime, then enables USB control
     * (1 byte, value 1) and disables the communication timeout (2 bytes,
     * value 0), in that order.
     */
    constructor ()
      ensures fresh(dev) && ticks == 0
      ensures dev.log == [WriteTransfer(ENABLE_USB, [1]), WriteTransfer(TIMEOUT, [0, 0])]
    {
      dev := new GrizzlyUSB();
      ticks := 0;
      new;
      var _ := SetAsInt(ENABLE_USB as int, 1);
      var _ := SetAsInt(TIMEOUT as int, 0, 2);
      assert LeBytes(1, 1) == [1] && LeBytes(0, 2) == [0, 0];
    }

    /**
     * `set_register`: refuses more than 14 bytes and an address `chr`
     * rejects; otherwise sends exactly one packet holding the address, the
     * length with the write flag, each datum cast to a byte, then zeros.
     */
    method SetRegister(addr: int, data: seq<int>) returns (r: Result<()>)
      modifies dev
      ensures |data| > MAX_WRITE ==> r == Err(PayloadTooLong)
      ensures |data| <= MAX_WRITE && !IsByte(addr) ==> r == Err(CharRange)
      ensures r.Ok? <==> |data| <= MAX_WRITE && IsByte(addr)
      ensures dev.log == old(dev.log) + (if r.Ok? then [WriteTransfer(addr as byte, CastAll(data))] else [])
    {
      var cmd := BuildWriteFrame(addr, data);
      if cmd.Err? {
        return Err(cmd.error);
      }
      r := dev.SendBytes(cmd.value);
    }

    /**
     * `read_register`: refuses more than 127 bytes, an address or a length
     * `chr` rejects; otherwise sends the read packet and returns what the
     * exchange hands back (at most `numBytes` bytes).
     */
    method ReadRegister(addr: int, numBytes: int, reply: seq<byte>) returns (r: Result<seq<byte>>)
      modifies dev
      ensures numBytes > MAX_READ ==> r == Err(ReadTooLong)
      ensures numBytes <= MAX_READ && !(IsByte(addr) && numBytes >= 0) ==> r == Err(CharRange)
      ensures r.Ok? <==> 0 <= numBytes <= MAX_READ && IsByte(addr)
      ensures r.Err? ==> dev.log == old(dev.log)
      ensures r.Ok? ==> (r.value == Response(ReadFrame(addr as byte, numBytes), reply) &&
                         |r.value| <= numBytes &&
                         dev.log == old(dev.log) + ExchangeLog(ReadFrame(addr as byte, numBytes), reply))
    {
      var cmd := BuildReadFrame(addr, numBytes);
      if cmd.Err? {
        return Err(cmd.error);
      }
      r := dev.ExchangeBytes(cmd.value, reply);
      ReadResponse(addr as byte, numBytes, reply);
    }

    /**
     * `_read_as_int`: reads `numBytes` registers and turns the bytes
     * received into an integer, signed 32-bit when four or more arrived,
     * unsigned little-endian otherwise.
     */
    method ReadAsInt(addr: int, numBytes: int, reply: seq<byte>) returns (r: Result<int>)
      modifies dev
      ensures numBytes > MAX_READ ==> r == Err(ReadTooLong)
      ensures numBytes <= MAX_READ && !(IsByte(addr) && numBytes >= 0) ==> r == Err(CharRange)
      ensures r.Ok? <==> 0 <= numBytes <= MAX_READ && IsByte(addr)
      ensures r.Err? ==> dev.log == old(dev.log)
      ensures r.Ok? ==> (r.value == ReadValue(addr as byte, numBytes, reply) && Int32(r.value) &&
                         dev.log == old(dev.log) + ExchangeLog(ReadFrame(addr as byte, numBytes), reply))
    {
      var res := ReadRegister(addr, numBytes, reply);
      if res.Err? {
        return Err(res.error);
      }
      var buf := res.value;
      if |buf| >= 4 {
        return Ok(UnpackInt32(buf));
      }
      var rtn := ComposeUnsigned(buf);
      return Ok(rtn);
    }

    /**
     * `_set_as_int`: writes the low `numBytes` bytes of `val` (one by
     * default), least significant first, starting at `addr`; fails as
     * `set_register` does.
     */
    method SetAsInt(addr: int, val: int, numBytes: int := 1) returns (r: Result<()>)
      modifies dev
      ensures numBytes > MAX_WRITE ==> r == Err(PayloadTooLong)
      ensures numBytes <= MAX_WRITE && !IsByte(addr) ==> r == Err(CharRange)
      ensures r.Ok? <==> numBytes <= MAX_WRITE && IsByte(addr)
      ensures dev.log == old(dev.log) +
        (if r.Ok? then [WriteTransfer(addr as byte, LeBytes(val, RangeLength(numBytes)))] else [])
    {
      var buf := IntToBytes(val, numBytes);
      r := SetRegister(addr, Widen(buf));
    }

    /** `set_mode`: one byte, `0x01 | controlmode | drivemode`, to the mode register. */
    method SetMode(controlMode: int, driveMode: int)
      modifies dev
      ensures dev.log == old(dev.log) + [WriteTransfer(MODE, [CastToByte(ModeByte(controlMode, driveMode) as int)])]
    {
      // `set_register` casts every element of its list, the one mode byte
      // included; the cast leaves a byte unchanged.
      var mode := ModeByte(controlMode, driveMode) as int;
      assert CastAll([mode]) == [CastToByte(mode)];
      var _ := SetRegister(MODE as int, [mode]);
    }

    /**
     * `set_target`: five bytes to the speed register, the setpoint's low
     * 16 bits little-endian in the middle, zeros around them.
     */
    method SetTarget(setpoint: int)
      modifies dev
      ensures dev.log == old(dev.log) + [WriteTransfer(SPEED, [0, 0] + LeBytes(setpoint, 2) + [0])]
    {
      TargetPayloadLayout(setpoint);
      var _ := SetRegister(SPEED as int, TargetPayload(setpoint));
    }

    /** `read_motor_current`: two registers, unsigned, converted to amps. */
    method ReadMotorCurrent(reply: seq<byte>) returns (amps: real)
      modifies dev
      ensures amps == Amps(ReadValue(MOTOR_CURRENT, 2, reply))
      ensures dev.log == old(dev.log) + ExchangeLog(ReadFrame(MOTOR_CURRENT, 2), reply)
    {
      var raw := ReadAsInt(MOTOR_CURRENT as int, 2, reply);
      amps := Amps(raw.value);
    }

    /** `read_encoder`: the signed 32-bit tick count. */
    method ReadEncoder(reply: seq<byte>) returns (count: int)
      modifies dev
      ensures count == ReadValue(ENCODER_COUNT, 4, reply) && Int32(count)
      ensures dev.log == old(dev.log) + ExchangeLog(ReadFrame(ENCODER_COUNT, 4), reply)
    {
      var r := ReadAsInt(ENCODER_COUNT as int, 4, reply);
      count := r.value;
    }

    /** `write_encoder`: overwrites the tick count with the four low bytes of `count`. */
    method WriteEncoder(count: int)
      modifies dev
      ensures dev.log == old(dev.log) + [WriteTransfer(ENCODER_COUNT, LeBytes(count, 4))]
    {
      var _ := SetAsInt(ENCODER_COUNT as int, count, 4);
    }

    /**
     * `has_reset`: reads the uptime counter; reports a reset exactly when
     * the new reading is not above the stored one, and stores the new
     * reading either way.
     */
    method HasReset(reply: seq<byte>) returns (reset: bool)
      modifies this, dev
      ensures reset <==> ReadValue(UPTIME, 4, reply) <= old(ticks)
      ensures ticks == ReadValue(UPTIME, 4, reply) && Int32(ticks)
      ensures dev.log == old(dev.log) + ExchangeLog(ReadFrame(UPTIME, 4), reply)
    {
      var r := ReadAsInt(UPTIME as int, 4, reply);
      var currentTime := r.value;
      if currentTime <= ticks {
        ticks := currentTime;
        return true;
      }
      ticks := currentTime;
      return false;
    }

    /**
     * `limit_acceleration`: refuses a limit of 143 or more and one of 0 or
     * less without sending anything; otherwise writes the single byte to
     * the acceleration-limit register.
     */
    method LimitAcceleration(accel: int) returns (r: Result<()>)
      modifies dev
      ensures accel >= ACCEL_CEILING ==> r == Err(AccelTooHigh)
      ensures accel <= 0 ==> r == Err(AccelNotPositive)
      ensures r.Ok? <==> 0 < accel < ACCEL_CEILING
      ensures dev.log == old(dev.log) + (if r.Ok? then [WriteTransfer(ACCEL_LIMIT, [accel as byte])] else [])
    {
      if accel >= ACCEL_CEILING {
        return Err(AccelTooHigh);
      }
      if accel <= 0 {
        return Err(AccelNotPositive);
      }
      r := SetAsInt(ACCEL_LIMIT as int, accel);
      assert LeBytes(accel, 1) == [accel as byte];
    }

    /**
     * `limit_current`: refuses a limit of 0 amps or less without sending
     * anything; otherwise writes the truncated raw value in two bytes.
     */
    method LimitCurrent(curr: real) returns (r: Result<()>)
      modifies dev
      ensures r.Ok? <==> curr > 0.0
      ensures r.Err? ==> r.error == CurrentNotPositive
      ensures dev.log == old(dev.log) +
        (if r.Ok? then [WriteTransfer(CURRENT_LIMIT, LeBytes(CurrentLimitRaw(curr), 2))] else [])
    {
      if curr <= 0.0 {
        return Err(CurrentNotPositive);
      }
      var current := CurrentLimitRaw(curr);
      r := SetAsInt(CURRENT_LIMIT as int, current, 2);
    }

    /** `init_pid`: the three gains in 16.16 fixed point, written P, then I, then D. */
    method InitPid(kp: real, ki: real, kd: real)
      modifies dev
      ensures dev.log == old(dev.log) + [WriteTransfer(P_CONSTANT, LeBytes(FixedPoint(kp), 4)),
                                         WriteTransfer(I_CONSTANT, LeBytes(FixedPoint(ki), 4)),
                                         WriteTransfer(D_CONSTANT, LeBytes(FixedPoint(kd), 4))]
    {
      var p, i, d := FixedPoint(kp), FixedPoint(ki), FixedPoint(kd);
      var _ := SetAsInt(P_CONSTANT as int, p, 4);
      var _ := SetAsInt(I_CONSTANT as int, i, 4);
      var _ := SetAsInt(D_CONSTANT as int, d, 4);
    }

    /**
     * `read_pid_constants`: reads P, I and D in that order and scales each
     * by 2^-16. The module imports `division` from `__future__`, so `/` is
     * true division.
     */
    method ReadPidConstants(pReply: seq<byte>, iReply: seq<byte>, dReply: seq<byte>)
      returns (p: real, i: real, d: real)
      modifies dev
      ensures p == ReadValue(P_CONSTANT, 4, pReply) as real / FIXED_ONE
      ensures i == ReadValue(I_CONSTANT, 4, iReply) as real / FIXED_ONE
      ensures d == ReadValue(D_CONSTANT, 4, dReply) as real / FIXED_ONE
      ensures dev.log == old(dev.log) + ExchangeLog(ReadFrame(P_CONSTANT, 4), pReply)
                                      + ExchangeLog(ReadFrame(I_CONSTANT, 4), iReply)
                                      + ExchangeLog(ReadFrame(D_CONSTANT, 4), dReply)
    {
      var rp := ReadAsInt(P_CONSTANT as int, 4, pReply);
      var ri := ReadAsInt(I_CONSTANT as int, 4, iReply);
      var rd := ReadAsInt(D_CONSTANT as int, 4, dReply);
      p, i, d := rp.value as real / FIXED_ONE, ri.value as real / FIXED_ONE, rd.value as real / FIXED_ONE;
    }
  }
}
