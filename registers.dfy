// The Grizzly register map and the byte values the typed operations put
// into it: the mode byte of `set_mode` and the setpoint payload of
// `set_target`.

module Registers {
  import opened Bytes
  import opened Packets

  // ControlMode: inputs to set_mode.
  const NO_PID: int := 0x02
  const SPEED_PID: int := 0x04
  const POSITION_PID: int := 0x06

  // DriveMode: inputs to set_mode.
  const DRIVE_COAST: int := 0x00
  const DRIVE_BRAKE: int := 0x10
  const BRAKE_COAST: int := 0x20

  // Addr: the first register of each field.
  const MODE: byte := 0x01
  const SPEED: byte := 0x04
  const MOTOR_CURRENT: byte := 0x10
  const ENCODER_COUNT: byte := 0x20
  const P_CONSTANT: byte := 0x30
  const I_CONSTANT: byte := 0x34
  const D_CONSTANT: byte := 0x38
  const TIMEOUT: byte := 0x80
  const CURRENT_LIMIT: byte := 0x82
  const ACCEL_LIMIT: byte := 0x90
  const UPTIME: byte := 0x94
  const ENABLE_USB: byte := 0x9A
  const ADDRESS_LIST: byte := 0x9B

  predicate IsControlMode(c: int)
  {
    c == NO_PID || c == SPEED_PID || c == POSITION_PID
  }

  predicate IsDriveMode(d: int)
  {
    d == DRIVE_COAST || d == DRIVE_BRAKE || d == BRAKE_COAST
  }

  /**
   * The byte `set_mode` writes: `0x01 | controlmode | drivemode`, cast to a
   * byte by `set_register`. Masking an OR to eight bits is the OR of the
   * masked operands, so the OR is taken on bytes. The modes are not
   * checked: any ints pass through. Bit 0 is always set.
   */
  function ModeByte(controlMode: int, driveMode: int): (b: bv8)
    ensures b & 1 == 1
    ensures b & (CastToByte(controlMode) as bv8) == CastToByte(controlMode) as bv8
    ensures b & (CastToByte(driveMode) as bv8) == CastToByte(driveMode) as bv8
  {
    1 | CastToByte(controlMode) as bv8 | CastToByte(driveMode) as bv8
  }

  /**
   * For the enumerated modes the three fields occupy disjoint bits: the
   * mode byte is their sum, and it determines both modes.
   */
  lemma ModeByteOfModes(c: int, d: int)
    requires IsControlMode(c) && IsDriveMode(d)
    ensures ModeByte(c, d) as int == 1 + c + d
    ensures forall c', d' :: IsControlMode(c') && IsDriveMode(d') && ModeByte(c', d') == ModeByte(c, d) ==> c' == c && d' == d
  {
  }

  /**
   * The five-byte payload `set_target` writes to the speed register:
   * two zero bytes, the setpoint's low byte, its second byte, a zero byte.
   */
  function TargetPayload(setpoint: int): (buf: seq<int>)
    ensures |buf| == 5
  {
    [0, 0, CastToByte(setpoint) as int, CastToByte(setpoint / 256) as int, 0]
  }

  /**
   * The setpoint travels as its low 16 bits in little-endian order in
   * payload bytes 2 and 3; the other three bytes are zero.
   */
  lemma TargetPayloadLayout(setpoint: int)
    ensures CastAll(TargetPayload(setpoint)) == [0, 0] + LeBytes(setpoint, 2) + [0]
    ensures FromLE(CastAll(TargetPayload(setpoint))[2..4]) == setpoint % 0x1_0000
    ensures WriteFrame(SPEED, CastAll(TargetPayload(setpoint)))[1] == 0x85
  {
    var p := CastAll(TargetPayload(setpoint));
    assert LeBytes(setpoint, 2) == [CastToByte(setpoint), CastToByte(setpoint / 256)];
    assert p == [0, 0] + LeBytes(setpoint, 2) + [0];
    assert p[2..4] == LeBytes(setpoint, 2);
    FromLEOfLeBytes(setpoint, 2);
  }
}
