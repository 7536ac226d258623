# Grizzly register protocol, modelled in Dafny

This project models the register-protocol layer of the Grizzly motor
controller's host driver (`grizzly_drivers/libgrizzlyusb.py`). The driver talks
to the board through 16-byte command packets sent as USB control transfers.
Byte 0 of a packet is the first register address. Byte 1 carries a 7-bit
length, and its bit 7 marks a write. A write's data bytes follow, and the rest
of the packet is zero.

The project has five modules, one per part of the source:

- `Bytes` (`bytes.dfy`) covers the integer encodings:
  - `cast_to_byte`;
  - the little-endian two's-complement split done by `_set_as_int`;
  - the two decodings done by `_read_as_int`: unsigned composition for fewer
    than four received bytes, and `struct`'s signed `<i` for four or more.
- `Packets` (`packets.dfy`) covers the packet format, the protocol's
  exceptions as an `Error` datatype, and the framing loops of `set_register`
  and `read_register`.
- `Transport` (`transport.dfy`) holds class `GrizzlyUSB` with `send_bytes` and
  `exchange_bytes`. Instead of performing control transfers, the class
  appends each one to a `log`. What the device answers to an inbound transfer
  is passed in as a parameter (`reply`). An inbound transfer never returns
  more bytes than it asked for.
- `Registers` (`registers.dfy`) holds the `ControlMode`, `DriveMode` and
  `Addr` constants, the mode byte of `set_mode` and the payload of
  `set_target`.
- `Driver` (`driver.dfy`) holds class `Grizzly`. Its one mutable field is
  `ticks` (the source's `_ticks`), and it has every typed operation.

Each `Grizzly` method states the transfers it appends to the log. Exceptions
the source raises are returned as `Err` values. The source's `>>` on a
negative int floors; with a positive divisor, Dafny's `/` floors too, so
`val / 256^i` is `val >> 8*i`.

`_read_as_int` chooses the signed decoding by the length of the buffer
actually received, not by the width requested. The model follows the code:
a width-4 read that gets a short reply is composed unsigned.

`limit_current` and `init_pid` truncate with `int()`; they do not round. The
model follows the code, so `limit_current(5.0)` writes 67, not 135.

The packets are built from `chr` strings, so the model reads the code as
Python 2: `chr` accepts only 0..255. The module's first line imports
`division` from `__future__`, so `/` is true division, and
`read_pid_constants` returns each constant divided exactly by 2^16.

## Model

| member | source | states |
|---|---|---|
| Bytes.CastToByte | grizzly_drivers/libgrizzlyusb.py:191-192 | the result is the one byte congruent to the argument modulo 256 (Python's `& 0xff` on any int, negative ones included) |
| Bytes.CastAll | grizzly_drivers/libgrizzlyusb.py:78-79 | each datum of a write is cast to a byte in place; length kept |
| Bytes.LeBytes | grizzly_drivers/libgrizzlyusb.py:127-129 | a width-n encoding has exactly n bytes |
| Bytes.LeBytesAt | grizzly_drivers/libgrizzlyusb.py:128-129 | byte i of the encoding is `cast_to_byte(val >> 8*i)` |
| Bytes.IntToBytes | grizzly_drivers/libgrizzlyusb.py:127-129 | the `_set_as_int` loop yields `range(numBytes)` bytes (none for a negative width); byte i is `(val >> 8*i) & 0xff`, i.e. the little-endian two's-complement encoding |
| Bytes.FromLE | grizzly_drivers/libgrizzlyusb.py:116-118 | an unsigned composition of n bytes is below 256^n |
| Bytes.ComposeUnsigned | grizzly_drivers/libgrizzlyusb.py:116-119 | the `rtn \|= byte << 8*i` loop computes the unsigned little-endian value of the buffer; since `rtn < 256^i` before step i, the OR never overlaps |
| Bytes.UnpackInt32 | grizzly_drivers/libgrizzlyusb.py:113-114 | `<i` gives the unique signed 32-bit value congruent to the first four bytes' unsigned value modulo 2^32 |
| Bytes.DecodeInt | grizzly_drivers/libgrizzlyusb.py:112-119 | whichever branch `_read_as_int` takes, its result fits a signed 32-bit integer |
| Bytes.FromLEOfLeBytes | grizzly_drivers/libgrizzlyusb.py:108-130 | composing the n bytes `_set_as_int` writes gives back the value modulo 256^n |
| Bytes.LeBytesOfFromLE | grizzly_drivers/libgrizzlyusb.py:108-130 | conversely, every byte string is the encoding of the number it spells |
| Bytes.DecodeNarrow | grizzly_drivers/libgrizzlyusb.py:115-119 | widths below 4 read back unsigned: the value written, modulo 256^n (no sign extension) |
| Bytes.RoundTripUnsigned | grizzly_drivers/libgrizzlyusb.py:108-130 | widths 1 to 3: every value in [0, 256^n) survives write-then-read |
| Bytes.RoundTripSigned | grizzly_drivers/libgrizzlyusb.py:108-130 | widths 4 and more: every value in [-2^31, 2^31) survives write-then-read through `<i` |
| Packets.ParseFrame | grizzly_drivers/libgrizzlyusb.py:29-33 | reading a packet's header: the length field is at most 127; a write carries at most 14 data bytes, taken from bytes 2 onward |
| Packets.WriteFrame | grizzly_drivers/libgrizzlyusb.py:77-80 | a write packet is always 16 bytes |
| Packets.ReadFrame | grizzly_drivers/libgrizzlyusb.py:89-90 | a read packet is always 16 bytes |
| Packets.ParseWriteFrame | grizzly_drivers/libgrizzlyusb.py:76-80 | a write packet carries the address, `len(data) \| 0x80`, the payload, and zeros after the payload |
| Packets.WriteFrameOfParse | grizzly_drivers/libgrizzlyusb.py:76-80 | conversely, every 16-byte write packet with zero padding is the frame of the data it carries |
| Packets.ParseReadFrame | grizzly_drivers/libgrizzlyusb.py:88-90 | a read packet carries the address and the length, with the write bit clear and bytes 2-15 zero |
| Packets.ReadFrameOfParse | grizzly_drivers/libgrizzlyusb.py:88-90 | conversely, every zero-padded read packet is the frame of its header |
| Packets.BuildWriteFrame | grizzly_drivers/libgrizzlyusb.py:76-80 | fails with PayloadTooLong above 14 bytes, and with CharRange for an address outside 0..255; otherwise the loop builds exactly the write packet |
| Packets.BuildReadFrame | grizzly_drivers/libgrizzlyusb.py:88-90 | fails with ReadTooLong above 127 bytes, and with CharRange for a bad address or a negative length; otherwise builds exactly the read packet |
| Transport.CommandGetAddrIsRead | grizzly_drivers/libgrizzlyusb.py:7 | the `COMMAND_GET_ADDR` literal is the 1-byte read packet for `Addr.AddressList` (0x9B) |
| Transport.RequestedLength | grizzly_drivers/libgrizzlyusb.py:52-53 | an exchange asks for between 1 and 128 bytes |
| Transport.Received | grizzly_drivers/libgrizzlyusb.py:53 | an inbound transfer returns a prefix of what the device offers, never more than requested, and all of it when enough was offered |
| Transport.Response | grizzly_drivers/libgrizzlyusb.py:53 | dropping the first received byte leaves fewer bytes than were requested |
| Transport.ReadResponse | grizzly_drivers/libgrizzlyusb.py:50-53 | for a read of n bytes, the exchange requests n + 1 bytes and returns at most n; a full reply gives exactly its n bytes after the first |
| Transport.GrizzlyUSB.constructor | grizzly_drivers/libgrizzlyusb.py:8-25 | a freshly opened link has issued no transfers |
| Transport.GrizzlyUSB.SendBytes | grizzly_drivers/libgrizzlyusb.py:27-38 | a packet that is not 16 bytes is refused and nothing is sent; a 16-byte packet is sent as exactly one out-transfer |
| Transport.GrizzlyUSB.ExchangeBytes | grizzly_drivers/libgrizzlyusb.py:40-53 | a packet that is not 16 bytes is refused; otherwise there is one out-transfer, then one in-transfer of `(cmd[1] & 0x7f) + 1` bytes, and the result is the received bytes without the first |
| Registers.ModeByte | grizzly_drivers/libgrizzlyusb.py:98 | the mode byte always has bit 0 set and keeps every bit of the control and drive mode |
| Registers.ModeByteOfModes | grizzly_drivers/libgrizzlyusb.py:194-204 | for the enumerated modes the byte is 1 + control + drive (NO_PID with DRIVE_BRAKE is 0x13), and it determines both modes |
| Registers.TargetPayload | grizzly_drivers/libgrizzlyusb.py:105 | the setpoint payload has five bytes |
| Registers.TargetPayloadLayout | grizzly_drivers/libgrizzlyusb.py:100-106 | the payload is two zeros, the setpoint's low 16 bits little-endian, then a zero; those two bytes read back as setpoint mod 65536; the header byte is 0x85 |
| Driver.Truncate | grizzly_drivers/libgrizzlyusb.py:178 | `int()` truncates toward zero: the result lies between 0 and the argument, less than 1 away |
| Driver.ReadBackWritten | grizzly_drivers/libgrizzlyusb.py:108-130 | if the device answers a read with a status byte followed by the bytes a write of the same width stored, `_read_as_int` returns the written value: any signed 32-bit value at width 4, any unsigned value at widths 1 to 3 |
| Driver.EncoderRoundTrip | grizzly_drivers/libgrizzlyusb.py:139-147 | a signed 32-bit count written by `write_encoder` reads back unchanged through `read_encoder` |
| Driver.PidRoundTrip | grizzly_drivers/libgrizzlyusb.py:175-189 | a gain whose 16.16 value fits a signed 32-bit integer (roughly -32768 <= k < 32768) reads back through `read_pid_constants`, with true division, as the gain truncated toward zero to a multiple of 2^-16, within 2^-16 of it |
| Driver.ReadBackWraps | grizzly_drivers/libgrizzlyusb.py:112-114 | at width 4 any written value reads back as its low 32 bits taken as a signed 32-bit integer |
| Driver.PidGainWraps | grizzly_drivers/libgrizzlyusb.py:178-189 | outside that range the gain wraps: 32768 is written as 2^31 and reads back as -32768 |
| Driver.PidHalfRoundTrip | grizzly_drivers/libgrizzlyusb.py:178-189 | a gain of 0.5 is written by `init_pid` as 32768 and `read_pid_constants` returns exactly 0.5 |
| Driver.ReadValue | grizzly_drivers/libgrizzlyusb.py:112-119 | an integer read always yields a signed 32-bit value; when the reply holds the status byte and all n bytes, it is those bytes composed unsigned below width 4 and unpacked with `<i` from width 4 |
| Driver.FixedPoint | grizzly_drivers/libgrizzlyusb.py:178 | `int(x * 2**16)` is the gain truncated toward zero to a multiple of 2^-16: at most the gain and within 2^-16 of it for a non-negative gain, symmetrically for a negative one |
| Driver.CurrentLimitRaw | grizzly_drivers/libgrizzlyusb.py:172 | a non-negative limit becomes the number of whole raw units of (5/1024)(1000/66) A that fit in it (truncation, not rounding) |
| Driver.LimitCurrentFive | grizzly_drivers/libgrizzlyusb.py:172 | five amps is 67.584 raw units, so the raw limit written is 67 |
| Driver.Amps | grizzly_drivers/libgrizzlyusb.py:137 | the reported current is zero, positive or negative exactly as the raw reading is equal to, above or below 511 |
| Driver.Grizzly.constructor | grizzly_drivers/libgrizzlyusb.py:62-69 | `ticks` starts at 0; exactly two writes follow, in order: EnableUSB = 1 (1 byte), then Timeout = 0 (2 bytes) |
| Driver.Grizzly.SetRegister | grizzly_drivers/libgrizzlyusb.py:71-81 | more than 14 bytes fails with PayloadTooLong, and a bad address with CharRange; nothing is sent on failure; otherwise exactly one 16-byte write packet is sent |
| Driver.Grizzly.ReadRegister | grizzly_drivers/libgrizzlyusb.py:83-91 | more than 127 bytes fails with ReadTooLong, and a bad address or negative length with CharRange; nothing is sent on failure; otherwise one read exchange, returning at most numBytes bytes |
| Driver.Grizzly.ReadAsInt | grizzly_drivers/libgrizzlyusb.py:108-119 | the same failures as `read_register`; otherwise the decoded value of the received bytes, a signed 32-bit integer |
| Driver.Grizzly.SetAsInt | grizzly_drivers/libgrizzlyusb.py:121-130 | the same failures as `set_register`; otherwise one write of the `range(numBytes)` little-endian bytes of val (width 1 by default) |
| Driver.Grizzly.SetMode | grizzly_drivers/libgrizzlyusb.py:93-98 | exactly one 1-byte write of `0x01 \| controlmode \| drivemode` to register 0x01 |
| Driver.Grizzly.SetTarget | grizzly_drivers/libgrizzlyusb.py:100-106 | exactly one 5-byte write to register 0x04: zeros around the setpoint's low 16 bits, little-endian |
| Driver.Grizzly.ReadMotorCurrent | grizzly_drivers/libgrizzlyusb.py:132-137 | one 2-byte read of register 0x10, converted by `(5/1024)(1000/66)(raw - 511)` |
| Driver.Grizzly.ReadEncoder | grizzly_drivers/libgrizzlyusb.py:139-142 | one 4-byte read of register 0x20; the count is a signed 32-bit value |
| Driver.Grizzly.WriteEncoder | grizzly_drivers/libgrizzlyusb.py:144-147 | exactly one write of the count's four little-endian bytes to register 0x20 |
| Driver.Grizzly.HasReset | grizzly_drivers/libgrizzlyusb.py:149-157 | one 4-byte read of Uptime (0x94); returns true exactly when the reading is at most the stored `ticks`; afterwards `ticks` is the reading, in both cases |
| Driver.Grizzly.LimitAcceleration | grizzly_drivers/libgrizzlyusb.py:159-166 | accel >= 143 fails with AccelTooHigh and accel <= 0 with AccelNotPositive, sending nothing; otherwise the single byte accel goes to register 0x90 |
| Driver.Grizzly.LimitCurrent | grizzly_drivers/libgrizzlyusb.py:168-173 | a limit of 0 or less fails with CurrentNotPositive, sending nothing; otherwise the truncated raw value goes to register 0x82 in 2 bytes |
| Driver.Grizzly.InitPid | grizzly_drivers/libgrizzlyusb.py:175-181 | exactly three 4-byte writes, in this order: P to 0x30, I to 0x34, D to 0x38, each `int(x * 2**16)` |
| Driver.Grizzly.ReadPidConstants | grizzly_drivers/libgrizzlyusb.py:183-189 | three 4-byte reads in the order P, I, D, each value divided by 2^16 with true division |

## Left out

- Transport.GrizzlyUSB.constructor: device discovery is not modelled. That covers `usb.core.find`, detaching the kernel driver (and swallowing its `USBError`), and picking among several boards with `COMMAND_GET_ADDR`; all of it is USB enumeration. The link starts with an empty log, and `Grizzly`'s constructor takes no address.
- The control transfers themselves (HID Set_Report / Get_Report, Device Class Definition for HID 1.11, section 7.2) are recorded in the log, not performed. A transfer that fails (a stall, a timeout, a disconnect) is not modelled: every transfer completes.
- Driver.Grizzly.LimitCurrent: computed with exact real arithmetic. The float rounding of `curr * (1024.0/5.0) * (66.0/1000.0)` is not modelled, so a product that IEEE rounding pushes across an integer may truncate one unit differently. NaN and infinite arguments are not modelled.
- Driver.Grizzly.ReadMotorCurrent: computed with exact real arithmetic, so its IEEE rounding is not modelled. The sign facts of `Amps` hold under IEEE rounding too.
- Driver.Grizzly.InitPid: the gains are exact reals. Scaling a double by 2^16 is exact, so the only things not modelled are infinite and NaN gains (for which `int()` raises) and overflow to infinity.
- The type check in `_set_as_int` (line 125) compares with `type(int)`, which is `type`, so it never fires for an integer argument. It is not modelled.
- Driver.Grizzly.SetRegister: its data are Python ints. Float data, which `int()` would truncate before casting, are not modelled.
- The interactive scripts `grizzly_drivers/RunGrizzly.py` and `example/RunGrizzly.py` and the packaging file `setup.py` are not part of this model.
