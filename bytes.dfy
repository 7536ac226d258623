// Integer <-> byte conversions used by the Grizzly register protocol:
// `cast_to_byte`, the little-endian two's-complement split of `_set_as_int`
// and the two decodings of `_read_as_int`.

module Bytes {

  /** One octet of a USB packet (a Python 2 `chr`). */
  newtype byte = x: int | 0 <= x < 256

  const TWO_31: int := 0x8000_0000
  const TWO_32: int := 0x1_0000_0000

  /** The range of a signed 32-bit integer, the width of `struct`'s `<i` format. */
  predicate Int32(v: int)
  {
    -TWO_31 <= v < TWO_31
  }

  /** The number of iterations of Python's `range(n)`. */
  function RangeLength(n: int): (len: nat)
    ensures n >= 0 ==> len == n
    ensures n < 0 ==> len == 0
  {
    if n < 0 then 0 else n
  }

  /** 256 to the power `i`: the weight of byte `i` in a little-endian number. */
  function Pow256(i: nat): (p: nat)
    ensures p > 0
  {
    if i == 0 then 1 else 256 * Pow256(i - 1)
  }

  /**
   * `cast_to_byte(v)` is `int(v) & 0xff`. Python's `&` on a negative int acts
   * on its infinite two's-complement form, so the result is the one byte
   * congruent to `v` modulo 256; Dafny's `%` is Euclidean and gives the same.
   */
  function CastToByte(v: int): (b: byte)
    ensures (v - b as int) % 256 == 0
  {
    (v % 256) as byte
  }

  /** Every element of `data` cast to a byte, position by position. */
  function CastAll(data: seq<int>): (bs: seq<byte>)
    ensures |bs| == |data|
    ensures forall i :: 0 <= i < |data| ==> bs[i] == CastToByte(data[i])
  {
    seq(|data|, i requires 0 <= i < |data| => CastToByte(data[i]))
  }

  /** Bytes seen as Python ints (the list handed on to `set_register`). */
  function Widen(bs: seq<byte>): (data: seq<int>)
    ensures |data| == |bs|
    ensures CastAll(data) == bs
  {
    seq(|bs|, i requires 0 <= i < |bs| => bs[i] as int)
  }

  /**
   * The low `n` bytes of `val`, least significant first, two's complement.
   * Python's `val >> 8` floors for negative `val`, as does `val / 256` here.
   */
  function LeBytes(val: int, n: nat): (bs: seq<byte>)
    ensures |bs| == n
    decreases n
  {
    if n == 0 then [] else [CastToByte(val)] + LeBytes(val / 256, n - 1)
  }

  /** The unsigned little-endian number spelled by `bs`. */
  function FromLE(bs: seq<byte>): (v: nat)
    ensures v < Pow256(|bs|)
  {
    if bs == [] then 0 else bs[0] as int + 256 * FromLE(bs[1..])
  }

  /**
   * `struct.unpack_from("<i", bs)`: the first four bytes as a signed 32-bit
   * little-endian integer; bytes after the fourth are ignored.
   */
  function UnpackInt32(bs: seq<byte>): (v: int)
    requires |bs| >= 4
    ensures Int32(v)
    ensures (v - FromLE(bs[..4])) % TWO_32 == 0
  {
    var u := FromLE(bs[..4]);
    assert Pow256(4) == TWO_32;
    if u < TWO_31 then u else u - TWO_32
  }

  /**
   * The value `_read_as_int` makes of the received buffer: four or more bytes
   * are unpacked as a signed 32-bit integer, shorter buffers are composed as
   * an unsigned little-endian number.
   */
  function DecodeInt(buf: seq<byte>): (v: int)
    ensures Int32(v)
  {
    if |buf| >= 4 then UnpackInt32(buf) else
      assert Pow256(3) < TWO_31 && Pow256(|buf|) <= Pow256(3);
      FromLE(buf)
  }

  // ---------------------------------------------------------------------------
  // Division facts. Python's `>>` by 8*i is floor division by 256^i; these
  // lemmas let the recursive definitions above meet the source's loop forms.

  lemma MulAtLeast(d: int, k: int)
    requires d > 0 && k >= 1
    ensures d * k >= d
    decreases k
  {
    if k > 1 {
      MulAtLeast(d, k - 1);
      assert d * k == d * (k - 1) + d;
    }
  }

  lemma DivModUnique(a: int, d: int, q: int, r: int)
    requires d > 0 && a == d * q + r && 0 <= r < d
    ensures a / d == q && a % d == r
  {
    var q0, r0 := a / d, a % d;
    assert a == d * q0 + r0;
    if q > q0 {
      MulAtLeast(d, q - q0);
    } else if q < q0 {
      MulAtLeast(d, q0 - q);
    }
  }

  lemma DivDiv256(a: int, i: nat)
    ensures a / Pow256(i + 1) == (a / 256) / Pow256(i)
    ensures a % Pow256(i + 1) == a % 256 + 256 * ((a / 256) % Pow256(i))
  {
    var p := Pow256(i);
    var q1, r1 := a / 256, a % 256;
    var q2, r2 := q1 / p, q1 % p;
    assert a == 256 * q1 + r1;
    assert q1 == p * q2 + r2;
    assert a == (256 * p) * q2 + (256 * r2 + r1) by {
      assert 256 * q1 == 256 * (p * q2) + 256 * r2;
      assert 256 * (p * q2) == (256 * p) * q2;
    }
    assert 256 * r2 <= 256 * (p - 1);
    DivModUnique(a, 256 * p, q2, 256 * r2 + r1);
  }

  // ---------------------------------------------------------------------------
  // Encoding.

  /** Byte `i` of `LeBytes(val, n)` is `cast_to_byte(val >> 8*i)`. */
  lemma {:induction false} LeBytesAt(val: int, n: nat, i: nat)
    requires i < n
    ensures LeBytes(val, n)[i] == CastToByte(val / Pow256(i))
    decreases n
  {
    if i > 0 {
      LeBytesAt(val / 256, n - 1, i - 1);
      DivDiv256(val, i - 1);
    }
  }

  /** A narrower encoding is a prefix of a wider one. */
  lemma {:induction false} LeBytesPrefix(val: int, n: nat, k: nat)
    requires k <= n
    ensures LeBytes(val, n)[..k] == LeBytes(val, k)
    decreases n
  {
    if k > 0 {
      LeBytesPrefix(val / 256, n - 1, k - 1);
      assert LeBytes(val, n)[..k] == [CastToByte(val)] + LeBytes(val / 256, n - 1)[..k - 1];
    }
  }

  /**
   * The loop of `_set_as_int`: appends `cast_to_byte(val >> 8*i)` for
   * `i in range(numBytes)`; a negative width gives an empty range.
   */
  method IntToBytes(val: int, numBytes: int) returns (buf: seq<byte>)
    ensures |buf| == RangeLength(numBytes)
    ensures forall i :: 0 <= i < |buf| ==> buf[i] == CastToByte(val / Pow256(i))
    ensures buf == LeBytes(val, |buf|)
  {
    var n := RangeLength(numBytes);
    buf := [];
    for i := 0 to n
      invariant |buf| == i
      invariant forall k :: 0 <= k < i ==> buf[k] == CastToByte(val / Pow256(k))
    {
      buf := buf + [CastToByte(val / Pow256(i))];
    }
    forall k | 0 <= k < n
      ensures buf[k] == LeBytes(val, n)[k]
    {
      LeBytesAt(val, n, k);
    }
  }

  // ---------------------------------------------------------------------------
  // Decoding.

  /** Appending a byte adds it at weight 256^|s|. */
  lemma {:induction false} FromLESnoc(s: seq<byte>, b: byte)
    ensures FromLE(s + [b]) == FromLE(s) + b as int * Pow256(|s|)
  {
    if s != [] {
      assert (s + [b])[1..] == s[1..] + [b];
      FromLESnoc(s[1..], b);
      assert 256 * (b as int * Pow256(|s| - 1)) == b as int * Pow256(|s|);
    }
  }

  /**
   * The loop of `_read_as_int` for buffers shorter than four bytes:
   * `rtn |= byte << 8*i`. Since `rtn < 256^i` before step `i`, the new byte
   * lands on bits that are still clear, so the `|` is an addition.
   */
  method ComposeUnsigned(buf: seq<byte>) returns (rtn: nat)
    ensures rtn == FromLE(buf)
    ensures rtn < Pow256(|buf|)
  {
    rtn := 0;
    for i := 0 to |buf|
      invariant rtn == FromLE(buf[..i])
      invariant rtn < Pow256(i)
    {
      assert buf[..i + 1] == buf[..i] + [buf[i]];
      FromLESnoc(buf[..i], buf[i]);
      rtn := rtn + buf[i] as int * Pow256(i);
    }
    assert buf[..|buf|] == buf;
  }

  // ---------------------------------------------------------------------------
  // Round trips.

  /** Encoding `val` in `n` bytes and composing them back yields `val` modulo 256^n. */
  lemma {:induction false} FromLEOfLeBytes(val: int, n: nat)
    ensures FromLE(LeBytes(val, n)) == val % Pow256(n)
    decreases n
  {
    if n > 0 {
      FromLEOfLeBytes(val / 256, n - 1);
      DivDiv256(val, n - 1);
      assert LeBytes(val, n)[1..] == LeBytes(val / 256, n - 1);
    }
  }

  /** Any byte string is the `|bs|`-byte encoding of the number it spells. */
  lemma {:induction false} LeBytesOfFromLE(bs: seq<byte>)
    ensures LeBytes(FromLE(bs), |bs|) == bs
  {
    if bs != [] {
      var v := FromLE(bs);
      DivModUnique(v, 256, FromLE(bs[1..]), bs[0] as int);
      LeBytesOfFromLE(bs[1..]);
      assert LeBytes(v, |bs|) == [CastToByte(v)] + LeBytes(FromLE(bs[1..]), |bs| - 1);
    }
  }

  /**
   * Widths below four are decoded unsigned: the value comes back reduced
   * modulo 256^n, so a negative value written in one or two bytes reads back
   * as its unsigned counterpart.
   */
  lemma DecodeNarrow(val: int, n: nat)
    requires n < 4
    ensures DecodeInt(LeBytes(val, n)) == val % Pow256(n)
  {
    FromLEOfLeBytes(val, n);
  }

  /** Width 1 or 2 (or 3): every value representable unsigned in the width survives the round trip. */
  lemma RoundTripUnsigned(val: int, n: nat)
    requires n < 4 && 0 <= val < Pow256(n)
    ensures DecodeInt(LeBytes(val, n)) == val
  {
    DecodeNarrow(val, n);
    DivModUnique(val, Pow256(n), 0, val);
  }

  /** Width 4 or more: every signed 32-bit value survives the round trip through `<i`. */
  lemma RoundTripSigned(val: int, n: nat)
    requires n >= 4 && Int32(val)
    ensures DecodeInt(LeBytes(val, n)) == val
  {
    var bs := LeBytes(val, n);
    LeBytesPrefix(val, n, 4);
    FromLEOfLeBytes(val, 4);
    assert Pow256(4) == TWO_32;
    if val >= 0 {
      DivModUnique(val, TWO_32, 0, val);
    } else {
      DivModUnique(val, TWO_32, -1, val + TWO_32);
    }
  }
}
