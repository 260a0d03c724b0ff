/** Host/network conversion of 16-bit values, as the socket layer writes it
    by hand instead of calling the C library: both directions swap the two
    bytes of the value, whatever the byte order of the host. */
module DataTransform {
  import opened CTypes

  /** The high byte of a 16-bit value. */
  function HighByte(v: uint16): uint8 { v / 0x100 }

  /** The low byte of a 16-bit value. */
  function LowByte(v: uint16): uint8 { v % 0x100 }

  /** Reference definition of the byte swap: the low byte moves up, the
      high byte moves down. */
  function SwapBytes(v: uint16): (r: uint16)
    ensures HighByte(r) == LowByte(v) && LowByte(r) == HighByte(v)
  {
    var r := LowByte(v) * 0x100 + HighByte(v);
    DivModUnique(r, 0x100, LowByte(v), HighByte(v));
    r
  }

  /** Swift's `value << 8` on `UInt16`: the bits shifted past bit 15 are
      discarded, not trapped, so only the low byte survives, moved up. */
  function ShiftLeft8(value: uint16): (r: uint16)
    ensures r == LowByte(value) * 0x100
  {
    var h: int, l: int := HighByte(value), LowByte(value);
    assert value * 0x100 == h * 0x1_0000 + l * 0x100;
    DivModUnique(value * 0x100, 0x1_0000, h, l * 0x100);
    (value * 0x100) % 0x1_0000
  }

  /** Swift's `value >> 8` on `UInt16` (a logical shift): the high byte
      alone, with the low byte dropped. */
  function ShiftRight8(value: uint16): (r: uint16)
    ensures r < 0x100 && 0 <= value - r * 0x100 < 0x100
  {
    value / 0x100
  }

  /** Swift's `+` on `UInt16`, which traps on overflow: a call is only
      well-formed where the sum fits, so every caller is obliged to show
      that it does not trap, and the result never wraps around below
      either operand. */
  function Add16(a: uint16, b: uint16): (r: uint16)
    requires a + b < 0x1_0000
    ensures a <= r && b <= r && r - a == b
  {
    a + b
  }

  /** The trapping addition in `htons` and `ntohs` is safe for every input:
      `value << 8` has a zero low byte and `value >> 8` is below 256, so the
      operands never carry into each other and their sum stays below 2^16. */
  lemma {:induction false} HtonsNeverOverflows(value: uint16)
    ensures ShiftLeft8(value) % 0x100 == 0 && ShiftRight8(value) < 0x100
    ensures ShiftLeft8(value) + ShiftRight8(value) <= 0xFFFF
  {
    DivModUnique(ShiftLeft8(value), 0x100, LowByte(value), 0);
  }

  /** `htons`: host to network order. */
  function Htons(value: uint16): (r: uint16)
    ensures r == SwapBytes(value)
  {
    HtonsNeverOverflows(value);
    Add16(ShiftLeft8(value), ShiftRight8(value))
  }

  /** `ntohs`: network to host order; the operands of the addition are
      written the other way round. */
  function Ntohs(value: uint16): (r: uint16)
    ensures r == SwapBytes(value)
  {
    HtonsNeverOverflows(value);
    Add16(ShiftRight8(value), ShiftLeft8(value))
  }

  /** `htons` is the byte swap written arithmetically. */
  lemma HtonsIsByteSwap(value: uint16)
    ensures Htons(value) == (value % 0x100) * 0x100 + value / 0x100
  {
  }

  /** Both directions compute the same function. */
  lemma NtohsIsHtons(value: uint16)
    ensures Ntohs(value) == Htons(value)
  {
  }

  /** Swapping twice restores the value. */
  lemma {:induction false} SwapBytesInvolution(v: uint16)
    ensures SwapBytes(SwapBytes(v)) == v
  {
    var s := SwapBytes(v);
    assert SwapBytes(s) == LowByte(s) * 0x100 + HighByte(s);
    assert v == HighByte(v) * 0x100 + LowByte(v);
  }

  /** A value sent through `htons` comes back through `ntohs`, and
      converting twice in the same direction is the identity too. */
  lemma HtonsInvolution(v: uint16)
    ensures Ntohs(Htons(v)) == v
    ensures Htons(Htons(v)) == v
    ensures Htons(Ntohs(v)) == v
  {
    SwapBytesInvolution(v);
  }

  /** Different values stay different after conversion. */
  lemma HtonsInjective(a: uint16, b: uint16)
    ensures Htons(a) == Htons(b) ==> a == b
  {
    HtonsInvolution(a);
    HtonsInvolution(b);
  }

  /** `htons` leaves a value alone exactly when its two bytes are equal. */
  lemma HtonsFixedPoint(v: uint16)
    ensures Htons(v) == v <==> HighByte(v) == LowByte(v)
    ensures Htons(0) == 0
  {
    var s := Htons(v);
    assert v == HighByte(v) * 0x100 + LowByte(v);
    assert s == HighByte(s) * 0x100 + LowByte(s);
  }
}
