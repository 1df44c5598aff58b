/**
 * The JavaScript number operations the engine relies on, on integral values:
 * every bitwise operator first converts its operands with ToInt32.
 */
module JsNumber {

  /** The value stored in one element of a Uint8Array. */
  type byte = x: int | 0 <= x < 256

  const TWO_31: int := 0x8000_0000
  const TWO_32: int := 0x1_0000_0000

  /** A number as the engine meets it: an integer, or NaN (what `undefined` becomes under arithmetic). */
  datatype Num = Int(v: int) | NaN

  /** `a + b` on such numbers: NaN as soon as either side is NaN. */
  function Add(a: Num, b: Num): (r: Num)
    ensures r.NaN? <==> a.NaN? || b.NaN?
    ensures r.Int? ==> r.v == a.v + b.v
  {
    if a.Int? && b.Int? then Int(a.v + b.v) else NaN
  }

  predicate IsInt32(x: int) {
    -TWO_31 <= x < TWO_31
  }

  /** ECMAScript ToInt32 of an integral number: the 32-bit two's-complement value congruent to x. */
  function ToInt32(x: int): (r: int)
    ensures IsInt32(r)
    ensures (x - r) % TWO_32 == 0
  {
    var m := x % TWO_32;
    if m >= TWO_31 then m - TWO_32 else m
  }

  lemma ToInt32OfInt32(x: int)
    requires IsInt32(x)
    ensures ToInt32(x) == x
  {
  }

  /** ToInt32 only depends on its argument modulo 2^32. */
  lemma ToInt32Congruent(x: int, y: int)
    requires (x - y) % TWO_32 == 0
    ensures ToInt32(x) == ToInt32(y)
  {
  }

  /** Quotient and remainder are unique. */
  lemma ModUnique(y: int, d: int, q: int, r: int)
    requires d > 0 && y == d * q + r && 0 <= r < d
    ensures y % d == r && y / d == q
  {
    var k := q - y / d;
    assert d * k == y % d - r;
  }

  /** A multiple of 256 stays one after the 32-bit wrap. */
  lemma LowByteZeroInt32(x: int)
    requires x % 256 == 0
    ensures ToInt32(x) % 256 == 0
  {
    var q := x / TWO_32;
    var a := x / 256;
    var m := x % TWO_32;
    assert TWO_32 * q == 256 * (16777216 * q);
    var c := a - 16777216 * q;
    assert m == 256 * c;
    ModUnique(m, 256, c, 0);
    ModUnique(m - TWO_32, 256, c - 16777216, 0);
  }

  /** `x & 0xFF`: the low byte of the two's-complement value. */
  function And0xFF(x: int): (r: byte)
    ensures r == x % 256
  {
    var y := ToInt32(x);
    var k := (x - y) / TWO_32;
    assert x - y == 256 * (16777216 * k);
    ModUnique(x, 256, 16777216 * k + y / 256, y % 256);
    y % 256
  }

  /** `x >> 8`: arithmetic shift, i.e. floor division of the 32-bit value (Dafny's `/` floors for a positive divisor). */
  function Shr8(x: int): (r: int)
    ensures IsInt32(r)
  {
    ToInt32(x) / 256
  }

  /** `x << 8`: the 32-bit value times 256, wrapped back to 32 bits. */
  function Shl8(x: int): (r: int)
    ensures IsInt32(r) && r % 256 == 0
  {
    LowByteZeroInt32(ToInt32(x) * 256);
    ToInt32(ToInt32(x) * 256)
  }

  function Pow2(k: nat): (r: nat)
    ensures r >= 1
  {
    if k == 0 then 1 else 2 * Pow2(k - 1)
  }

  /** Bitwise OR of two naturals, bit by bit from the least significant one. */
  function BitOr(a: nat, b: nat): nat
    decreases a + b
  {
    if a == 0 then b
    else if b == 0 then a
    else 2 * BitOr(a / 2, b / 2) + (if a % 2 == 1 || b % 2 == 1 then 1 else 0)
  }

  lemma {:induction false} BitOrBound(a: nat, b: nat, k: nat)
    requires a < Pow2(k) && b < Pow2(k)
    ensures BitOr(a, b) < Pow2(k)
    decreases a + b
  {
    if a != 0 && b != 0 {
      BitOrBound(a / 2, b / 2, k - 1);
    }
  }

  /** OR of two bytes; zero is its unit. */
  function Or8(a: byte, b: byte): (r: byte)
    ensures a == 0 ==> r == b
    ensures b == 0 ==> r == a
  {
    assert Pow2(8) == 256;
    BitOrBound(a, b, 8);
    BitOr(a, b)
  }

  /** `x | b` for a byte b: the bits above the low byte are those of x, the low byte is ORed with b. */
  function OrByte(x: int, b: byte): int {
    var y := ToInt32(x);
    y - y % 256 + Or8(y % 256, b)
  }

  /** `x | b` is a 32-bit value with the bits of ToInt32(x) above the low byte, and b ORed into the low byte. */
  lemma OrByteBits(x: int, b: byte)
    ensures IsInt32(OrByte(x, b))
    ensures OrByte(x, b) / 256 == ToInt32(x) / 256
    ensures OrByte(x, b) % 256 == Or8(ToInt32(x) % 256, b)
  {
    var y := ToInt32(x);
    ModUnique(y, 256, y / 256, y % 256);
    ModUnique(OrByte(x, b), 256, y / 256, Or8(y % 256, b));
  }

  /** ORing a byte into a 32-bit value whose low byte already holds o. */
  lemma OrIntoLowByte(x: int, o: byte, b: byte)
    requires IsInt32(x) && x % 256 == 0
    ensures OrByte(x + o, b) == x + Or8(o, b)
    ensures IsInt32(x + Or8(o, b))
  {
    var q := x / 256;
    assert x == 256 * q;
    assert -8388608 <= q < 8388608;
    assert IsInt32(x + o);
    ToInt32OfInt32(x + o);
    assert (x + o) % 256 == o;
  }

  /** ToInt32 moves its argument by a whole number of 2^32 steps. */
  lemma ToInt32Offset(y: int) returns (k: int)
    ensures y - ToInt32(y) == k * TWO_32
  {
    var q := y / TWO_32;
    assert y == TWO_32 * q + y % TWO_32;
    k := if y % TWO_32 >= TWO_31 then q + 1 else q;
  }

  /** One step of a `value |= b; value <<= 8` loop on an accumulator that holds 256 * l (wrapped). */
  lemma ShiftInByte(l: int, b: byte)
    ensures Shl8(OrByte(ToInt32(256 * l), b)) == ToInt32(256 * (256 * l + b))
  {
    var x := ToInt32(256 * l);
    ModUnique(256 * l, 256, l, 0);
    OrIntoShifted(256 * l, b);
    Shl8OfInt32(x + b);
    ShiftCongruent(l, b);
  }

  /** A wrapped multiple of 256 keeps a zero low byte, so ORing a byte in adds it. */
  lemma OrIntoShifted(m: int, b: byte)
    requires m % 256 == 0
    ensures OrByte(ToInt32(m), b) == ToInt32(m) + b
    ensures IsInt32(ToInt32(m) + b)
  {
    LowByteZeroInt32(m);
    OrIntoZeroLowByte(ToInt32(m), b);
  }

  /** ORing a byte into a 32-bit value whose low byte is zero adds it. */
  lemma OrIntoZeroLowByte(x: int, b: byte)
    requires IsInt32(x) && x % 256 == 0
    ensures OrByte(x, b) == x + b && IsInt32(x + b)
  {
    OrIntoLowByte(x, 0, b);
    assert x + 0 == x;
  }

  lemma Shl8OfInt32(v: int)
    requires IsInt32(v)
    ensures Shl8(v) == ToInt32(v * 256)
  {
    ToInt32OfInt32(v);
  }

  /** Shifting the wrapped accumulator gives what shifting the unwrapped one would, modulo 2^32. */
  lemma ShiftCongruent(l: int, b: byte)
    ensures ToInt32((ToInt32(256 * l) + b) * 256) == ToInt32(256 * (256 * l + b))
  {
    var x := ToInt32(256 * l);
    var k := ToInt32Offset(256 * l);
    var d := (x + b) * 256 - 256 * (256 * l + b);
    assert d == TWO_32 * (-256 * k);
    ModUnique(d, TWO_32, -256 * k, 0);
    ToInt32Congruent((x + b) * 256, 256 * (256 * l + b));
  }
}
