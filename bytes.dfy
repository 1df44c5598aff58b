/**
 * src/lib/world/bytes.ts: little-endian `write`, the position-dependent `read`, their fixed-width
 * wrappers, and the Uint8ArrayStream writer over a Uint8Array.
 */
module Bytes {
  import opened JsNumber
  import opened ByteMath

  /** The bytes write(arr, at, value, n) stores, least significant first: byte k is `(value >> 8k) & 0xFF`. */
  function Field(value: int, n: nat): (r: seq<byte>)
    ensures |r| == n
    ensures forall k :: 0 <= k < n ==> r[k] == Digit(value, k)
  {
    var f := LsbBytes(ToInt32(value), n);
    assert forall k :: 0 <= k < n ==> f[k] == Digit(value, k) by {
      forall k | 0 <= k < n
        ensures f[k] == Digit(value, k)
      {
        LsbBytesAt(ToInt32(value), n, k);
      }
    }
    f
  }

  method Write(arr: array<byte>, at: int, value: int, byteSize: ByteSize)
    modifies arr
    ensures arr[..] == Overlay(old(arr[..]), at, Field(value, ByteCount(byteSize)))
  {
    var off := ByteCount(byteSize);
    var idx := at;
    var v := value;
    var k := 0;
    while k < off
      invariant 0 <= k <= off && idx == at + k
      invariant ToInt32(v) == Shr(ToInt32(value), k)
      invariant forall i :: 0 <= i < arr.Length ==>
        arr[i] == if at <= i < at + k then Digit(value, i - at) else old(arr[i])
    {
      if 0 <= idx < arr.Length {
        arr[idx] := And0xFF(v);
      }
      idx := idx + 1;
      ShrInt32(ToInt32(value), k + 1);
      v := Shr8(v);
      ToInt32OfInt32(v);
      k := k + 1;
    }
    assert arr[..] == Overlay(old(arr[..]), at, Field(value, off));
  }

  /**
   * How many of the n steps of `read` shift left: the test `idx < off` compares the index past
   * the byte just read with the width, not with at + width, so the count depends on `at`.
   */
  function ShiftCount(at: int, n: nat): (k: nat)
    ensures k <= n
  {
    if n - at - 1 <= 0 then 0 else if n - at - 1 >= n then n else n - at - 1
  }

  /**
   * The number read(arr, at, n) returns: the first ShiftCount bytes are shifted in, most
   * significant first; the remaining ones are OR-ed into the low byte.
   */
  function ReadValue(s: seq<byte>, at: int, n: nat): int {
    var k := ShiftCount(at, n);
    ToInt32(256 * BE(Window(s, at, k))) + OrAll(Window(s, at + k, n - k))
  }

  /** One shifting step of `read`: OR the next byte in, then shift, extends the big-endian prefix by that byte. */
  lemma ShiftStep(s: seq<byte>, at: int, k: nat)
    ensures Shl8(OrByte(ToInt32(256 * BE(Window(s, at, k))), ByteAt(s, at + k))) == ToInt32(256 * BE(Window(s, at, k + 1)))
  {
    ShiftInByte(BE(Window(s, at, k)), ByteAt(s, at + k));
    assert Window(s, at, k + 1)[..k] == Window(s, at, k);
  }

  /** One non-shifting step of `read`: the next byte is OR-ed into the low byte and the high part stays. */
  lemma OrStep(s: seq<byte>, at: int, shifts: nat, k: nat)
    requires shifts <= k
    ensures OrByte(ToInt32(256 * BE(Window(s, at, shifts))) + OrAll(Window(s, at + shifts, k - shifts)), ByteAt(s, at + k))
         == ToInt32(256 * BE(Window(s, at, shifts))) + OrAll(Window(s, at + shifts, k + 1 - shifts))
  {
    var hi := ToInt32(256 * BE(Window(s, at, shifts)));
    ModUnique(256 * BE(Window(s, at, shifts)), 256, BE(Window(s, at, shifts)), 0);
    LowByteZeroInt32(256 * BE(Window(s, at, shifts)));
    OrIntoLowByte(hi, OrAll(Window(s, at + shifts, k - shifts)), ByteAt(s, at + k));
    assert Window(s, at + shifts, k + 1 - shifts)[..k - shifts] == Window(s, at + shifts, k - shifts);
  }

  /** The value `read` holds after k of its n steps. */
  ghost function ReadPrefix(s: seq<byte>, at: int, n: nat, k: nat): int {
    var shifts := ShiftCount(at, n);
    if k <= shifts then ToInt32(256 * BE(Window(s, at, k)))
    else ToInt32(256 * BE(Window(s, at, shifts))) + OrAll(Window(s, at + shifts, k - shifts))
  }

  /** One step of `read`: OR the byte at at + k in, and shift while the index is below the width. */
  lemma ReadStep(s: seq<byte>, at: int, n: nat, k: nat, b: byte)
    requires k < n && b == ByteAt(s, at + k)
    ensures at + k + 1 < n ==> Shl8(OrByte(ReadPrefix(s, at, n, k), b)) == ReadPrefix(s, at, n, k + 1)
    ensures at + k + 1 >= n ==> OrByte(ReadPrefix(s, at, n, k), b) == ReadPrefix(s, at, n, k + 1)
  {
    var shifts := ShiftCount(at, n);
    if at + k + 1 < n {
      assert k < shifts;
      ShiftStep(s, at, k);
    } else {
      assert shifts <= k;
      assert Window(s, at + shifts, 0) == [];
      OrStep(s, at, shifts, k);
    }
  }

  /** The value `read` holds after k steps, step by step as its loop computes it. */
  ghost function ReadSteps(s: seq<byte>, at: int, n: nat, k: nat): int {
    if k == 0 then 0
    else
      var v := OrByte(ReadSteps(s, at, n, k - 1), ByteAt(s, at + k - 1));
      if at + k < n then Shl8(v) else v
  }

  /** The step-by-step value has the closed form ReadPrefix. */
  lemma {:induction false} ReadStepsPrefix(s: seq<byte>, at: int, n: nat, k: nat)
    requires k <= n
    ensures ReadSteps(s, at, n, k) == ReadPrefix(s, at, n, k)
  {
    if k == 0 {
      ReadPrefixEnds(s, at, n);
    } else {
      ReadStepsPrefix(s, at, n, k - 1);
      ReadStep(s, at, n, k - 1, ByteAt(s, at + k - 1));
    }
  }

  method Read(arr: array<byte>, at: int, byteSize: ByteSize) returns (value: int)
    ensures value == ReadValue(arr[..], at, ByteCount(byteSize))
  {
    value := 0;
    var idx := at;
    var off := ByteCount(byteSize);
    ghost var s := arr[..];
    var k := 0;
    while k < off
      invariant 0 <= k <= off && idx == at + k
      invariant value == ReadSteps(s, at, off, k)
    {
      var b := if 0 <= idx < arr.Length then arr[idx] else 0;
      assert b == ByteAt(s, at + k);
      value := OrByte(value, b);
      idx := idx + 1;
      if idx < off {
        value := Shl8(value);
      }
      k := k + 1;
    }
    ReadStepsPrefix(s, at, off, off);
    ReadPrefixEnds(s, at, off);
  }

  /** Before its first step `read` holds 0, and after its last one it holds ReadValue. */
  lemma ReadPrefixEnds(s: seq<byte>, at: int, n: nat)
    ensures ReadPrefix(s, at, n, 0) == 0
    ensures ReadPrefix(s, at, n, n) == ReadValue(s, at, n)
  {
    assert Window(s, at, 0) == [];
    assert Window(s, at + ShiftCount(at, n), 0) == [];
  }

  /** readByte after writeByte at the same index gives back `value & 0xFF`, or 0 when the index is outside the array. */
  lemma ReadByteAfterWriteByte(before: seq<byte>, after: seq<byte>, at: int, value: int)
    requires after == Overlay(before, at, Field(value, 1))
    ensures ReadValue(after, at, 1) == if 0 <= at < |before| then And0xFF(value) else 0
  {
    ReadByteIsByteAt(after, at);
    if 0 <= at < |before| {
      assert after[at] == Digit(value, 0);
    }
  }

  /** A one-byte read returns the byte at that index (0 outside the array). */
  lemma ReadByteIsByteAt(s: seq<byte>, at: int)
    ensures ReadValue(s, at, 1) == ByteAt(s, at)
  {
    var w := Window(s, at, 1);
    assert w[..0] == [];
    assert w[0] == ByteAt(s, at);
    if at < 0 {
      assert ShiftCount(at, 1) == 1;
      assert Window(s, at + 1, 0) == [];
      assert BE(w) == 256 * BE(w[..0]) + w[0];
      assert ByteAt(s, at) == 0;
    } else {
      assert ShiftCount(at, 1) == 0;
      assert Window(s, at, 0) == [];
      assert Window(s, at, 1) == w;
      assert OrAll(w) == Or8(OrAll(w[..0]), w[0]);
    }
  }

  /** At offset 0 `read` is the 32-bit wrap of the big-endian reading of its bytes. */
  lemma {:induction false} ReadAtStart(s: seq<byte>, n: nat)
    requires n >= 1
    ensures ReadValue(s, 0, n) == ToInt32(BE(Window(s, 0, n)))
  {
    var w := Window(s, 0, n);
    var l := BE(w[..n - 1]);
    assert Window(s, 0, n - 1) == w[..n - 1];
    assert Window(s, n - 1, 1) == [w[n - 1]];
    assert Window(s, n - 1, 1)[..0] == [];
    var hi := ToInt32(256 * l);
    ModUnique(256 * l, 256, l, 0);
    LowByteZeroInt32(256 * l);
    assert ShiftCount(0, n) == n - 1;
    var last := Window(s, n - 1, 1);
    assert OrAll(last) == Or8(OrAll(last[..0]), last[0]);
    assert ReadValue(s, 0, n) == hi + w[n - 1];
    assert IsInt32(hi + w[n - 1]);
    assert (256 * l + w[n - 1]) - (hi + w[n - 1]) == 256 * l - hi;
    ToInt32Congruent(256 * l + w[n - 1], hi + w[n - 1]);
    ToInt32OfInt32(hi + w[n - 1]);
  }

  /** readWord at offset 0 puts the first byte high: arr[0]·256 + arr[1]. */
  lemma ReadWordAtStart(s: seq<byte>)
    requires |s| >= 2
    ensures ReadValue(s, 0, 2) == 256 * (s[0] as int) + s[1]
  {
    ReadAtStart(s, 2);
    var w := Window(s, 0, 2);
    assert w[..1][..0] == [];
    assert BE(w[..1]) == s[0];
    assert BE(w) == 256 * (s[0] as int) + s[1];
    ToInt32OfInt32(256 * (s[0] as int) + s[1]);
  }

  /** writeWord stores the low byte first and readWord reads the first byte high, so at 0 the pair byte-swaps. */
  lemma WordRoundTripSwaps(before: seq<byte>, after: seq<byte>, value: int)
    requires |before| >= 2 && 0 <= value < 65536
    requires after == Overlay(before, 0, Field(value, 2))
    ensures ReadValue(after, 0, 2) == 256 * (value % 256) + value / 256
  {
    ToInt32OfInt32(value);
    assert after[0] == value % 256;
    assert after[1] == Shr(value, 1) % 256;
    ReadWordAtStart(after);
  }

  /** From offset n/8 − 1 on, `read` never shifts: the result is the OR of the bytes. */
  lemma ReadPastWidth(s: seq<byte>, at: int, n: nat)
    requires at + 1 >= n
    ensures ReadValue(s, at, n) == OrAll(Window(s, at, n))
  {
    assert Window(s, at, 0) == [];
  }

  /** Concretely: readWord at index 2 of [0, 0, 1, 2] gives 1 | 2 = 3, where a position-independent read gives 0x0102. */
  lemma ReadWordAtTwo()
    ensures ReadValue([0, 0, 1, 2], 2, 2) == 3
    ensures ReadIntended([0, 0, 1, 2], 2, 2) == 258
  {
    var s: seq<byte> := [0, 0, 1, 2];
    assert Window(s, 2, 2) == [1, 2];
    assert Window(s, 2, 2)[..1] == [1];
    assert [1, 2][..1] == [1] && [1][..0] == [];
    assert Or8(1, 2) == 3 by {
      assert BitOr(1, 2) == 1 + 2 * BitOr(0, 1);
    }
    assert BE(Window(s, 2, 2)) == 258;
    ToInt32OfInt32(258);
  }

  /** The reading `read` gives at offset 0, taken at any offset: the big-endian value of the n bytes. */
  function ReadIntended(s: seq<byte>, at: int, n: nat): (r: int)
    ensures IsInt32(r)
  {
    ToInt32(BE(Window(s, at, n)))
  }

  /** The intended read depends only on the bytes of the field, and agrees with `read` at offset 0. */
  lemma ReadIntendedPositionIndependent(p: seq<byte>, s: seq<byte>, n: nat)
    requires n >= 1
    ensures ReadIntended(p + s, |p|, n) == ReadIntended(s, 0, n)
    ensures ReadIntended(s, 0, n) == ReadValue(s, 0, n)
  {
    forall i | 0 <= i < n
      ensures Window(p + s, |p|, n)[i] == Window(s, 0, n)[i]
    {
      assert ByteAt(p + s, |p| + i) == ByteAt(s, i);
    }
    assert Window(p + s, |p|, n) == Window(s, 0, n);
    ReadAtStart(s, n);
  }

  method WriteByte(arr: array<byte>, at: int, value: int)
    modifies arr
    ensures arr[..] == Overlay(old(arr[..]), at, Field(value, 1))
  {
    Write(arr, at, value, 8);
  }

  method ReadByte(arr: array<byte>, at: int) returns (value: int)
    ensures value == ByteAt(arr[..], at)
  {
    value := Read(arr, at, 8);
    ReadByteIsByteAt(arr[..], at);
  }

  method WriteWord(arr: array<byte>, at: int, value: int)
    modifies arr
    ensures arr[..] == Overlay(old(arr[..]), at, Field(value, 2))
  {
    Write(arr, at, value, 16);
  }

  method ReadWord(arr: array<byte>, at: int) returns (value: int)
    ensures value == ReadValue(arr[..], at, 2)
  {
    value := Read(arr, at, 16);
  }

  method WriteDWord32(arr: array<byte>, at: int, value: int)
    modifies arr
    ensures arr[..] == Overlay(old(arr[..]), at, Field(value, 4))
  {
    Write(arr, at, value, 32);
  }

  method ReadDWord32(arr: array<byte>, at: int) returns (value: int)
    ensures value == ReadValue(arr[..], at, 4)
  {
    value := Read(arr, at, 32);
  }

  /** Despite its name, writes 4 bytes, exactly as WriteDWord32 does. */
  method WriteDWord64(arr: array<byte>, at: int, value: int)
    modifies arr
    ensures arr[..] == Overlay(old(arr[..]), at, Field(value, 4))
  {
    Write(arr, at, value, 32);
  }

  /** Despite its name, reads 4 bytes, exactly as ReadDWord32 does. */
  method ReadDWord64(arr: array<byte>, at: int) returns (value: int)
    ensures value == ReadValue(arr[..], at, 4)
  {
    value := Read(arr, at, 32);
  }

  /** A write cursor over a Uint8Array (the source names the field `array`); each write advances it by the number of bytes it stores. */
  class Uint8ArrayStream {
    const arr: array<byte>
    var cursor: int

    constructor (arr: array<byte>, cursor: int)
      ensures this.arr == arr && this.cursor == cursor
    {
      this.arr := arr;
      this.cursor := cursor;
    }

    /** The array's length, whatever the cursor. */
    function Length(): (n: nat)
      ensures n == arr.Length
    {
      arr.Length
    }

    function Remaining(): (r: int)
      reads this
      ensures r + cursor == Length()
    {
      arr.Length - cursor
    }

    method ReadByte() returns (b: int)
      modifies this
      ensures b == ByteAt(arr[..], old(cursor))
      ensures cursor == old(cursor) + 1 && Remaining() == old(Remaining()) - 1
    {
      b := Read(arr, cursor, 8);
      ReadByteIsByteAt(arr[..], cursor);
      cursor := cursor + 1;
    }

    method WriteByte(b: int)
      modifies this, arr
      ensures arr[..] == Overlay(old(arr[..]), old(cursor), Field(b, 1))
      ensures cursor == old(cursor) + 1
    {
      Write(arr, cursor, b, 8);
      cursor := cursor + 1;
    }

    method WriteWord(word: int)
      modifies this, arr
      ensures arr[..] == Overlay(old(arr[..]), old(cursor), Field(word, 2))
      ensures cursor == old(cursor) + 2
    {
      Write(arr, cursor, word, 16);
      cursor := cursor + 2;
    }

    method WriteDWord64(word: int)
      modifies this, arr
      ensures arr[..] == Overlay(old(arr[..]), old(cursor), Field(word, 4))
      ensures cursor == old(cursor) + 4
    {
      Write(arr, cursor, word, 32);
      cursor := cursor + 4;
    }
  }
}
