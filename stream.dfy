/**
 * src/lib/world/stream.ts: the fixed-width integer codec (toBytes/fromBytes), the seekable
 * ByteBuffer cursor, the LimitedRead wrapper, and the copy/readBytes helpers built on them.
 */
module Stream {
  import opened JsNumber
  import opened ByteMath
  import opened Outcomes

  /** Size of the scratch buffer `copy` moves bytes through. */
  const DEFAULT_BUF_SIZE: nat := 8000

  datatype Endianness = Little | Big

  datatype CommonSeekType = Relative | Absolute

  // ---------------------------------------------------------------------------
  // Integer codec

  /**
   * The bytes toBytes stores: the low bytes of ToInt32(value). The label "big" puts the least
   * significant byte at index 0 and "little" puts it at the last index, the reverse of their names.
   */
  function Encoded(value: int, size: ByteSize, e: Endianness): (r: seq<byte>)
    ensures |r| == ByteCount(size)
  {
    var lsb := LsbBytes(ToInt32(value), ByteCount(size));
    if e == Big then lsb else Reverse(lsb)
  }

  /**
   * The number fromBytes returns: 256 times the reading of the first n/8 bytes (wrapped to 32 bits),
   * because the loop shifts once more after the last byte. "little" reads the last index as most significant.
   */
  function Decoded(buf: seq<byte>, size: ByteSize, e: Endianness): (r: int)
    ensures IsInt32(r) && r % 256 == 0
  {
    var w := Window(buf, 0, ByteCount(size));
    var x := 256 * (if e == Little then LE(w) else BE(w));
    ModUnique(x, 256, if e == Little then LE(w) else BE(w), 0);
    LowByteZeroInt32(x);
    ToInt32(x)
  }

  /** One step of toBytes' loop on a value that holds the k-th shift of y: its low byte, then the next shift. */
  lemma ShiftStep(v: int, y: int, k: nat)
    requires IsInt32(y) && ToInt32(v) == Shr(y, k)
    ensures And0xFF(v) == Shr(y, k) % 256 && ToInt32(Shr8(v)) == Shr(y, k + 1)
  {
    ShrInt32(y, k + 1);
    assert Shr8(v) == Shr(y, k + 1);
    ToInt32OfInt32(Shr8(v));
  }

  /** toBytes(value, n, "little"): the low byte of the shifted value goes to the last index, then down. */
  method ToLittle(value: int, nb: nat) returns (buf: seq<byte>)
    ensures buf == Reverse(LsbBytes(ToInt32(value), nb))
  {
    buf := seq(nb, _ => 0);
    var v := value;
    ghost var y := ToInt32(value);
    var i: int := nb - 1;
    while i >= 0
      invariant -1 <= i < nb && |buf| == nb
      invariant ToInt32(v) == Shr(y, nb - 1 - i)
      invariant forall j :: i < j < nb ==> buf[j] == Shr(y, nb - 1 - j) % 256
    {
      ShiftStep(v, y, nb - 1 - i);
      buf := buf[i := And0xFF(v)];
      v := Shr8(v);
      i := i - 1;
    }
    ghost var lsb := LsbBytes(y, nb);
    forall j | 0 <= j < nb
      ensures buf[j] == Reverse(lsb)[j]
    {
      LsbBytesAt(y, nb, nb - 1 - j);
    }
  }

  /** toBytes(value, n, "big"): the low byte of the shifted value goes to index 0, then up. */
  method ToBig(value: int, nb: nat) returns (buf: seq<byte>)
    ensures buf == LsbBytes(ToInt32(value), nb)
  {
    buf := seq(nb, _ => 0);
    var v := value;
    ghost var y := ToInt32(value);
    ghost var lsb := LsbBytes(y, nb);
    var i := 0;
    while i < nb
      invariant 0 <= i <= nb && |buf| == nb
      invariant ToInt32(v) == Shr(y, i)
      invariant forall j :: 0 <= j < i ==> buf[j] == lsb[j]
    {
      ShiftStep(v, y, i);
      LsbBytesAt(y, nb, i);
      buf := buf[i := And0xFF(v)];
      v := Shr8(v);
      i := i + 1;
    }
  }

  method ToBytes(value: int, size: ByteSize, e: Endianness) returns (buf: seq<byte>)
    ensures buf == Encoded(value, size, e)
  {
    var nb := ByteCount(size);
    if e == Little {
      buf := ToLittle(value, nb);
    } else {
      buf := ToBig(value, nb);
    }
  }

  /** The "little" accumulator once the bytes above index i are in: 256 times their reading, wrapped. */
  ghost function LittleAcc(w: seq<byte>, i: int): int
    requires -1 <= i < |w|
  {
    ToInt32(256 * LE(w[i + 1..]))
  }

  /** One "little" step of fromBytes: or in the byte at i, then shift. */
  lemma LittleStep(w: seq<byte>, buf: seq<byte>, i: int)
    requires 0 <= i < |w| && w[i] == ByteAt(buf, i)
    ensures Shl8(OrByte(LittleAcc(w, i), ByteAt(buf, i))) == LittleAcc(w, i - 1)
  {
    var l := LE(w[i + 1..]);
    ShiftInByte(l, ByteAt(buf, i));
    assert w[i..][1..] == w[i + 1..];
    assert LE(w[i..]) == w[i] as int + 256 * l;
    assert 256 * l + ByteAt(buf, i) as int == LE(w[i..]);
  }

  /** The "big" accumulator once the bytes below index i are in: 256 times their reading, wrapped. */
  ghost function BigAcc(w: seq<byte>, i: int): int
    requires 0 <= i <= |w|
  {
    ToInt32(256 * BE(w[..i]))
  }

  /** One "big" step of fromBytes: or in the byte at i, then shift. */
  lemma BigStep(w: seq<byte>, buf: seq<byte>, i: int)
    requires 0 <= i < |w| && w[i] == ByteAt(buf, i)
    ensures Shl8(OrByte(BigAcc(w, i), ByteAt(buf, i))) == BigAcc(w, i + 1)
  {
    var l := BE(w[..i]);
    ShiftInByte(l, ByteAt(buf, i));
    BigUnfold(w, i);
  }

  lemma BigUnfold(w: seq<byte>, i: int)
    requires 0 <= i < |w|
    ensures BE(w[..i + 1]) == 256 * BE(w[..i]) + w[i]
  {
    var u := w[..i + 1];
    assert u[..|u| - 1] == w[..i];
    assert u[|u| - 1] == w[i];
  }

  /** fromBytes(buf, n, "little"): the bytes from the last index down to 0. */
  method FromLittle(buf: seq<byte>, nb: nat) returns (value: int)
    ensures value == ToInt32(256 * LE(Window(buf, 0, nb)))
  {
    value := 0;
    ghost var w := Window(buf, 0, nb);
    var i: int := nb - 1;
    while i >= 0
      invariant -1 <= i < nb
      invariant value == LittleAcc(w, i)
    {
      LittleStep(w, buf, i);
      value := OrByte(value, ByteAt(buf, i));
      value := Shl8(value);
      i := i - 1;
    }
    assert w[0..] == w;
    assert value == ToInt32(256 * LE(w));
  }

  /** fromBytes(buf, n, "big"): the bytes from index 0 up. */
  method FromBig(buf: seq<byte>, nb: nat) returns (value: int)
    ensures value == ToInt32(256 * BE(Window(buf, 0, nb)))
  {
    value := 0;
    ghost var w := Window(buf, 0, nb);
    var i := 0;
    while i < nb
      invariant 0 <= i <= nb
      invariant value == BigAcc(w, i)
    {
      BigStep(w, buf, i);
      value := OrByte(value, ByteAt(buf, i));
      value := Shl8(value);
      i := i + 1;
    }
    assert w[..nb] == w;
    assert value == ToInt32(256 * BE(w));
  }

  method FromBytes(buf: seq<byte>, size: ByteSize, e: Endianness) returns (value: int)
    ensures value == Decoded(buf, size, e)
  {
    var nb := ByteCount(size);
    if e == Little {
      value := FromLittle(buf, nb);
    } else {
      value := FromBig(buf, nb);
    }
  }

  /** The least significant byte sits at index 0 for "big" and at the last index for "little"; the two layouts are reverses. */
  lemma EncodedPlacement(value: int, size: ByteSize)
    ensures Encoded(value, size, Big)[0] == And0xFF(value)
    ensures Encoded(value, size, Little)[ByteCount(size) - 1] == And0xFF(value)
    ensures Encoded(value, size, Little) == Reverse(Encoded(value, size, Big))
  {
  }

  /** What the stored bytes mean: read in the opposite order to their label, they give ToInt32(value) modulo 256^(n/8). */
  lemma EncodedValue(value: int, size: ByteSize)
    ensures LE(Encoded(value, size, Big)) == ToInt32(value) % Pow256(ByteCount(size))
    ensures BE(Encoded(value, size, Little)) == ToInt32(value) % Pow256(ByteCount(size))
  {
    var lsb := LsbBytes(ToInt32(value), ByteCount(size));
    LsbBytesValue(ToInt32(value), ByteCount(size));
    BEReverse(lsb);
  }

  /** For 8- and 16-bit widths nothing wraps: fromBytes is exactly 256 times the reading of the bytes. */
  lemma DecodedNarrow(buf: seq<byte>, size: ByteSize, e: Endianness)
    requires size <= 16
    ensures Decoded(buf, size, e) == 256 * (if e == Little then LE(Window(buf, 0, ByteCount(size))) else BE(Window(buf, 0, ByteCount(size))))
  {
    var w := Window(buf, 0, ByteCount(size));
    LEBound(w);
    BEBound(w);
    assert Pow256(ByteCount(size)) <= 65536;
    ToInt32OfInt32(256 * (if e == Little then LE(w) else BE(w)));
  }

  /** fromBytes never gives back a value whose low byte is not zero, so it cannot invert toBytes. */
  lemma FromBytesDoesNotInvertToBytes(value: int, size: ByteSize, e: Endianness)
    requires value % 256 != 0
    ensures Decoded(Encoded(value, size, e), size, e) != value
  {
  }

  /** On a 16-bit "little" field the round trip gives 256 times the byte-swapped value. */
  lemma RoundTrip16(value: int)
    requires 0 <= value < 65536
    ensures Decoded(Encoded(value, 16, Little), 16, Little) == 256 * (256 * (value % 256) + value / 256)
  {
    ToInt32OfInt32(value);
    var lsb := LsbBytes(value, 2);
    assert lsb == [value % 256, (value / 256) % 256];
    var enc := Encoded(value, 16, Little);
    assert enc == [(value / 256) % 256, value % 256];
    assert Window(enc, 0, 2) == enc;
    assert LE(enc) == value / 256 + 256 * (value % 256) by {
      assert enc[1..] == [value % 256];
      assert enc[1..][1..] == [];
      assert LE(enc[1..]) == value % 256 + 256 * LE([]);
    }
    DecodedNarrow(enc, 16, Little);
  }

  // The codec the two helpers were evidently meant to be: "little" stores the least significant byte
  // first, and the reading loop does not shift after the last byte.

  function EncodedIntended(value: int, size: ByteSize, e: Endianness): (r: seq<byte>)
    ensures |r| == ByteCount(size)
  {
    var lsb := LsbBytes(ToInt32(value), ByteCount(size));
    if e == Little then lsb else Reverse(lsb)
  }

  function DecodedIntended(buf: seq<byte>, size: ByteSize, e: Endianness): (r: int)
    ensures IsInt32(r)
  {
    var w := Window(buf, 0, ByteCount(size));
    ToInt32(if e == Little then LE(w) else BE(w))
  }

  /** The intended codec round-trips every non-negative 32-bit value that fits the width. */
  lemma IntendedRoundTrip(value: int, size: ByteSize, e: Endianness)
    requires 0 <= value < TWO_31 && value < Pow256(ByteCount(size))
    ensures DecodedIntended(EncodedIntended(value, size, e), size, e) == value
  {
    var n := ByteCount(size);
    var lsb := LsbBytes(value, n);
    ToInt32OfInt32(value);
    LsbBytesValue(value, n);
    var enc := EncodedIntended(value, size, e);
    assert Window(enc, 0, n) == enc;
    if e == Little {
      IntendedLittle(value, n, lsb);
    } else {
      IntendedBig(value, n, lsb);
    }
  }

  lemma IntendedLittle(value: int, n: nat, lsb: seq<byte>)
    requires 0 <= value < TWO_31 && value < Pow256(n)
    requires lsb == LsbBytes(value, n) && LE(lsb) == value % Pow256(n)
    ensures ToInt32(LE(lsb)) == value
  {
    ModUnique(value, Pow256(n), 0, value);
    ToInt32OfInt32(value);
  }

  lemma IntendedBig(value: int, n: nat, lsb: seq<byte>)
    requires 0 <= value < TWO_31 && value < Pow256(n)
    requires lsb == LsbBytes(value, n) && LE(lsb) == value % Pow256(n)
    ensures ToInt32(BE(Reverse(lsb))) == value
  {
    ModUnique(value, Pow256(n), 0, value);
    BEReverse(lsb);
    ToInt32OfInt32(value);
  }

  // ---------------------------------------------------------------------------
  // The seekable byte buffer

  /** The bytes copy moves: m bytes of s from index sc on land in d from index dc on. */
  function Transferred(d: seq<byte>, dc: int, s: seq<byte>, sc: int, m: int): (r: seq<byte>)
    ensures |r| == |d|
  {
    seq<byte>(|d|, i requires 0 <= i < |d| => TransferredAt(d, dc, s, sc, m, i))
  }

  function TransferredAt(d: seq<byte>, dc: int, s: seq<byte>, sc: int, m: int, i: int): byte
    requires 0 <= i < |d|
  {
    if dc <= i < dc + m then ByteAt(s, sc + (i - dc)) else d[i]
  }

  /** A pass that writes n bytes, all of them just read, extends what copy has moved by n. */
  lemma TransferredStep(d: seq<byte>, dc: int, s: seq<byte>, sc: int, m: nat, buf: seq<byte>, n: int)
    requires 0 < n <= |buf| && n == Min(|d| - (dc + m), |buf|)
    requires forall i :: 0 <= i < n ==> buf[i] == ByteAt(s, sc + m + i)
    ensures Overlay(Transferred(d, dc, s, sc, m), dc + m, buf) == Transferred(d, dc, s, sc, m + n)
  {
    var l := Overlay(Transferred(d, dc, s, sc, m), dc + m, buf);
    forall i | 0 <= i < |d|
      ensures l[i] == Transferred(d, dc, s, sc, m + n)[i]
    {
      if dc + m <= i < dc + m + n {
        assert buf[i - (dc + m)] == ByteAt(s, sc + m + (i - (dc + m)));
        assert l[i] == buf[i - (dc + m)];
      } else {
        assert !(dc + m <= i < dc + m + |buf|);
        assert l[i] == Transferred(d, dc, s, sc, m)[i];
      }
    }
  }

  class ByteBuffer {
    const buffer: array<byte>
    var cur: int
    /** The cursor holds `undefined` or NaN, after an absolute seek to `undefined`; `cur` then means nothing. */
    var lost: bool

    constructor (buffer: array<byte>)
      ensures this.buffer == buffer && cur == 0 && !lost
    {
      this.buffer := buffer;
      cur := 0;
      lost := false;
    }

    /** ByteBuffer.alloc: a zero-filled buffer of the given length. */
    constructor Alloc(length: nat)
      ensures fresh(buffer) && buffer.Length == length && cur == 0 && !lost
      ensures forall i :: 0 <= i < length ==> buffer[i] == 0
    {
      buffer := new byte[length](_ => 0);
      cur := 0;
      lost := false;
    }

    /**
     * A relative seek moves the cursor by value, and NaN on either side leaves it NaN. An absolute
     * one sets it, `undefined` included. A negative or NaN cursor fails the `cur >= 0` test, and then
     * the absolute branch calls length(), which seeks absolutely again and recurses without end.
     */
    method Seek(kind: CommonSeekType, value: Num) returns (r: Result<Num>)
      modifies this
      ensures kind == Relative ==>
        && lost == (old(lost) || value.NaN?)
        && (lost ==> cur == old(cur) && r == Ok(NaN))
        && (!lost ==> cur == old(cur) + value.v && r == Ok(Int(cur)))
      ensures kind == Absolute && !old(lost) && old(cur) >= 0 ==>
        && lost == value.NaN? && r == Ok(value)
        && cur == (if value.Int? then value.v else old(cur))
      ensures kind == Absolute && (old(lost) || old(cur) < 0) ==>
        lost == old(lost) && cur == old(cur) && r == Err(StackOverflow)
    {
      if kind == Relative {
        if lost || value.NaN? {
          lost := true;
          r := Ok(NaN);
        } else {
          cur := cur + value.v;
          r := Ok(Int(cur));
        }
      } else if !lost && cur >= 0 {
        if value.NaN? {
          lost := true;
        } else {
          cur := value.v;
        }
        r := Ok(value);
      } else {
        r := Err(StackOverflow);
      }
    }

    /** On a NaN cursor the count is NaN, the loop test `i < NaN` fails at once and nothing is written. */
    method Write(src: seq<byte>) returns (written: Num)
      modifies this, buffer
      ensures lost == old(lost)
      ensures old(lost) ==> written == NaN && cur == old(cur) && buffer[..] == old(buffer[..])
      ensures !old(lost) ==>
        && written == Int(Min(buffer.Length - old(cur), |src|))
        && cur == old(cur) + Max(written.v, 0)
        && buffer[..] == Overlay(old(buffer[..]), old(cur), src)
    {
      if lost {
        return NaN;
      }
      var count := Min(buffer.Length - cur, |src|);
      var i := 0;
      while i < count
        invariant 0 <= i <= Max(count, 0)
        invariant cur == old(cur) + i && !lost
        invariant forall j :: 0 <= j < buffer.Length ==>
          buffer[j] == if old(cur) <= j < old(cur) + i then src[j - old(cur)] else old(buffer[j])
      {
        if 0 <= cur {
          buffer[cur] := src[i];
        }
        cur := cur + 1;
        i := i + 1;
      }
      assert buffer[..] == Overlay(old(buffer[..]), old(cur), src);
      written := Int(count);
    }

    method Read(dest: array<byte>) returns (read: int)
      requires dest != buffer && !lost
      modifies this, dest
      ensures !lost
      ensures read == Min(buffer.Length - old(cur), dest.Length)
      ensures cur == old(cur) + Max(read, 0)
      ensures forall i :: 0 <= i < dest.Length ==>
        dest[i] == if i < read then ByteAt(buffer[..], old(cur) + i) else old(dest[i])
    {
      read := Min(buffer.Length - cur, dest.Length);
      var i := 0;
      while i < read
        invariant 0 <= i <= Max(read, 0)
        invariant cur == old(cur) + i && !lost
        invariant forall j :: 0 <= j < dest.Length ==>
          dest[j] == if j < i then ByteAt(buffer[..], old(cur) + j) else old(dest[j])
      {
        dest[i] := ByteAt(buffer[..], cur);
        cur := cur + 1;
        i := i + 1;
      }
    }
  }

  /** position(): a relative seek by 0, which reports the cursor and leaves it where it was. */
  method Position(s: ByteBuffer) returns (p: Num)
    modifies s
    ensures p == (if old(s.lost) then NaN else Int(old(s.cur)))
    ensures s.cur == old(s.cur) && s.lost == old(s.lost)
  {
    var r := s.Seek(Relative, Int(0));
    p := r.value;
  }

  /** replace(): copies src into dest from index `at` on (an absent `at` is 0); indices past the end are dropped. */
  method Replace(dest: array<byte>, src: seq<byte>, at: int)
    modifies dest
    ensures dest[..] == Overlay(old(dest[..]), at, src)
  {
    var i := 0;
    while i < |src|
      invariant 0 <= i <= |src|
      invariant forall j :: 0 <= j < dest.Length ==>
        dest[j] == if at <= j < at + i then src[j - at] else old(dest[j])
    {
      if 0 <= at + i < dest.Length {
        dest[at + i] := src[i];
      }
      i := i + 1;
    }
    assert dest[..] == Overlay(old(dest[..]), at, src);
  }

  /** A reader limited to a number of bytes (`limit(r, length)`), over a ByteBuffer. */
  class LimitedRead {
    const r: ByteBuffer
    const bytesLimit: nat
    var bytesRead: int

    ghost predicate Valid()
      reads this
    {
      bytesRead <= bytesLimit
    }

    constructor (r: ByteBuffer, length: nat)
      ensures Valid() && this.r == r && bytesLimit == length && bytesRead == 0
    {
      this.r := r;
      bytesLimit := length;
      bytesRead := 0;
    }

    /**
     * Delivers at most the bytes left under the limit. When fewer are left than buf holds, the
     * bytes go through a fresh buffer of that size, which is then copied whole, zeros included, into buf.
     */
    method Read(buf: array<byte>) returns (n: int)
      requires Valid() && buf != r.buffer && !r.lost
      modifies this, r, buf
      ensures Valid() && !r.lost
      ensures old(bytesRead) == bytesLimit ==> n == 0 && r.cur == old(r.cur) && buf[..] == old(buf[..])
      ensures old(bytesRead) < bytesLimit ==>
        n == Min(r.buffer.Length - old(r.cur), Min(bytesLimit - old(bytesRead), buf.Length))
      ensures bytesRead == old(bytesRead) + n
      ensures r.cur == old(r.cur) + Max(n, 0)
      ensures forall i :: 0 <= i < buf.Length ==>
        buf[i] == if i < n then ByteAt(r.buffer[..], old(r.cur) + i)
                  else if old(bytesRead) < bytesLimit && i < bytesLimit - old(bytesRead) < buf.Length then 0
                  else old(buf[i])
      ensures buf[..] == Refill(old(buf[..]), r.buffer[..], old(r.cur), n, bytesLimit - old(bytesRead))
    {
      if bytesRead == bytesLimit {
        return 0;
      }
      var remaining := bytesLimit - bytesRead;
      if remaining < buf.Length {
        var tmp := new byte[remaining](_ => 0);
        n := r.Read(tmp);
        bytesRead := bytesRead + n;
        Replace(buf, tmp[..], 0);
      } else {
        n := r.Read(buf);
        bytesRead := bytesRead + n;
      }
    }
  }

  /** The count the first pass of copy reads: 0 when the limit is used up, else what the reader and the scratch buffer allow. */
  function FirstRead(len: int, cur: int, limit: int, bytesRead: int): int {
    if bytesRead == limit then 0 else Min(len - cur, Min(limit - bytesRead, DEFAULT_BUF_SIZE))
  }

  function Zeros(n: nat): (z: seq<byte>)
    ensures |z| == n && forall i :: 0 <= i < n ==> z[i] == 0
  {
    seq(n, _ => 0)
  }

  /**
   * The scratch buffer after LimitedRead.read delivered n bytes of s from index sc on, with `left`
   * bytes left under the limit: the bytes read, then zeros up to the limit when it falls inside
   * the buffer (the fresh buffer of that size), then what the scratch buffer held before.
   */
  function Refill(prev: seq<byte>, s: seq<byte>, sc: int, n: int, left: int): (r: seq<byte>)
    ensures |r| == |prev|
  {
    seq<byte>(|prev|, i requires 0 <= i < |prev| => RefillAt(prev, s, sc, n, left, i))
  }

  function RefillAt(prev: seq<byte>, s: seq<byte>, sc: int, n: int, left: int, i: int): byte
    requires 0 <= i < |prev|
  {
    if i < n then ByteAt(s, sc + i) else if 0 < left && i < left < |prev| then 0 else prev[i]
  }

  /** Where copy() stops: dest's bytes and cursor, the reader's cursor and count, and the scratch buffer. */
  datatype CopyState = CopyState(dest: seq<byte>, destCur: int, srcCur: int, bytesRead: int, scratch: seq<byte>)

  /**
   * copy() pass by pass on values, with whether it returns (true) or throws ShortCopy (false).
   * A pass reads as LimitedRead.read does, then writes the whole scratch buffer at dest's cursor;
   * a read of 0 returns, a write count other than the read count throws.
   */
  function CopyRun(dest: seq<byte>, dc: int, src: seq<byte>, sc: int, limit: int, bytesRead: int, scratch: seq<byte>): (bool, CopyState)
    requires bytesRead <= limit && |scratch| == DEFAULT_BUF_SIZE
    requires sc <= |src| || dc <= |dest|
    decreases limit - bytesRead
  {
    var n := FirstRead(|src|, sc, limit, bytesRead);
    var buf := Refill(scratch, src, sc, n, limit - bytesRead);
    if n == 0 then (true, CopyState(dest, dc, sc, bytesRead, buf))
    else
      var w := Min(|dest| - dc, DEFAULT_BUF_SIZE);
      var next := CopyState(Overlay(dest, dc, buf), dc + Max(w, 0), sc + Max(n, 0), bytesRead + n, buf);
      if n != w then (false, next)
      else CopyRun(next.dest, next.destCur, src, next.srcCur, limit, next.bytesRead, buf)
  }

  /** One pass of CopyRun: return on a read of 0, throw on a short write, else go on from the advanced state. */
  lemma CopyRunStep(dest: seq<byte>, dc: int, src: seq<byte>, sc: int, limit: int, bytesRead: int, scratch: seq<byte>, read: int, buf: seq<byte>)
    requires bytesRead <= limit && |scratch| == DEFAULT_BUF_SIZE && (sc <= |src| || dc <= |dest|)
    requires read == FirstRead(|src|, sc, limit, bytesRead) && buf == Refill(scratch, src, sc, read, limit - bytesRead)
    ensures read == 0 ==> CopyRun(dest, dc, src, sc, limit, bytesRead, scratch) == (true, CopyState(dest, dc, sc, bytesRead, buf))
    ensures var w := Min(|dest| - dc, DEFAULT_BUF_SIZE);
      read != 0 && read != w ==>
        CopyRun(dest, dc, src, sc, limit, bytesRead, scratch) ==
        (false, CopyState(Overlay(dest, dc, buf), dc + Max(w, 0), sc + Max(read, 0), bytesRead + read, buf))
    ensures read != 0 && read == Min(|dest| - dc, DEFAULT_BUF_SIZE) ==>
      && 0 < read && bytesRead + read <= limit && sc + read <= |src|
      && CopyRun(dest, dc, src, sc, limit, bytesRead, scratch) ==
         CopyRun(Overlay(dest, dc, buf), dc + read, src, sc + read, limit, bytesRead + read, buf)
  {
  }

  /** What copy has moved, then m2 more bytes from where it stopped: m + m2 bytes moved. */
  lemma TransferredCompose(d: seq<byte>, dc: int, s: seq<byte>, sc: int, m: nat, m2: nat)
    ensures Transferred(Transferred(d, dc, s, sc, m), dc + m, s, sc + m, m2) == Transferred(d, dc, s, sc, m + m2)
  {
    var l := Transferred(Transferred(d, dc, s, sc, m), dc + m, s, sc + m, m2);
    forall i | 0 <= i < |d|
      ensures l[i] == Transferred(d, dc, s, sc, m + m2)[i]
    {
      if dc + m <= i < dc + m + m2 {
        assert sc + m + (i - (dc + m)) == sc + (i - dc);
      }
    }
  }

  /** A first pass that wrote n bytes just read, then m2 bytes moved after it: m = n + m2 bytes moved. */
  lemma PassThenTransferred(dest: seq<byte>, dc: int, src: seq<byte>, sc: int, buf: seq<byte>, n: int, m2: nat, m: int)
    requires 0 < n <= |buf| && n == Min(|dest| - dc, |buf|) && m == n + m2
    requires forall i :: 0 <= i < n ==> buf[i] == ByteAt(src, sc + i)
    ensures Transferred(Overlay(dest, dc, buf), dc + n, src, sc + n, m2) == Transferred(dest, dc, src, sc, m)
  {
    assert Transferred(dest, dc, src, sc, 0) == dest;
    TransferredStep(dest, dc, src, sc, 0, buf, n);
    TransferredCompose(dest, dc, src, sc, n, m2);
  }

  /** The reader never moves past its limit, nor past its end when it started inside. */
  lemma {:induction false} CopyRunBounds(run: (bool, CopyState), dest: seq<byte>, dc: int, src: seq<byte>, sc: int, limit: int, bytesRead: int, scratch: seq<byte>)
    requires bytesRead <= limit && |scratch| == DEFAULT_BUF_SIZE && (sc <= |src| || dc <= |dest|)
    requires run == CopyRun(dest, dc, src, sc, limit, bytesRead, scratch)
    ensures run.1.bytesRead <= limit && (sc <= |src| ==> run.1.srcCur <= |src|)
    decreases limit - bytesRead
  {
    var n := FirstRead(|src|, sc, limit, bytesRead);
    var buf := Refill(scratch, src, sc, n, limit - bytesRead);
    CopyRunStep(dest, dc, src, sc, limit, bytesRead, scratch, n, buf);
    if n != 0 && n == Min(|dest| - dc, DEFAULT_BUF_SIZE) {
      CopyRunBounds(run, Overlay(dest, dc, buf), dc + n, src, sc + n, limit, bytesRead + n, buf);
    }
  }

  /**
   * A copy that returns has moved every byte src could deliver (it stopped at the limit or at the
   * end of src), both cursors and the count by the same number of bytes.
   */
  lemma {:induction false} CopyRunMoves(run: (bool, CopyState), dest: seq<byte>, dc: int, src: seq<byte>, sc: int, limit: int, bytesRead: int, scratch: seq<byte>)
    requires bytesRead <= limit && |scratch| == DEFAULT_BUF_SIZE && (sc <= |src| || dc <= |dest|)
    requires run == CopyRun(dest, dc, src, sc, limit, bytesRead, scratch)
    ensures var moved := run.1.srcCur - sc;
      run.0 ==>
        && 0 <= moved && run.1.bytesRead == bytesRead + moved && run.1.destCur == dc + moved
        && (run.1.bytesRead == limit || run.1.srcCur == |src|)
    decreases limit - bytesRead
  {
    var n := FirstRead(|src|, sc, limit, bytesRead);
    var buf := Refill(scratch, src, sc, n, limit - bytesRead);
    CopyRunStep(dest, dc, src, sc, limit, bytesRead, scratch, n, buf);
    if n != 0 && n == Min(|dest| - dc, DEFAULT_BUF_SIZE) {
      CopyRunMoves(run, Overlay(dest, dc, buf), dc + n, src, sc + n, limit, bytesRead + n, buf);
    }
  }

  /** A copy that returns has put each byte it moved in its place in dest and changed nothing else. */
  lemma {:induction false} CopyRunTransfers(run: (bool, CopyState), dest: seq<byte>, dc: int, src: seq<byte>, sc: int, limit: int, bytesRead: int, scratch: seq<byte>)
    requires bytesRead <= limit && |scratch| == DEFAULT_BUF_SIZE && (sc <= |src| || dc <= |dest|)
    requires run == CopyRun(dest, dc, src, sc, limit, bytesRead, scratch)
    ensures run.0 ==> run.1.srcCur - sc >= 0 && run.1.dest == Transferred(dest, dc, src, sc, run.1.srcCur - sc)
    decreases limit - bytesRead
  {
    var n := FirstRead(|src|, sc, limit, bytesRead);
    var buf := Refill(scratch, src, sc, n, limit - bytesRead);
    CopyRunStep(dest, dc, src, sc, limit, bytesRead, scratch, n, buf);
    if n == 0 {
      assert Transferred(dest, dc, src, sc, 0) == dest;
    } else if n == Min(|dest| - dc, DEFAULT_BUF_SIZE) {
      var d1 := Overlay(dest, dc, buf);
      CopyRunTransfers(run, d1, dc + n, src, sc + n, limit, bytesRead + n, buf);
      if run.0 {
        PassThenTransferred(dest, dc, src, sc, buf, n, run.1.srcCur - (sc + n), run.1.srcCur - sc);
      }
    }
  }

  /**
   * A copy whose first read differs from the write's count throws with the bytes read, then zeros,
   * laid over dest at its cursor, as far as dest has room, and both cursors moved by their counts.
   */
  lemma CopyFailsFirstPass(dest: seq<byte>, dc: int, src: seq<byte>, sc: int, limit: int, bytesRead: int)
    requires bytesRead <= limit && (sc <= |src| || dc <= |dest|)
    requires FirstRead(|src|, sc, limit, bytesRead) != 0
    requires FirstRead(|src|, sc, limit, bytesRead) != Min(|dest| - dc, DEFAULT_BUF_SIZE)
    ensures var n := Max(FirstRead(|src|, sc, limit, bytesRead), 0);
      var run := CopyRun(dest, dc, src, sc, limit, bytesRead, Zeros(DEFAULT_BUF_SIZE));
      && !run.0
      && run.1.dest == Overlay(dest, dc, Window(src, sc, n) + Zeros(DEFAULT_BUF_SIZE - n))
      && run.1.destCur == dc + Max(Min(|dest| - dc, DEFAULT_BUF_SIZE), 0)
      && run.1.srcCur == sc + n && run.1.bytesRead == bytesRead + FirstRead(|src|, sc, limit, bytesRead)
  {
    var first := FirstRead(|src|, sc, limit, bytesRead);
    var n := Max(first, 0);
    var buf := Refill(Zeros(DEFAULT_BUF_SIZE), src, sc, first, limit - bytesRead);
    assert buf == Window(src, sc, n) + Zeros(DEFAULT_BUF_SIZE - n) by {
      forall i | 0 <= i < DEFAULT_BUF_SIZE
        ensures buf[i] == (Window(src, sc, n) + Zeros(DEFAULT_BUF_SIZE - n))[i]
      {
        if i < n {
          assert (Window(src, sc, n) + Zeros(DEFAULT_BUF_SIZE - n))[i] == Window(src, sc, n)[i];
        } else {
          assert (Window(src, sc, n) + Zeros(DEFAULT_BUF_SIZE - n))[i] == Zeros(DEFAULT_BUF_SIZE - n)[i - n];
        }
      }
    }
  }

  /**
   * Into a dest with more room than src can deliver (and src delivering less than two scratch
   * buffers), copy returns only when src delivers nothing or exactly one scratch buffer: any other
   * amount ends on a pass that reads fewer bytes than the whole scratch buffer it then writes.
   */
  lemma {:induction false} CopyIntoLargerRoom(dest: seq<byte>, dc: int, src: seq<byte>, sc: int, limit: nat, scratch: seq<byte>)
    requires |scratch| == DEFAULT_BUF_SIZE && sc <= |src|
    requires Min(limit, |src| - sc) < 2 * DEFAULT_BUF_SIZE
    requires |dest| - dc > Min(limit, |src| - sc)
    ensures var a := Min(limit, |src| - sc);
      CopyRun(dest, dc, src, sc, limit, 0, scratch).0 <==> a == 0 || a == DEFAULT_BUF_SIZE
  {
    var a := Min(limit, |src| - sc);
    var n := FirstRead(|src|, sc, limit, 0);
    assert n == Min(a, DEFAULT_BUF_SIZE);
    if n == DEFAULT_BUF_SIZE {
      var buf := Refill(scratch, src, sc, n, limit);
      var d1 := Overlay(dest, dc, buf);
      assert CopyRun(dest, dc, src, sc, limit, 0, scratch) == CopyRun(d1, dc + n, src, sc + n, limit, n, buf);
      assert FirstRead(|src|, sc + n, limit, n) == a - DEFAULT_BUF_SIZE;
    }
  }

  /**
   * copy(): moves src into dest through an 8000-byte scratch buffer until a read returns 0. Each
   * pass hands the WHOLE scratch buffer to dest.write and fails unless the count it reports equals
   * the count just read: CopyRun, pass by pass. A NaN count from a dest whose cursor is lost never
   * equals it, so such a copy fails on the first non-empty read, having written nothing.
   * Can loop for ever when both cursors are past their ends, hence the requires.
   */
  method Copy(dest: ByteBuffer, src: LimitedRead) returns (r: Result<()>)
    requires src.Valid() && !src.r.lost
    requires dest != src.r && dest.buffer != src.r.buffer
    requires src.r.cur <= src.r.buffer.Length || dest.cur <= dest.buffer.Length || dest.lost
    modifies dest, dest.buffer, src, src.r
    ensures src.Valid() && !src.r.lost && dest.lost == old(dest.lost)
    ensures r.Err? ==> r.error == ShortCopy
    ensures !old(dest.lost) ==>
      var run := CopyRun(old(dest.buffer[..]), old(dest.cur), old(src.r.buffer[..]), old(src.r.cur),
                         src.bytesLimit, old(src.bytesRead), Zeros(DEFAULT_BUF_SIZE));
      && (r.Ok? <==> run.0) && dest.buffer[..] == run.1.dest && dest.cur == run.1.destCur
      && src.r.cur == run.1.srcCur && src.bytesRead == run.1.bytesRead
    ensures old(dest.lost) ==>
      var first := FirstRead(src.r.buffer.Length, old(src.r.cur), src.bytesLimit, old(src.bytesRead));
      && (r.Ok? <==> first == 0)
      && src.r.cur == old(src.r.cur) + Max(first, 0) && src.bytesRead == old(src.bytesRead) + first
      && dest.cur == old(dest.cur) && dest.buffer[..] == old(dest.buffer[..])
  {
    var buf := new byte[DEFAULT_BUF_SIZE](_ => 0);
    assert buf[..] == Zeros(DEFAULT_BUF_SIZE);
    ghost var run := if old(dest.lost) then (false, CopyState([], 0, 0, 0, []))
      else CopyRun(old(dest.buffer[..]), old(dest.cur), old(src.r.buffer[..]), old(src.r.cur),
                   src.bytesLimit, old(src.bytesRead), Zeros(DEFAULT_BUF_SIZE));
    while true
      invariant src.Valid() && !src.r.lost && dest.lost == old(dest.lost)
      invariant fresh(buf) && buf.Length == DEFAULT_BUF_SIZE
      invariant src.r.buffer[..] == old(src.r.buffer[..])
      invariant src.r.cur <= src.r.buffer.Length || dest.cur <= dest.buffer.Length || dest.lost
      invariant dest.lost ==>
        && src.r.cur == old(src.r.cur) && src.bytesRead == old(src.bytesRead)
        && dest.cur == old(dest.cur) && dest.buffer[..] == old(dest.buffer[..])
      invariant !dest.lost ==>
        run == CopyRun(dest.buffer[..], dest.cur, src.r.buffer[..], src.r.cur, src.bytesLimit, src.bytesRead, buf[..])
      decreases src.bytesLimit - src.bytesRead
    {
      ghost var prev := buf[..];
      ghost var sc := src.r.cur;
      ghost var d0, dc0 := dest.buffer[..], dest.cur;
      var read := src.Read(buf);
      ghost var sb, b := src.r.buffer[..], buf[..];
      if !dest.lost {
        CopyRunStep(d0, dc0, sb, sc, src.bytesLimit, src.bytesRead - read, prev, read, b);
      }
      if read == 0 {
        assert !dest.lost ==> run == (true, CopyState(d0, dc0, sc, src.bytesRead, b));
        return Ok(());
      }
      var written := dest.Write(buf[..]);
      if written != Int(read) {
        assert !dest.lost ==> run == (false, CopyState(Overlay(d0, dc0, b), dc0 + Max(Min(|d0| - dc0, DEFAULT_BUF_SIZE), 0),
                                                       sc + Max(read, 0), src.bytesRead - read + read, b));
        return Err(ShortCopy);
      }
      assert dest.buffer[..] == Overlay(d0, dc0, b) && dest.cur == dc0 + read;
      assert src.r.buffer[..] == sb && buf[..] == b && src.r.cur == sc + read;
      assert run == CopyRun(Overlay(d0, dc0, b), dc0 + read, sb, sc + read, src.bytesLimit, src.bytesRead - read + read, b);
      assert src.bytesRead - read + read == src.bytesRead;
    }
  }

  /**
   * copy() as evidently intended: each pass hands dest only the bytes just read. Then the copy
   * succeeds exactly when dest has room for everything src can deliver, and moves all of it.
   */
  method CopyIntended(dest: ByteBuffer, src: LimitedRead) returns (r: Result<()>)
    requires src.Valid() && !src.r.lost && !dest.lost
    requires dest != src.r && dest.buffer != src.r.buffer
    requires 0 <= src.r.cur <= src.r.buffer.Length && 0 <= dest.cur <= dest.buffer.Length
    modifies dest, dest.buffer, src, src.r
    ensures var avail := Min(old(src.r.buffer.Length - src.r.cur), old(src.bytesLimit - src.bytesRead));
      && (r.Ok? <==> avail <= old(dest.buffer.Length - dest.cur))
      && (r.Err? ==> r.error == ShortCopy)
      && (r.Ok? ==> dest.cur == old(dest.cur) + avail && src.r.cur == old(src.r.cur) + avail)
      && (r.Ok? ==> dest.buffer[..] == Transferred(old(dest.buffer[..]), old(dest.cur), old(src.r.buffer[..]), old(src.r.cur), avail))
  {
    var buf := new byte[DEFAULT_BUF_SIZE](_ => 0);
    ghost var avail := Min(src.r.buffer.Length - src.r.cur, src.bytesLimit - src.bytesRead);
    ghost var moved := 0;
    while true
      invariant src.Valid() && !src.r.lost && !dest.lost
      invariant fresh(buf) && buf.Length == DEFAULT_BUF_SIZE
      invariant 0 <= moved <= avail
      invariant src.bytesRead == old(src.bytesRead) + moved
      invariant src.r.cur == old(src.r.cur) + moved && dest.cur == old(dest.cur) + moved
      invariant src.r.buffer[..] == old(src.r.buffer[..])
      invariant dest.buffer[..] == Transferred(old(dest.buffer[..]), old(dest.cur), old(src.r.buffer[..]), old(src.r.cur), moved)
      invariant moved <= old(dest.buffer.Length - dest.cur)
      decreases src.bytesLimit - src.bytesRead
    {
      var read := src.Read(buf);
      if read == 0 {
        return Ok(());
      }
      var written := dest.Write(buf[..read]);
      if written != Int(read) {
        return Err(ShortCopy);
      }
      moved := moved + read;
    }
  }

  /** readBytes(): reads n/8 bytes and decodes them; throws when the reader delivers fewer. */
  method ReadBytes(reader: ByteBuffer, size: ByteSize, e: Endianness) returns (r: Result<int>)
    modifies reader
    ensures reader.lost == old(reader.lost)
    ensures old(reader.lost) ==> r == Err(CannotRead) && reader.cur == old(reader.cur)
    ensures !old(reader.lost) ==>
      reader.cur == old(reader.cur) + Max(Min(reader.buffer.Length - old(reader.cur), ByteCount(size)), 0)
    ensures r.Ok? <==> !old(reader.lost) && reader.buffer.Length - old(reader.cur) >= ByteCount(size)
    ensures r.Err? ==> r.error == CannotRead
    ensures r.Ok? ==> r.value == Decoded(Window(reader.buffer[..], old(reader.cur), ByteCount(size)), size, e)
  {
    var nb := ByteCount(size);
    if reader.lost {
      // read() on a NaN cursor returns NaN, which is never the width
      return Err(CannotRead);
    }
    var buf := new byte[nb](_ => 0);
    var n := reader.Read(buf);
    if n != nb {
      return Err(CannotRead);
    }
    assert buf[..] == Window(reader.buffer[..], old(reader.cur), nb);
    var v := FromBytes(buf[..], size, e);
    assert Window(buf[..], 0, nb) == buf[..];
    assert Window(Window(reader.buffer[..], old(reader.cur), nb), 0, nb) == buf[..];
    r := Ok(v);
  }
}
