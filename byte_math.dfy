/**
 * Base-256 readings of byte sequences, and the bytes that repeated `& 0xFF` / `>> 8`
 * steps extract from a value. These are the reference definitions the codecs are proved against.
 */
module ByteMath {
  import opened JsNumber

  /** The widths the integer helpers accept, in bits. */
  type ByteSize = n: int | n == 8 || n == 16 || n == 32 || n == 64 witness 8

  /** `size / 8`, written out per width. */
  function ByteCount(size: ByteSize): (n: nat)
    ensures 8 * n == size
  {
    if size == 8 then 1 else if size == 16 then 2 else if size == 32 then 4 else 8
  }

  function Min(a: int, b: int): int {
    if a <= b then a else b
  }

  function Max(a: int, b: int): int {
    if a <= b then b else a
  }

  function Pow256(n: nat): (r: nat)
    ensures r >= 1
  {
    if n == 0 then 1 else 256 * Pow256(n - 1)
  }

  /** Element i of a Uint8Array: an index outside the array reads `undefined`, which every bitwise operator turns into 0. */
  function ByteAt(s: seq<byte>, i: int): byte {
    if 0 <= i < |s| then s[i] else 0
  }

  /** The n bytes starting at index `at`, as the source's index loops see them. */
  function Window(s: seq<byte>, at: int, n: nat): (w: seq<byte>)
    ensures |w| == n
  {
    seq<byte>(n, i requires 0 <= i < n => ByteAt(s, at + i))
  }

  /** k arithmetic shifts right by 8 of a 32-bit value. */
  function Shr(y: int, k: nat): int {
    if k == 0 then y else Shr(y, k - 1) / 256
  }

  lemma {:induction false} ShrInt32(y: int, k: nat)
    requires IsInt32(y)
    ensures IsInt32(Shr(y, k))
  {
    if k > 0 {
      ShrInt32(y, k - 1);
    }
  }

  lemma {:induction false} ShrShift(y: int, k: nat)
    ensures Shr(y / 256, k) == Shr(y, k + 1)
  {
    if k > 0 {
      ShrShift(y, k - 1);
    }
  }

  /** Byte k of v, least significant first: what the k-th `& 0xFF` of a `>> 8` loop yields. */
  function Digit(v: int, k: nat): byte {
    Shr(ToInt32(v), k) % 256
  }

  /** The n bytes of y, least significant first, by repeated division. */
  function LsbBytes(y: int, n: nat): (r: seq<byte>)
    ensures |r| == n
    decreases n
  {
    if n == 0 then [] else [y % 256] + LsbBytes(y / 256, n - 1)
  }

  lemma {:induction false} LsbBytesAt(y: int, n: nat, k: nat)
    requires k < n
    ensures LsbBytes(y, n)[k] == Shr(y, k) % 256
    decreases n
  {
    if k > 0 {
      LsbBytesAt(y / 256, n - 1, k - 1);
      ShrShift(y, k - 1);
    }
  }

  function Reverse(s: seq<byte>): (r: seq<byte>)
    ensures |r| == |s|
    ensures forall i :: 0 <= i < |s| ==> r[i] == s[|s| - 1 - i]
  {
    seq(|s|, i requires 0 <= i < |s| => s[|s| - 1 - i])
  }

  /** Little-endian reading: s[0] is the least significant byte. */
  function LE(s: seq<byte>): nat {
    if s == [] then 0 else s[0] + 256 * LE(s[1..])
  }

  /** Big-endian reading: the last byte is the least significant one. */
  function BE(s: seq<byte>): nat {
    if s == [] then 0 else 256 * BE(s[..|s| - 1]) + s[|s| - 1]
  }

  /** OR of all bytes of s. */
  function OrAll(s: seq<byte>): byte {
    if s == [] then 0 else Or8(OrAll(s[..|s| - 1]), s[|s| - 1])
  }

  lemma {:induction false} LEBound(s: seq<byte>)
    ensures LE(s) < Pow256(|s|)
  {
    if s != [] {
      LEBound(s[1..]);
    }
  }

  lemma {:induction false} BEBound(s: seq<byte>)
    ensures BE(s) < Pow256(|s|)
  {
    if s != [] {
      BEBound(s[..|s| - 1]);
    }
  }

  /** The little-endian reading of LsbBytes(y, n) is y modulo 256^n, so those bytes determine y's low n bytes. */
  lemma {:induction false} LsbBytesValue(y: int, n: nat)
    ensures LE(LsbBytes(y, n)) == y % Pow256(n)
    decreases n
  {
    if n > 0 {
      var s := LsbBytes(y, n);
      assert s[1..] == LsbBytes(y / 256, n - 1);
      LsbBytesValue(y / 256, n - 1);
      var q := y / 256;
      var p := Pow256(n - 1);
      var t := q / p;
      assert q == p * t + q % p;
      assert y == 256 * q + y % 256;
      assert y == (256 * p) * t + (y % 256 + 256 * (q % p));
      ModUnique(y, 256 * p, t, y % 256 + 256 * (q % p));
    }
  }

  /** Reading a reversed sequence big-endian is reading it little-endian. */
  lemma {:induction false} BEReverse(s: seq<byte>)
    ensures BE(Reverse(s)) == LE(s)
  {
    if s != [] {
      var r := Reverse(s);
      assert r[..|r| - 1] == Reverse(s[1..]);
      BEReverse(s[1..]);
    }
  }

  /**
   * s with src laid over it from index `at` on. Indices of src that fall outside s are
   * dropped, as a typed array drops stores outside its bounds.
   */
  function Overlay(s: seq<byte>, at: int, src: seq<byte>): (r: seq<byte>)
    ensures |r| == |s|
  {
    seq<byte>(|s|, i requires 0 <= i < |s| => if at <= i < at + |src| then src[i - at] else s[i])
  }

  /**
   * Two overlays in a row make one overlay of the concatenation, provided the second starts where
   * the first ended, or both the first's end and the second's start are past the end of s.
   */
  lemma OverlayStep(s: seq<byte>, at: int, s1: seq<byte>, next: int, s2: seq<byte>)
    requires next == at + |s1| || (next >= |s| && at + |s1| >= |s|)
    ensures Overlay(Overlay(s, at, s1), next, s2) == Overlay(s, at, s1 + s2)
  {
    var l := Overlay(Overlay(s, at, s1), next, s2);
    var r := Overlay(s, at, s1 + s2);
    forall i | 0 <= i < |s|
      ensures l[i] == r[i]
    {
      if at <= i < at + |s1| {
        assert (s1 + s2)[i - at] == s1[i - at];
      } else if next == at + |s1| && next <= i < next + |s2| {
        assert (s1 + s2)[i - at] == s2[i - next];
      }
    }
  }

  /** An overlay that starts past the end changes nothing, so two such starts give the same result. */
  lemma OverlaySamePlace(s: seq<byte>, p: int, q: int, src: seq<byte>)
    requires p == q || (p >= |s| && q >= |s|)
    ensures Overlay(s, p, src) == Overlay(s, q, src)
  {
    if p != q {
      assert Overlay(s, p, src) == s;
      assert Overlay(s, q, src) == s;
    }
  }

  /** An overlay that fits puts src exactly in its place. */
  lemma OverlayPlaced(s: seq<byte>, at: int, src: seq<byte>)
    requires 0 <= at && at + |src| <= |s|
    ensures Overlay(s, at, src)[at..at + |src|] == src
  {
  }

  /** An overlay leaves every index outside its range alone, and so any slice apart from it. */
  lemma OverlayElsewhere(s: seq<byte>, at: int, src: seq<byte>, lo: int, hi: int)
    requires 0 <= lo <= hi <= |s|
    requires hi <= at || at + |src| <= lo
    ensures Overlay(s, at, src)[lo..hi] == s[lo..hi]
  {
  }

  /** A window that lies inside s is a slice of it. */
  lemma WindowInside(s: seq<byte>, at: int, n: nat)
    requires 0 <= at && at + n <= |s|
    ensures Window(s, at, n) == s[at..at + n]
  {
    forall i | 0 <= i < n
      ensures Window(s, at, n)[i] == s[at..at + n][i]
    {
      assert ByteAt(s, at + i) == s[at + i];
    }
  }

  /** A slice of a window is the window at the slice's start. */
  lemma WindowSlice(s: seq<byte>, at: int, n: nat, i: nat, k: nat)
    requires i + k <= n
    ensures Window(s, at, n)[i..i + k] == Window(s, at + i, k)
  {
  }

  /** A write that happens only when `c` holds, as for the metadata fields written only when truthy. */
  function Put(s: seq<byte>, at: int, c: bool, src: seq<byte>): (r: seq<byte>)
    ensures |r| == |s|
  {
    if c then Overlay(s, at, src) else s
  }

  /** Three conditional writes of consecutive fields from `at` on. */
  function Put3(s: seq<byte>, at: int, c1: bool, f1: seq<byte>, c2: bool, f2: seq<byte>, c3: bool, f3: seq<byte>): (r: seq<byte>)
    ensures |r| == |s|
  {
    Put(Put(Put(s, at, c1, f1), at + |f1|, c2, f2), at + |f1| + |f2|, c3, f3)
  }

  lemma PutPlaced(s: seq<byte>, at: int, c: bool, src: seq<byte>)
    requires 0 <= at && at + |src| <= |s|
    ensures Put(s, at, c, src)[at..at + |src|] == if c then src else s[at..at + |src|]
  {
    if c {
      OverlayPlaced(s, at, src);
    }
  }

  lemma PutElsewhere(s: seq<byte>, at: int, c: bool, src: seq<byte>, lo: int, hi: int)
    requires 0 <= lo <= hi <= |s|
    requires hi <= at || at + |src| <= lo
    ensures Put(s, at, c, src)[lo..hi] == s[lo..hi]
  {
    if c {
      OverlayElsewhere(s, at, src, lo, hi);
    }
  }

  /** Where the three fields fit, each slot holds its field or keeps its old bytes. */
  lemma Put3Layout(s: seq<byte>, at: int, c1: bool, f1: seq<byte>, c2: bool, f2: seq<byte>, c3: bool, f3: seq<byte>)
    requires 0 <= at && at + |f1| + |f2| + |f3| <= |s|
    ensures var r := Put3(s, at, c1, f1, c2, f2, c3, f3);
      var a2, a3 := at + |f1|, at + |f1| + |f2|;
      var e := a3 + |f3|;
      && r[at..a2] == (if c1 then f1 else s[at..a2])
      && r[a2..a3] == (if c2 then f2 else s[a2..a3])
      && r[a3..e] == (if c3 then f3 else s[a3..e])
  {
    Put3First(s, at, c1, f1, c2, f2, c3, f3);
    Put3Second(s, at, c1, f1, c2, f2, c3, f3);
    Put3Third(s, at, c1, f1, c2, f2, c3, f3);
  }

  lemma Put3First(s: seq<byte>, at: int, c1: bool, f1: seq<byte>, c2: bool, f2: seq<byte>, c3: bool, f3: seq<byte>)
    requires 0 <= at && at + |f1| + |f2| + |f3| <= |s|
    ensures Put3(s, at, c1, f1, c2, f2, c3, f3)[at..at + |f1|] == if c1 then f1 else s[at..at + |f1|]
  {
    var s1 := Put(s, at, c1, f1);
    var s2 := Put(s1, at + |f1|, c2, f2);
    PutPlaced(s, at, c1, f1);
    PutElsewhere(s1, at + |f1|, c2, f2, at, at + |f1|);
    PutElsewhere(s2, at + |f1| + |f2|, c3, f3, at, at + |f1|);
  }

  lemma Put3Second(s: seq<byte>, at: int, c1: bool, f1: seq<byte>, c2: bool, f2: seq<byte>, c3: bool, f3: seq<byte>)
    requires 0 <= at && at + |f1| + |f2| + |f3| <= |s|
    ensures var a2 := at + |f1|;
      Put3(s, at, c1, f1, c2, f2, c3, f3)[a2..a2 + |f2|] == if c2 then f2 else s[a2..a2 + |f2|]
  {
    var a2 := at + |f1|;
    var s1 := Put(s, at, c1, f1);
    var s2 := Put(s1, a2, c2, f2);
    PutElsewhere(s, at, c1, f1, a2, a2 + |f2|);
    PutPlaced(s1, a2, c2, f2);
    PutElsewhere(s2, a2 + |f2|, c3, f3, a2, a2 + |f2|);
  }

  lemma Put3Third(s: seq<byte>, at: int, c1: bool, f1: seq<byte>, c2: bool, f2: seq<byte>, c3: bool, f3: seq<byte>)
    requires 0 <= at && at + |f1| + |f2| + |f3| <= |s|
    ensures var a3 := at + |f1| + |f2|;
      Put3(s, at, c1, f1, c2, f2, c3, f3)[a3..a3 + |f3|] == if c3 then f3 else s[a3..a3 + |f3|]
  {
    var a3 := at + |f1| + |f2|;
    var s1 := Put(s, at, c1, f1);
    var s2 := Put(s1, at + |f1|, c2, f2);
    PutElsewhere(s, at, c1, f1, a3, a3 + |f3|);
    PutElsewhere(s1, at + |f1|, c2, f2, a3, a3 + |f3|);
    PutPlaced(s2, a3, c3, f3);
  }

  /** The three writes leave every index outside the fields alone. */
  lemma Put3Outside(s: seq<byte>, at: int, c1: bool, f1: seq<byte>, c2: bool, f2: seq<byte>, c3: bool, f3: seq<byte>, i: int)
    requires 0 <= i < |s| && !(at <= i < at + |f1| + |f2| + |f3|)
    ensures Put3(s, at, c1, f1, c2, f2, c3, f3)[i] == s[i]
  {
    var s1 := Put(s, at, c1, f1);
    var s2 := Put(s1, at + |f1|, c2, f2);
    assert s1[i] == s[i];
    assert s2[i] == s1[i];
  }
}
