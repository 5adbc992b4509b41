/** Byte-level vocabulary shared by the storage layer: Go's `byte`, the fixed
    page size, little-endian integers as `encoding/binary` writes them, and Go's
    byte-wise string order. */
module Bytes {

  type byte = b: int | 0 <= b < 0x100
  type u16 = x: int | 0 <= x < 0x1_0000
  type u32 = x: int | 0 <= x < 0x1_0000_0000

  /** store.PageSize */
  const PageSize: int := 4096

  function Zeros(n: nat): (z: seq<byte>)
    ensures |z| == n
  {
    seq(n, _ => 0)
  }

  /** Go's `uint32(x)` / `int32(x)` bit pattern of an integer: the value modulo 2^32. */
  function ToU32(x: int): u32 {
    x % 0x1_0000_0000
  }

  /** Go's `uint16(x)`: the value modulo 2^16. */
  function ToU16(x: int): u16 {
    x % 0x1_0000
  }

  /** binary.LittleEndian.PutUint16 */
  function LE16(x: u16): seq<byte> {
    [x % 0x100, x / 0x100]
  }

  /** binary.LittleEndian.PutUint32 */
  function LE32(x: u32): seq<byte> {
    [x % 0x100, (x / 0x100) % 0x100, (x / 0x1_0000) % 0x100, x / 0x100_0000]
  }

  /** binary.LittleEndian.Uint16(s[at:]) */
  function U16At(s: seq<byte>, at: int): u16
    requires 0 <= at && at + 2 <= |s|
  {
    var b0: int, b1: int := s[at], s[at + 1];
    b0 + 0x100 * b1
  }

  /** binary.LittleEndian.Uint32(s[at:]) */
  function U32At(s: seq<byte>, at: int): u32
    requires 0 <= at && at + 4 <= |s|
  {
    var b0: int, b1: int, b2: int, b3: int := s[at], s[at + 1], s[at + 2], s[at + 3];
    b0 + 0x100 * (b1 + 0x100 * (b2 + 0x100 * b3))
  }

  /** binary.Read into an int32: the same four bytes read as two's complement. */
  function I32At(s: seq<byte>, at: int): (v: int)
    requires 0 <= at && at + 4 <= |s|
    ensures -0x8000_0000 <= v < 0x8000_0000
  {
    var u := U32At(s, at);
    if u < 0x8000_0000 then u else u - 0x1_0000_0000
  }

  /** `data` written over `s` at position `at`. */
  function Splice(s: seq<byte>, at: int, d: seq<byte>): (r: seq<byte>)
    requires 0 <= at && at + |d| <= |s|
    ensures |r| == |s|
  {
    s[..at] + d + s[at + |d|..]
  }

  /** Go's copy(buf[at:], data); binary.LittleEndian.PutUint16/PutUint32 write
      the same way. */
  method CopyInto(buf: array<byte>, at: int, data: seq<byte>)
    requires 0 <= at && at + |data| <= buf.Length
    modifies buf
    ensures buf[..] == Splice(old(buf[..]), at, data)
  {
    forall k | 0 <= k < |data| {
      buf[at + k] := data[k];
    }
    assert buf[..] == old(buf[..])[..at] + data + old(buf[..])[at + |data|..];
  }

  /** The two bytes PutUint16(uint16(x)) writes make up x again, for x in range. */
  lemma LowHigh(x: int)
    requires 0 <= x < 0x1_0000
    ensures ToU16(x) % 0x100 + 0x100 * (ToU16(x) / 0x100) == x
  {
  }

  /** What Splice writes reads back. */
  lemma SpliceInside(s: seq<byte>, at: int, d: seq<byte>)
    requires 0 <= at && at + |d| <= |s|
    ensures Splice(s, at, d)[at..at + |d|] == d
  {
    assert Splice(s, at, d)[at..at + |d|] == (s[..at] + d + s[at + |d|..])[|s[..at]|..|s[..at]| + |d|];
  }

  /** Splice leaves every range it does not write alone. */
  lemma SpliceOutside(s: seq<byte>, at: int, d: seq<byte>, lo: int, hi: int)
    requires 0 <= at && at + |d| <= |s| && 0 <= lo <= hi <= |s|
    requires hi <= at || at + |d| <= lo
    ensures Splice(s, at, d)[lo..hi] == s[lo..hi]
  {
    var r := Splice(s, at, d);
    assert forall k :: lo <= k < hi ==> r[k] == s[k];
    assert forall k :: 0 <= k < hi - lo ==> r[lo..hi][k] == s[lo..hi][k];
  }

  /** p and q hold the same bytes in [lo, hi). */
  predicate Agree(p: seq<byte>, q: seq<byte>, lo: int, hi: int) {
    0 <= lo <= hi <= |p| && hi <= |q| && forall i :: lo <= i < hi ==> p[i] == q[i]
  }

  /** Splice agrees with the original everywhere outside what it writes. */
  lemma SpliceAgree(s: seq<byte>, at: int, d: seq<byte>, lo: int, hi: int)
    requires 0 <= at && at + |d| <= |s| && 0 <= lo <= hi <= |s|
    requires hi <= at || at + |d| <= lo
    ensures Agree(s, Splice(s, at, d), lo, hi)
  {
  }

  lemma AgreeTrans(p: seq<byte>, q: seq<byte>, r: seq<byte>, lo: int, hi: int)
    requires Agree(p, q, lo, hi) && Agree(q, r, lo, hi)
    ensures Agree(p, r, lo, hi)
  {
  }

  /** Agreement on a range is agreement on each range inside it. */
  lemma AgreeWithin(p: seq<byte>, q: seq<byte>, lo: int, hi: int, lo': int, hi': int)
    requires Agree(p, q, lo, hi) && lo <= lo' <= hi' <= hi
    ensures Agree(p, q, lo', hi')
  {
  }

  /** Agreeing bytes make equal slices. */
  lemma AgreeSlice(p: seq<byte>, q: seq<byte>, lo: int, hi: int)
    requires Agree(p, q, lo, hi)
    ensures p[lo..hi] == q[lo..hi]
  {
    assert forall k :: 0 <= k < hi - lo ==> p[lo..hi][k] == q[lo..hi][k];
  }

  /** Agreeing bytes read as the same uint32. */
  lemma AgreeU32(p: seq<byte>, q: seq<byte>, at: int, lo: int, hi: int)
    requires Agree(p, q, lo, hi) && lo <= at && at + 4 <= hi
    ensures U32At(p, at) == U32At(q, at)
  {
    assert p[at] == q[at] && p[at + 1] == q[at + 1] && p[at + 2] == q[at + 2] && p[at + 3] == q[at + 3];
  }

  lemma Subslice(s: seq<byte>, lo: int, hi: int, i: int, j: int)
    requires 0 <= lo <= hi <= |s| && 0 <= i <= j <= hi - lo
    ensures s[lo..hi][i..j] == s[lo + i..lo + j]
  {
    assert forall k :: 0 <= k < j - i ==> s[lo..hi][i..j][k] == s[lo + i..lo + j][k];
  }

  lemma DivMod256(b: int, y: int)
    requires 0 <= b < 0x100
    ensures (b + 0x100 * y) % 0x100 == b && (b + 0x100 * y) / 0x100 == y
  {
  }

  /** Reading back what PutUint16 wrote, wherever it sits. */
  lemma U16OfLE16(x: u16, s: seq<byte>, at: int)
    requires 0 <= at && at + 2 <= |s| && s[at..at + 2] == LE16(x)
    ensures U16At(s, at) == x
  {
    assert s[at] == s[at..at + 2][0] && s[at + 1] == s[at..at + 2][1];
  }

  /** Reading back what PutUint32 wrote, wherever it sits. */
  lemma U32OfLE32(x: u32, s: seq<byte>, at: int)
    requires 0 <= at && at + 4 <= |s| && s[at..at + 4] == LE32(x)
    ensures U32At(s, at) == x
  {
    var w := s[at..at + 4];
    assert s[at] == w[0] && s[at + 1] == w[1] && s[at + 2] == w[2] && s[at + 3] == w[3];
    var q1 := x / 0x100;
    var q2 := q1 / 0x100;
    DivTwice(x);
    DivTwice(x / 0x100);
    assert x == x % 0x100 + 0x100 * q1;
    assert q1 == q1 % 0x100 + 0x100 * q2;
    assert q2 == q2 % 0x100 + 0x100 * (q2 / 0x100);
  }

  /** Dividing by 2^16 is dividing by 2^8 twice. */
  lemma DivTwice(x: int)
    requires x >= 0
    ensures x / 0x1_0000 == (x / 0x100) / 0x100
    ensures x / 0x100_0000 == (x / 0x1_0000) / 0x100
  {
    var q := (x / 0x100) / 0x100;
    assert x == 0x1_0000 * q + 0x100 * ((x / 0x100) % 0x100) + x % 0x100;
    var q' := (x / 0x1_0000) / 0x100;
    assert x == 0x100_0000 * q' + 0x1_0000 * ((x / 0x1_0000) % 0x100) + x % 0x1_0000;
  }

  /** Four bytes are exactly the little-endian encoding of the value they denote. */
  lemma LE32OfU32(s: seq<byte>, at: int)
    requires 0 <= at && at + 4 <= |s|
    ensures LE32(U32At(s, at)) == s[at..at + 4]
  {
    var b0: int, b1: int, b2: int, b3: int := s[at], s[at + 1], s[at + 2], s[at + 3];
    var z := b2 + 0x100 * b3;
    var y := b1 + 0x100 * z;
    DivMod256(b0, y);
    DivMod256(b1, z);
    DivMod256(b2, b3);
    var x := U32At(s, at);
    assert x / 0x100 == y;
    assert x / 0x1_0000 == z;
    assert x / 0x100_0000 == b3;
  }

  /** A non-negative int32 is written back as the bytes it was read from. */
  lemma LE32OfI32(s: seq<byte>, at: int)
    requires 0 <= at && at + 4 <= |s| && I32At(s, at) >= 0
    ensures LE32(ToU32(I32At(s, at))) == s[at..at + 4]
  {
    var u := U32At(s, at);
    assert I32At(s, at) == u;
    assert ToU32(u) == u;
    LE32OfU32(s, at);
  }

  /** Go's `a < b` on strings: byte-wise lexicographic order. */
  predicate Less(a: seq<byte>, b: seq<byte>) {
    if |a| == 0 then |b| > 0
    else if |b| == 0 then false
    else if a[0] != b[0] then a[0] < b[0]
    else Less(a[1..], b[1..])
  }

  lemma {:induction false} LessIrreflexive(a: seq<byte>)
    ensures !Less(a, a)
  {
    if |a| > 0 {
      LessIrreflexive(a[1..]);
    }
  }

  lemma {:induction false} LessTransitive(a: seq<byte>, b: seq<byte>, c: seq<byte>)
    requires Less(a, b) && Less(b, c)
    ensures Less(a, c)
  {
    if |a| > 0 && |b| > 0 && |c| > 0 && a[0] == b[0] == c[0] {
      LessTransitive(a[1..], b[1..], c[1..]);
    }
  }

  /** Any two distinct strings are ordered one way or the other. */
  lemma {:induction false} LessTotal(a: seq<byte>, b: seq<byte>)
    requires a != b
    ensures Less(a, b) || Less(b, a)
  {
    if |a| > 0 && |b| > 0 && a[0] == b[0] {
      assert a == [a[0]] + a[1..] && b == [b[0]] + b[1..];
      LessTotal(a[1..], b[1..]);
    }
  }
}
