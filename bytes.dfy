// Fixed-width unsigned integers and the byte layouts the C/C++ code uses when
// it memcpy's an integer into a buffer on a little-endian host, or writes a
// network-order (big-endian) field by hand.

module Wrappers {
  datatype Option<T> = None | Some(value: T)
  {
    predicate IsSome() { Some? }
  }
}

module Bytes {
  type uint8 = x: int | 0 <= x < 0x100
  type uint16 = x: int | 0 <= x < 0x1_0000
  type uint32 = x: int | 0 <= x < 0x1_0000_0000
  type uint64 = x: int | 0 <= x < 0x1_0000_0000_0000_0000

  /** Conversions of C's unsigned casts: keep the low bits. */
  function ToUint8(x: int): (r: uint8)
    ensures 0 <= x < 0x100 ==> r == x
  { x % 0x100 }

  function ToUint16(x: int): (r: uint16)
    ensures 0 <= x < 0x1_0000 ==> r == x
  { x % 0x1_0000 }

  function ToUint32(x: int): (r: uint32)
    ensures 0 <= x < 0x1_0000_0000 ==> r == x
  { x % 0x1_0000_0000 }

  /** A two's-complement 32-bit `int` as C sees it after a cast from a wider value. */
  function ToInt32(x: int): (r: int)
    ensures -0x8000_0000 <= r < 0x8000_0000
    ensures (r - x) % 0x1_0000_0000 == 0
  {
    var u := x % 0x1_0000_0000;
    if u < 0x8000_0000 then u else u - 0x1_0000_0000
  }

  /** The int that a uint32_t value converts to. */
  lemma ToInt32OfUint32(x: uint32)
    ensures ToInt32(x) == if x < 0x8000_0000 then x else x - 0x1_0000_0000
  {
  }

  /** memcpy of a uint16_t on a little-endian host. */
  function LE16(v: uint16): (r: seq<uint8>)
    ensures |r| == 2
  {
    [v % 0x100, v / 0x100]
  }

  /** memcpy of a uint32_t on a little-endian host. */
  function LE32(v: uint32): (r: seq<uint8>)
    ensures |r| == 4
  {
    [v % 0x100, (v / 0x100) % 0x100, (v / 0x1_0000) % 0x100, v / 0x100_0000]
  }

  /** Reading a uint16_t back out of a buffer at byte offset i. */
  function ReadLE16(b: seq<uint8>, i: nat): (v: uint16)
    requires i + 2 <= |b|
  {
    b[i] as int + 0x100 * (b[i + 1] as int)
  }

  /** Reading a uint32_t back out of a buffer at byte offset i. */
  function ReadLE32(b: seq<uint8>, i: nat): (v: uint32)
    requires i + 4 <= |b|
  {
    b[i] as int + 0x100 * (b[i + 1] as int) + 0x1_0000 * (b[i + 2] as int)
      + 0x100_0000 * (b[i + 3] as int)
  }

  /** A big-endian 16-bit field, high byte first. */
  function BE16(v: uint16): (r: seq<uint8>)
    ensures |r| == 2
  {
    [v / 0x100, v % 0x100]
  }

  function ReadBE16(b: seq<uint8>, i: nat): (v: uint16)
    requires i + 2 <= |b|
  {
    0x100 * (b[i] as int) + b[i + 1] as int
  }

  lemma LE16RoundTrip(v: uint16)
    ensures ReadLE16(LE16(v), 0) == v
  {
  }

  lemma BE16RoundTrip(v: uint16)
    ensures ReadBE16(BE16(v), 0) == v
  {
  }

  lemma LE32RoundTrip(v: uint32)
    ensures ReadLE32(LE32(v), 0) == v
  {
    var b0, q0 := v % 0x100, v / 0x100;
    var b1, q1 := q0 % 0x100, q0 / 0x100;
    var b2, b3 := q1 % 0x100, q1 / 0x100;
    assert v == b0 + 0x100 * q0;
    assert q0 == b1 + 0x100 * q1;
    assert q1 == b2 + 0x100 * b3;
    assert q1 == v / 0x1_0000;
    assert b3 == v / 0x100_0000;
  }

  /** Reading a LE32 field that sits inside a larger buffer. */
  lemma ReadLE32Concat(pre: seq<uint8>, v: uint32, post: seq<uint8>)
    ensures ReadLE32(pre + LE32(v) + post, |pre|) == v
  {
    var b := pre + LE32(v) + post;
    assert b[|pre|..|pre| + 4] == LE32(v);
    LE32RoundTrip(v);
  }

  /** Reading a LE32 field found at offset i. */
  lemma ReadLE32At(b: seq<uint8>, i: nat, v: uint32)
    requires i + 4 <= |b| && b[i..i + 4] == LE32(v)
    ensures ReadLE32(b, i) == v
  {
    assert b[i] == LE32(v)[0] && b[i + 1] == LE32(v)[1];
    assert b[i + 2] == LE32(v)[2] && b[i + 3] == LE32(v)[3];
    LE32RoundTrip(v);
  }

  /** Reading at offset i + j is reading the suffix from i at offset j. */
  lemma ReadLE32Shift(b: seq<uint8>, i: nat, j: nat)
    requires i + j + 4 <= |b|
    ensures ReadLE32(b, i + j) == ReadLE32(b[i..], j)
  {
  }

  lemma ReadLE16At(b: seq<uint8>, i: nat, v: uint16)
    requires i + 2 <= |b| && b[i..i + 2] == LE16(v)
    ensures ReadLE16(b, i) == v
  {
    assert b[i] == LE16(v)[0] && b[i + 1] == LE16(v)[1];
    LE16RoundTrip(v);
  }

  lemma ReadLE16Concat(pre: seq<uint8>, v: uint16, post: seq<uint8>)
    ensures ReadLE16(pre + LE16(v) + post, |pre|) == v
  {
    var b := pre + LE16(v) + post;
    assert b[|pre|..|pre| + 2] == LE16(v);
    LE16RoundTrip(v);
  }
}

// Writing into and reading out of a malloc'd byte buffer.
module Buffers {
  import opened Bytes

  /** memcpy(dst + at, src, |src|) followed by advancing the write pointer. */
  method Memcpy(dst: array<uint8>, at: nat, src: seq<uint8>) returns (next: nat)
    requires at + |src| <= dst.Length
    modifies dst
    ensures next == at + |src|
    ensures dst[..next] == old(dst[..at]) + src
    ensures dst[next..] == old(dst[next..])
  {
    var k := 0;
    while k < |src|
      invariant 0 <= k <= |src|
      invariant dst[..at + k] == old(dst[..at]) + src[..k]
      invariant dst[at + k..] == old(dst[at + k..])
    {
      dst[at + k] := src[k];
      k := k + 1;
      assert dst[..at + k] == dst[..at + k - 1] + [src[k - 1]];
      assert src[..k] == src[..k - 1] + [src[k - 1]];
    }
    next := at + |src|;
  }

  /** b with the bytes at [at, at + |v|) replaced by v. */
  function Overwrite(b: seq<uint8>, at: nat, v: seq<uint8>): (r: seq<uint8>)
    requires at + |v| <= |b|
    ensures |r| == |b| && r[at..at + |v|] == v
    ensures r[..at] == b[..at] && r[at + |v|..] == b[at + |v|..]
  {
    b[..at] + v + b[at + |v|..]
  }

  /** A fresh buffer holding a copy of b: malloc(|b|) then memcpy. */
  method CopyOf(b: seq<uint8>) returns (a: array<uint8>)
    ensures fresh(a) && a[..] == b
  {
    a := new uint8[|b|];
    var k := 0;
    while k < |b|
      invariant 0 <= k <= |b|
      invariant a[..k] == b[..k]
    {
      a[k] := b[k];
      k := k + 1;
    }
  }

  /** What std::string::assign(const char*) keeps of a NUL-terminated copy:
      the bytes before the first NUL. */
  function CString(b: seq<uint8>): (r: seq<uint8>)
    ensures |r| <= |b| && r == b[..|r|]
    ensures 0 !in r
    ensures |r| < |b| ==> b[|r|] == 0
  {
    if b == [] || b[0] == 0 then [] else [b[0]] + CString(b[1..])
  }

  /** The first NUL (or the end) at index i fixes the C string. */
  lemma CStringAt(b: seq<uint8>, i: nat)
    requires i <= |b| && 0 !in b[..i]
    requires i == |b| || b[i] == 0
    ensures CString(b) == b[..i]
  {
    assert forall j :: 0 <= j < i ==> b[j] == b[..i][j];
  }

  /** A string written as its 32-bit length then its bytes reads back as
      itself when it holds no NUL, and the fields after it start at 4 + |name|. */
  lemma LengthPrefixed(b: seq<uint8>, name: seq<uint8>, t: seq<uint8>)
    requires 0 !in name && |name| < 0x1_0000_0000
    requires b == LE32(ToUint32(|name|)) + name + t
    ensures |b| >= 4 && ReadLE32(b, 0) == |name|
    ensures CString(b[4..4 + |name|]) == name
    ensures b[4 + |name|..] == t
  {
    var n := |name|;
    assert ToUint32(n) == n;
    assert b == [] + LE32(n) + (name + t);
    ReadLE32Concat([], n, name + t);
    assert b[4..4 + n] == name;
    CStringAt(name, n);
  }
}
