// The link-identifier (LID) codec of the SDN bootstrapping application: a LID
// is a 256-character string of '0'/'1' with a single '1' at the link's bit
// position; the switches match it as two IPv6 addresses written in the
// preferred x:x:x:x:x:x:x:x form of section 2.2 of RFC 4291.

module LidCodec {
  import opened Wrappers
  import opened Bytes
  import opened Text

  const LID_LENGTH: nat := 256

  /** generateLid(pos): '1' at index pos, '0' everywhere else. */
  function GenerateLid(pos: int): (lid: string)
    ensures |lid| == LID_LENGTH
    ensures forall i :: 0 <= i < LID_LENGTH ==> (lid[i] == '1' <==> i == pos)
    ensures AllBits(lid)
  {
    seq(LID_LENGTH, i => if i == pos then '1' else '0')
  }

  predicate IsBit(c: char) { c == '0' || c == '1' }

  predicate AllBits(s: string)
  {
    forall i :: 0 <= i < |s| ==> IsBit(s[i])
  }

  /** lidBitPosition: the index of the first '1', or -1 when there is none. */
  function LidBitPosition(lid: string): (pos: int)
    ensures -1 <= pos < |lid|
    ensures pos >= 0 ==> lid[pos] == '1' && forall i :: 0 <= i < pos ==> lid[i] != '1'
    ensures pos == -1 <==> forall i :: 0 <= i < |lid| ==> lid[i] != '1'
  {
    FirstOneFrom(lid, 0)
  }

  function FirstOneFrom(lid: string, from: nat): (pos: int)
    requires from <= |lid|
    ensures pos == -1 || from <= pos < |lid|
    ensures pos >= 0 ==> lid[pos] == '1' && forall i :: from <= i < pos ==> lid[i] != '1'
    ensures pos == -1 <==> forall i :: from <= i < |lid| ==> lid[i] != '1'
    decreases |lid| - from
  {
    if from == |lid| then -1
    else if lid[from] == '1' then from
    else FirstOneFrom(lid, from + 1)
  }

  /** The bit position is recovered from a generated LID. */
  lemma BitPositionOfGeneratedLid(p: int)
    ensures LidBitPosition(GenerateLid(p)) == if 0 <= p < LID_LENGTH then p else -1
  {
    var lid := GenerateLid(p);
    if 0 <= p < LID_LENGTH {
      assert lid[p] == '1';
    }
  }

  /** new StringBuilder(s).reverse(), for text without surrogate pairs. */
  function Reverse(s: string): (r: string)
    ensures |r| == |s|
    ensures forall i :: 0 <= i < |s| ==> r[i] == s[|s| - 1 - i]
  {
    seq(|s|, i requires 0 <= i < |s| => s[|s| - 1 - i])
  }

  function BitValue(c: char): nat { if c == '1' then 1 else 0 }

  /** The value of a binary numeral read most significant digit first. */
  function MsbValue(s: string): nat
  {
    if s == [] then 0 else 2 * MsbValue(s[..|s| - 1]) + BitValue(s[|s| - 1])
  }

  /** The value of a bit string whose first character is the least significant bit. */
  function LsbValue(s: string): nat
  {
    if s == [] then 0 else BitValue(s[0]) + 2 * LsbValue(s[1..])
  }

  function Pow2(n: nat): (r: nat)
    ensures r >= 1
  {
    if n == 0 then 1 else 2 * Pow2(n - 1)
  }

  /** Integer.parseInt(s, 2) on ASCII digits: an optional sign, then at least one
      binary digit; None stands for the NumberFormatException. Only applied to
      8-character strings here, so the int range is never exceeded. */
  function ParseBinary(s: string): (r: Option<int>)
    ensures r.Some? && |s| > 0 && IsBit(s[0]) ==> r.value == MsbValue(s)
  {
    if |s| == 0 then None
    else if s[0] == '-' || s[0] == '+' then
      if |s| == 1 || !AllBits(s[1..]) then None
      else if s[0] == '-' then Some(-(MsbValue(s[1..]) as int))
      else Some(MsbValue(s[1..]))
    else if AllBits(s) then Some(MsbValue(s))
    else None
  }

  /** Byte i of lidToIpv6: chunk [8i, 8i+8) reversed, parsed as binary and
      narrowed with a (byte) cast. */
  function ChunkByte(lid: string, i: nat): Option<uint8>
    requires 8 * i + 8 <= |lid|
  {
    match ParseBinary(Reverse(lid[8 * i..8 * i + 8]))
    case None => None
    case Some(v) => Some(ToUint8(v))
  }

  /** The 16 address bytes of a 128-character half-LID, or None when one chunk
      does not parse (the loop of lidToIpv6). */
  function LidBytes(lid: string): (r: Option<seq<uint8>>)
    requires |lid| == 128
    ensures r.Some? ==> |r.value| == 16
  {
    ChunkBytes(lid, 0)
  }

  function ChunkBytes(lid: string, i: nat): (r: Option<seq<uint8>>)
    requires |lid| == 128 && i <= 16
    ensures r.Some? ==> |r.value| == 16 - i
    decreases 16 - i
  {
    if i == 16 then Some([])
    else
      match ChunkByte(lid, i)
      case None => None
      case Some(b) =>
        match ChunkBytes(lid, i + 1)
        case None => None
        case Some(rest) => Some([b] + rest)
  }

  /** Reading the reversed chunk most-significant-first reads the chunk itself
      least-significant-first. */
  lemma {:induction false} MsbOfReverse(c: string)
    ensures MsbValue(Reverse(c)) == LsbValue(c)
    decreases |c|
  {
    if c != [] {
      var r := Reverse(c);
      assert r[..|r| - 1] == Reverse(c[1..]);
      assert r[|r| - 1] == c[0];
      MsbOfReverse(c[1..]);
    }
  }

  lemma {:induction false} LsbValueBound(c: string)
    ensures LsbValue(c) < Pow2(|c|)
    decreases |c|
  {
    if c != [] {
      LsbValueBound(c[1..]);
    }
  }

  /** A chunk of '0'/'1' parses, and its byte is the chunk read with its first
      character as the least significant bit. */
  lemma ChunkByteValue(lid: string, i: nat)
    requires 8 * i + 8 <= |lid|
    requires AllBits(lid[8 * i..8 * i + 8])
    ensures ChunkByte(lid, i) == Some(LsbValue(lid[8 * i..8 * i + 8]))
  {
    var c := lid[8 * i..8 * i + 8];
    var r := Reverse(c);
    assert IsBit(r[0]) && AllBits(r);
    MsbOfReverse(c);
    LsbValueBound(c);
    assert Pow2(8) == 256;
  }

  /** The byte an 8-character chunk of '0'/'1' stands for, first character least significant. */
  function ChunkValue(c: string): uint8
    requires |c| == 8
  {
    LsbValueBound(c);
    assert Pow2(8) == 256;
    LsbValue(c)
  }

  /** The values of chunks i to 15, each read least significant bit first. */
  function ChunkValues(lid: string, i: nat): (r: seq<uint8>)
    requires |lid| == 128 && i <= 16
    decreases 16 - i
  {
    if i == 16 then [] else [ChunkValue(lid[8 * i..8 * i + 8])] + ChunkValues(lid, i + 1)
  }

  /** Entry k - i of ChunkValues(lid, i) is chunk k's value. */
  lemma {:induction false} ChunkValuesAt(lid: string, i: nat)
    requires |lid| == 128 && i <= 16
    ensures |ChunkValues(lid, i)| == 16 - i
    ensures forall k :: i <= k < 16 ==> ChunkValues(lid, i)[k - i] == ChunkValue(lid[8 * k..8 * k + 8])
    decreases 16 - i
  {
    if i < 16 {
      ChunkValuesAt(lid, i + 1);
      var rest := ChunkValues(lid, i + 1);
      var whole := ChunkValues(lid, i);
      assert whole == [ChunkValue(lid[8 * i..8 * i + 8])] + rest;
      forall k | i <= k < 16 ensures whole[k - i] == ChunkValue(lid[8 * k..8 * k + 8]) {
        if k > i {
          assert whole[k - i] == rest[k - (i + 1)];
        }
      }
    }
  }

  /** From chunk i on, ChunkBytes of a '0'/'1' half-LID reads the chunk values. */
  lemma {:induction false} ChunkBytesOfBits(lid: string, i: nat)
    requires |lid| == 128 && AllBits(lid) && i <= 16
    ensures ChunkBytes(lid, i) == Some(ChunkValues(lid, i))
    decreases 16 - i
  {
    if i < 16 {
      ChunkBytesOfBits(lid, i + 1);
      assert ChunkByte(lid, i) == Some(ChunkValue(lid[8 * i..8 * i + 8])) by {
        assert AllBits(lid[8 * i..8 * i + 8]);
        ChunkByteValue(lid, i);
      }
    }
  }

  /** Every '0'/'1' half-LID converts, byte k being chunk k read least
      significant bit first. */
  lemma LidBytesOfBits(lid: string)
    requires |lid| == 128 && AllBits(lid)
    ensures LidBytes(lid).Some?
    ensures forall k :: 0 <= k < 16 ==> LidBytes(lid).value[k] == ChunkValue(lid[8 * k..8 * k + 8])
  {
    ChunkBytesOfBits(lid, 0);
    ChunkValuesAt(lid, 0);
  }

  lemma {:induction false} LsbValueZero(c: string)
    requires forall j :: 0 <= j < |c| ==> c[j] == '0'
    ensures LsbValue(c) == 0
    decreases |c|
  {
    if c != [] {
      LsbValueZero(c[1..]);
    }
  }

  lemma {:induction false} LsbValueSingle(c: string, m: nat)
    requires m < |c|
    requires forall j :: 0 <= j < |c| ==> c[j] == (if j == m then '1' else '0')
    ensures LsbValue(c) == Pow2(m)
    decreases |c|
  {
    if m == 0 {
      LsbValueZero(c[1..]);
    } else {
      LsbValueSingle(c[1..], m - 1);
    }
  }

  /** The address bytes of a half-LID whose only '1' is at index 127 - q: one
      byte, 15 - q/8, equal to 0x80 >> (q mod 8), and zeros elsewhere. */
  function SingleBitBytes(q: nat): (b: seq<uint8>)
    requires q < 128
    ensures |b| == 16
  {
    Pow2Small(7 - q % 8);
    seq(16, k => if k == 15 - q / 8 then Pow2(7 - q % 8) else 0)
  }

  lemma Pow2Small(n: nat)
    requires n < 8
    ensures Pow2(n) < 256
  {
    assert Pow2(1) == 2 && Pow2(2) == 4 && Pow2(3) == 8 && Pow2(4) == 16;
    assert Pow2(5) == 32 && Pow2(6) == 64 && Pow2(7) == 128;
  }

  lemma LidBytesAre(s: string, b: seq<uint8>)
    requires |s| == 128 && AllBits(s) && |b| == 16
    requires forall k :: 0 <= k < 16 ==> ChunkValue(s[8 * k..8 * k + 8]) == b[k]
    ensures LidBytes(s) == Some(b)
  {
    LidBytesOfBits(s);
    assert LidBytes(s).value == b;
  }

  /** A chunk of the half-LID that holds no '1' is the byte 0. */
  lemma ChunkZero(s: string, k: nat, p: int)
    requires |s| == 128 && k < 16
    requires forall j :: 0 <= j < 128 ==> s[j] == (if j == p then '1' else '0')
    requires !(8 * k <= p < 8 * k + 8)
    ensures ChunkValue(s[8 * k..8 * k + 8]) == 0
  {
    var c := s[8 * k..8 * k + 8];
    forall j | 0 <= j < 8 ensures c[j] == '0' {
      assert c[j] == s[8 * k + j];
    }
    LsbValueZero(c);
  }

  lemma HalfLidSingleBit(s: string, q: nat)
    requires q < 128 && |s| == 128
    requires forall j :: 0 <= j < 128 ==> s[j] == (if j == 127 - q then '1' else '0')
    ensures Pow2(7 - q % 8) < 256
    ensures LidBytes(s) == Some(SingleBitBytes(q))
  {
    Pow2Small(7 - q % 8);
    var b := SingleBitBytes(q);
    var hit := 15 - q / 8;
    var m := 7 - q % 8;
    assert 8 * hit + m == 127 - q;
    forall k | 0 <= k < 16
      ensures ChunkValue(s[8 * k..8 * k + 8]) == b[k]
    {
      if k == hit {
        var c := s[8 * k..8 * k + 8];
        assert forall j :: 0 <= j < 8 ==> c[j] == s[8 * k + j];
        LsbValueSingle(c, m);
      } else {
        ChunkZero(s, k, 127 - q);
      }
    }
    assert AllBits(s);
    LidBytesAre(s, b);
  }

  lemma HalfLidZero(s: string)
    requires |s| == 128
    requires forall j :: 0 <= j < 128 ==> s[j] == '0'
    ensures LidBytes(s) == Some(seq(16, _ => 0))
  {
    forall k | 0 <= k < 16 ensures ChunkValue(s[8 * k..8 * k + 8]) == 0 {
      ChunkZero(s, k, -1);
    }
    assert AllBits(s);
    LidBytesAre(s, seq(16, _ => 0));
  }

  // ---------------------------------------------------------------------
  // Address text

  /** Inet6Address.getByAddress on 16 bytes yields an Inet4Address when the
      bytes are an IPv4-mapped address (::ffff:a.b.c.d). */
  predicate IsIpv4Mapped(b: seq<uint8>)
    requires |b| == 16
  {
    (forall k :: 0 <= k < 10 ==> b[k] == 0) && b[10] == 0xff && b[11] == 0xff
  }

  /** The k-th 16-bit group of an address, network order. */
  function Group(b: seq<uint8>, k: nat): uint16
    requires |b| == 16 && k < 8
  {
    0x100 * (b[2 * k] as int) + b[2 * k + 1] as int
  }

  function JoinColon(parts: seq<string>): string
    decreases |parts|
  {
    if |parts| == 0 then ""
    else if |parts| == 1 then parts[0]
    else parts[0] + ":" + JoinColon(parts[1..])
  }

  /** getHostAddress(): eight lower-case hexadecimal groups without leading
      zeros joined by ':' (no "::" compression), or dotted decimal for an
      IPv4-mapped address. */
  function HostAddress(b: seq<uint8>): (r: string)
    requires |b| == 16
    ensures !IsIpv4Mapped(b) ==> JavaSplit(r) == seq(8, k requires 0 <= k < 8 => Hex(Group(b, k)))
  {
    if IsIpv4Mapped(b) then
      Decimal(b[12]) + "." + Decimal(b[13]) + "." + Decimal(b[14]) + "." + Decimal(b[15])
    else
      var hexes := seq(8, k requires 0 <= k < 8 => Hex(Group(b, k)));
      HexGroupsNoColon(b);
      JavaSplitJoin(hexes);
      JoinColon(hexes)
  }

  /** getHostAddress's eight groups are non-empty and hold no ':'. */
  lemma HexGroupsNoColon(b: seq<uint8>)
    requires |b| == 16
    ensures forall k :: 0 <= k < 8 ==> NoColon(Hex(Group(b, k))) && |Hex(Group(b, k))| >= 1
  {
    forall k | 0 <= k < 8 ensures NoColon(Hex(Group(b, k))) && |Hex(Group(b, k))| >= 1 {
      HexNoColon(Group(b, k));
    }
  }

  function IndexOfColon(s: string): (j: int)
    ensures -1 <= j < |s|
    ensures j >= 0 ==> s[j] == ':' && forall i :: 0 <= i < j ==> s[i] != ':'
    ensures j < 0 ==> forall i :: 0 <= i < |s| ==> s[i] != ':'
  {
    if s == [] then -1
    else if s[0] == ':' then 0
    else var j := IndexOfColon(s[1..]); if j < 0 then -1 else j + 1
  }

  /** Every piece between colons, empty ones included. */
  function SplitAll(s: string): (parts: seq<string>)
    ensures |parts| >= 1
    decreases |s|
  {
    var j := IndexOfColon(s);
    if j < 0 then [s] else [s[..j]] + SplitAll(s[j + 1..])
  }

  function DropTrailingEmpty(parts: seq<string>): (r: seq<string>)
    ensures |r| <= |parts| && r == parts[..|r|]
  {
    if |parts| > 0 && parts[|parts| - 1] == "" then DropTrailingEmpty(parts[..|parts| - 1])
    else parts
  }

  /** String.split(":"): the whole string when there is no colon, otherwise the
      pieces with trailing empty ones removed. */
  function JavaSplit(s: string): seq<string>
  {
    if IndexOfColon(s) < 0 then [s] else DropTrailingEmpty(SplitAll(s))
  }

  function ReplaceSpaces(s: string): (r: string)
    ensures |r| == |s|
  {
    seq(|s|, i requires 0 <= i < |s| => if s[i] == ' ' then '0' else s[i])
  }

  /** String.format("%4s", piece).replace(' ', '0'). */
  function PadGroup(piece: string): string
  {
    ReplaceSpaces(PadLeft(piece, 4, ' '))
  }

  function FullFormPieces(pieces: seq<string>, i: nat): string
    decreases |pieces| - i
  {
    if i >= |pieces| then ""
    else PadGroup(pieces[i]) + (if i != 7 then ":" else "") + FullFormPieces(pieces, i + 1)
  }

  /** fullFormIpv6: pads every ':'-separated piece to four characters and puts
      ':' after every piece but the one at index 7. */
  function FullFormIpv6(shortIpv6: string): (r: string)
    ensures |JavaSplit(shortIpv6)| == 8 ==> r == JoinColon(PaddedFrom(JavaSplit(shortIpv6), 0))
  {
    var pieces := JavaSplit(shortIpv6);
    if |pieces| == 8 then
      FullFormOfPieces(pieces, 0);
      FullFormPieces(pieces, 0)
    else
      FullFormPieces(pieces, 0)
  }

  /** lidToIpv6 on a 128-character half-LID; None stands for the
      NumberFormatException of a chunk that is not binary. */
  function LidToIpv6(lid: string): (r: Option<string>)
    requires |lid| == 128
    ensures r.Some? <==> LidBytes(lid).Some?
    ensures r.Some? && !IsIpv4Mapped(LidBytes(lid).value) ==> r.value == PreferredForm(LidBytes(lid).value)
  {
    match LidBytes(lid)
    case None => None
    case Some(b) =>
      if IsIpv4Mapped(b) then Some(FullFormIpv6(HostAddress(b)))
      else
        FullFormIsPreferred(b);
        Some(FullFormIpv6(HostAddress(b)))
  }

  // ---------------------------------------------------------------------
  // The reference form of section 2.2 of RFC 4291

  /** A 16-bit group as exactly four lower-case hexadecimal digits. */
  function Hex4(v: uint16): (s: string)
    ensures |s| == 4
  {
    [HexDigit(v / 0x1000), HexDigit((v / 0x100) % 0x10), HexDigit((v / 0x10) % 0x10), HexDigit(v % 0x10)]
  }

  function HexDigitValue(c: char): nat
  {
    if '0' <= c <= '9' then c as int - '0' as int
    else if 'a' <= c <= 'f' then c as int - 'a' as int + 10
    else 0
  }

  function Hex4Value(s: string): nat
    requires |s| == 4
  {
    0x1000 * HexDigitValue(s[0]) + 0x100 * HexDigitValue(s[1]) + 0x10 * HexDigitValue(s[2])
      + HexDigitValue(s[3])
  }

  /** Full-form groups are read back as the value they were written from. */
  lemma Hex4RoundTrip(v: uint16)
    ensures Hex4Value(Hex4(v)) == v
  {
    HexDigitRoundTrip(v / 0x1000);
    HexDigitRoundTrip((v / 0x100) % 0x10);
    HexDigitRoundTrip((v / 0x10) % 0x10);
    HexDigitRoundTrip(v % 0x10);
    Hex4Digits(v);
  }

  lemma HexDigitRoundTrip(d: nat)
    requires d < 16
    ensures HexDigitValue(HexDigit(d)) == d
  {
  }

  lemma Hex4Digits(v: uint16)
    ensures 0x1000 * (v / 0x1000) + 0x100 * ((v / 0x100) % 0x10) + 0x10 * ((v / 0x10) % 0x10) + v % 0x10 == v as int
  {
    var x := v as int;
    var q1, d3 := x / 16, x % 16;
    var q2, d2 := q1 / 16, q1 % 16;
    var q3, d1 := q2 / 16, q2 % 16;
    assert x == 16 * q1 + d3 && q1 == 16 * q2 + d2 && q2 == 16 * q3 + d1;
    assert x == 256 * q2 + (16 * d2 + d3);
    assert x / 0x100 == q2;
    assert x == 4096 * q3 + (256 * d1 + 16 * d2 + d3);
    assert x / 0x1000 == q3;
  }

  /** The preferred form with every leading zero written out: eight groups of
      four hexadecimal digits separated by ':'. */
  function PreferredForm(b: seq<uint8>): string
    requires |b| == 16
  {
    JoinColon(seq(8, k requires 0 <= k < 8 => Hex4(Group(b, k))))
  }

  lemma {:induction false} JoinColonLength(parts: seq<string>)
    requires |parts| >= 1
    requires forall k :: 0 <= k < |parts| ==> |parts[k]| == 4
    ensures |JoinColon(parts)| == 5 * |parts| - 1
    decreases |parts|
  {
    if |parts| > 1 {
      JoinColonLength(parts[1..]);
    }
  }

  /** A full-form address is 39 characters long. */
  lemma PreferredFormLength(b: seq<uint8>)
    requires |b| == 16
    ensures |PreferredForm(b)| == 39
  {
    JoinColonLength(seq(8, k requires 0 <= k < 8 => Hex4(Group(b, k))));
  }

  predicate NoColon(s: string)
  {
    forall i :: 0 <= i < |s| ==> s[i] != ':'
  }

  lemma {:induction false} SplitJoin(parts: seq<string>)
    requires |parts| >= 1
    requires forall k :: 0 <= k < |parts| ==> NoColon(parts[k])
    ensures SplitAll(JoinColon(parts)) == parts
    decreases |parts|
  {
    if |parts| == 1 {
      assert NoColon(parts[0]);
      assert IndexOfColon(parts[0]) < 0;
    } else {
      assert NoColon(parts[0]);
      SplitAt(parts[0], JoinColon(parts[1..]));
      SplitJoin(parts[1..]);
      assert parts == [parts[0]] + parts[1..];
    }
  }

  /** Splitting at the first ':' after a piece without one. */
  lemma SplitAt(p: string, rest: string)
    requires NoColon(p)
    ensures SplitAll(p + ":" + rest) == [p] + SplitAll(rest)
  {
    var s := p + ":" + rest;
    assert s[|p|] == ':';
    assert forall i :: 0 <= i < |p| ==> s[i] == p[i];
    assert IndexOfColon(s) == |p|;
    assert s[..|p|] == p;
    assert s[|p| + 1..] == rest;
  }

  lemma {:induction false} FullFormOfPieces(pieces: seq<string>, i: nat)
    requires |pieces| == 8 && i < 8
    ensures FullFormPieces(pieces, i) == JoinColon(PaddedFrom(pieces, i))
    decreases 8 - i
  {
    if i < 7 {
      FullFormOfPieces(pieces, i + 1);
      JoinColonCons(PadGroup(pieces[i]), PaddedFrom(pieces, i + 1));
      FullFormPiecesStep(pieces, i);
    } else {
      assert PaddedFrom(pieces, 8) == [];
      assert PaddedFrom(pieces, 7) == [PadGroup(pieces[7])] + [];
      FullFormPiecesLast(pieces);
    }
  }

  /** The padded pieces i..7. */
  function PaddedFrom(pieces: seq<string>, i: nat): (padded: seq<string>)
    requires |pieces| == 8 && i <= 8
    ensures |padded| == 8 - i
    ensures forall k :: 0 <= k < 8 - i ==> padded[k] == PadGroup(pieces[i + k])
    decreases 8 - i
  {
    if i == 8 then []
    else
      var rest := PaddedFrom(pieces, i + 1);
      assert forall k :: 1 <= k < 8 - i ==> ([PadGroup(pieces[i])] + rest)[k] == rest[k - 1];
      [PadGroup(pieces[i])] + rest
  }

  lemma JoinColonCons(a: string, rest: seq<string>)
    requires |rest| >= 1
    ensures JoinColon([a] + rest) == a + ":" + JoinColon(rest)
  {
    assert ([a] + rest)[1..] == rest;
  }

  lemma FullFormPiecesStep(pieces: seq<string>, i: nat)
    requires |pieces| == 8 && i < 7
    ensures FullFormPieces(pieces, i) == PadGroup(pieces[i]) + ":" + FullFormPieces(pieces, i + 1)
  {
  }

  lemma FullFormPiecesLast(pieces: seq<string>)
    requires |pieces| == 8
    ensures FullFormPieces(pieces, 7) == PadGroup(pieces[7])
  {
    assert FullFormPieces(pieces, 8) == "";
    assert PadGroup(pieces[7]) + "" + "" == PadGroup(pieces[7]);
  }

  function HexValue(s: string): nat
  {
    if s == [] then 0 else 16 * HexValue(s[..|s| - 1]) + HexDigitValue(s[|s| - 1])
  }

  lemma HexDigitIsHex(d: nat)
    requires d < 16
    ensures HexDigit(d) != ':' && HexDigit(d) != ' '
  {
  }

  lemma {:induction false} HexNoColon(n: nat)
    ensures NoColon(Hex(n)) && |Hex(n)| >= 1
    ensures forall i :: 0 <= i < |Hex(n)| ==> Hex(n)[i] != ' '
    decreases n
  {
    if n >= 16 {
      HexNoColon(n / 16);
      HexDigitIsHex(n % 16);
    } else {
      HexDigitIsHex(n);
    }
  }

  lemma PadGroupNoSpaces(h: string)
    requires |h| <= 4
    requires forall i :: 0 <= i < |h| ==> h[i] != ' '
    ensures PadGroup(h) == Zeros(4 - |h|) + h
  {
    var p := PadLeft(h, 4, ' ');
    assert p == seq(4 - |h|, _ => ' ') + h;
  }

  lemma HexOneDigit(v: nat)
    requires v < 0x10
    ensures Hex(v) == [HexDigit(v)]
  {
  }

  lemma HexTwoDigits(v: nat)
    requires 0x10 <= v < 0x100
    ensures Hex(v) == [HexDigit(v / 0x10), HexDigit(v % 0x10)]
  {
    HexOneDigit(v / 0x10);
  }

  lemma HexThreeDigits(v: nat)
    requires 0x100 <= v < 0x1000
    ensures Hex(v) == [HexDigit(v / 0x100), HexDigit((v / 0x10) % 0x10), HexDigit(v % 0x10)]
  {
    assert (v / 0x10) / 0x10 == v / 0x100;
    HexTwoDigits(v / 0x10);
  }

  lemma HexFourDigits(v: nat)
    requires 0x1000 <= v < 0x1_0000
    ensures Hex(v) == [HexDigit(v / 0x1000), HexDigit((v / 0x100) % 0x10), HexDigit((v / 0x10) % 0x10), HexDigit(v % 0x10)]
  {
    assert (v / 0x10) / 0x100 == v / 0x1000;
    assert ((v / 0x10) / 0x10) % 0x10 == (v / 0x100) % 0x10;
    HexThreeDigits(v / 0x10);
  }

  /** Left-padding getHostAddress's group with zeros gives the full-form group. */
  lemma PadHexGroup(v: uint16)
    ensures PadGroup(Hex(v)) == Hex4(v)
  {
    var h := Hex(v);
    assert PadGroup(h) == Zeros(4 - |h|) + h by {
      HexLength(v);
      HexNoColon(v);
      PadGroupNoSpaces(h);
    }
    if v < 0x10 {
      PadHexOne(v);
    } else if v < 0x100 {
      PadHexTwo(v);
    } else if v < 0x1000 {
      PadHexThree(v);
    } else {
      PadHexFour(v);
    }
  }

  lemma PadHexOne(v: uint16)
    requires v < 0x10
    ensures |Hex(v)| == 1 && Zeros(3) + Hex(v) == Hex4(v)
  {
    HexOneDigit(v);
    assert Zeros(3) == [HexDigit(0), HexDigit(0), HexDigit(0)];
    assert v / 0x1000 == 0 && (v / 0x100) % 0x10 == 0 && (v / 0x10) % 0x10 == 0 && v % 0x10 == v;
  }

  lemma PadHexTwo(v: uint16)
    requires 0x10 <= v < 0x100
    ensures |Hex(v)| == 2 && Zeros(2) + Hex(v) == Hex4(v)
  {
    HexTwoDigits(v);
    assert Zeros(2) == [HexDigit(0), HexDigit(0)];
    assert v / 0x1000 == 0 && (v / 0x100) % 0x10 == 0 && (v / 0x10) % 0x10 == v / 0x10;
  }

  lemma PadHexThree(v: uint16)
    requires 0x100 <= v < 0x1000
    ensures |Hex(v)| == 3 && Zeros(1) + Hex(v) == Hex4(v)
  {
    HexThreeDigits(v);
    assert Zeros(1) == [HexDigit(0)];
    assert v / 0x1000 == 0 && (v / 0x100) % 0x10 == v / 0x100;
  }

  lemma PadHexFour(v: uint16)
    requires 0x1000 <= v
    ensures |Hex(v)| == 4 && Zeros(0) + Hex(v) == Hex4(v)
  {
    HexFourDigits(v);
    assert Zeros(0) + Hex(v) == Hex(v);
  }

  lemma JoinHasColon(parts: seq<string>)
    requires |parts| >= 2
    ensures IndexOfColon(JoinColon(parts)) >= 0
  {
    var s := JoinColon(parts);
    assert s == parts[0] + ":" + JoinColon(parts[1..]);
    assert s[|parts[0]|] == ':';
  }

  lemma PadAllGroups(b: seq<uint8>, hexes: seq<string>)
    requires |b| == 16 && |hexes| == 8
    requires forall k :: 0 <= k < 8 ==> hexes[k] == Hex(Group(b, k))
    ensures seq(8, k requires 0 <= k < 8 => PadGroup(hexes[k])) == seq(8, k requires 0 <= k < 8 => Hex4(Group(b, k)))
  {
    forall k | 0 <= k < 8 ensures PadGroup(hexes[k]) == Hex4(Group(b, k)) {
      PadHexGroup(Group(b, k));
    }
  }

  /** For every address that is not IPv4-mapped, fullFormIpv6 of the host
      address text is the full preferred form of RFC 4291 section 2.2. */
  lemma FullFormOfJoin(hexes: seq<string>)
    requires |hexes| == 8
    requires forall k :: 0 <= k < 8 ==> NoColon(hexes[k]) && |hexes[k]| >= 1
    ensures FullFormIpv6(JoinColon(hexes)) == JoinColon(seq(8, k requires 0 <= k < 8 => PadGroup(hexes[k])))
  {
    JavaSplitJoin(hexes);
    FullFormOfPieces(hexes, 0);
    assert PaddedFrom(hexes, 0) == seq(8, k requires 0 <= k < 8 => PadGroup(hexes[k]));
  }

  /** Java's split undoes the join of eight non-empty pieces without ':'. */
  lemma JavaSplitJoin(hexes: seq<string>)
    requires |hexes| == 8
    requires forall k :: 0 <= k < 8 ==> NoColon(hexes[k]) && |hexes[k]| >= 1
    ensures JavaSplit(JoinColon(hexes)) == hexes
  {
    SplitJoin(hexes);
    JoinHasColon(hexes);
    assert |hexes[7]| >= 1;
    assert DropTrailingEmpty(hexes) == hexes;
  }

  lemma FullFormIsPreferred(b: seq<uint8>)
    requires |b| == 16 && !IsIpv4Mapped(b)
    ensures FullFormIpv6(HostAddress(b)) == PreferredForm(b)
  {
    var hexes := seq(8, k requires 0 <= k < 8 => Hex(Group(b, k)));
    assert HostAddress(b) == JoinColon(hexes);
    forall k | 0 <= k < 8 ensures NoColon(hexes[k]) && |hexes[k]| >= 1 {
      HexNoColon(Group(b, k));
    }
    FullFormOfJoin(hexes);
    PadAllGroups(b, hexes);
  }

  // ---------------------------------------------------------------------
  // Splitting a LID into the two addresses of the switch rule

  /** What addLink and addMultipleLinks make of an offered LID: the two rule
      addresses; Caught when a conversion throws inside the try block; Uncaught
      when the LID is too short for substring(0, 128) / substring(128, 256),
      which are outside it. */
  datatype Conversion = Addresses(src: string, dst: string) | Caught | Uncaught

  /** The down half (source address) after the whole-string reversal. */
  function DownLid(genlid: string): string
    requires |genlid| >= 256
  {
    Reverse(genlid)[0..128]
  }

  /** The up half (destination address) after the whole-string reversal. */
  function UpLid(genlid: string): string
    requires |genlid| >= 256
  {
    Reverse(genlid)[128..256]
  }

  function LinkAddresses(genlid: string): (c: Conversion)
    // only a LID too short to split escapes the handler
    ensures c.Uncaught? <==> |genlid| < LID_LENGTH
  {
    if |genlid| < 256 then Uncaught
    else
      match LidToIpv6(DownLid(genlid))
      case None => Caught
      case Some(s) =>
        match LidToIpv6(UpLid(genlid))
        case None => Caught
        case Some(d) => Addresses(s, d)
  }

  /** A LID long enough to split converts exactly when both halves parse. */
  lemma LinkAddressesParses(genlid: string)
    ensures LinkAddresses(genlid).Addresses? <==>
      |genlid| >= LID_LENGTH && LidBytes(DownLid(genlid)).Some? && LidBytes(UpLid(genlid)).Some?
  {
  }

  /** Any 256-character LID of '0'/'1' converts into two addresses. */
  lemma BitLidConverts(genlid: string)
    requires |genlid| == LID_LENGTH && AllBits(genlid)
    ensures LinkAddresses(genlid).Addresses?
  {
    var down, up := DownLid(genlid), UpLid(genlid);
    assert forall j :: 0 <= j < 128 ==> down[j] == genlid[255 - j];
    assert forall j :: 0 <= j < 128 ==> up[j] == genlid[127 - j];
    assert AllBits(down) && AllBits(up);
    LidBytesOfBits(down);
    LidBytesOfBits(up);
    LinkAddressesParses(genlid);
  }

  /** The source address depends only on LID positions 128..255 and the
      destination address only on positions 0..127. */
  lemma AddressHalves(a: string, b: string)
    requires |a| == 256 && |b| == 256
    ensures a[128..] == b[128..] ==> DownLid(a) == DownLid(b)
    ensures a[..128] == b[..128] ==> UpLid(a) == UpLid(b)
  {
    if a[128..] == b[128..] {
      forall j | 0 <= j < 128 ensures DownLid(a)[j] == DownLid(b)[j] {
        assert a[255 - j] == a[128..][127 - j];
        assert b[255 - j] == b[128..][127 - j];
      }
    }
    if a[..128] == b[..128] {
      forall j | 0 <= j < 128 ensures UpLid(a)[j] == UpLid(b)[j] {
        assert a[127 - j] == a[..128][127 - j];
        assert b[127 - j] == b[..128][127 - j];
      }
    }
  }

  /** A generated LID with its '1' at p < 128 gives an all-zero source address
      and a destination whose byte 15 - p/8 is 0x80 >> (p mod 8); p >= 128 does
      the same in the source with p - 128. */
  lemma GeneratedLidBytes(p: nat)
    requires p < 256
    ensures p < 128 ==> LidBytes(DownLid(GenerateLid(p))) == Some(seq(16, _ => 0))
    ensures p < 128 ==> LidBytes(UpLid(GenerateLid(p))) == Some(SingleBitBytes(p))
    ensures p >= 128 ==> LidBytes(DownLid(GenerateLid(p))) == Some(SingleBitBytes(p - 128))
    ensures p >= 128 ==> LidBytes(UpLid(GenerateLid(p))) == Some(seq(16, _ => 0))
  {
    var g := GenerateLid(p);
    var down, up := DownLid(g), UpLid(g);
    assert forall j :: 0 <= j < 128 ==> down[j] == g[255 - j];
    assert forall j :: 0 <= j < 128 ==> up[j] == g[127 - j];
    if p < 128 {
      HalfLidZero(down);
      HalfLidSingleBit(up, p);
    } else {
      HalfLidSingleBit(down, p - 128);
      HalfLidZero(up);
    }
  }

  lemma SingleBitNotMapped(q: nat)
    requires q < 128
    ensures !IsIpv4Mapped(SingleBitBytes(q))
    ensures !IsIpv4Mapped(seq(16, _ => 0))
  {
    var b := SingleBitBytes(q);
    assert b[10] == 0 || b[11] == 0;
    var z: seq<uint8> := seq(16, _ => 0);
    assert z[10] == 0;
  }

  /** Every generated LID converts, into the full-form texts of its two halves. */
  lemma GeneratedLidAddresses(p: nat)
    requires p < 256
    ensures LinkAddresses(GenerateLid(p)).Addresses?
    ensures p < 128 ==>
      LinkAddresses(GenerateLid(p)) == Addresses(PreferredForm(seq(16, _ => 0)), PreferredForm(SingleBitBytes(p)))
    ensures p >= 128 ==>
      LinkAddresses(GenerateLid(p)) == Addresses(PreferredForm(SingleBitBytes(p - 128)), PreferredForm(seq(16, _ => 0)))
  {
    var g := GenerateLid(p);
    if p < 128 {
      HalvesAddresses(g, seq(16, _ => 0), SingleBitBytes(p)) by {
        GeneratedLidBytes(p);
        SingleBitNotMapped(p);
      }
    } else {
      HalvesAddresses(g, SingleBitBytes(p - 128), seq(16, _ => 0)) by {
        GeneratedLidBytes(p);
        SingleBitNotMapped(p - 128);
      }
    }
  }

  /** A LID whose halves convert to addresses that are not IPv4-mapped gives
      their full preferred forms. */
  lemma HalvesAddresses(g: string, down: seq<uint8>, up: seq<uint8>)
    requires |g| == 256 && |down| == 16 && |up| == 16
    requires LidBytes(DownLid(g)) == Some(down) && LidBytes(UpLid(g)) == Some(up)
    requires !IsIpv4Mapped(down) && !IsIpv4Mapped(up)
    ensures LinkAddresses(g) == Addresses(PreferredForm(down), PreferredForm(up))
  {
    var dl, ul := DownLid(g), UpLid(g);
    assert |dl| == 128 && |ul| == 128;
    HalfAddress(dl, down);
    HalfAddress(ul, up);
    BothHalvesConvert(g, PreferredForm(down), PreferredForm(up));
  }

  /** A LID both of whose halves convert gives the two addresses. */
  lemma BothHalvesConvert(g: string, s: string, d: string)
    requires |g| >= LID_LENGTH && LidToIpv6(DownLid(g)) == Some(s) && LidToIpv6(UpLid(g)) == Some(d)
    ensures LinkAddresses(g) == Addresses(s, d)
  {
  }

  /** A half-LID that converts to an address that is not IPv4-mapped gives
      that address's full preferred form. */
  lemma HalfAddress(half: string, b: seq<uint8>)
    requires |half| == 128 && |b| == 16 && LidBytes(half) == Some(b) && !IsIpv4Mapped(b)
    ensures LidToIpv6(half) == Some(PreferredForm(b))
  {
  }

  // ---------------------------------------------------------------------
  // calculateTMFID

  /** The "src,dst" key under which a link's LID is registered. */
  function LinkKey(src: string, dst: string): string
  {
    src + "," + dst
  }

  /** The bit positions calculateTMFID collects: the TM's internal LID position,
      then one per path hop that has a registered LID containing a '1'. */
  function PathLids(path: seq<(string, string)>, linkIds: map<string, string>, internal: int): (r: seq<int>)
    ensures |r| >= 1 && r[0] == internal
    decreases |path|
  {
    if path == [] then [internal]
    else
      var rest := PathLids(path[..|path| - 1], linkIds, internal);
      var key := LinkKey(path[|path| - 1].0, path[|path| - 1].1);
      if key in linkIds && LidBitPosition(linkIds[key]) != -1 then rest + [LidBitPosition(linkIds[key])]
      else rest
  }

  /** calculateTMFID for the shortest path to the TM (the path is an input). */
  function CalculateTmFid(path: seq<(string, string)>, linkIds: map<string, string>, internal: int): (fid: string)
    ensures |fid| == LID_LENGTH
  {
    var lids := PathLids(path, linkIds, internal);
    seq(LID_LENGTH, i => if i in lids then '1' else '0')
  }

  /** A hop contributes position i when its LID is registered and its first '1'
      is at i. */
  predicate HopSetsBit(hop: (string, string), linkIds: map<string, string>, i: int)
  {
    LinkKey(hop.0, hop.1) in linkIds && LidBitPosition(linkIds[LinkKey(hop.0, hop.1)]) == i
  }

  lemma {:induction false} PathLidsMembers(path: seq<(string, string)>, linkIds: map<string, string>, internal: int, i: int)
    requires i != -1
    ensures i in PathLids(path, linkIds, internal)
      <==> i == internal || exists k :: 0 <= k < |path| && HopSetsBit(path[k], linkIds, i)
    decreases |path|
  {
    if path != [] {
      var init := path[..|path| - 1];
      PathLidsMembers(init, linkIds, internal, i);
      if exists k :: 0 <= k < |init| && HopSetsBit(init[k], linkIds, i) {
        var k :| 0 <= k < |init| && HopSetsBit(init[k], linkIds, i);
        assert path[k] == init[k];
      }
      if exists k :: 0 <= k < |path| && HopSetsBit(path[k], linkIds, i) {
        var k :| 0 <= k < |path| && HopSetsBit(path[k], linkIds, i);
        if k < |init| {
          assert init[k] == path[k];
        }
      }
    }
  }

  /** The TMFID has '1' at index i iff i is the TM's internal LID position or
      the bit position of a registered LID of some hop of the path. */
  lemma TmFidBits(path: seq<(string, string)>, linkIds: map<string, string>, internal: int, i: nat)
    requires i < LID_LENGTH
    ensures CalculateTmFid(path, linkIds, internal)[i] == '1'
      <==> i == internal || exists k :: 0 <= k < |path| && HopSetsBit(path[k], linkIds, i)
  {
    PathLidsMembers(path, linkIds, internal, i);
  }
}
