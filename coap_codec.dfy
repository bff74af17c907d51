// The CoAP wire format of the proxy's CoAP_packet (apps/coapproxy/coap.cpp):
// the fixed header of section 3 of RFC 7252, the option header of its
// section 3.1, and the variable-length unsigned integers of its section 3.2,
// as the packet class writes and reads them.

module CoapCodec {
  import opened Wrappers
  import opened Bytes

  const COAP_HDR_SIZE: nat := 4
  const COAP_PAYLOAD_START: uint8 := 0xFF
  const COAP_VERSION: uint8 := 1

  // Option numbers of section 5.10 of RFC 7252.
  const COAP_OPTION_URI_HOST: uint16 := 3
  const COAP_OPTION_URI_PORT: uint16 := 7
  const COAP_OPTION_URI_PATH: uint16 := 11
  const COAP_OPTION_URI_QUERY: uint16 := 15
  const COAP_OPTION_PROXY_URI: uint16 := 35

  // ---- Fixed header: byte 0 is Ver(2) | T(2) | TKL(4) ----

  /** getVersion: (b0 & 0xC0) >> 6. */
  function VersionOf(b0: uint8): (v: uint8)
    ensures v < 4
  {
    b0 / 64
  }

  /** getType: b0 & 0x30, the type bits left in place (CON 0x00, NON 0x10,
      ACK 0x20, RST 0x30). */
  function TypeOf(b0: uint8): (t: uint8)
    ensures t in {0x00, 0x10, 0x20, 0x30}
  {
    (b0 / 16) % 4 * 16
  }

  /** getTKL: b0 & 0x0F. */
  function TklOf(b0: uint8): (t: uint8)
    ensures t < 16
  {
    b0 % 16
  }

  /** setVersion's update of byte 0: (b0 & 0x3F) | (version << 6). */
  function WithVersion(b0: uint8, version: uint8): uint8
    requires version <= 3
  {
    b0 % 64 + 64 * version
  }

  /** setType's update of byte 0: (b0 & 0xCF) | msgType, for the four
      message types. */
  function WithType(b0: uint8, msgType: uint8): uint8
    requires msgType in {0x00, 0x10, 0x20, 0x30}
  {
    b0 / 64 * 64 + msgType + b0 % 16
  }

  /** setTKL's update of byte 0: (b0 & 0xF0) | tkl. */
  function WithTkl(b0: uint8, tkl: uint8): uint8
    requires tkl <= 8
  {
    b0 / 16 * 16 + tkl
  }

  /** Byte 0 from its three fields, and the fields back. */
  lemma JoinFields(v: int, t: int, k: int)
    requires 0 <= v < 4 && 0 <= t < 4 && 0 <= k < 16
    ensures var b := 64 * v + 16 * t + k;
      b / 64 == v && b % 64 == 16 * t + k && b / 16 == 4 * v + t && b % 16 == k && (b / 16) % 4 == t
  {
    var b := 64 * v + 16 * t + k;
    DivMod64(b, v, 16 * t + k);
    DivMod16(b, 4 * v + t, k);
    DivMod4(4 * v + t, v, t);
  }

  lemma SplitFields(b: uint8)
    ensures 0 <= b / 64 < 4 && 0 <= (b / 16) % 4 < 4 && b == 64 * (b / 64) + 16 * ((b / 16) % 4) + b % 16
  {
    var q := b / 16;
    assert b == 16 * q + b % 16;
    assert q == 4 * (q / 4) + q % 4;
    DivMod64(b, q / 4, 16 * (q % 4) + b % 16);
  }

  lemma DivMod64(x: int, q: int, r: int)
    requires 0 <= r < 64 && x == 64 * q + r
    ensures x / 64 == q && x % 64 == r
  {
  }

  lemma DivMod16(x: int, q: int, r: int)
    requires 0 <= r < 16 && x == 16 * q + r
    ensures x / 16 == q && x % 16 == r
  {
  }

  lemma DivMod4(x: int, q: int, r: int)
    requires 0 <= r < 4 && x == 4 * q + r
    ensures x / 4 == q && x % 4 == r
  {
  }

  /** Each setter changes its own field and leaves the other two alone. */
  lemma SetVersionField(b0: uint8, version: uint8)
    requires version <= 3
    ensures VersionOf(WithVersion(b0, version)) == version
    ensures TypeOf(WithVersion(b0, version)) == TypeOf(b0) && TklOf(WithVersion(b0, version)) == TklOf(b0)
  {
    SplitFields(b0);
    JoinFields(b0 / 64, (b0 / 16) % 4, b0 % 16);
    JoinFields(version, (b0 / 16) % 4, b0 % 16);
  }

  lemma SetTypeField(b0: uint8, msgType: uint8)
    requires msgType in {0x00, 0x10, 0x20, 0x30}
    ensures TypeOf(WithType(b0, msgType)) == msgType
    ensures VersionOf(WithType(b0, msgType)) == VersionOf(b0) && TklOf(WithType(b0, msgType)) == TklOf(b0)
  {
    SplitFields(b0);
    JoinFields(b0 / 64, (b0 / 16) % 4, b0 % 16);
    JoinFields(b0 / 64, msgType / 16, b0 % 16);
  }

  lemma SetTklField(b0: uint8, tkl: uint8)
    requires tkl <= 8
    ensures TklOf(WithTkl(b0, tkl)) == tkl
    ensures VersionOf(WithTkl(b0, tkl)) == VersionOf(b0) && TypeOf(WithTkl(b0, tkl)) == TypeOf(b0)
  {
    SplitFields(b0);
    JoinFields(b0 / 64, (b0 / 16) % 4, b0 % 16);
    JoinFields(b0 / 64, (b0 / 16) % 4, tkl);
  }

  // ---- Option header (section 3.1 of RFC 7252) ----

  /** Number of extension bytes for an option delta or length. */
  function ExtSize(v: int): nat
  {
    if v < 13 then 0 else if v < 269 then 1 else 2
  }

  /** The 4-bit field standing for v. */
  function Nibble(v: int): (n: int)
    ensures 0 <= n <= 14
  {
    if v < 0 then 0 else if v < 13 then v else if v < 269 then 13 else 14
  }

  function ExtBytes(v: uint16): (r: seq<uint8>)
    ensures |r| == ExtSize(v)
  {
    if v < 13 then [] else if v < 269 then [v - 13] else [(v - 269) / 0x100, (v - 269) % 0x100]
  }

  /** The option header coap_option_encode is evidently meant to write: the
      delta and length nibbles, then the 1-byte extension (v - 13) for
      13..268 or the 2-byte big-endian extension (v - 269) from 269 on. */
  function OptionHeader(delta: uint16, length: uint16): (r: seq<uint8>)
    ensures |r| == 1 + ExtSize(delta) + ExtSize(length)
    ensures r[0] != COAP_PAYLOAD_START
  {
    [16 * Nibble(delta) + Nibble(length)] + ExtBytes(delta) + ExtBytes(length)
  }

  /** coap_option_encode as written. Its length parameter is a uint8_t, so
      insertOption's 16-bit length arrives modulo 256, and the 1-byte delta
      extension is taken for delta < 270, where 269 - 13 no longer fits a
      byte. */
  function OptionEncodeAsWritten(delta: uint16, length: uint8): (r: seq<uint8>)
    ensures |r| == 1 + (if delta < 13 then 0 else if delta < 270 then 1 else 2) + (if length < 13 then 0 else 1)
  {
    var head := if delta < 13 then 16 * delta else if delta < 270 then 0xd0 else 0xe0;
    var ext := if delta < 13 then []
               else if delta < 270 then [ToUint8(delta - 13)]
               else [(delta - 269) / 0x100, (delta - 269) % 0x100];
    if length < 13 then [head + length] + ext else [head + 13] + ext + [length - 13]
  }

  /** Outside delta 269, the encoder as written is the section 3.1 format
      for every length it can be given. */
  lemma OptionEncodeAgrees(delta: uint16, length: uint8)
    requires delta != 269
    ensures OptionEncodeAsWritten(delta, length) == OptionHeader(delta, length)
  {
  }

  // ---- Reading an option header ----

  datatype OptionHead = OptionHead(delta: uint16, length: uint16, size: nat)

  /** Extension bytes announced by a nibble on the receive side. */
  function ExtOf(nibble: int): nat
  {
    if nibble == 13 then 1 else if nibble == 14 then 2 else 0
  }

  /** The value a nibble and its extension bytes at i stand for, in the
      parser's uint16 arithmetic. */
  function ExtValue(pkt: seq<uint8>, i: nat, nibble: int): uint16
    requires 0 <= nibble < 16 && i + ExtOf(nibble) <= |pkt|
  {
    if nibble == 13 then pkt[i] + 13
    else if nibble == 14 then ToUint16(0x100 * (pkt[i] as int) + pkt[i + 1] as int + 269)
    else nibble
  }

  /** The option header at pos read as section 3.1 of RFC 7252 lays it out,
      the way parseOptionsFromRcv and getOptionCountFromRecv are meant to:
      None where an extension byte lies past the end of the packet. */
  function DecodeHeader(pkt: seq<uint8>, pos: nat): (r: Option<OptionHead>)
    requires pos < |pkt|
    ensures r.Some? <==> pos + 1 + ExtOf(pkt[pos] / 16) + ExtOf(pkt[pos] % 16) <= |pkt|
    ensures r.Some? ==> r.value.size == 1 + ExtOf(pkt[pos] / 16) + ExtOf(pkt[pos] % 16)
    ensures r.Some? && pkt[pos] / 16 < 13 ==> r.value.delta == pkt[pos] / 16
    ensures r.Some? && pkt[pos] % 16 < 13 ==> r.value.length == pkt[pos] % 16
  {
    var dn := pkt[pos] / 16;
    var ln := pkt[pos] % 16;
    var size := 1 + ExtOf(dn) + ExtOf(ln);
    if pos + size > |pkt| then None
    else Some(OptionHead(ExtValue(pkt, pos + 1, dn), ExtValue(pkt, pos + 1 + ExtOf(dn), ln), size))
  }

  /** The same as both parsers write it: the low byte of a 2-byte length
      extension is read at pos + 2 whatever the delta's extension, so after
      an extended delta it is taken from the wrong byte. */
  function DecodeHeaderAsWritten(pkt: seq<uint8>, pos: nat): (r: Option<OptionHead>)
    requires pos < |pkt|
    ensures DecodeHeader(pkt, pos).Some? ==> r.Some?
    ensures r.Some? && DecodeHeader(pkt, pos).Some? ==>
      r.value.delta == DecodeHeader(pkt, pos).value.delta && r.value.size == DecodeHeader(pkt, pos).value.size
  {
    var dn := pkt[pos] / 16;
    var ln := pkt[pos] % 16;
    var ed := ExtOf(dn);
    var last := if ln == 14 then (if ed == 0 then pos + 2 else pos + ed + 1) else pos + ed + ExtOf(ln);
    if last >= |pkt| then None
    else
      var length := if ln == 14 then ToUint16(0x100 * (pkt[pos + ed + 1] as int) + pkt[pos + 2] as int + 269)
                    else ExtValue(pkt, pos + 1 + ed, ln);
      Some(OptionHead(ExtValue(pkt, pos + 1, dn), length, 1 + ed + ExtOf(ln)))
  }

  /** The two readers differ only on a 2-byte length after an extended delta. */
  lemma DecodeHeaderAgrees(pkt: seq<uint8>, pos: nat)
    requires pos < |pkt| && (pkt[pos] % 16 != 14 || pkt[pos] / 16 < 13)
    ensures DecodeHeaderAsWritten(pkt, pos) == DecodeHeader(pkt, pos)
  {
  }

  /** (16a + b) splits back into its nibbles. */
  lemma NibblesOf(a: int, b: int)
    requires 0 <= a < 16 && 0 <= b < 16
    ensures (16 * a + b) / 16 == a && (16 * a + b) % 16 == b
  {
  }

  /** An extension written by ExtBytes reads back under its nibble. */
  lemma DecodeExt(pkt: seq<uint8>, i: nat, v: uint16)
    requires i + ExtSize(v) <= |pkt| && pkt[i..i + ExtSize(v)] == ExtBytes(v)
    ensures ExtOf(Nibble(v)) == ExtSize(v)
    ensures ExtValue(pkt, i, Nibble(v)) == v
  {
    if v >= 269 {
      assert pkt[i] == ExtBytes(v)[0] && pkt[i + 1] == ExtBytes(v)[1];
    } else if v >= 13 {
      assert pkt[i] == ExtBytes(v)[0];
    }
  }

  /** The reader inverts the intended encoder for every 16-bit delta and
      length, wherever the header sits in the packet. */
  lemma DecodeOptionHeader(pkt: seq<uint8>, pos: nat, delta: uint16, length: uint16)
    requires pos + |OptionHeader(delta, length)| <= |pkt|
    requires pkt[pos..pos + |OptionHeader(delta, length)|] == OptionHeader(delta, length)
    ensures DecodeHeader(pkt, pos) == Some(OptionHead(delta, length, |OptionHeader(delta, length)|))
  {
    HeaderParts(pkt, pos, delta, length);
    NibblesOf(Nibble(delta), Nibble(length));
    DecodeExt(pkt, pos + 1, delta);
    DecodeExt(pkt, pos + 1 + ExtSize(delta), length);
  }

  /** The first byte and the two extensions of a header in place. */
  lemma HeaderParts(pkt: seq<uint8>, pos: nat, delta: uint16, length: uint16)
    requires pos + |OptionHeader(delta, length)| <= |pkt|
    requires pkt[pos..pos + |OptionHeader(delta, length)|] == OptionHeader(delta, length)
    ensures pkt[pos] == 16 * Nibble(delta) + Nibble(length)
    ensures pkt[pos + 1..pos + 1 + ExtSize(delta)] == ExtBytes(delta)
    ensures pkt[pos + 1 + ExtSize(delta)..pos + 1 + ExtSize(delta) + ExtSize(length)] == ExtBytes(length)
  {
    var h := OptionHeader(delta, length);
    var ed := ExtSize(delta);
    assert pkt[pos] == h[0];
    SubSlice(pkt, pos, |h|, 1, 1 + ed);
    assert h[1..1 + ed] == ExtBytes(delta);
    SubSlice(pkt, pos, |h|, 1 + ed, |h|);
    assert h[1 + ed..] == ExtBytes(length);
  }

  /** A slice of a slice is a slice. */
  lemma SubSlice(pkt: seq<uint8>, pos: nat, len: nat, i: nat, j: nat)
    requires pos + len <= |pkt| && i <= j <= len
    ensures pkt[pos + i..pos + j] == pkt[pos..pos + len][i..j]
  {
    var a := pkt[pos + i..pos + j];
    var b := pkt[pos..pos + len][i..j];
    forall k | 0 <= k < |a|
      ensures a[k] == b[k]
    {
      assert a[k] == pkt[pos + i + k];
      assert b[k] == pkt[pos + i + k];
    }
  }

  /** The wrong low byte, shown on the header the intended encoder writes for
      delta 13 and length 527: the parsers read a length of 526. */
  lemma DecodeHeaderAsWrittenMisreads()
    ensures OptionHeader(13, 527) == [0xDE, 0x00, 0x01, 0x02]
    ensures DecodeHeader(OptionHeader(13, 527), 0) == Some(OptionHead(13, 527, 4))
    ensures DecodeHeaderAsWritten(OptionHeader(13, 527), 0) == Some(OptionHead(13, 526, 4))
  {
  }

  /** Delta 269 written by the encoder as written reads back as 13, and a
      300-byte option is announced as 44 bytes long. */
  lemma OptionEncodeAsWrittenMisencodes()
    ensures OptionEncodeAsWritten(269, 0) == [0xd0, 0x00]
    ensures DecodeHeader(OptionEncodeAsWritten(269, 0), 0) == Some(OptionHead(13, 0, 2))
    ensures OptionEncodeAsWritten(0, ToUint8(300)) == [0x0d, 31]
    ensures DecodeHeader(OptionEncodeAsWritten(0, ToUint8(300)), 0) == Some(OptionHead(0, 44, 2))
    ensures OptionHeader(269, 0) == [0xe0, 0x00, 0x00] && OptionHeader(0, 300) == [0x0e, 0x00, 0x1f]
  {
  }

  // ---- Walking the options of a received packet ----

  /** Where the options start: after the fixed header and the token. */
  function OptionsStart(pkt: seq<uint8>): nat
    requires |pkt| >= 1
  {
    COAP_HDR_SIZE + TklOf(pkt[0])
  }

  /** getOptionCountFromRecv's walk from pos with n options seen, as
      intended: it stops at the end of the packet or at the payload marker
      and yields the options seen; None where a header's extension bytes lie
      past the end. */
  function CountFrom(pkt: seq<uint8>, pos: nat, n: nat): (r: Option<nat>)
    ensures r.Some? ==> r.value >= n
    decreases |pkt| - pos
  {
    if pos >= |pkt| || pkt[pos] == COAP_PAYLOAD_START then Some(n)
    else
      match DecodeHeader(pkt, pos)
      case None => None
      case Some(h) => CountFrom(pkt, pos + h.size + h.length, n + 1)
  }

  /** The walk as written: it answers 1 as soon as it meets the payload
      marker, however many options it has walked. */
  function CountFromAsWritten(pkt: seq<uint8>, pos: nat, n: nat): (r: Option<nat>)
    ensures r.Some? ==> r.value >= n || r.value == 1
    decreases |pkt| - pos
  {
    if pos >= |pkt| then Some(n)
    else if pkt[pos] == COAP_PAYLOAD_START then Some(1)
    else
      match DecodeHeaderAsWritten(pkt, pos)
      case None => None
      case Some(h) => CountFromAsWritten(pkt, pos + h.size + h.length, n + 1)
  }

  function OptionCount(pkt: seq<uint8>): (r: Option<nat>)
    requires |pkt| >= 1
    ensures OptionsStart(pkt) >= |pkt| ==> r == Some(0)
    ensures OptionsStart(pkt) < |pkt| && pkt[OptionsStart(pkt)] == COAP_PAYLOAD_START ==> r == Some(0)
  {
    CountFrom(pkt, OptionsStart(pkt), 0)
  }

  function OptionCountAsWritten(pkt: seq<uint8>): (r: Option<nat>)
    requires |pkt| >= 1
    ensures OptionsStart(pkt) >= |pkt| ==> r == Some(0)
    ensures OptionsStart(pkt) < |pkt| && pkt[OptionsStart(pkt)] == COAP_PAYLOAD_START ==> r == Some(1)
  {
    CountFromAsWritten(pkt, OptionsStart(pkt), 0)
  }

  /** A GET for /a?b (two options) with payload "x": the count as written
      is 1. */
  lemma OptionCountAsWrittenAtPayload()
    ensures OptionCount([0x40, 0x01, 0x00, 0x01, 0xB1, 0x61, 0x41, 0x62, 0xFF, 0x78]) == Some(2)
    ensures OptionCountAsWritten([0x40, 0x01, 0x00, 0x01, 0xB1, 0x61, 0x41, 0x62, 0xFF, 0x78]) == Some(1)
  {
    var p: seq<uint8> := [0x40, 0x01, 0x00, 0x01, 0xB1, 0x61, 0x41, 0x62, 0xFF, 0x78];
    assert OptionsStart(p) == 4;
    assert DecodeHeader(p, 4) == Some(OptionHead(11, 1, 1));
    assert DecodeHeader(p, 6) == Some(OptionHead(4, 1, 1));
    assert CountFrom(p, 8, 2) == Some(2);
    assert CountFrom(p, 6, 1) == Some(2);
    assert DecodeHeaderAsWritten(p, 4) == Some(OptionHead(11, 1, 1));
    assert DecodeHeaderAsWritten(p, 6) == Some(OptionHead(4, 1, 1));
    assert CountFromAsWritten(p, 8, 2) == Some(1);
    assert CountFromAsWritten(p, 6, 1) == Some(1);
  }

  /** A packet with a payload and no option at all is said, as written, to
      have one option. */
  lemma OptionCountAsWrittenWithoutOptions()
    ensures OptionCount([0x40, 0x01, 0x00, 0x01, 0xFF, 0x78]) == Some(0)
    ensures OptionCountAsWritten([0x40, 0x01, 0x00, 0x01, 0xFF, 0x78]) == Some(1)
  {
    var p: seq<uint8> := [0x40, 0x01, 0x00, 0x01, 0xFF, 0x78];
    assert OptionsStart(p) == 4;
  }

  /** One parsed option: its delta, running option number, value length,
      total length, and where its value starts in the packet. */
  datatype CoapOption = CoapOption(delta: uint16, number: uint16, valueLength: uint16, length: nat, valueAt: nat)

  function Prepend(o: CoapOption, r: Option<seq<CoapOption>>): (s: Option<seq<CoapOption>>)
    ensures s.Some? <==> r.Some?
    ensures s.Some? ==> s.value == [o] + r.value
  {
    if r.None? then None else Some([o] + r.value)
  }

  /** parseOptionsFromRcv: k options read from pos on, numbers being the
      running sum of deltas; None where a read falls past the end. */
  function ParseFrom(pkt: seq<uint8>, pos: nat, number: uint16, k: nat): (r: Option<seq<CoapOption>>)
    ensures r.Some? ==> |r.value| == k
    decreases k
  {
    if k == 0 then Some([])
    else if pos >= |pkt| then None
    else
      match DecodeHeader(pkt, pos)
      case None => None
      case Some(h) =>
        var num := ToUint16(number + h.delta);
        Prepend(CoapOption(h.delta, num, h.length, h.size + h.length, pos + h.size),
                ParseFrom(pkt, pos + h.size + h.length, num, k - 1))
  }

  predicate HasProxyUri(options: seq<CoapOption>)
  {
    exists i :: 0 <= i < |options| && options[i].number == COAP_OPTION_PROXY_URI
  }

  // ---- Building options (insertOption) ----

  datatype OptionValue = OptionValue(number: uint16, value: seq<uint8>)

  /** insertOption accepts options in ascending order of number, from last on. */
  predicate Ascending(opts: seq<OptionValue>, last: uint16)
    decreases |opts|
  {
    opts == [] ||
    (last <= opts[0].number && |opts[0].value| < 0x1_0000 && Ascending(opts[1..], opts[0].number))
  }

  /** The bytes successive insertOption calls append, after option number last. */
  function EncodeOptions(opts: seq<OptionValue>, last: uint16): (r: seq<uint8>)
    requires Ascending(opts, last)
    ensures opts != [] ==> |r| > 0 && r[0] != COAP_PAYLOAD_START
    decreases |opts|
  {
    if opts == [] then []
    else
      OptionHeader(opts[0].number - last, |opts[0].value|) + opts[0].value
      + EncodeOptions(opts[1..], opts[0].number)
  }

  /** opts laid out from pos up to end as a reader meets them: at each
      option a header that reads as its delta and value length, then its
      value. */
  predicate LaidOut(pkt: seq<uint8>, pos: nat, opts: seq<OptionValue>, last: uint16, end: nat)
    requires Ascending(opts, last)
    decreases |opts|
  {
    if opts == [] then pos == end
    else
      var delta := opts[0].number - last;
      var size := 1 + ExtSize(delta) + ExtSize(|opts[0].value|);
      var next := pos + size + |opts[0].value|;
      pos < |pkt| && pkt[pos] != COAP_PAYLOAD_START &&
      DecodeHeader(pkt, pos) == Some(OptionHead(delta, |opts[0].value|, size)) &&
      next <= |pkt| && pkt[pos + size..next] == opts[0].value &&
      LaidOut(pkt, next, opts[1..], opts[0].number, end)
  }

  /** A layout from its first option and the layout of the rest. */
  lemma LaidOutCons(pkt: seq<uint8>, pos: nat, opts: seq<OptionValue>, last: uint16, end: nat, hd: OptionHead)
    requires opts != [] && Ascending(opts, last)
    requires hd == OptionHead(opts[0].number - last, |opts[0].value|, 1 + ExtSize(opts[0].number - last) + ExtSize(|opts[0].value|))
    requires pos < |pkt| && pkt[pos] != COAP_PAYLOAD_START && DecodeHeader(pkt, pos) == Some(hd)
    requires pos + hd.size + hd.length <= |pkt| && pkt[pos + hd.size..pos + hd.size + hd.length] == opts[0].value
    requires LaidOut(pkt, pos + hd.size + hd.length, opts[1..], opts[0].number, end)
    ensures LaidOut(pkt, pos, opts, last, end)
  {
  }

  /** The bytes of EncodeOptions at pos, ending at end, are such a layout. */
  lemma {:induction false} LaidOutOf(pkt: seq<uint8>, pos: nat, opts: seq<OptionValue>, last: uint16, end: nat)
    requires Ascending(opts, last)
    requires end == pos + |EncodeOptions(opts, last)| && end <= |pkt|
    requires pkt[pos..end] == EncodeOptions(opts, last)
    ensures LaidOut(pkt, pos, opts, last, end)
    decreases |opts|
  {
    if opts != [] {
      var hd := EncodedFirst(pkt, pos, opts, last, end);
      LaidOutOf(pkt, pos + hd.size + hd.length, opts[1..], opts[0].number, end);
      LaidOutCons(pkt, pos, opts, last, end, hd);
    }
  }

  /** What the bytes of EncodeOptions at pos say to a reader of the first
      option: its header, its value, and the bytes of the rest after it. */
  lemma EncodedFirst(pkt: seq<uint8>, pos: nat, opts: seq<OptionValue>, last: uint16, end: nat) returns (hd: OptionHead)
    requires opts != [] && Ascending(opts, last)
    requires end == pos + |EncodeOptions(opts, last)| && end <= |pkt|
    requires pkt[pos..end] == EncodeOptions(opts, last)
    ensures hd == OptionHead(opts[0].number - last, |opts[0].value|, 1 + ExtSize(opts[0].number - last) + ExtSize(|opts[0].value|))
    ensures pos < |pkt| && pkt[pos] != COAP_PAYLOAD_START && DecodeHeader(pkt, pos) == Some(hd)
    ensures pos + hd.size + hd.length <= |pkt| && pkt[pos + hd.size..pos + hd.size + hd.length] == opts[0].value
    ensures var next := pos + hd.size + hd.length;
            var e := EncodeOptions(opts[1..], opts[0].number);
            end == next + |e| && pkt[next..end] == e
  {
    var h := OptionHeader(opts[0].number - last, |opts[0].value|);
    var v := opts[0].value;
    var e := EncodeOptions(opts[1..], opts[0].number);
    assert EncodeOptions(opts, last) == h + v + e;
    Split3(pkt, pos, h, v, e);
    HeaderAt(pkt, pos, opts[0].number - last, v);
    hd := OptionHead(opts[0].number - last, |v|, |h|);
  }

  /** A slice holding a + b + c holds a, b and c one after the other. */
  lemma Split3(pkt: seq<uint8>, pos: nat, a: seq<uint8>, b: seq<uint8>, c: seq<uint8>)
    requires pos + |a + b + c| <= |pkt| && pkt[pos..pos + |a + b + c|] == a + b + c
    ensures pkt[pos..pos + |a|] == a
    ensures pkt[pos + |a|..pos + |a| + |b|] == b
    ensures pkt[pos + |a| + |b|..pos + |a| + |b| + |c|] == c
  {
    var all := a + b + c;
    assert all[..|a|] == a && all[|a|..|a| + |b|] == b && all[|a| + |b|..] == c;
    SubSlice(pkt, pos, |all|, 0, |a|);
    SubSlice(pkt, pos, |all|, |a|, |a| + |b|);
    SubSlice(pkt, pos, |all|, |a| + |b|, |all|);
  }

  /** Reading the header of an option laid out at pos. */
  lemma HeaderAt(pkt: seq<uint8>, pos: nat, delta: uint16, value: seq<uint8>)
    requires |value| < 0x1_0000
    requires pos + |OptionHeader(delta, |value|)| <= |pkt|
    requires pkt[pos..pos + |OptionHeader(delta, |value|)|] == OptionHeader(delta, |value|)
    ensures pos < |pkt| && pkt[pos] != COAP_PAYLOAD_START
    ensures DecodeHeader(pkt, pos) == Some(OptionHead(delta, |value|, |OptionHeader(delta, |value|)|))
  {
    DecodeOptionHeader(pkt, pos, delta, |value|);
    assert pkt[pos] == OptionHeader(delta, |value|)[0];
  }

  /** One step of the counting walk past a header that reads. */
  lemma CountStep(pkt: seq<uint8>, pos: nat, n: nat, hd: OptionHead)
    requires pos < |pkt| && pkt[pos] != COAP_PAYLOAD_START && DecodeHeader(pkt, pos) == Some(hd)
    ensures CountFrom(pkt, pos, n) == CountFrom(pkt, pos + hd.size + hd.length, n + 1)
  {
  }

  /** One step of the parsing walk past a header that reads. */
  lemma ParseStep(pkt: seq<uint8>, pos: nat, number: uint16, k: nat, hd: OptionHead, num: uint16, rest: seq<CoapOption>)
    requires k > 0 && pos < |pkt| && DecodeHeader(pkt, pos) == Some(hd)
    requires num as int == number as int + hd.delta as int
    requires ParseFrom(pkt, pos + hd.size + hd.length, num, k - 1) == Some(rest)
    ensures ParseFrom(pkt, pos, number, k) ==
              Some([CoapOption(hd.delta, num, hd.length, hd.size + hd.length, pos + hd.size)] + rest)
  {
  }

  /** A parse of k > 0 options that reads is its first option followed by
      the parse of the k - 1 after it. */
  lemma ParseUnfold(pkt: seq<uint8>, pos: nat, number: uint16, k: nat)
    requires k > 0 && ParseFrom(pkt, pos, number, k).Some?
    ensures pos < |pkt| && DecodeHeader(pkt, pos).Some?
    ensures var h := DecodeHeader(pkt, pos).value;
            var num := ToUint16(number + h.delta);
            var next := pos + h.size + h.length;
            ParseFrom(pkt, next, num, k - 1).Some? &&
            ParseFrom(pkt, pos, number, k).value ==
              [CoapOption(h.delta, num, h.length, h.size + h.length, pos + h.size)] + ParseFrom(pkt, next, num, k - 1).value
  {
  }

  /** Options laid out by insertOption in ascending order are all counted,
      when the packet ends after them or a payload marker follows. */
  lemma {:induction false} CountEncoded(pkt: seq<uint8>, pos: nat, opts: seq<OptionValue>, last: uint16, end: nat, n: nat)
    requires Ascending(opts, last) && LaidOut(pkt, pos, opts, last, end)
    requires end == |pkt| || (end < |pkt| && pkt[end] == COAP_PAYLOAD_START)
    ensures CountFrom(pkt, pos, n) == Some(n + |opts|)
    decreases |opts|
  {
    if opts != [] {
      var hd := OptionHead(opts[0].number - last, |opts[0].value|, 1 + ExtSize(opts[0].number - last) + ExtSize(|opts[0].value|));
      CountStep(pkt, pos, n, hd);
      CountEncoded(pkt, pos + hd.size + hd.length, opts[1..], opts[0].number, end, n + 1);
    }
  }

  /** parseOptionsFromRcv's result describes opts: the same numbers, and
      value lengths and positions holding the same bytes. */
  predicate Describes(pkt: seq<uint8>, parsed: seq<CoapOption>, opts: seq<OptionValue>)
    decreases |opts|
  {
    |parsed| == |opts| &&
    (opts == [] ||
     (parsed[0].number == opts[0].number && parsed[0].valueLength == |opts[0].value| &&
      parsed[0].valueAt + |opts[0].value| <= |pkt| &&
      pkt[parsed[0].valueAt..parsed[0].valueAt + |opts[0].value|] == opts[0].value &&
      Describes(pkt, parsed[1..], opts[1..])))
  }

  /** Describes, option by option. */
  lemma {:induction false} DescribesEach(pkt: seq<uint8>, parsed: seq<CoapOption>, opts: seq<OptionValue>, i: nat)
    requires Describes(pkt, parsed, opts) && i < |opts|
    ensures parsed[i].number == opts[i].number && parsed[i].valueLength == |opts[i].value|
    ensures parsed[i].valueAt + |opts[i].value| <= |pkt|
    ensures pkt[parsed[i].valueAt..parsed[i].valueAt + |opts[i].value|] == opts[i].value
    decreases i
  {
    if i > 0 {
      DescribesEach(pkt, parsed[1..], opts[1..], i - 1);
    }
  }

  /** Describes extends by one option at the front. */
  lemma DescribesCons(pkt: seq<uint8>, o: CoapOption, rest: seq<CoapOption>, opts: seq<OptionValue>)
    requires opts != [] && Describes(pkt, rest, opts[1..])
    requires o.number == opts[0].number && o.valueLength == |opts[0].value|
    requires o.valueAt + |opts[0].value| <= |pkt| && pkt[o.valueAt..o.valueAt + |opts[0].value|] == opts[0].value
    ensures Describes(pkt, [o] + rest, opts)
  {
    assert ([o] + rest)[1..] == rest;
  }

  /** Options laid out by insertOption in ascending order parse back with
      their numbers and values. */
  lemma {:induction false} ParseEncoded(pkt: seq<uint8>, pos: nat, opts: seq<OptionValue>, last: uint16, end: nat)
    requires Ascending(opts, last) && LaidOut(pkt, pos, opts, last, end)
    ensures ParseFrom(pkt, pos, last, |opts|).Some?
    ensures Describes(pkt, ParseFrom(pkt, pos, last, |opts|).value, opts)
    decreases |opts|
  {
    if opts != [] {
      var hd := OptionHead(opts[0].number - last, |opts[0].value|, 1 + ExtSize(opts[0].number - last) + ExtSize(|opts[0].value|));
      var next := pos + hd.size + hd.length;
      var first, tail := opts[0], opts[1..];
      ParseEncoded(pkt, next, tail, first.number, end);
      ParseFirst(pkt, pos, first, tail, last, hd, ParseFrom(pkt, next, first.number, |tail|).value);
      assert [first] + tail == opts;
    }
  }

  /** The parse from a first option whose header reads as hd and whose value
      follows it, given the parse of the options in tail after it. */
  lemma ParseFirst(pkt: seq<uint8>, pos: nat, first: OptionValue, tail: seq<OptionValue>, last: uint16, hd: OptionHead, rest: seq<CoapOption>)
    requires last <= first.number
    requires hd.delta as int == first.number - last && hd.length as int == |first.value|
    requires pos < |pkt| && DecodeHeader(pkt, pos) == Some(hd)
    requires pos + hd.size + hd.length <= |pkt| && pkt[pos + hd.size..pos + hd.size + hd.length] == first.value
    requires ParseFrom(pkt, pos + hd.size + hd.length, first.number, |tail|) == Some(rest)
    requires Describes(pkt, rest, tail)
    ensures ParseFrom(pkt, pos, last, |tail| + 1).Some?
    ensures Describes(pkt, ParseFrom(pkt, pos, last, |tail| + 1).value, [first] + tail)
  {
    var o := CoapOption(hd.delta, first.number, hd.length, hd.size + hd.length, pos + hd.size);
    ParseStep(pkt, pos, last, |tail| + 1, hd, first.number, rest);
    assert ([first] + tail)[1..] == tail;
    DescribesCons(pkt, o, rest, [first] + tail);
  }

  // ---- Variable-length unsigned integers (coap_encode_var_bytes) ----

  function Pow256(n: nat): (p: nat)
    ensures p >= 1
  {
    if n == 0 then 1 else 0x100 * Pow256(n - 1)
  }

  /** The fewest bytes that hold v: 0 for 0. */
  function MinBytes(v: nat): (n: nat)
    ensures v < Pow256(n)
    ensures n == 0 <==> v == 0
    ensures n > 0 ==> Pow256(n - 1) <= v
  {
    if v == 0 then 0 else 1 + MinBytes(v / 0x100)
  }

  /** A uint32 needs at most 4 bytes. */
  lemma MinBytesOfUint32(v: uint32)
    ensures MinBytes(v) <= 4
  {
    if MinBytes(v) > 4 {
      assert Pow256(4) == 0x1_0000_0000;
      PowMonotone(4, MinBytes(v) - 1);
    }
  }

  lemma {:induction false} PowMonotone(a: nat, b: nat)
    requires a <= b
    ensures Pow256(a) <= Pow256(b)
    decreases b
  {
    if a < b {
      PowMonotone(a, b - 1);
    }
  }

  /** v in n bytes, most significant first. */
  function BigEndian(v: nat, n: nat): (r: seq<uint8>)
    ensures |r| == n
  {
    if n == 0 then [] else BigEndian(v / 0x100, n - 1) + [v % 0x100]
  }

  function ReadBigEndian(b: seq<uint8>): nat
  {
    if b == [] then 0 else 0x100 * ReadBigEndian(b[..|b| - 1]) + b[|b| - 1]
  }

  lemma {:induction false} BigEndianRoundTrip(v: nat, n: nat)
    requires v < Pow256(n)
    ensures ReadBigEndian(BigEndian(v, n)) == v
  {
    if n > 0 {
      BigEndianRoundTrip(v / 0x100, n - 1);
      var b := BigEndian(v, n);
      assert b[..|b| - 1] == BigEndian(v / 0x100, n - 1);
    }
  }

  /** coap_encode_var_bytes as written: the value goes big-endian into
      buf[1..n] rather than buf[0..n), leaving buf[0] as it was. */
  function EncodeVarBytesAsWritten(buf: seq<uint8>, v: uint32): (r: seq<uint8>)
    requires |buf| > MinBytes(v)
    ensures |r| == |buf| && r[0] == buf[0] && r[1 + MinBytes(v)..] == buf[1 + MinBytes(v)..]
    ensures r[1..1 + MinBytes(v)] == BigEndian(v, MinBytes(v))
  {
    if MinBytes(v) == 0 then buf else buf[..1] + BigEndian(v, MinBytes(v)) + buf[1 + MinBytes(v)..]
  }

  /** The proxy inserts Uri-Port with the returned count of bytes from the
      start of the buffer: for port 5683 it sends [0, 0x16], port 22. */
  lemma EncodeVarBytesAsWrittenShifts()
    ensures MinBytes(5683) == 2
    ensures EncodeVarBytesAsWritten([0, 0, 0, 0, 0], 5683)[..2] == [0x00, 0x16]
    ensures ReadBigEndian([0x00, 0x16]) == 22
    ensures BigEndian(5683, 2) == [0x16, 0x33] && ReadBigEndian(BigEndian(5683, 2)) == 5683
  {
    assert MinBytes(5683 / 256 / 256) == 0;
    assert BigEndian(5683, 2) == BigEndian(22, 1) + [0x33];
    assert BigEndian(22, 1) == BigEndian(0, 0) + [0x16];
    var b := [0x00, 0x16];
    assert b[..1] == [0x00];
    var c := [0x16, 0x33];
    assert c[..1] == [0x16];
  }
}
