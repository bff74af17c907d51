// CoAP_packet (apps/coapproxy/coap.cpp): a message buffer that the proxy
// builds field by field and option by option, or receives whole and parses.
// The realloc'ed __coappkt is the sequence field pkt, __pktlen is |pkt|.

module CoapMessage {
  import opened Wrappers
  import opened Bytes
  import opened Buffers
  import opened CoapCodec

  // ---- Whole messages ----

  /** A message as section 3 of RFC 7252 lays it out: fixed header and
      token, the options in ascending order, then a payload behind the
      marker unless there is none. */
  function Message(head: seq<uint8>, opts: seq<OptionValue>, payload: seq<uint8>): (r: seq<uint8>)
    requires Ascending(opts, 0)
    ensures |r| == |head| + |EncodeOptions(opts, 0)| + (if payload == [] then 0 else 1 + |payload|)
  {
    head + EncodeOptions(opts, 0) + (if payload == [] then [] else [COAP_PAYLOAD_START] + payload)
  }

  /** The bytes after the option list: nothing, or the payload marker. */
  lemma MessageTail(head: seq<uint8>, opts: seq<OptionValue>, payload: seq<uint8>)
    requires Ascending(opts, 0)
    ensures var m := Message(head, opts, payload);
            var end := |head| + |EncodeOptions(opts, 0)|;
            end <= |m| && m[|head|..end] == EncodeOptions(opts, 0) &&
            (end == |m| || m[end] == COAP_PAYLOAD_START)
  {
    var m := Message(head, opts, payload);
    var e := EncodeOptions(opts, 0);
    assert m == head + e + (if payload == [] then [] else [COAP_PAYLOAD_START] + payload);
    assert m[|head|..|head| + |e|] == e;
  }

  /** Every option of a well-formed message is counted, both when the
      message ends after its options and when a payload follows. */
  lemma MessageOptionCount(head: seq<uint8>, opts: seq<OptionValue>, payload: seq<uint8>)
    requires Ascending(opts, 0) && |head| >= 1 && |head| == COAP_HDR_SIZE + TklOf(head[0])
    ensures var m := Message(head, opts, payload);
            |m| >= 1 && OptionCount(m) == Some(|opts|)
  {
    var m := Message(head, opts, payload);
    var end := |head| + |EncodeOptions(opts, 0)|;
    MessageTail(head, opts, payload);
    assert m[0] == head[0];
    assert OptionsStart(m) == |head|;
    LaidOutOf(m, |head|, opts, 0, end);
    CountEncoded(m, |head|, opts, 0, end, 0);
  }

  /** The options of a well-formed message parse back with their numbers
      and values. */
  lemma MessageOptionsParse(head: seq<uint8>, opts: seq<OptionValue>, payload: seq<uint8>)
    requires Ascending(opts, 0) && |head| >= 1 && |head| == COAP_HDR_SIZE + TklOf(head[0])
    ensures var m := Message(head, opts, payload);
            |m| >= 1 && ParseFrom(m, OptionsStart(m), 0, |opts|).Some? &&
            Describes(m, ParseFrom(m, OptionsStart(m), 0, |opts|).value, opts)
  {
    var m := Message(head, opts, payload);
    var end := |head| + |EncodeOptions(opts, 0)|;
    MessageTail(head, opts, payload);
    assert m[0] == head[0];
    assert OptionsStart(m) == |head|;
    LaidOutOf(m, |head|, opts, 0, end);
    ParseEncoded(m, |head|, opts, 0, end);
  }

  /** Counting and parsing walk the same headers: once the count reads,
      so does the parse of that many options. */
  lemma {:induction false} CountedParses(pkt: seq<uint8>, pos: nat, n: nat, number: uint16, k: nat)
    requires CountFrom(pkt, pos, n) == Some(n + k)
    ensures ParseFrom(pkt, pos, number, k).Some?
    decreases k
  {
    if k > 0 {
      assert pos < |pkt| && pkt[pos] != COAP_PAYLOAD_START;
      var h := DecodeHeader(pkt, pos).value;
      CountedParses(pkt, pos + h.size + h.length, n + 1, ToUint16(number + h.delta), k - 1);
    }
  }

  /** Appending one option to an ascending list appends its bytes. */
  lemma {:induction false} EncodeOptionsSnoc(opts: seq<OptionValue>, last: uint16, o: OptionValue)
    requires Ascending(opts, last) && LastNumber(opts, last) <= o.number && |o.value| < 0x1_0000
    ensures Ascending(opts + [o], last)
    ensures EncodeOptions(opts + [o], last) ==
            EncodeOptions(opts, last) + OptionHeader(o.number - LastNumber(opts, last), |o.value|) + o.value
    decreases |opts|
  {
    AscendingSnoc(opts, last, o);
    if opts != [] {
      var s := opts + [o];
      assert s[0] == opts[0] && s[1..] == opts[1..] + [o];
      EncodeOptionsSnoc(opts[1..], opts[0].number, o);
      var h := OptionHeader(opts[0].number - last, |opts[0].value|);
      var x := OptionHeader(o.number - LastNumber(opts, last), |o.value|);
      var e := EncodeOptions(opts[1..], opts[0].number);
      assert LastNumber(opts, last) == LastNumber(opts[1..], opts[0].number);
      EncodeUnfold(s, last);
      assert EncodeOptions(s[1..], opts[0].number) == e + x + o.value;
      EncodeUnfold(opts, last);
      Regroup(h, opts[0].value, e, x, o.value);
    } else {
      assert [o][1..] == [];
    }
  }

  /** An option numbered at least the last of an ascending list extends it. */
  lemma {:induction false} AscendingSnoc(opts: seq<OptionValue>, last: uint16, o: OptionValue)
    requires Ascending(opts, last) && LastNumber(opts, last) <= o.number && |o.value| < 0x1_0000
    ensures Ascending(opts + [o], last)
    decreases |opts|
  {
    if opts != [] {
      var s := opts + [o];
      assert s[0] == opts[0] && s[1..] == opts[1..] + [o];
      AscendingSnoc(opts[1..], opts[0].number, o);
    } else {
      assert [o][1..] == [];
    }
  }

  /** One step of EncodeOptions on a non-empty list. */
  lemma EncodeUnfold(opts: seq<OptionValue>, last: uint16)
    requires opts != [] && Ascending(opts, last)
    ensures Ascending(opts[1..], opts[0].number)
    ensures EncodeOptions(opts, last) ==
            OptionHeader(opts[0].number - last, |opts[0].value|) + opts[0].value + EncodeOptions(opts[1..], opts[0].number)
  {
  }

  lemma Regroup(a: seq<uint8>, b: seq<uint8>, c: seq<uint8>, d: seq<uint8>, e: seq<uint8>)
    ensures a + b + (c + d + e) == a + b + c + d + e
  {
  }

  /** The number of the last option of a list, or last when it is empty. */
  function LastNumber(opts: seq<OptionValue>, last: uint16): (r: uint16)
    requires Ascending(opts, last)
    ensures last <= r
    ensures opts != [] ==> r == opts[|opts| - 1].number
    decreases |opts|
  {
    if opts == [] then last else LastNumber(opts[1..], opts[0].number)
  }

  /** addPayload as written: realloc grows the buffer by the payload and
      one byte, whose new bytes are grown, and the marker and payload are
      written at 4 + TKL, where the first option would start. */
  function AddPayloadAsWritten(pkt: seq<uint8>, content: seq<uint8>, grown: seq<uint8>): (r: seq<uint8>)
    requires |pkt| >= 1 && COAP_HDR_SIZE + TklOf(pkt[0]) <= |pkt|
    requires |grown| == |content| + 1
    ensures |r| == if content == [] then |pkt| else |pkt| + |content| + 1
  {
    if content == [] then pkt
    else Overwrite(pkt + grown, COAP_HDR_SIZE + TklOf(pkt[0]), [COAP_PAYLOAD_START] + content)
  }

  /** Without options the write position is the end of the packet, and
      addPayload as written appends the marker and the payload. */
  lemma AddPayloadAsWrittenWithoutOptions(head: seq<uint8>, content: seq<uint8>, grown: seq<uint8>)
    requires |head| >= 1 && |head| == COAP_HDR_SIZE + TklOf(head[0])
    requires content != [] && |grown| == |content| + 1
    ensures AddPayloadAsWritten(head, content, grown) == Message(head, [], content)
  {
  }

  /** A GET with the option Uri-Path "a": the payload as written lands on
      the option, and the message reads back with no option at all. */
  lemma AddPayloadAsWrittenLosesOptions()
    ensures var pkt := [0x40, 0x01, 0x00, 0x01, 0xB1, 0x61];
            var m := AddPayloadAsWritten(pkt, [0x78], [0, 0]);
            OptionCount(pkt) == Some(1) &&
            m == [0x40, 0x01, 0x00, 0x01, 0xFF, 0x78, 0, 0] && OptionCount(m) == Some(0)
  {
    var pkt: seq<uint8> := [0x40, 0x01, 0x00, 0x01, 0xB1, 0x61];
    assert DecodeHeader(pkt, 4) == Some(OptionHead(11, 1, 1));
    var m := AddPayloadAsWritten(pkt, [0x78], [0, 0]);
    assert m == pkt[..4] + [0xFF, 0x78] + (pkt + [0, 0])[6..];
  }

  class CoapPacket {
    var pkt: seq<uint8>
    /** The number of the last option inserted (__maxDelta). */
    var maxDelta: uint16
    var optionCount: nat
    var options: seq<CoapOption>
    var isProxy: bool
    /** Whether reading the received datagram ran past its end (undefined
        behaviour in the C++ code): byte 0 of an empty datagram, or an
        option header's extension bytes. The counts and options are then
        not the datagram's. */
    var readPastEnd: bool

    /** Everything but the buffer. */
    function Rest(): (uint16, nat, seq<CoapOption>, bool, bool)
      reads this
    {
      (maxDelta, optionCount, options, isProxy, readPastEnd)
    }

    /** CoAP_packet(): a 4-byte header, version 1, type CON, no token, code
        0, message ID 0. */
    constructor ()
      ensures pkt == [0x40, 0, 0, 0]
      ensures VersionOf(pkt[0]) == COAP_VERSION && TypeOf(pkt[0]) == 0 && TklOf(pkt[0]) == 0
      ensures OptionCount(pkt) == Some(0)
      ensures maxDelta == 0 && optionCount == 0 && options == [] && !isProxy && !readPastEnd
    {
      pkt := [0x40, 0, 0, 0];
      maxDelta := 0;
      optionCount := 0;
      options := [];
      isProxy := false;
      readPastEnd := false;
      new;
      SetVersionField(0, 1);
      assert WithVersion(0, 1) == 0x40;
    }

    /** CoAP_packet(buf, buflen): a copy of a received datagram, with its
        options counted and parsed. Any length is taken: a datagram
        shorter than 4 bytes only draws a warning. */
    constructor Received(buf: seq<uint8>)
      ensures pkt == buf && maxDelta == 0
      ensures readPastEnd <==> buf == [] || OptionCount(buf).None?
      ensures !readPastEnd ==> optionCount == OptionCount(buf).value
      ensures !readPastEnd ==> ParseFrom(buf, OptionsStart(buf), 0, optionCount) == Some(options)
      ensures !readPastEnd ==> (isProxy <==> HasProxyUri(options))
    {
      pkt := buf;
      maxDelta := 0;
      optionCount := 0;
      options := [];
      isProxy := false;
      readPastEnd := false;
      new;
      var n := OptionCountFromRecv();
      if readPastEnd {
        return;
      }
      CountedParses(pkt, OptionsStart(pkt), 0, 0, n);
      var parsed := ParseOptionsFromRcv();
      options := parsed;
    }

    /** getOptionCountFromRecv, with the walk stopping at the payload marker
        as intended: the number of options from 4 + TKL on. */
    method OptionCountFromRecv() returns (r: nat)
      modifies this
      ensures pkt == old(pkt) && optionCount == r
      ensures readPastEnd <==> pkt == [] || OptionCount(pkt).None?
      ensures !readPastEnd ==> OptionCount(pkt) == Some(r)
      ensures maxDelta == old(maxDelta) && options == old(options) && isProxy == old(isProxy)
    {
      if pkt == [] {
        readPastEnd := true;
        optionCount := 0;
        return 0;
      }
      var pos := OptionsStart(pkt);
      var n := 0;
      while pos < |pkt| && pkt[pos] != COAP_PAYLOAD_START
        invariant CountFrom(pkt, pos, n) == OptionCount(pkt)
        decreases |pkt| - pos
      {
        var head := DecodeHeader(pkt, pos);
        if head.None? {
          readPastEnd := true;
          optionCount := n;
          return n;
        }
        pos := pos + head.value.size + head.value.length;
        n := n + 1;
      }
      readPastEnd := false;
      optionCount := n;
      r := n;
    }

    /** parseOptionsFromRcv: optionCount options read from 4 + TKL on;
        isProxy is set once a Proxy-Uri option is met. Whether the loop
        would run past the end of the packet is decided before it starts,
        and then nothing is parsed. */
    method ParseOptionsFromRcv() returns (r: seq<CoapOption>)
      modifies this
      ensures pkt == old(pkt) && optionCount == old(optionCount)
      ensures readPastEnd <==> pkt == [] || ParseFrom(pkt, OptionsStart(pkt), 0, optionCount).None?
      ensures !readPastEnd ==> ParseFrom(pkt, OptionsStart(pkt), 0, optionCount) == Some(r)
      ensures !readPastEnd ==> (isProxy <==> old(isProxy) || HasProxyUri(r))
      ensures readPastEnd ==> r == [] && isProxy == old(isProxy)
      ensures maxDelta == old(maxDelta) && options == old(options)
    {
      if pkt == [] || ParseFrom(pkt, OptionsStart(pkt), 0, optionCount).None? {
        readPastEnd := true;
        return [];
      }
      readPastEnd := false;
      var proxy;
      r, proxy := ParseOptions(pkt, optionCount);
      if proxy {
        isProxy := true;
      }
    }

    /** setVersion: 0 and no change above 3, otherwise the version bits are
        set and 1 returned. */
    method SetVersion(version: uint8) returns (r: int)
      requires |pkt| >= 1
      modifies this
      ensures version > 3 ==> r == 0 && pkt == old(pkt)
      ensures version <= 3 ==> r == 1 && pkt == old(pkt)[0 := WithVersion(old(pkt)[0], version)]
      ensures Rest() == old(Rest())
    {
      if version > 3 {
        return 0;
      }
      pkt := pkt[0 := WithVersion(pkt[0], version)];
      return 1;
    }

    /** setType: the type bits of byte 0. */
    method SetType(msgType: uint8)
      requires |pkt| >= 1 && msgType in {0x00, 0x10, 0x20, 0x30}
      modifies this
      ensures pkt == old(pkt)[0 := WithType(old(pkt)[0], msgType)]
      ensures Rest() == old(Rest())
    {
      pkt := pkt[0 := WithType(pkt[0], msgType)];
    }

    /** setTKL: 1 and no change above 8, otherwise the token length bits
        are set and 0 returned. */
    method SetTkl(tokenLength: uint8) returns (r: int)
      requires |pkt| >= 1
      modifies this
      ensures tokenLength > 8 ==> r == 1 && pkt == old(pkt)
      ensures tokenLength <= 8 ==> r == 0 && pkt == old(pkt)[0 := WithTkl(old(pkt)[0], tokenLength)]
      ensures Rest() == old(Rest())
    {
      if tokenLength > 8 {
        return 1;
      }
      pkt := pkt[0 := WithTkl(pkt[0], tokenLength)];
      return 0;
    }

    /** setMessageID: the ID in network byte order in bytes 2 and 3. */
    method SetMessageId(messageId: uint16) returns (r: int)
      requires |pkt| >= 4
      modifies this
      ensures r == 0 && pkt == old(pkt)[..2] + BE16(messageId) + old(pkt)[4..]
      ensures ReadBE16(pkt, 2) == messageId
      ensures Rest() == old(Rest())
    {
      pkt := pkt[3 := messageId % 0x100][2 := messageId / 0x100];
      assert pkt == old(pkt)[..2] + BE16(messageId) + old(pkt)[4..];
      return 0;
    }

    /** setResponseCode and setMethodCode: the code in byte 1. */
    method SetCode(code: uint8)
      requires |pkt| >= 2
      modifies this
      ensures pkt == old(pkt)[1 := code]
      ensures Rest() == old(Rest())
    {
      pkt := pkt[1 := code];
    }

    /** setTokenValue: 0 and no change without a token or above 8 bytes;
        otherwise the buffer grows by the token length (realloc's new bytes
        being grown) and the token is written right after the fixed header. */
    method SetTokenValue(token: Option<seq<uint8>>, tokenLength: uint8, grown: seq<uint8>) returns (r: int)
      requires |pkt| >= 4
      requires token.Some? && tokenLength <= 8 ==> |token.value| >= tokenLength as int && |grown| == tokenLength as int
      modifies this
      ensures (token.None? || tokenLength > 8) ==> r == 0 && pkt == old(pkt)
      ensures token.Some? && tokenLength <= 8 ==>
                r == 1 && pkt == Overwrite(old(pkt) + grown, COAP_HDR_SIZE, token.value[..tokenLength])
      ensures Rest() == old(Rest())
    {
      if token.None? || tokenLength > 8 {
        return 0;
      }
      pkt := Overwrite(pkt + grown, COAP_HDR_SIZE, token.value[..tokenLength]);
      return 1;
    }

    /** insertOption, with the header written as section 3.1 of RFC 7252
        lays it out for the full 16-bit length: options below the last
        inserted number are refused; otherwise header and value are
        appended and the number becomes the last. It always returns 0. */
    method InsertOption(optionType: uint16, optionLength: uint16, optionValue: seq<uint8>) returns (r: int)
      requires |optionValue| >= optionLength as int
      modifies this
      ensures r == 0
      ensures optionType < old(maxDelta) ==> pkt == old(pkt) && maxDelta == old(maxDelta)
      ensures optionType >= old(maxDelta) ==>
                pkt == old(pkt) + OptionHeader(optionType - old(maxDelta), optionLength) + optionValue[..optionLength] &&
                maxDelta == optionType
      ensures optionCount == old(optionCount) && options == old(options) && isProxy == old(isProxy)
      ensures readPastEnd == old(readPastEnd)
    {
      if optionType < maxDelta {
        return 0;
      }
      var delta := optionType - maxDelta;
      pkt := pkt + OptionHeader(delta, optionLength) + optionValue[..optionLength];
      maxDelta := optionType;
      return 0;
    }

    /** addPayload, with the marker written at the end of the packet, after
        the options: 0 and no change for an empty payload, otherwise the
        marker and payload are appended and 1 returned. */
    method AddPayload(content: seq<uint8>) returns (r: int)
      modifies this
      ensures content == [] ==> r == 0 && pkt == old(pkt)
      ensures content != [] ==> r == 1 && pkt == old(pkt) + [COAP_PAYLOAD_START] + content
      ensures Rest() == old(Rest())
    {
      if content == [] {
        return 0;
      }
      pkt := pkt + [COAP_PAYLOAD_START] + content;
      return 1;
    }
  }

  /** The loop of parseOptionsFromRcv over the packet p: k options from
      4 + TKL on, and whether one of them is Proxy-Uri. */
  method ParseOptions(p: seq<uint8>, k: nat) returns (r: seq<CoapOption>, proxy: bool)
    requires |p| >= 1 && ParseFrom(p, OptionsStart(p), 0, k).Some?
    ensures ParseFrom(p, OptionsStart(p), 0, k) == Some(r)
    ensures proxy <==> HasProxyUri(r)
  {
    var pos: nat := OptionsStart(p);
    var number: uint16 := 0;
    var left := k;
    ghost var whole := ParseFrom(p, pos, number, left).value;
    r := [];
    proxy := false;
    assert r + ParseFrom(p, pos, number, left).value == whole;
    while left > 0
      invariant ParseFrom(p, pos, number, left).Some?
      invariant whole == r + ParseFrom(p, pos, number, left).value
      invariant proxy <==> HasProxyUri(r)
    {
      var o, next := ReadOption(p, pos, number, left, r, whole);
      if o.number == COAP_OPTION_PROXY_URI {
        proxy := true;
      }
      r := r + [o];
      pos := next;
      number := o.number;
      left := left - 1;
    }
    assert r + ParseFrom(p, pos, number, 0).value == r;
  }

  /** One round of the loop of parseOptionsFromRcv: the option at pos, its
      number the running number plus the delta, and where the next one
      starts. */
  method ReadOption(p: seq<uint8>, pos: nat, number: uint16, left: nat, ghost r: seq<CoapOption>, ghost whole: seq<CoapOption>)
    returns (o: CoapOption, next: nat)
    requires left > 0 && ParseFrom(p, pos, number, left).Some?
    requires whole == r + ParseFrom(p, pos, number, left).value
    ensures ParseFrom(p, next, o.number, left - 1).Some?
    ensures whole == (r + [o]) + ParseFrom(p, next, o.number, left - 1).value
    ensures HasProxyUri(r + [o]) <==> HasProxyUri(r) || o.number == COAP_OPTION_PROXY_URI
  {
    ParseHead(p, pos, number, left);
    var h := DecodeHeader(p, pos).value;
    var num := ToUint16(number + h.delta);
    next := pos + h.size + h.length;
    o := CoapOption(h.delta, num, h.length, h.size + h.length, pos + h.size);
    ParseAdvance(p, pos, number, left, r, whole, h, num, next, o);
  }

  /** A parse still to do with a round left starts with a header. */
  lemma ParseHead(p: seq<uint8>, pos: nat, number: uint16, left: nat)
    requires left > 0 && ParseFrom(p, pos, number, left).Some?
    ensures pos < |p| && DecodeHeader(p, pos).Some?
  {
    ParseUnfold(p, pos, number, left);
  }

  /** One round of parseOptionsFromRcv: the option o read at pos moves from
      the parse still to do to the options read so far. */
  lemma ParseAdvance(p: seq<uint8>, pos: nat, number: uint16, left: nat, r: seq<CoapOption>, whole: seq<CoapOption>,
                     h: OptionHead, num: uint16, next: nat, o: CoapOption)
    requires left > 0 && ParseFrom(p, pos, number, left).Some?
    requires whole == r + ParseFrom(p, pos, number, left).value
    requires pos < |p| && DecodeHeader(p, pos) == Some(h)
    requires num == ToUint16(number + h.delta) && next == pos + h.size + h.length
    requires o == CoapOption(h.delta, num, h.length, h.size + h.length, pos + h.size)
    ensures ParseFrom(p, next, num, left - 1).Some?
    ensures whole == (r + [o]) + ParseFrom(p, next, num, left - 1).value
    ensures HasProxyUri(r + [o]) <==> HasProxyUri(r) || num == COAP_OPTION_PROXY_URI
  {
    ParseUnfold(p, pos, number, left);
    var tail := ParseFrom(p, next, num, left - 1).value;
    assert r + ([o] + tail) == (r + [o]) + tail;
    ProxyUriSnoc(r, o);
  }

  /** Proxy-Uri among r + [o] is Proxy-Uri among r or in o. */
  lemma ProxyUriSnoc(r: seq<CoapOption>, o: CoapOption)
    ensures HasProxyUri(r + [o]) <==> HasProxyUri(r) || o.number == COAP_OPTION_PROXY_URI
  {
    var s := r + [o];
    if HasProxyUri(s) {
      var i :| 0 <= i < |s| && s[i].number == COAP_OPTION_PROXY_URI;
      if i < |r| {
        assert r[i] == s[i];
      }
    }
    if HasProxyUri(r) {
      var i :| 0 <= i < |r| && r[i].number == COAP_OPTION_PROXY_URI;
      assert s[i] == r[i];
    }
    if o.number == COAP_OPTION_PROXY_URI {
      assert s[|r|] == o;
    }
  }

  /** coap_encode_var_bytes, with the value written into buf[0..n) as
      intended: n is the fewest bytes that hold v (0 for 0, at most 4), and
      buf[0..n) holds v most significant byte first. */
  method EncodeVarBytes(buf: array<uint8>, v: uint32) returns (byteCount: nat)
    requires buf.Length >= MinBytes(v)
    modifies buf
    ensures byteCount == MinBytes(v) && byteCount <= 4
    ensures buf[..byteCount] == BigEndian(v, byteCount)
    ensures buf[byteCount..] == old(buf[byteCount..])
  {
    byteCount := VarBytesCount(v);
    WriteBigEndian(buf, v, byteCount);
  }

  /** The first loop of coap_encode_var_bytes: shift v right a byte at a
      time, at most four times, until nothing is left. */
  method VarBytesCount(v: uint32) returns (byteCount: nat)
    ensures byteCount == MinBytes(v) && byteCount <= 4
  {
    MinBytesOfUint32(v);
    byteCount := 0;
    var i: nat := v;
    while i != 0 && byteCount < 4
      invariant MinBytes(v) == byteCount + MinBytes(i) && byteCount <= 4
      decreases i
    {
      i := i / 0x100;
      byteCount := byteCount + 1;
    }
  }

  /** The second loop, writing from the last of the n bytes back to the
      first, the low byte of what is left of v each time. */
  method WriteBigEndian(buf: array<uint8>, v: nat, n: nat)
    requires n <= buf.Length
    modifies buf
    ensures buf[..n] == BigEndian(v, n)
    ensures buf[n..] == old(buf[n..])
  {
    var k: nat := n;
    var x: nat := v;
    while k > 0
      invariant k <= n
      invariant BigEndian(v, n) == BigEndian(x, k) + buf[k..n]
      invariant buf[n..] == old(buf[n..])
      decreases k
    {
      buf[k - 1] := x % 0x100;
      x := x / 0x100;
      k := k - 1;
    }
  }
}
