// The HTTP_REQUESTS_PER_FQDN monitoring primitive
// (lib/moly/primitives/httprequestsperfqdn.cc).

module MolyHttpRequestsPerFqdn {
  import opened Bytes
  import opened Buffers
  import opened Wrappers

  datatype HttpRequestsMsg = HttpRequestsMsg(fqdn: seq<uint8>, httpRequests: uint32)

  function HttpRequestsSize(fqdnLength: nat): nat { 4 + fqdnLength + 4 }

  /** _composePacket: FQDN length, FQDN, request count. */
  function EncodeHttpRequests(m: HttpRequestsMsg): (b: seq<uint8>)
    ensures |b| == HttpRequestsSize(|m.fqdn|)
  {
    LE32(ToUint32(|m.fqdn|)) + m.fqdn + LE32(m.httpRequests)
  }

  /** _decomposePacket; None where the C++ would read past the buffer. */
  function DecodeHttpRequests(b: seq<uint8>): (r: Option<HttpRequestsMsg>)
    ensures r.Some? <==> |b| >= 4 && |b| >= HttpRequestsSize(ReadLE32(b, 0))
  {
    if |b| < 4 then None
    else
      var n: int := ReadLE32(b, 0);
      if |b| < HttpRequestsSize(n) then None
      else Some(HttpRequestsMsg(CString(b[4..4 + n]), ReadLE32(b, 4 + n)))
  }

  lemma HttpRequestsRoundTrip(m: HttpRequestsMsg)
    requires 0 !in m.fqdn && |m.fqdn| < 0x1_0000_0000
    ensures DecodeHttpRequests(EncodeHttpRequests(m)) == Some(m)
  {
    var b := EncodeHttpRequests(m);
    var n := |m.fqdn|;
    LengthPrefixed(b, m.fqdn, LE32(m.httpRequests));
    LE32RoundTrip(m.httpRequests);
    ReadLE32Shift(b, 4 + n, 0);
    var f, c := CString(b[4..4 + n]), ReadLE32(b, 4 + n);
    assert f == m.fqdn && c == m.httpRequests;
    assert DecodeHttpRequests(b) == Some(HttpRequestsMsg(f, c));
  }

  class HttpRequestsPerFqdn {
    var fqdn: seq<uint8>
    var httpRequests: uint32
    var size: nat
    var pointer: array<uint8>
    /** Whether the last _decomposePacket read past the end of the copied
        buffer (undefined behaviour in the C++ code); the fields are then
        not the message's. */
    var readPastEnd: bool

    function Msg(): HttpRequestsMsg
      reads this
    {
      HttpRequestsMsg(fqdn, httpRequests)
    }

    /** HttpRequestsPerFqdn(fqdn, httpRequests). */
    constructor (fqdn: seq<uint8>, httpRequests: uint32)
      ensures Msg() == HttpRequestsMsg(fqdn, httpRequests)
      ensures size == HttpRequestsSize(|fqdn|)
      ensures fresh(pointer) && pointer[..] == EncodeHttpRequests(Msg())
    {
      this.fqdn := fqdn;
      this.httpRequests := httpRequests;
      size := HttpRequestsSize(|fqdn|);
      pointer := new uint8[HttpRequestsSize(|fqdn|)];
      new;
      ComposePacket();
    }

    /** HttpRequestsPerFqdn(pointer, size). */
    constructor FromBuffer(buf: seq<uint8>)
      ensures readPastEnd <==> DecodeHttpRequests(buf).None?
      ensures !readPastEnd ==> Msg() == DecodeHttpRequests(buf).value
      ensures size == |buf| && fresh(pointer) && pointer[..] == buf
    {
      size := |buf|;
      var copy := CopyOf(buf);
      pointer := copy;
      new;
      DecomposePacket();
    }

    method ComposePacket()
      requires pointer.Length == HttpRequestsSize(|fqdn|)
      modifies pointer
      ensures pointer[..] == EncodeHttpRequests(Msg())
    {
      var at := Memcpy(pointer, 0, LE32(ToUint32(|fqdn|)));
      at := Memcpy(pointer, at, fqdn);
      at := Memcpy(pointer, at, LE32(httpRequests));
      assert pointer[..] == pointer[..at];
    }

    method DecomposePacket()
      modifies this`fqdn, this`httpRequests, this`readPastEnd
      ensures readPastEnd <==> DecodeHttpRequests(pointer[..]).None?
      ensures !readPastEnd ==> Msg() == DecodeHttpRequests(pointer[..]).value
      ensures readPastEnd ==> Msg() == old(Msg())
    {
      if pointer.Length < 4 || pointer.Length < HttpRequestsSize(ReadLE32(pointer[..], 0)) {
        readPastEnd := true;
        return;
      }
      readPastEnd := false;
      var b := pointer[..];
      var n: int := ReadLE32(b, 0);
      fqdn := CString(pointer[4..4 + n]);
      httpRequests := ReadLE32(b, 4 + n);
    }
  }
}
