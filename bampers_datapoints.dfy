// BAMPERS' data points (lib/bampers/datapoints/statistics.cc, link.cc,
// state.cc): each builds a little-endian payload in a malloc'd buffer and
// hands it, with its scope path, to Namespace.prepareDataToBePublished.
// time(0) is the `epoch` parameter.

module BampersDatapoints {
  import opened Bytes
  import opened Buffers
  import opened MolyEnum
  import opened BampersNamespace

  /** epoch then one 32-bit value: cmcGroupSize, transmittedBytes, and
      Link::add / Link::remove. */
  function EpochValuePayload(epoch: uint32, v: uint32): (p: seq<uint8>)
    ensures |p| == 8 && ReadLE32(p, 0) == epoch && ReadLE32(p, 4) == v
  {
    ReadLE32Concat([], epoch, LE32(v));
    ReadLE32Concat(LE32(epoch), v, []);
    assert LE32(epoch) + LE32(v) == [] + LE32(epoch) + LE32(v) == LE32(epoch) + LE32(v) + [];
    LE32(epoch) + LE32(v)
  }

  /** httpRequestsPerFqdn as intended: epoch, FQDN length, FQDN, count. */
  function HttpRequestsPayload(epoch: uint32, fqdn: seq<uint8>, requests: uint32): (p: seq<uint8>)
    requires |fqdn| < 0x1_0000_0000
    ensures |p| == 12 + |fqdn|
    ensures ReadLE32(p, 0) == epoch && ReadLE32(p, 4) == |fqdn|
    ensures p[8..8 + |fqdn|] == fqdn && ReadLE32(p, 8 + |fqdn|) == requests
  {
    var n := ToUint32(|fqdn|);
    var p := LE32(epoch) + LE32(n) + fqdn + LE32(requests);
    ReadLE32Concat([], epoch, LE32(n) + fqdn + LE32(requests));
    ReadLE32Concat(LE32(epoch), n, fqdn + LE32(requests));
    ReadLE32Concat(LE32(epoch) + LE32(n) + fqdn, requests, []);
    assert p == [] + LE32(epoch) + (LE32(n) + fqdn + LE32(requests));
    assert p == LE32(epoch) + LE32(n) + (fqdn + LE32(requests));
    assert p == LE32(epoch) + LE32(n) + fqdn + LE32(requests) + [];
    p
  }

  /** httpRequestsPerFqdn as written: the running offset is a uint8_t, so
      the count lands at (8 + |fqdn|) mod 256, and the four bytes 8 + |fqdn|
      onwards keep what malloc left there (`junk`). */
  function HttpRequestsPayloadAsWritten(epoch: uint32, fqdn: seq<uint8>, requests: uint32, junk: seq<uint8>): (p: seq<uint8>)
    requires |fqdn| < 0x1_0000_0000 && |junk| == 4
    ensures |p| == 12 + |fqdn|
  {
    var buf := LE32(epoch) + LE32(ToUint32(|fqdn|)) + fqdn + junk;
    Overwrite(buf, ToUint8(8 + |fqdn|), LE32(requests))
  }

  /** Below 248 bytes of FQDN the offset does not wrap and the two agree. */
  lemma HttpRequestsShortAgrees(epoch: uint32, fqdn: seq<uint8>, requests: uint32, junk: seq<uint8>)
    requires |fqdn| < 248 && |junk| == 4
    ensures HttpRequestsPayloadAsWritten(epoch, fqdn, requests, junk) == HttpRequestsPayload(epoch, fqdn, requests)
  {
    var n := ToUint32(|fqdn|);
    var buf := LE32(epoch) + LE32(n) + fqdn + junk;
    assert buf[..8 + |fqdn|] == LE32(epoch) + LE32(n) + fqdn;
  }

  /** A 248-byte FQDN makes the offset wrap to 0: the count overwrites the
      epoch, and the payload differs from the intended one whenever the
      count is not the epoch. */
  lemma HttpRequestsLongOverwritesEpoch(epoch: uint32, fqdn: seq<uint8>, requests: uint32, junk: seq<uint8>)
    requires |fqdn| == 248 && |junk| == 4
    ensures HttpRequestsPayloadAsWritten(epoch, fqdn, requests, junk)[..4] == LE32(requests)
    ensures requests != epoch ==>
      HttpRequestsPayloadAsWritten(epoch, fqdn, requests, junk) != HttpRequestsPayload(epoch, fqdn, requests)
  {
    var p := HttpRequestsPayloadAsWritten(epoch, fqdn, requests, junk);
    assert ToUint8(8 + |fqdn|) == 0;
    if requests != epoch {
      var q := HttpRequestsPayload(epoch, fqdn, requests);
      ReadLE32At(p, 0, requests);
      assert ReadLE32(q, 0) == epoch;
    }
  }

  /** networkLatencyPerFqdn: epoch, hashed FQDN, latency. */
  function NetworkLatencyPayload(epoch: uint32, fqdn: uint32, latency: uint16): (p: seq<uint8>)
    ensures |p| == 10 && ReadLE32(p, 0) == epoch && ReadLE32(p, 4) == fqdn && ReadLE16(p, 8) == latency
  {
    var p := LE32(epoch) + LE32(fqdn) + LE16(latency);
    ReadLE32Concat([], epoch, LE32(fqdn) + LE16(latency));
    ReadLE32Concat(LE32(epoch), fqdn, LE16(latency));
    ReadLE16Concat(LE32(epoch) + LE32(fqdn), latency, []);
    assert p == [] + LE32(epoch) + (LE32(fqdn) + LE16(latency));
    assert p == LE32(epoch) + LE32(fqdn) + LE16(latency) + [];
    p
  }

  /** State::update for a node or a link: epoch then the state byte. */
  function StatePayload(epoch: uint32, state: uint8): (p: seq<uint8>)
    ensures |p| == 5 && ReadLE32(p, 0) == epoch && p[4] == state
  {
    ReadLE32Concat([], epoch, [state]);
    assert [] + LE32(epoch) + [state] == LE32(epoch) + [state];
    LE32(epoch) + [state]
  }

  /** State::update with a host name, as intended: epoch, state, host name
      length, host name. */
  function HostnameStatePayload(epoch: uint32, state: uint8, hostname: seq<uint8>): (p: seq<uint8>)
    requires |hostname| < 0x1_0000_0000
    ensures |p| == 9 + |hostname| && ReadLE32(p, 0) == epoch && p[4] == state
    ensures ReadLE32(p, 5) == |hostname| && p[9..] == hostname
  {
    var n := ToUint32(|hostname|);
    var p := LE32(epoch) + [state] + LE32(n) + hostname;
    ReadLE32Concat([], epoch, [state] + LE32(n) + hostname);
    ReadLE32Concat(LE32(epoch) + [state], n, hostname);
    assert p == [] + LE32(epoch) + ([state] + LE32(n) + hostname);
    assert p == LE32(epoch) + [state] + LE32(n) + hostname;
    p
  }

  /** As written, the last memcpy copies from the std::string object itself
      rather than from its characters: `repr` stands for the bytes in memory
      from the object's address on. */
  function HostnameStatePayloadAsWritten(epoch: uint32, state: uint8, hostname: seq<uint8>, repr: seq<uint8>): (p: seq<uint8>)
    requires |hostname| < 0x1_0000_0000 && |hostname| <= |repr|
    ensures |p| == 9 + |hostname|
  {
    LE32(epoch) + [state] + LE32(ToUint32(|hostname|)) + repr[..|hostname|]
  }

  /** The payload carries the host name only when the object's bytes happen
      to spell it: for a one-character name "a" and an object that starts
      with a 0 byte, the last byte is 0 and not 'a'. */
  lemma HostnameStateCopiesObject(epoch: uint32, state: uint8, hostname: seq<uint8>, repr: seq<uint8>)
    requires |hostname| < 0x1_0000_0000 && |hostname| <= |repr|
    ensures HostnameStatePayloadAsWritten(epoch, state, hostname, repr) == HostnameStatePayload(epoch, state, hostname)
        <==> repr[..|hostname|] == hostname
    ensures HostnameStatePayloadAsWritten(epoch, state, [97], [0]) != HostnameStatePayload(epoch, state, [97])
  {
    var p := HostnameStatePayloadAsWritten(epoch, state, hostname, repr);
    var q := HostnameStatePayload(epoch, state, hostname);
    assert p[9..] == repr[..|hostname|];
    assert q[9..] == hostname;
    var p1 := HostnameStatePayloadAsWritten(epoch, state, [97], [0]);
    assert p1[9] == 0;
  }

  /** The shared part of every data point: one payload handed to
      prepareDataToBePublished under one path. */
  function Published(s: NsState, path: string, payload: seq<uint8>): NsState
  {
    PrepareSpec(s, path, payload).0
  }

  /** A data point published for the first time under its path is
      buffered and its path announced level by level; once a subscriber is
      there it goes straight out. */
  lemma PublishedFirstTime(s: NsState, path: string, payload: seq<uint8>)
    requires path !in s.published && |path| % ID_LEN == 0
    ensures var r := Published(s, path, payload);
      r.buffer == s.buffer[path := payload] && r.published == s.published[path := false]
      && r.calls == s.calls + LevelCalls(path, |path| / ID_LEN)
  {
  }

  lemma PublishedWithSubscriber(s: NsState, path: string, payload: seq<uint8>)
    requires path in s.published && s.published[path]
    ensures Published(s, path, payload) == s.(calls := s.calls + [PublishData(path, payload)])
  {
  }

  /** The malloc'd buffers, filled by memcpy at a running offset. */
  method BuildEpochValue(epoch: uint32, v: uint32) returns (payload: seq<uint8>)
    ensures payload == EpochValuePayload(epoch, v)
  {
    var data := new uint8[8];
    var at := Memcpy(data, 0, LE32(epoch));
    at := Memcpy(data, at, LE32(v));
    assert data[..] == data[..at];
    payload := data[..];
  }

  method BuildHttpRequests(epoch: uint32, fqdn: seq<uint8>, requests: uint32) returns (payload: seq<uint8>)
    requires |fqdn| < 0x1_0000_0000
    ensures payload == HttpRequestsPayload(epoch, fqdn, requests)
  {
    var data := new uint8[12 + |fqdn|];
    var offset := Memcpy(data, 0, LE32(epoch));
    offset := Memcpy(data, offset, LE32(ToUint32(|fqdn|)));
    offset := Memcpy(data, offset, fqdn);
    offset := Memcpy(data, offset, LE32(requests));
    assert data[..] == data[..offset];
    payload := data[..];
  }

  method BuildNetworkLatency(epoch: uint32, fqdn: uint32, latency: uint16) returns (payload: seq<uint8>)
    ensures payload == NetworkLatencyPayload(epoch, fqdn, latency)
  {
    var data := new uint8[10];
    var offset := Memcpy(data, 0, LE32(epoch));
    offset := Memcpy(data, offset, LE32(fqdn));
    offset := Memcpy(data, offset, LE16(latency));
    assert data[..] == data[..offset];
    payload := data[..];
  }

  method BuildState(epoch: uint32, state: uint8) returns (payload: seq<uint8>)
    ensures payload == StatePayload(epoch, state)
  {
    var data := new uint8[5];
    var offset := Memcpy(data, 0, LE32(epoch));
    offset := Memcpy(data, offset, [state]);
    assert data[..] == data[..offset];
    payload := data[..];
  }

  method BuildHostnameState(epoch: uint32, state: uint8, hostname: seq<uint8>) returns (payload: seq<uint8>)
    requires |hostname| < 0x1_0000_0000
    ensures payload == HostnameStatePayload(epoch, state, hostname)
  {
    var data := new uint8[9 + |hostname|];
    var offset := Memcpy(data, 0, LE32(epoch));
    offset := Memcpy(data, offset, [state]);
    offset := Memcpy(data, offset, LE32(ToUint32(|hostname|)));
    offset := Memcpy(data, offset, hostname);
    assert data[..] == data[..offset];
    payload := data[..];
  }

  class Statistics {
    const ns: Namespace

    constructor (ns: Namespace)
      ensures this.ns == ns
    {
      this.ns := ns;
    }

    method CmcGroupSize(epoch: uint32, groupSize: uint32)
      modifies ns`published, ns`buffer, ns`calls
      ensures ns.St() == Published(old(ns.St()), ns.OwnScopePath(NODE_TYPE_NAP, II_CMC_GROUP_SIZE),
                                   EpochValuePayload(epoch, groupSize))
    {
      var scopePath := ns.OwnScopePath(NODE_TYPE_NAP, II_CMC_GROUP_SIZE);
      var payload := BuildEpochValue(epoch, groupSize);
      var _ := ns.PrepareDataToBePublished(scopePath, payload);
    }

    method TransmittedBytes(epoch: uint32, linkId: uint32, destination: uint32, linkType: uint8, transmitted: uint32)
      modifies ns`published, ns`buffer, ns`calls
      ensures ns.St() == Published(old(ns.St()), LinkScopePath(ns.root, linkId, destination, linkType, II_TRANSMITTED_BYTES),
                                   EpochValuePayload(epoch, transmitted))
    {
      var scopePath := LinkScopePath(ns.root, linkId, destination, linkType, II_TRANSMITTED_BYTES);
      var payload := BuildEpochValue(epoch, transmitted);
      var _ := ns.PrepareDataToBePublished(scopePath, payload);
    }

    /** The count is written at 8 + |fqdn| (see HttpRequestsPayloadAsWritten
        for the uint8_t offset of the C++ code). */
    method HttpRequestsPerFqdn(epoch: uint32, fqdn: seq<uint8>, requests: uint32)
      requires |fqdn| < 0x1_0000_0000
      modifies ns`published, ns`buffer, ns`calls
      ensures ns.St() == Published(old(ns.St()), ns.OwnScopePath(NODE_TYPE_NAP, II_HTTP_REQUESTS_PER_FQDN),
                                   HttpRequestsPayload(epoch, fqdn, requests))
    {
      var scopePath := ns.OwnScopePath(NODE_TYPE_NAP, II_HTTP_REQUESTS_PER_FQDN);
      var payload := BuildHttpRequests(epoch, fqdn, requests);
      var _ := ns.PrepareDataToBePublished(scopePath, payload);
    }

    method NetworkLatencyPerFqdn(epoch: uint32, fqdn: uint32, latency: uint16)
      modifies ns`published, ns`buffer, ns`calls
      ensures ns.St() == Published(old(ns.St()), ns.OwnScopePath(NODE_TYPE_NAP, II_NETWORK_LATENCY_PER_FQDN),
                                   NetworkLatencyPayload(epoch, fqdn, latency))
    {
      var scopePath := ns.OwnScopePath(NODE_TYPE_NAP, II_NETWORK_LATENCY_PER_FQDN);
      var payload := BuildNetworkLatency(epoch, fqdn, latency);
      var _ := ns.PrepareDataToBePublished(scopePath, payload);
    }
  }

  class Link {
    const ns: Namespace

    constructor (ns: Namespace)
      ensures this.ns == ns
    {
      this.ns := ns;
    }

    method Add(epoch: uint32, linkId: uint32, source: uint32, destination: uint32, linkType: uint8)
      modifies ns`published, ns`buffer, ns`calls
      ensures ns.St() == Published(old(ns.St()), LinkScopePath(ns.root, linkId, destination, linkType, II_SOURCE_NODE_ID),
                                   EpochValuePayload(epoch, source))
    {
      var scopePath := LinkScopePath(ns.root, linkId, destination, linkType, II_SOURCE_NODE_ID);
      var payload := BuildEpochValue(epoch, source);
      var _ := ns.PrepareDataToBePublished(scopePath, payload);
    }

    /** The payload goes out under the II_STATE path, which is then
        forgotten. */
    method Remove(epoch: uint32, linkId: uint32, source: uint32, destination: uint32, linkType: uint8)
      modifies ns`published, ns`buffer, ns`calls
      ensures var path := LinkScopePath(ns.root, linkId, destination, linkType, II_STATE);
        var s := Published(old(ns.St()), path, EpochValuePayload(epoch, destination));
        ns.St() == s.(published := s.published - {path})
    {
      var scopePath := LinkScopePath(ns.root, linkId, destination, linkType, II_STATE);
      var payload := BuildEpochValue(epoch, destination);
      var _ := ns.PrepareDataToBePublished(scopePath, payload);
      ns.RemovePublishedScopePath(scopePath);
    }
  }

  class State {
    const ns: Namespace

    constructor (ns: Namespace)
      ensures this.ns == ns
    {
      this.ns := ns;
    }

    /** The state value doubles as the information item of the path. */
    method UpdateNode(epoch: uint32, nodeType: uint8, nodeId: uint32, state: uint8)
      modifies ns`published, ns`buffer, ns`calls
      ensures ns.St() == Published(old(ns.St()), NodeScopePath(ns.root, nodeType, nodeId, state),
                                   StatePayload(epoch, state))
    {
      var scopePath := NodeScopePath(ns.root, nodeType, nodeId, state);
      var payload := BuildState(epoch, state);
      var _ := ns.PrepareDataToBePublished(scopePath, payload);
    }

    /** The host name is copied as its characters (see
        HostnameStatePayloadAsWritten for what the C++ code copies). */
    method UpdateHostname(epoch: uint32, nodeType: uint8, hostname: seq<uint8>, state: uint8)
      requires |hostname| < 0x1_0000_0000
      modifies ns`published, ns`buffer, ns`calls
      ensures ns.St() == Published(old(ns.St()), ns.OwnScopePath(nodeType, state),
                                   HostnameStatePayload(epoch, state, hostname))
    {
      var scopePath := ns.OwnScopePath(nodeType, state);
      var payload := BuildHostnameState(epoch, state, hostname);
      var _ := ns.PrepareDataToBePublished(scopePath, payload);
    }

    method UpdateLink(epoch: uint32, linkId: uint32, destination: uint32, linkType: uint8, state: uint8)
      modifies ns`published, ns`buffer, ns`calls
      ensures ns.St() == Published(old(ns.St()), LinkScopePath(ns.root, linkId, destination, linkType, II_STATE),
                                   StatePayload(epoch, state))
    {
      var scopePath := LinkScopePath(ns.root, linkId, destination, linkType, II_STATE);
      var payload := BuildState(epoch, state);
      var _ := ns.PrepareDataToBePublished(scopePath, payload);
    }
  }
}
