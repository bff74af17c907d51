// The fixed-size monitoring primitives: LINK_STATE
// (lib/moly/primitives/linkstate.cc), NODE_STATE
// (lib/moly/primitives/nodestate.cc) and NETWORK_LATENCY_PER_FQDN
// (lib/moly/primitives/networklatencyperfqdn.cc).

module MolyLinkState {
  import opened Bytes
  import opened Buffers
  import opened Wrappers

  datatype LinkStateMsg = LinkStateMsg(linkId: uint32, destination: uint32, linkType: uint8, state: uint8)

  const LINK_STATE_SIZE: nat := 10

  /** Link id, destination node id, link type, state. */
  function EncodeLinkState(m: LinkStateMsg): (b: seq<uint8>)
    ensures |b| == LINK_STATE_SIZE
  {
    LE32(m.linkId) + LE32(m.destination) + [m.linkType, m.state]
  }

  function DecodeLinkState(b: seq<uint8>): (r: Option<LinkStateMsg>)
    ensures r.Some? <==> |b| >= LINK_STATE_SIZE
  {
    if |b| < LINK_STATE_SIZE then None
    else Some(LinkStateMsg(ReadLE32(b, 0), ReadLE32(b, 4), b[8], b[9]))
  }

  lemma LinkStateRoundTrip(m: LinkStateMsg)
    ensures DecodeLinkState(EncodeLinkState(m)) == Some(m)
  {
    var b := EncodeLinkState(m);
    ReadLE32Concat([], m.linkId, LE32(m.destination) + [m.linkType, m.state]);
    ReadLE32Concat(LE32(m.linkId), m.destination, [m.linkType, m.state]);
  }

  class LinkState {
    var linkId: uint32
    var destinationNodeId: uint32
    var linkType: uint8
    var state: uint8
    var size: nat
    var pointer: array<uint8>
    /** Whether the last _decomposePacket read past the end of the copied
        buffer (undefined behaviour in the C++ code); the fields are then
        not the message's. */
    var readPastEnd: bool

    function Msg(): LinkStateMsg
      reads this
    {
      LinkStateMsg(linkId, destinationNodeId, linkType, state)
    }

    /** LinkState(linkId, destinationNodeId, linkType, state). */
    constructor (linkId: uint32, destinationNodeId: uint32, linkType: uint8, state: uint8)
      ensures Msg() == LinkStateMsg(linkId, destinationNodeId, linkType, state)
      ensures size == LINK_STATE_SIZE
      ensures fresh(pointer) && pointer[..] == EncodeLinkState(Msg())
    {
      this.linkId := linkId;
      this.destinationNodeId := destinationNodeId;
      this.linkType := linkType;
      this.state := state;
      size := LINK_STATE_SIZE;
      pointer := new uint8[LINK_STATE_SIZE];
      new;
      ComposePacket();
    }

    /** LinkState(pointer, size). */
    constructor FromBuffer(buf: seq<uint8>)
      ensures readPastEnd <==> DecodeLinkState(buf).None?
      ensures !readPastEnd ==> Msg() == DecodeLinkState(buf).value
      ensures size == |buf| && fresh(pointer) && pointer[..] == buf
    {
      size := |buf|;
      var copy := CopyOf(buf);
      pointer := copy;
      new;
      DecomposePacket();
    }

    method ComposePacket()
      requires pointer.Length == LINK_STATE_SIZE
      modifies pointer
      ensures pointer[..] == EncodeLinkState(Msg())
    {
      var at := Memcpy(pointer, 0, LE32(linkId));
      at := Memcpy(pointer, at, LE32(destinationNodeId));
      at := Memcpy(pointer, at, [linkType]);
      at := Memcpy(pointer, at, [state]);
      assert pointer[..] == pointer[..at];
    }

    method DecomposePacket()
      modifies this`linkId, this`destinationNodeId, this`linkType, this`state, this`readPastEnd
      ensures readPastEnd <==> DecodeLinkState(pointer[..]).None?
      ensures !readPastEnd ==> Msg() == DecodeLinkState(pointer[..]).value
      ensures readPastEnd ==> Msg() == old(Msg())
    {
      if pointer.Length < LINK_STATE_SIZE {
        readPastEnd := true;
        return;
      }
      readPastEnd := false;
      linkId := ReadLE32(pointer[..], 0);
      destinationNodeId := ReadLE32(pointer[..], 4);
      linkType := pointer[8];
      state := pointer[9];
    }
  }
}

module MolyNodeState {
  import opened Bytes
  import opened Buffers
  import opened Wrappers

  datatype NodeStateMsg = NodeStateMsg(nodeType: uint8, nodeId: uint32, state: uint8)

  const NODE_STATE_SIZE: nat := 6

  /** Node type first, then node id, then state. */
  function EncodeNodeState(m: NodeStateMsg): (b: seq<uint8>)
    ensures |b| == NODE_STATE_SIZE
  {
    [m.nodeType] + LE32(m.nodeId) + [m.state]
  }

  function DecodeNodeState(b: seq<uint8>): (r: Option<NodeStateMsg>)
    ensures r.Some? <==> |b| >= NODE_STATE_SIZE
  {
    if |b| < NODE_STATE_SIZE then None
    else Some(NodeStateMsg(b[0], ReadLE32(b, 1), b[5]))
  }

  lemma NodeStateRoundTrip(m: NodeStateMsg)
    ensures DecodeNodeState(EncodeNodeState(m)) == Some(m)
  {
    ReadLE32Concat([m.nodeType], m.nodeId, [m.state]);
  }

  class NodeState {
    var nodeType: uint8
    var nodeId: uint32
    var state: uint8
    var size: nat
    var pointer: array<uint8>
    /** Whether the last _decomposePacket read past the end of the copied
        buffer (undefined behaviour in the C++ code); the fields are then
        not the message's. */
    var readPastEnd: bool

    function Msg(): NodeStateMsg
      reads this
    {
      NodeStateMsg(nodeType, nodeId, state)
    }

    /** NodeState(nodeType, nodeId, state). */
    constructor (nodeType: uint8, nodeId: uint32, state: uint8)
      ensures Msg() == NodeStateMsg(nodeType, nodeId, state)
      ensures size == NODE_STATE_SIZE
      ensures fresh(pointer) && pointer[..] == EncodeNodeState(Msg())
    {
      this.nodeType := nodeType;
      this.nodeId := nodeId;
      this.state := state;
      size := NODE_STATE_SIZE;
      pointer := new uint8[NODE_STATE_SIZE];
      new;
      ComposePacket();
    }

    /** NodeState(pointer, size). */
    constructor FromBuffer(buf: seq<uint8>)
      ensures readPastEnd <==> DecodeNodeState(buf).None?
      ensures !readPastEnd ==> Msg() == DecodeNodeState(buf).value
      ensures size == |buf| && fresh(pointer) && pointer[..] == buf
    {
      size := |buf|;
      var copy := CopyOf(buf);
      pointer := copy;
      new;
      DecomposePacket();
    }

    method ComposePacket()
      requires pointer.Length == NODE_STATE_SIZE
      modifies pointer
      ensures pointer[..] == EncodeNodeState(Msg())
    {
      var at := Memcpy(pointer, 0, [nodeType]);
      at := Memcpy(pointer, at, LE32(nodeId));
      at := Memcpy(pointer, at, [state]);
      assert pointer[..] == pointer[..at];
    }

    method DecomposePacket()
      modifies this`nodeType, this`nodeId, this`state, this`readPastEnd
      ensures readPastEnd <==> DecodeNodeState(pointer[..]).None?
      ensures !readPastEnd ==> Msg() == DecodeNodeState(pointer[..]).value
      ensures readPastEnd ==> Msg() == old(Msg())
    {
      if pointer.Length < NODE_STATE_SIZE {
        readPastEnd := true;
        return;
      }
      readPastEnd := false;
      nodeType := pointer[0];
      nodeId := ReadLE32(pointer[..], 1);
      state := pointer[5];
    }
  }
}

module MolyNetworkLatencyPerFqdn {
  import opened Bytes
  import opened Buffers
  import opened Wrappers

  datatype NetworkLatencyMsg = NetworkLatencyMsg(fqdn: uint32, latency: uint16)

  const NETWORK_LATENCY_SIZE: nat := 6

  /** The hashed FQDN at offset 0, the latency at offset 4. */
  function EncodeNetworkLatency(m: NetworkLatencyMsg): (b: seq<uint8>)
    ensures |b| == NETWORK_LATENCY_SIZE
  {
    LE32(m.fqdn) + LE16(m.latency)
  }

  function DecodeNetworkLatency(b: seq<uint8>): (r: Option<NetworkLatencyMsg>)
    ensures r.Some? <==> |b| >= NETWORK_LATENCY_SIZE
  {
    if |b| < NETWORK_LATENCY_SIZE then None
    else Some(NetworkLatencyMsg(ReadLE32(b, 0), ReadLE16(b, 4)))
  }

  lemma NetworkLatencyRoundTrip(m: NetworkLatencyMsg)
    ensures DecodeNetworkLatency(EncodeNetworkLatency(m)) == Some(m)
  {
    ReadLE32Concat([], m.fqdn, LE16(m.latency));
    ReadLE16Concat(LE32(m.fqdn), m.latency, []);
    assert EncodeNetworkLatency(m) == [] + LE32(m.fqdn) + LE16(m.latency)
      == LE32(m.fqdn) + LE16(m.latency) + [];
  }

  class NetworkLatencyPerFqdn {
    var fqdn: uint32
    var latency: uint16
    var size: nat
    var pointer: array<uint8>
    /** Whether the last _decomposePacket read past the end of the copied
        buffer (undefined behaviour in the C++ code); the fields are then
        not the message's. */
    var readPastEnd: bool

    function Msg(): NetworkLatencyMsg
      reads this
    {
      NetworkLatencyMsg(fqdn, latency)
    }

    /** NetworkLatencyPerFqdn(fqdn, latency). */
    constructor (fqdn: uint32, latency: uint16)
      ensures Msg() == NetworkLatencyMsg(fqdn, latency)
      ensures size == NETWORK_LATENCY_SIZE
      ensures fresh(pointer) && pointer[..] == EncodeNetworkLatency(Msg())
    {
      this.fqdn := fqdn;
      this.latency := latency;
      size := NETWORK_LATENCY_SIZE;
      pointer := new uint8[NETWORK_LATENCY_SIZE];
      new;
      ComposePacket();
    }

    /** NetworkLatencyPerFqdn(pointer, size). */
    constructor FromBuffer(buf: seq<uint8>)
      ensures readPastEnd <==> DecodeNetworkLatency(buf).None?
      ensures !readPastEnd ==> Msg() == DecodeNetworkLatency(buf).value
      ensures size == |buf| && fresh(pointer) && pointer[..] == buf
    {
      size := |buf|;
      var copy := CopyOf(buf);
      pointer := copy;
      new;
      DecomposePacket();
    }

    /** Two memcpy's at fixed offsets into the buffer. */
    method ComposePacket()
      requires pointer.Length == NETWORK_LATENCY_SIZE
      modifies pointer
      ensures pointer[..] == EncodeNetworkLatency(Msg())
    {
      var at := Memcpy(pointer, 0, LE32(fqdn));
      at := Memcpy(pointer, 4, LE16(latency));
      assert pointer[..] == pointer[..at];
    }

    method DecomposePacket()
      modifies this`fqdn, this`latency, this`readPastEnd
      ensures readPastEnd <==> DecodeNetworkLatency(pointer[..]).None?
      ensures !readPastEnd ==> Msg() == DecodeNetworkLatency(pointer[..]).value
      ensures readPastEnd ==> Msg() == old(Msg())
    {
      if pointer.Length < NETWORK_LATENCY_SIZE {
        readPastEnd := true;
        return;
      }
      readPastEnd := false;
      fqdn := ReadLE32(pointer[..], 0);
      latency := ReadLE16(pointer[..], 4);
    }
  }
}
