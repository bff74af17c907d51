// The ADD_NODE monitoring primitive (lib/moly/primitives/addnode.cc).

module MolyAddNode {
  import opened Bytes
  import opened Buffers
  import opened Wrappers

  datatype AddNodeMsg = AddNodeMsg(name: seq<uint8>, nodeId: uint32, nodeType: uint8)

  function AddNodeSize(nameLength: nat): nat { 4 + nameLength + 4 + 1 }

  /** _composePacket: name length, name, node id, node type. */
  function EncodeAddNode(m: AddNodeMsg): (b: seq<uint8>)
    ensures |b| == AddNodeSize(|m.name|)
  {
    LE32(ToUint32(|m.name|)) + m.name + LE32(m.nodeId) + [m.nodeType]
  }

  /** _decomposePacket; None where the C++ would read past the buffer. */
  function DecodeAddNode(b: seq<uint8>): (r: Option<AddNodeMsg>)
    ensures r.Some? <==> |b| >= 4 && |b| >= AddNodeSize(ReadLE32(b, 0))
  {
    if |b| < 4 then None
    else
      var n: int := ReadLE32(b, 0);
      if |b| < AddNodeSize(n) then None
      else Some(AddNodeMsg(CString(b[4..4 + n]), ReadLE32(b, 4 + n), b[8 + n]))
  }

  lemma AddNodeRoundTrip(m: AddNodeMsg)
    requires 0 !in m.name && |m.name| < 0x1_0000_0000
    ensures DecodeAddNode(EncodeAddNode(m)) == Some(m)
  {
    var b := EncodeAddNode(m);
    var n := |m.name|;
    var t := LE32(m.nodeId) + [m.nodeType];
    LengthPrefixed(b, m.name, t);
    ReadLE32Concat([], m.nodeId, [m.nodeType]);
    assert t == [] + LE32(m.nodeId) + [m.nodeType];
    ReadLE32Shift(b, 4 + n, 0);
    var nm, id, ty := CString(b[4..4 + n]), ReadLE32(b, 4 + n), b[8 + n];
    assert nm == m.name && id == m.nodeId;
    assert ty == t[4] == m.nodeType;
    assert DecodeAddNode(b) == Some(AddNodeMsg(nm, id, ty));
  }

  class AddNode {
    var name: seq<uint8>
    var nodeId: uint32
    var nodeType: uint8
    var size: nat
    var pointer: array<uint8>
    /** Whether the last _decomposePacket read past the end of the copied
        buffer (undefined behaviour in the C++ code); the fields are then
        not the message's. */
    var readPastEnd: bool

    function Msg(): AddNodeMsg
      reads this
    {
      AddNodeMsg(name, nodeId, nodeType)
    }

    /** AddNode(name, nodeId, nodeType). */
    constructor (name: seq<uint8>, nodeId: uint32, nodeType: uint8)
      ensures Msg() == AddNodeMsg(name, nodeId, nodeType)
      ensures size == AddNodeSize(|name|)
      ensures fresh(pointer) && pointer[..] == EncodeAddNode(Msg())
    {
      this.name := name;
      this.nodeId := nodeId;
      this.nodeType := nodeType;
      size := AddNodeSize(|name|);
      pointer := new uint8[AddNodeSize(|name|)];
      new;
      ComposePacket();
    }

    /** AddNode(pointer, size). */
    constructor FromBuffer(buf: seq<uint8>)
      ensures readPastEnd <==> DecodeAddNode(buf).None?
      ensures !readPastEnd ==> Msg() == DecodeAddNode(buf).value
      ensures size == |buf| && fresh(pointer) && pointer[..] == buf
    {
      size := |buf|;
      var copy := CopyOf(buf);
      pointer := copy;
      new;
      DecomposePacket();
    }

    method ComposePacket()
      requires pointer.Length == AddNodeSize(|name|)
      modifies pointer
      ensures pointer[..] == EncodeAddNode(Msg())
    {
      var at := Memcpy(pointer, 0, LE32(ToUint32(|name|)));
      at := Memcpy(pointer, at, name);
      at := Memcpy(pointer, at, LE32(nodeId));
      at := Memcpy(pointer, at, [nodeType]);
      assert pointer[..] == pointer[..at];
    }

    method DecomposePacket()
      modifies this`name, this`nodeId, this`nodeType, this`readPastEnd
      ensures readPastEnd <==> DecodeAddNode(pointer[..]).None?
      ensures !readPastEnd ==> Msg() == DecodeAddNode(pointer[..]).value
      ensures readPastEnd ==> Msg() == old(Msg())
    {
      if pointer.Length < 4 || pointer.Length < AddNodeSize(ReadLE32(pointer[..], 0)) {
        readPastEnd := true;
        return;
      }
      readPastEnd := false;
      var b := pointer[..];
      var n: int := ReadLE32(b, 0);
      name := CString(pointer[4..4 + n]);
      nodeId := ReadLE32(b, 4 + n);
      nodeType := pointer[8 + n];
    }
  }
}
