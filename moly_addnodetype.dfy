// The ADD_NODE_TYPE monitoring primitive (lib/moly/primitives/addnodetype.cc).

module MolyAddNodeType {
  import opened Bytes
  import opened Buffers
  import opened Wrappers

  datatype AddNodeTypeMsg = AddNodeTypeMsg(name: seq<uint8>, nodeType: uint8)

  function AddNodeTypeSize(nameLength: nat): nat { 4 + nameLength + 1 }

  /** _composePacket: name length, name, node type. */
  function EncodeAddNodeType(m: AddNodeTypeMsg): (b: seq<uint8>)
    ensures |b| == AddNodeTypeSize(|m.name|)
  {
    LE32(ToUint32(|m.name|)) + m.name + [m.nodeType]
  }

  /** _decomposePacket; None where the C++ would read past the buffer. */
  function DecodeAddNodeType(b: seq<uint8>): (r: Option<AddNodeTypeMsg>)
    ensures r.Some? <==> |b| >= 4 && |b| >= AddNodeTypeSize(ReadLE32(b, 0))
  {
    if |b| < 4 then None
    else
      var n: int := ReadLE32(b, 0);
      if |b| < AddNodeTypeSize(n) then None
      else Some(AddNodeTypeMsg(CString(b[4..4 + n]), b[4 + n]))
  }

  lemma AddNodeTypeRoundTrip(m: AddNodeTypeMsg)
    requires 0 !in m.name && |m.name| < 0x1_0000_0000
    ensures DecodeAddNodeType(EncodeAddNodeType(m)) == Some(m)
  {
    var b := EncodeAddNodeType(m);
    var n := |m.name|;
    LengthPrefixed(b, m.name, [m.nodeType]);
    var nm, ty := CString(b[4..4 + n]), b[4 + n];
    assert nm == m.name && ty == m.nodeType;
    assert DecodeAddNodeType(b) == Some(AddNodeTypeMsg(nm, ty));
  }

  class AddNodeType {
    var name: seq<uint8>
    var nodeType: uint8
    var size: nat
    var pointer: array<uint8>
    /** Whether the last _decomposePacket read past the end of the copied
        buffer (undefined behaviour in the C++ code); the fields are then
        not the message's. */
    var readPastEnd: bool

    function Msg(): AddNodeTypeMsg
      reads this
    {
      AddNodeTypeMsg(name, nodeType)
    }

    /** AddNodeType(name, nodeType). */
    constructor (name: seq<uint8>, nodeType: uint8)
      ensures Msg() == AddNodeTypeMsg(name, nodeType)
      ensures size == AddNodeTypeSize(|name|)
      ensures fresh(pointer) && pointer[..] == EncodeAddNodeType(Msg())
    {
      this.name := name;
      this.nodeType := nodeType;
      size := AddNodeTypeSize(|name|);
      pointer := new uint8[AddNodeTypeSize(|name|)];
      new;
      ComposePacket();
    }

    /** AddNodeType(pointer, size). */
    constructor FromBuffer(buf: seq<uint8>)
      ensures readPastEnd <==> DecodeAddNodeType(buf).None?
      ensures !readPastEnd ==> Msg() == DecodeAddNodeType(buf).value
      ensures size == |buf| && fresh(pointer) && pointer[..] == buf
    {
      size := |buf|;
      var copy := CopyOf(buf);
      pointer := copy;
      new;
      DecomposePacket();
    }

    method ComposePacket()
      requires pointer.Length == AddNodeTypeSize(|name|)
      modifies pointer
      ensures pointer[..] == EncodeAddNodeType(Msg())
    {
      var at := Memcpy(pointer, 0, LE32(ToUint32(|name|)));
      at := Memcpy(pointer, at, name);
      at := Memcpy(pointer, at, [nodeType]);
      assert pointer[..] == pointer[..at];
    }

    method DecomposePacket()
      modifies this`name, this`nodeType, this`readPastEnd
      ensures readPastEnd <==> DecodeAddNodeType(pointer[..]).None?
      ensures !readPastEnd ==> Msg() == DecodeAddNodeType(pointer[..]).value
      ensures readPastEnd ==> Msg() == old(Msg())
    {
      if pointer.Length < 4 || pointer.Length < AddNodeTypeSize(ReadLE32(pointer[..], 0)) {
        readPastEnd := true;
        return;
      }
      readPastEnd := false;
      var b := pointer[..];
      var n: int := ReadLE32(b, 0);
      name := CString(pointer[4..4 + n]);
      nodeType := pointer[4 + n];
    }
  }
}
