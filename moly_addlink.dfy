// The ADD_LINK monitoring primitive (lib/moly/primitives/addlink.cc): the
// link's name goes on the wire with a length prefix, the textual link
// identifier only as a 31-multiplier hash.

module MolyAddLink {
  import opened Bytes
  import opened Buffers
  import opened Wrappers

  datatype AddLinkMsg = AddLinkMsg(name: seq<uint8>, linkId: uint32, source: uint32,
                                   destination: uint32, linkType: uint8)

  /** The value of a (signed) char on the x86 ABI. */
  function SignedChar(c: uint8): (v: int)
    ensures -128 <= v < 128 && (v - c) % 0x100 == 0
  {
    if c < 128 then c else c - 0x100
  }

  /** hashLinkId over the bytes it reads: h := h * 31 + c in uint32_t. */
  function HashOf(s: seq<uint8>): uint32
  {
    if s == [] then 0 else ToUint32(HashOf(s[..|s| - 1]) * 31 + SignedChar(s[|s| - 1]))
  }

  function Pow31(k: nat): nat
  {
    if k == 0 then 1 else 31 * Pow31(k - 1)
  }

  /** The polynomial the hash stands for, in exact integers:
      the sum of c_i * 31^(n-1-i). */
  function Poly(s: seq<uint8>): int
  {
    if s == [] then 0 else SignedChar(s[0]) * Pow31(|s| - 1) + Poly(s[1..])
  }

  lemma {:induction false} PolySnoc(s: seq<uint8>, c: uint8)
    ensures Poly(s + [c]) == 31 * Poly(s) + SignedChar(c)
    decreases |s|
  {
    if s == [] {
      assert s + [c] == [c];
    } else {
      assert (s + [c])[1..] == s[1..] + [c];
      PolySnoc(s[1..], c);
      assert Pow31(|s|) == 31 * Pow31(|s| - 1);
    }
  }

  /** The loop computes the polynomial modulo 2^32. */
  lemma {:induction false} HashIsPoly(s: seq<uint8>)
    ensures HashOf(s) == Poly(s) % 0x1_0000_0000
    decreases |s|
  {
    if s != [] {
      var p, c := s[..|s| - 1], s[|s| - 1];
      assert s == p + [c];
      HashIsPoly(p);
      PolySnoc(p, c);
      ModStep(Poly(p), SignedChar(c));
    }
  }

  lemma ModStep(a: int, c: int)
    ensures ((a % 0x1_0000_0000) * 31 + c) % 0x1_0000_0000 == (a * 31 + c) % 0x1_0000_0000
  {
    var m := 0x1_0000_0000;
    assert a * 31 + c == (a % m) * 31 + c + (a / m) * 31 * m;
  }

  /** sizeof the fixed fields plus the name. */
  function AddLinkSize(nameLength: nat): nat { 4 + nameLength + 4 + 4 + 4 + 1 }

  /** _composePacket: name length, name, hashed link id, source, destination
      (4 bytes each, host order) and the link type byte. */
  function EncodeAddLink(m: AddLinkMsg): (b: seq<uint8>)
    ensures |b| == AddLinkSize(|m.name|)
  {
    LE32(ToUint32(|m.name|)) + m.name + LE32(m.linkId) + LE32(m.source)
      + LE32(m.destination) + [m.linkType]
  }

  /** _decomposePacket: None where the C++ would read past the buffer. The
      name stops at its first NUL byte. */
  function DecodeAddLink(b: seq<uint8>): (r: Option<AddLinkMsg>)
    ensures r.Some? <==> |b| >= 4 && |b| >= AddLinkSize(ReadLE32(b, 0))
  {
    if |b| < 4 then None
    else
      var n: int := ReadLE32(b, 0);
      if |b| < AddLinkSize(n) then None
      else Some(AddLinkMsg(CString(b[4..4 + n]), ReadLE32(b, 4 + n), ReadLE32(b, 8 + n),
                           ReadLE32(b, 12 + n), b[16 + n]))
  }

  /** Decoding what was encoded gives back every field, provided the name
      holds no NUL byte and its length fits the 32-bit prefix. */
  lemma AddLinkRoundTrip(m: AddLinkMsg)
    requires 0 !in m.name && |m.name| < 0x1_0000_0000
    ensures DecodeAddLink(EncodeAddLink(m)) == Some(m)
  {
    var b := EncodeAddLink(m);
    var n := |m.name|;
    var t := LE32(m.linkId) + LE32(m.source) + LE32(m.destination) + [m.linkType];
    LengthPrefixed(b, m.name, t);
    AddLinkTail(m);
    ReadLE32Shift(b, 4 + n, 0);
    ReadLE32Shift(b, 4 + n, 4);
    ReadLE32Shift(b, 4 + n, 8);
    var nm, l, src, dst, ty := CString(b[4..4 + n]), ReadLE32(b, 4 + n), ReadLE32(b, 8 + n),
      ReadLE32(b, 12 + n), b[16 + n];
    assert nm == m.name;
    assert l == m.linkId && src == m.source && dst == m.destination;
    assert ty == m.linkType;
    assert DecodeAddLink(b) == Some(AddLinkMsg(nm, l, src, dst, ty));
  }

  lemma AddLinkTail(m: AddLinkMsg)
    ensures var t := LE32(m.linkId) + LE32(m.source) + LE32(m.destination) + [m.linkType];
      ReadLE32(t, 0) == m.linkId && ReadLE32(t, 4) == m.source && ReadLE32(t, 8) == m.destination
      && t[12] == m.linkType
  {
    ReadLE32Concat([], m.linkId, LE32(m.source) + LE32(m.destination) + [m.linkType]);
    ReadLE32Concat(LE32(m.linkId), m.source, LE32(m.destination) + [m.linkType]);
    ReadLE32Concat(LE32(m.linkId) + LE32(m.source), m.destination, [m.linkType]);
  }

  class AddLink {
    var name: seq<uint8>
    var linkIdText: seq<uint8>
    var linkIdHashed: uint32
    var sourceNodeId: uint32
    var destinationNodeId: uint32
    var linkType: uint8
    var size: nat
    var pointer: array<uint8>
    /** Whether the last _decomposePacket read past the end of the copied
        buffer (undefined behaviour in the C++ code); the fields are then
        not the message's. */
    var readPastEnd: bool

    /** The fields that travel on the wire; linkId() answers the hash. */
    function Msg(): AddLinkMsg
      reads this
    {
      AddLinkMsg(name, linkIdHashed, sourceNodeId, destinationNodeId, linkType)
    }

    /** AddLink(name, linkId, sourceNodeId, destinationNodeId, linkType). */
    constructor (name: seq<uint8>, linkId: seq<uint8>, sourceNodeId: uint32,
                 destinationNodeId: uint32, linkType: uint8)
      ensures Msg() == AddLinkMsg(name, HashOf(CString(linkId)), sourceNodeId, destinationNodeId, linkType)
      ensures size == AddLinkSize(|name|)
      ensures fresh(pointer) && pointer[..] == EncodeAddLink(Msg())
    {
      this.name := name;
      this.linkIdText := linkId;
      this.sourceNodeId := sourceNodeId;
      this.destinationNodeId := destinationNodeId;
      this.linkType := linkType;
      size := AddLinkSize(|name|);
      pointer := new uint8[AddLinkSize(|name|)];
      new;
      HashLinkId();
      ComposePacket();
    }

    /** AddLink(pointer, size): a private copy of the received buffer, then
        _decomposePacket. */
    constructor FromBuffer(buf: seq<uint8>)
      ensures readPastEnd <==> DecodeAddLink(buf).None?
      ensures !readPastEnd ==> Msg() == DecodeAddLink(buf).value
      ensures size == |buf| && fresh(pointer) && pointer[..] == buf
    {
      size := |buf|;
      linkIdText := [];
      var copy := CopyOf(buf);
      pointer := copy;
      new;
      DecomposePacket();
    }

    /** hashLinkId: the characters of linkId.c_str(), up to the first NUL. */
    method HashLinkId()
      modifies this`linkIdHashed
      ensures linkIdHashed == HashOf(CString(linkIdText))
    {
      linkIdHashed := 0;
      var i := 0;
      while i < |linkIdText| && linkIdText[i] != 0
        invariant 0 <= i <= |linkIdText| && 0 !in linkIdText[..i]
        invariant linkIdHashed == HashOf(linkIdText[..i])
      {
        assert linkIdText[..i + 1][..i] == linkIdText[..i];
        linkIdHashed := ToUint32(linkIdHashed * 31 + SignedChar(linkIdText[i]));
        i := i + 1;
      }
      CStringAt(linkIdText, i);
    }

    method ComposePacket()
      requires pointer.Length == AddLinkSize(|name|)
      modifies pointer
      ensures pointer[..] == EncodeAddLink(Msg())
    {
      var at := Memcpy(pointer, 0, LE32(ToUint32(|name|)));
      at := Memcpy(pointer, at, name);
      at := Memcpy(pointer, at, LE32(linkIdHashed));
      at := Memcpy(pointer, at, LE32(sourceNodeId));
      at := Memcpy(pointer, at, LE32(destinationNodeId));
      at := Memcpy(pointer, at, [linkType]);
      assert pointer[..] == pointer[..at];
    }

    method DecomposePacket()
      modifies this`name, this`linkIdHashed, this`sourceNodeId, this`destinationNodeId, this`linkType, this`readPastEnd
      ensures readPastEnd <==> DecodeAddLink(pointer[..]).None?
      ensures !readPastEnd ==> Msg() == DecodeAddLink(pointer[..]).value
      ensures readPastEnd ==> Msg() == old(Msg())
    {
      if pointer.Length < 4 || pointer.Length < AddLinkSize(ReadLE32(pointer[..], 0)) {
        readPastEnd := true;
        return;
      }
      readPastEnd := false;
      var b := pointer[..];
      var n: int := ReadLE32(b, 0);
      name := CString(pointer[4..4 + n]);
      linkIdHashed := ReadLE32(b, 4 + n);
      sourceNodeId := ReadLE32(b, 8 + n);
      destinationNodeId := ReadLE32(b, 12 + n);
      linkType := pointer[16 + n];
    }
  }
}
