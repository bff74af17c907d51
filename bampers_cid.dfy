// BAMPERS' CIdAnalyser (lib/bampers/cidanalyser.cc): reads a monitoring
// scope path back into the MOLY primitive it carries and the node or link
// fields encoded in its levels. Where std::string::substr would throw
// std::out_of_range, the model reports `threw`.

module BampersCid {
  import opened Wrappers
  import opened Bytes
  import opened Text
  import opened MolyEnum
  import opened BampersNamespace

  /** The analyser's fields besides the identifier it reads. */
  datatype CidFields = CidFields(
    linkId: string, linkType: uint8, destinationNodeId: uint32,
    state: uint8, nodeType: uint8, nodeId: uint32)

  /** atoi of the 16 characters at pos (fewer at the end of the string). */
  function LevelAt(id: string, pos: nat): (r: int)
    requires pos <= |id|
    ensures pos + ID_LEN <= |id| ==> r == Atoi(id[pos..pos + ID_LEN])
  {
    Atoi(Substr(id, pos, ID_LEN).value)
  }

  /** _scopeTypeLevel1: the second level, as a uint8_t. */
  function ScopeTypeLevel1(id: string): uint8
    requires ID_LEN <= |id|
  {
    ToUint8(LevelAt(id, ID_LEN))
  }

  /** _informationItem: the last level, as a uint16_t. */
  function InformationItem(id: string): uint16
    requires ID_LEN <= |id|
  {
    ToUint16(Atoi(id[|id| - ID_LEN..]))
  }

  /** linksScope / nodesScope (statisticsScope is nodesScope again); the
      level is compared as an int. `None` where substr throws. */
  function LinksScope(id: string): (r: Option<bool>)
    ensures r.None? <==> |id| < ID_LEN
  {
    if |id| < ID_LEN then None else Some(LevelAt(id, ID_LEN) == TOPOLOGY_LINKS)
  }

  function NodesScope(id: string): (r: Option<bool>)
    ensures r.None? <==> |id| < ID_LEN
    ensures r.Some? && r.value ==> LinksScope(id) == Some(false)
  {
    if |id| < ID_LEN then None else Some(LevelAt(id, ID_LEN) == TOPOLOGY_NODES)
  }

  /** The constructor reads the node type from the third level when there
      are at least three. */
  function InitialFields(id: string): (f: CidFields)
    ensures f.linkId == "" && f.linkType == LINK_TYPE_UNKNOWN && f.destinationNodeId == 0
    ensures f.state == STATE_UNKNOWN && f.nodeId == 0
    ensures |id| < 3 * ID_LEN ==> f.nodeType == 0
  {
    CidFields("", LINK_TYPE_UNKNOWN, 0, STATE_UNKNOWN,
      if |id| >= 3 * ID_LEN then ToUint8(LevelAt(id, 2 * ID_LEN)) else 0, 0)
  }

  /** The MOLY primitive that an information item announces. */
  function PrimitiveOf(ii: uint16): (p: uint8)
    ensures p == PRIMITIVE_TYPE_ADD_LINK <==> ii == II_SOURCE_NODE_ID
    ensures p == PRIMITIVE_TYPE_ADD_NODE <==> ii == II_NAME
    ensures p == PRIMITIVE_TYPE_CMC_GROUP_SIZE <==> ii == II_CMC_GROUP_SIZE
    ensures p == PRIMITIVE_TYPE_HTTP_REQUESTS_PER_FQDN <==> ii == II_HTTP_REQUESTS_PER_FQDN
    ensures p == PRIMITIVE_TYPE_NETWORK_LATENCY_PER_FQDN <==> ii == II_NETWORK_LATENCY_PER_FQDN
    ensures p !in {PRIMITIVE_TYPE_ADD_NODE_TYPE, PRIMITIVE_TYPE_LINK_STATE, PRIMITIVE_TYPE_NODE_STATE}
  {
    if ii == II_HTTP_REQUESTS_PER_FQDN then PRIMITIVE_TYPE_HTTP_REQUESTS_PER_FQDN
    else if ii == II_NAME then PRIMITIVE_TYPE_ADD_NODE
    else if ii == II_SOURCE_NODE_ID then PRIMITIVE_TYPE_ADD_LINK
    else if ii == II_CMC_GROUP_SIZE then PRIMITIVE_TYPE_CMC_GROUP_SIZE
    else if ii == II_NETWORK_LATENCY_PER_FQDN then PRIMITIVE_TYPE_NETWORK_LATENCY_PER_FQDN
    else PRIMITIVE_TYPE_UNKNOWN
  }

  /** The first switch of primitive(): a node scope fills in the node type
      and id, a link scope the link id (its zero fill stripped), the
      destination and the link type; the fields are written one by one, so
      a throw leaves the ones before it written. */
  function ScopeStep(f: CidFields, id: string): (r: (CidFields, bool))
    requires ID_LEN <= |id|
    ensures r.0.state == f.state
  {
    var level1 := ScopeTypeLevel1(id);
    if level1 == TOPOLOGY_NODES as uint8 then NodeScopeStep(f, id)
    else if level1 == TOPOLOGY_LINKS as uint8 then LinkScopeStep(f, id)
    else (f, false)
  }

  function NodeScopeStep(f: CidFields, id: string): (r: (CidFields, bool))
    ensures r.0.state == f.state
  {
    if |id| < 2 * ID_LEN then (f, true)
    else
      var f1 := f.(nodeType := ToUint8(LevelAt(id, 2 * ID_LEN)));
      if |id| < 3 * ID_LEN then (f1, true)
      else (f1.(nodeId := ToUint32(LevelAt(id, 3 * ID_LEN))), false)
  }

  function LinkScopeStep(f: CidFields, id: string): (r: (CidFields, bool))
    ensures r.0.state == f.state
  {
    if |id| < 2 * ID_LEN then (f, true)
    else
      var f1 := f.(linkId := StripLeadingZeros(Substr(id, 2 * ID_LEN, ID_LEN).value));
      if |id| < 3 * ID_LEN then (f1, true)
      else
        var f2 := f1.(destinationNodeId := ToUint32(LevelAt(id, 3 * ID_LEN)));
        if |id| < 4 * ID_LEN then (f2, true)
        else (f2.(linkType := ToUint8(LevelAt(id, 4 * ID_LEN))), false)
  }

  /** primitive(): the scope step, then the information item decides the
      primitive; only a source node id marks the link as up. */
  function PrimitiveSpec(f: CidFields, id: string): (r: (CidFields, bool, uint8))
    ensures |id| < ID_LEN ==> r == (f, true, PRIMITIVE_TYPE_UNKNOWN)
    ensures !r.1 ==> r.2 == PrimitiveOf(InformationItem(id))
    ensures !r.1 ==> (r.0.state == STATE_UP || r.0.state == f.state)
  {
    if |id| < ID_LEN then (f, true, PRIMITIVE_TYPE_UNKNOWN)
    else
      var (f1, threw) := ScopeStep(f, id);
      if threw then (f1, true, PRIMITIVE_TYPE_UNKNOWN)
      else
        var ii := InformationItem(id);
        (if ii == II_SOURCE_NODE_ID then f1.(state := STATE_UP) else f1, false, PrimitiveOf(ii))
  }

  lemma Level1Of(p: string, level1: int)
    requires |p| >= 2 * ID_LEN && Atoi(p[16..32]) == level1 && 0 <= level1 < 0x100
    ensures ScopeTypeLevel1(p) == level1
  {
  }

  lemma LastLevelOf(p: string, k: nat, ii: uint16)
    requires |p| == (k + 1) * ID_LEN && Atoi(p[k * ID_LEN..(k + 1) * ID_LEN]) == ii
    ensures InformationItem(p) == ii
  {
    assert p[|p| - ID_LEN..] == p[k * ID_LEN..(k + 1) * ID_LEN];
  }

  lemma LinkLevelsOf(f: CidFields, p: string, destination: uint32, linkType: uint8)
    requires |p| == 6 * ID_LEN
    requires ToUint32(Atoi(p[48..64])) == destination && Atoi(p[64..80]) == linkType
    ensures LinkScopeStep(f, p)
      == (f.(linkId := StripLeadingZeros(p[32..48]), destinationNodeId := destination, linkType := linkType), false)
  {
    assert Substr(p, 2 * ID_LEN, ID_LEN).value == p[32..48];
    assert LevelAt(p, 3 * ID_LEN) == Atoi(p[48..64]);
    assert LevelAt(p, 4 * ID_LEN) == Atoi(p[64..80]);
  }

  lemma NodeLevelsOf(f: CidFields, p: string, nodeType: uint8, nodeId: uint32)
    requires |p| == 5 * ID_LEN
    requires Atoi(p[32..48]) == nodeType && Atoi(p[48..64]) == nodeId
    ensures NodeScopeStep(f, p) == (f.(nodeType := nodeType, nodeId := nodeId), false)
  {
    assert LevelAt(p, 2 * ID_LEN) == Atoi(p[32..48]);
    assert LevelAt(p, 3 * ID_LEN) == Atoi(p[48..64]);
  }

  /** primitive() on a path of six whole levels whose second level is
      TOPOLOGY_LINKS. */
  lemma ReadLinkLevels(f: CidFields, p: string, destination: uint32, linkType: uint8, ii: uint16)
    requires |p| == 6 * ID_LEN && Atoi(p[16..32]) == TOPOLOGY_LINKS
    requires ToUint32(Atoi(p[48..64])) == destination && Atoi(p[64..80]) == linkType && Atoi(p[80..96]) == ii
    ensures var r := PrimitiveSpec(f, p);
      r == (f.(linkId := StripLeadingZeros(p[32..48]), destinationNodeId := destination, linkType := linkType,
               state := if ii == II_SOURCE_NODE_ID then STATE_UP else f.state), false, PrimitiveOf(ii))
  {
    Level1Of(p, TOPOLOGY_LINKS);
    LinkLevelsOf(f, p, destination, linkType);
    LastLevelOf(p, 5, ii);
  }

  /** primitive() on a path of five whole levels whose second level is
      TOPOLOGY_NODES. */
  lemma ReadNodeLevels(f: CidFields, p: string, nodeType: uint8, nodeId: uint32, ii: uint16)
    requires |p| == 5 * ID_LEN && Atoi(p[16..32]) == TOPOLOGY_NODES
    requires Atoi(p[32..48]) == nodeType && Atoi(p[48..64]) == nodeId && Atoi(p[64..80]) == ii
    ensures var r := PrimitiveSpec(f, p);
      r == (f.(nodeType := nodeType, nodeId := nodeId,
               state := if ii == II_SOURCE_NODE_ID then STATE_UP else f.state), false, PrimitiveOf(ii))
  {
    Level1Of(p, TOPOLOGY_NODES);
    NodeLevelsOf(f, p, nodeType, nodeId);
    LastLevelOf(p, 4, ii);
  }

  /** atoi of one level of a path. */
  lemma AtoiLevel(p: string, i: nat, x: int)
    requires i + ID_LEN <= |p| && p[i..i + ID_LEN] == Field(x) && -0x8000_0000 <= x < 0x8000_0000
    ensures Atoi(p[i..i + ID_LEN]) == if x < 0 then 0 else x
  {
    if x < 0 {
      FieldNegative(x);
    } else {
      FieldValue(x);
    }
  }

  /** The zero fill of a level stripped off. */
  lemma StripLevel(p: string, i: nat, n: nat)
    requires i + ID_LEN <= |p| && p[i..i + ID_LEN] == Field(n)
    ensures StripLeadingZeros(p[i..i + ID_LEN]) == if n == 0 then "" else Decimal(n)
  {
    assert IntToString(n) == Decimal(n);
    StripPaddedDecimal(n, ID_LEN);
  }

  /** The levels of a link scope path, as atoi reads them. */
  lemma LinkPathLevelValues(root: int, linkId: uint32, destination: uint32, linkType: uint8, ii: uint16)
    requires 0 <= root < 0x8000_0000
    ensures var p := LinkScopePath(root, linkId, destination, linkType, ii);
      |p| == 6 * ID_LEN && Atoi(p[16..32]) == TOPOLOGY_LINKS
      && StripLeadingZeros(p[32..48]) == (if linkId == 0 then "" else Decimal(linkId))
      && Atoi(p[48..64]) == (if destination < 0x8000_0000 then destination else 0)
      && Atoi(p[64..80]) == linkType && Atoi(p[80..96]) == ii
  {
    var p := LinkScopePath(root, linkId, destination, linkType, ii);
    LinkScopePathLevels(root, linkId, destination, linkType, ii);
    AtoiLevel(p, 16, TOPOLOGY_LINKS);
    ToInt32OfUint32(destination);
    AtoiLevel(p, 48, ToInt32(destination));
    AtoiLevel(p, 64, linkType);
    AtoiLevel(p, 80, ii);
    StripLevel(p, 32, linkId);
  }

  lemma NodePathLevelValues(root: int, nodeType: uint8, nodeId: uint32, ii: uint16)
    requires 0 <= root < 0x8000_0000 && nodeId < 0x8000_0000
    ensures var p := NodeScopePath(root, nodeType, nodeId, ii);
      |p| == 5 * ID_LEN && Atoi(p[16..32]) == TOPOLOGY_NODES
      && Atoi(p[32..48]) == nodeType && Atoi(p[48..64]) == nodeId && Atoi(p[64..80]) == ii
  {
    var p := NodeScopePath(root, nodeType, nodeId, ii);
    NodeScopePathLevels(root, nodeType, nodeId, ii);
    AtoiLevel(p, 16, TOPOLOGY_NODES);
    AtoiLevel(p, 32, nodeType);
    ToInt32OfUint32(nodeId);
    AtoiLevel(p, 48, nodeId);
    AtoiLevel(p, 64, ii);
  }

  /** A link scope path is read back as the link it was built from: the
      link id as its decimal text ("" for zero), destination, link type, and
      the primitive of its information item. */
  lemma AnalyseLinkPath(f: CidFields, root: int, linkId: uint32, destination: uint32, linkType: uint8, ii: uint16)
    requires 0 <= root < 0x8000_0000 && destination < 0x8000_0000
    ensures PrimitiveSpec(f, LinkScopePath(root, linkId, destination, linkType, ii))
      == (f.(linkId := if linkId == 0 then "" else Decimal(linkId), destinationNodeId := destination,
             linkType := linkType, state := if ii == II_SOURCE_NODE_ID then STATE_UP else f.state),
          false, PrimitiveOf(ii))
  {
    LinkPathLevelValues(root, linkId, destination, linkType, ii);
    ReadLinkLevels(f, LinkScopePath(root, linkId, destination, linkType, ii), destination, linkType, ii);
  }

  /** The same for a node scope path: node type and node id. */
  lemma AnalyseNodePath(f: CidFields, root: int, nodeType: uint8, nodeId: uint32, ii: uint16)
    requires 0 <= root < 0x8000_0000 && nodeId < 0x8000_0000
    ensures PrimitiveSpec(f, NodeScopePath(root, nodeType, nodeId, ii))
      == (f.(nodeType := nodeType, nodeId := nodeId,
             state := if ii == II_SOURCE_NODE_ID then STATE_UP else f.state), false, PrimitiveOf(ii))
  {
    NodePathLevelValues(root, nodeType, nodeId, ii);
    ReadNodeLevels(f, NodeScopePath(root, nodeType, nodeId, ii), nodeType, nodeId, ii);
  }

  /** The scope predicates tell the two kinds of path apart, and the
      constructor already sees the node type of a node path. */
  lemma ScopesOfPaths(root: int, nodeType: uint8, nodeId: uint32, linkId: uint32, destination: uint32,
                      linkType: uint8, ii: uint16)
    requires 0 <= root < 0x8000_0000
    ensures NodesScope(NodeScopePath(root, nodeType, nodeId, ii)) == Some(true)
    ensures LinksScope(LinkScopePath(root, linkId, destination, linkType, ii)) == Some(true)
    ensures InitialFields(NodeScopePath(root, nodeType, nodeId, ii)).nodeType == nodeType
  {
    var n := NodeScopePath(root, nodeType, nodeId, ii);
    var l := LinkScopePath(root, linkId, destination, linkType, ii);
    NodeScopePathLevels(root, nodeType, nodeId, ii);
    LinkScopePathLevels(root, linkId, destination, linkType, ii);
    FieldValue(TOPOLOGY_NODES);
    FieldValue(TOPOLOGY_LINKS);
    FieldValue(nodeType);
    assert LevelAt(n, ID_LEN) == TOPOLOGY_NODES;
    assert LevelAt(l, ID_LEN) == TOPOLOGY_LINKS;
    assert LevelAt(n, 2 * ID_LEN) == nodeType;
  }

  /** A destination of 2^31 or more is written as a negative int, which
      the analyser reads back as node 0. */
  lemma AnalyseHighDestination(f: CidFields, root: int, linkId: uint32, destination: uint32, linkType: uint8, ii: uint16)
    requires 0 <= root < 0x8000_0000 && destination >= 0x8000_0000
    ensures PrimitiveSpec(f, LinkScopePath(root, linkId, destination, linkType, ii)).0.destinationNodeId == 0
  {
    LinkPathLevelValues(root, linkId, destination, linkType, ii);
    ReadLinkLevels(f, LinkScopePath(root, linkId, destination, linkType, ii), 0, linkType, ii);
  }

  class CIdAnalyser {
    const icnId: string
    var linkId: string
    var linkType: uint8
    var destinationNodeId: uint32
    var state: uint8
    var nodeType: uint8
    var nodeId: uint32

    function Fields(): CidFields
      reads this
    {
      CidFields(linkId, linkType, destinationNodeId, state, nodeType, nodeId)
    }

    constructor (icnId: string)
      ensures this.icnId == icnId && Fields() == InitialFields(icnId)
    {
      this.icnId := icnId;
      linkId := "";
      linkType := LINK_TYPE_UNKNOWN;
      destinationNodeId := 0;
      state := STATE_UNKNOWN;
      if |icnId| >= 3 * ID_LEN {
        nodeType := ToUint8(Atoi(icnId[2 * ID_LEN..3 * ID_LEN]));
      } else {
        nodeType := 0;
      }
      nodeId := 0;
    }

    /** The first switch of primitive() (needs the second level). */
    method ReadScope() returns (threw: bool)
      requires ID_LEN <= |icnId|
      modifies this
      ensures (Fields(), threw) == ScopeStep(old(Fields()), icnId)
    {
      var level1 := ScopeTypeLevel1(icnId);
      if level1 == TOPOLOGY_NODES as uint8 {
        threw := ReadNodeScope();
      } else if level1 == TOPOLOGY_LINKS as uint8 {
        threw := ReadLinkScope();
      } else {
        threw := false;
      }
    }

    method ReadNodeScope() returns (threw: bool)
      modifies this
      ensures (Fields(), threw) == NodeScopeStep(old(Fields()), icnId)
    {
      if |icnId| < 2 * ID_LEN { return true; }
      nodeType := ToUint8(LevelAt(icnId, 2 * ID_LEN));
      if |icnId| < 3 * ID_LEN { return true; }
      nodeId := ToUint32(LevelAt(icnId, 3 * ID_LEN));
      threw := false;
    }

    method ReadLinkScope() returns (threw: bool)
      modifies this
      ensures (Fields(), threw) == LinkScopeStep(old(Fields()), icnId)
    {
      if |icnId| < 2 * ID_LEN { return true; }
      var linkIdString := Substr(icnId, 2 * ID_LEN, ID_LEN).value;
      linkId := StripLeadingZeros(linkIdString);
      if |icnId| < 3 * ID_LEN { return true; }
      destinationNodeId := ToUint32(LevelAt(icnId, 3 * ID_LEN));
      if |icnId| < 4 * ID_LEN { return true; }
      linkType := ToUint8(LevelAt(icnId, 4 * ID_LEN));
      threw := false;
    }

    method Primitive() returns (threw: bool, primitive: uint8)
      modifies this
      ensures (Fields(), threw, primitive) == PrimitiveSpec(old(Fields()), icnId)
    {
      primitive := PRIMITIVE_TYPE_UNKNOWN;
      if |icnId| < ID_LEN {
        return true, primitive;
      }
      threw := ReadScope();
      if threw {
        return;
      }
      var ii := InformationItem(icnId);
      if ii == II_SOURCE_NODE_ID {
        state := STATE_UP;
      }
      primitive := PrimitiveOf(ii);
    }
  }
}
