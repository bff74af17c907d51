// The monitoring server's MySQL connector (apps/monitoring/server/
// mysqlconnector.cc): _send decodes a BAMPERS payload after its leading
// epoch, according to the primitive the CIdAnalyser reads off the scope
// path, and turns it into database statements. The statements are modelled
// as Query values; the two lookups ADD_NODE makes are parameters.

module MonitoringServer {
  import opened Wrappers
  import opened Bytes
  import opened Buffers
  import opened MolyEnum
  import opened BampersNamespace
  import opened BampersCid
  import opened BampersDatapoints
  import opened Text

  const ELEMENT_TYPE_GW: int := 1
  const ELEMENT_TYPE_FN: int := 2
  const ELEMENT_TYPE_NAP: int := 3
  const ELEMENT_TYPE_RV: int := 4
  const ELEMENT_TYPE_SERVER: int := 5
  const ELEMENT_TYPE_TM: int := 6
  const ELEMENT_TYPE_UE: int := 7
  const ELEMENT_TYPE_FN_NAP: int := 8
  const ELEMENT_TYPE_FN_GW: int := 9
  const ELEMENT_TYPE_FN_TM: int := 10
  const ELEMENT_TYPE_FN_RV: int := 11
  const ELEMENT_TYPE_FN_NAP_TM: int := 12
  const ELEMENT_TYPE_FN_NAP_RV: int := 13
  const ELEMENT_TYPE_FN_GW_TM: int := 14
  const ELEMENT_TYPE_FN_GW_RV: int := 15
  const ELEMENT_TYPE_FN_NAP_TM_RV: int := 16
  const ELEMENT_TYPE_FN_GW_TM_RV: int := 17
  const ELEMENT_TYPE_LNK: int := 18
  const ELEMENT_TYPE_FN_TM_RV: int := 19
  const ELEMENT_TYPE_FN_GW_NAP: int := 20

  const ATTRIBUTE_GW_HTTP_REQUESTS: int := 3
  const ATTRIBUTE_NAP_HTTP_REQUESTS: int := 13
  const ATTRIBUTE_NAP_HTTP_REQ_RES_RATIO: int := 14
  const ATTRIBUTE_LNK_STATE: int := 41
  const ATTRIBUTE_NAP_NETWORK_LATENCY: int := 44

  /** _stateStr: the name of a node state, "" for any other value. */
  function StateStr(state: uint8): (r: string)
    ensures r == "" <==> state !in {STATE_UNKNOWN, STATE_BOOTED, STATE_DOWN, STATE_UP}
    ensures r != "" ==> |r| > 6 && r[..6] == "STATE_"
  {
    if state == STATE_BOOTED then "STATE_BOOTED"
    else if state == STATE_DOWN then "STATE_DOWN"
    else if state == STATE_UP then "STATE_UP"
    else if state == STATE_UNKNOWN then "STATE_UNKNOWN"
    else ""
  }

  /** Distinct states have distinct names. */
  lemma StateStrInjective(a: uint8, b: uint8)
    requires StateStr(a) != "" && StateStr(a) == StateStr(b)
    ensures a == b
  {
  }

  // ---- Role merge ----

  /** What the switch over the stored node type decides: a new type, no
      statement at all, or an UPDATE whose type variable was never set. */
  datatype MergeOutcome = NewType(t: int) | NoUpdate | UninitialisedType

  /** The ADD_NODE switch over (stored type, reported type). */
  function RoleMerge(stored: int, reported: int): (r: MergeOutcome)
    ensures r.UninitialisedType? <==> stored < ELEMENT_TYPE_GW || stored > ELEMENT_TYPE_FN_GW_TM_RV
  {
    if stored == ELEMENT_TYPE_GW then
      if reported == ELEMENT_TYPE_FN then NewType(ELEMENT_TYPE_FN_GW) else NoUpdate
    else if stored == ELEMENT_TYPE_FN then
      if reported == ELEMENT_TYPE_NAP then NewType(ELEMENT_TYPE_FN_NAP)
      else if reported == ELEMENT_TYPE_GW then NewType(ELEMENT_TYPE_FN_GW)
      else if reported == ELEMENT_TYPE_TM then NewType(ELEMENT_TYPE_FN_TM)
      else if reported == ELEMENT_TYPE_RV then NewType(ELEMENT_TYPE_FN_RV)
      else NoUpdate
    else if stored == ELEMENT_TYPE_NAP then
      if reported == ELEMENT_TYPE_FN then NewType(ELEMENT_TYPE_FN_NAP)
      else if reported == ELEMENT_TYPE_TM then NewType(ELEMENT_TYPE_FN_NAP_TM)
      else if reported == ELEMENT_TYPE_RV then NewType(ELEMENT_TYPE_FN_NAP_RV)
      else NoUpdate
    else if stored == ELEMENT_TYPE_RV then
      if reported == ELEMENT_TYPE_FN then NewType(ELEMENT_TYPE_FN_RV) else NoUpdate
    else if stored == ELEMENT_TYPE_SERVER then NoUpdate
    else if stored == ELEMENT_TYPE_TM then
      if reported == ELEMENT_TYPE_FN then NewType(ELEMENT_TYPE_FN_TM) else NoUpdate
    else if stored == ELEMENT_TYPE_UE then NoUpdate
    else if stored == ELEMENT_TYPE_FN_NAP then
      if reported == ELEMENT_TYPE_TM then NewType(ELEMENT_TYPE_FN_NAP_TM)
      else if reported == ELEMENT_TYPE_RV then NewType(ELEMENT_TYPE_FN_NAP_RV)
      else NoUpdate
    else if stored == ELEMENT_TYPE_FN_GW then
      if reported == ELEMENT_TYPE_TM then NewType(ELEMENT_TYPE_FN_GW_TM)
      else if reported == ELEMENT_TYPE_RV then NewType(ELEMENT_TYPE_FN_GW_RV)
      else NoUpdate
    else if stored == ELEMENT_TYPE_FN_TM then
      if reported == ELEMENT_TYPE_NAP then NewType(ELEMENT_TYPE_FN_NAP_TM)
      else if reported == ELEMENT_TYPE_RV then NewType(ELEMENT_TYPE_FN_TM_RV)
      else if reported == ELEMENT_TYPE_GW then NewType(ELEMENT_TYPE_FN_GW_TM)
      else NoUpdate
    else if stored == ELEMENT_TYPE_FN_RV then
      if reported == ELEMENT_TYPE_NAP then NewType(ELEMENT_TYPE_FN_NAP_RV)
      else if reported == ELEMENT_TYPE_TM then NewType(ELEMENT_TYPE_FN_TM_RV)
      else if reported == ELEMENT_TYPE_GW then NewType(ELEMENT_TYPE_FN_GW_RV)
      else NoUpdate
    else if stored == ELEMENT_TYPE_FN_NAP_TM then
      if reported == ELEMENT_TYPE_RV then NewType(ELEMENT_TYPE_FN_NAP_TM_RV) else NoUpdate
    else if stored == ELEMENT_TYPE_FN_NAP_RV then
      if reported == ELEMENT_TYPE_TM then NewType(ELEMENT_TYPE_FN_NAP_TM_RV) else NoUpdate
    else if stored == ELEMENT_TYPE_FN_GW_TM then
      if reported == ELEMENT_TYPE_RV then NewType(ELEMENT_TYPE_FN_GW_TM_RV) else NoUpdate
    else if stored == ELEMENT_TYPE_FN_GW_RV then
      if reported == ELEMENT_TYPE_TM then NewType(ELEMENT_TYPE_FN_GW_TM_RV) else NoUpdate
    else if stored == ELEMENT_TYPE_FN_NAP_TM_RV || stored == ELEMENT_TYPE_FN_GW_TM_RV then NoUpdate
    else UninitialisedType
  }

  datatype Role = FN | GW | NAP | RV | TM

  /** The roles an element type stands for (none for SERVER, UE and
      unknown values). */
  function RolesOf(t: int): (r: set<Role>)
    ensures r == {} <==> t !in {ELEMENT_TYPE_GW, ELEMENT_TYPE_FN, ELEMENT_TYPE_NAP, ELEMENT_TYPE_RV, ELEMENT_TYPE_TM} && !(ELEMENT_TYPE_FN_NAP <= t <= ELEMENT_TYPE_FN_GW_TM_RV) && t != ELEMENT_TYPE_FN_TM_RV && t != ELEMENT_TYPE_FN_GW_NAP
    ensures |r| > 1 ==> FN in r
  {
    if t == ELEMENT_TYPE_GW then {GW}
    else if t == ELEMENT_TYPE_FN then {FN}
    else if t == ELEMENT_TYPE_NAP then {NAP}
    else if t == ELEMENT_TYPE_RV then {RV}
    else if t == ELEMENT_TYPE_TM then {TM}
    else if t == ELEMENT_TYPE_FN_NAP then {FN, NAP}
    else if t == ELEMENT_TYPE_FN_GW then {FN, GW}
    else if t == ELEMENT_TYPE_FN_TM then {FN, TM}
    else if t == ELEMENT_TYPE_FN_RV then {FN, RV}
    else if t == ELEMENT_TYPE_FN_NAP_TM then {FN, NAP, TM}
    else if t == ELEMENT_TYPE_FN_NAP_RV then {FN, NAP, RV}
    else if t == ELEMENT_TYPE_FN_GW_TM then {FN, GW, TM}
    else if t == ELEMENT_TYPE_FN_GW_RV then {FN, GW, RV}
    else if t == ELEMENT_TYPE_FN_NAP_TM_RV then {FN, NAP, TM, RV}
    else if t == ELEMENT_TYPE_FN_GW_TM_RV then {FN, GW, TM, RV}
    else if t == ELEMENT_TYPE_FN_TM_RV then {FN, TM, RV}
    else if t == ELEMENT_TYPE_FN_GW_NAP then {FN, GW, NAP}
    else {}
  }

  /** A merge adds the reported role, which the node did not have yet, to
      the stored ones; every combined type includes the FN role (NAP+TM and
      NAP+RV are taken to be FN+NAP+TM and FN+NAP+RV). */
  lemma MergeAddsRole(stored: int, reported: int)
    requires RoleMerge(stored, reported).NewType?
    ensures |RolesOf(reported)| == 1 && RolesOf(reported) !! RolesOf(stored)
    ensures RolesOf(RoleMerge(stored, reported).t) == RolesOf(stored) + RolesOf(reported) + {FN}
  {
    if stored <= ELEMENT_TYPE_UE {
      MergeSingleAddsRole(stored, reported);
    } else {
      MergeCombinedAddsRole(stored, reported);
    }
  }

  lemma MergeSingleAddsRole(stored: int, reported: int)
    requires RoleMerge(stored, reported).NewType? && stored <= ELEMENT_TYPE_UE
    ensures |RolesOf(reported)| == 1 && RolesOf(reported) !! RolesOf(stored)
    ensures RolesOf(RoleMerge(stored, reported).t) == RolesOf(stored) + RolesOf(reported) + {FN}
  {
  }

  lemma MergeCombinedAddsRole(stored: int, reported: int)
    requires RoleMerge(stored, reported).NewType? && stored > ELEMENT_TYPE_UE
    ensures |RolesOf(reported)| == 1 && RolesOf(reported) !! RolesOf(stored)
    ensures RolesOf(RoleMerge(stored, reported).t) == RolesOf(stored) + RolesOf(reported) + {FN}
  {
  }

  /** Merged types are told apart by their roles. */
  lemma RolesDetermineMergedType(a: int, b: int)
    requires RolesOf(a) == RolesOf(b) && RolesOf(a) != {}
    ensures a == b
  {
    assert GW in RolesOf(a) <==> GW in RolesOf(b);
    assert NAP in RolesOf(a) <==> NAP in RolesOf(b);
    assert RV in RolesOf(a) <==> RV in RolesOf(b);
    assert TM in RolesOf(a) <==> TM in RolesOf(b);
    assert FN in RolesOf(a) <==> FN in RolesOf(b);
  }

  /** The type a node ends up with depends only on the roles reported, not
      on their order: FN_NAP + TM and FN_TM + NAP both give FN_NAP_TM, and
      so on for every pair of merges that reach the same set of roles. */
  lemma MergeOrderIndependent(s1: int, r1: int, s2: int, r2: int)
    requires RoleMerge(s1, r1).NewType? && RoleMerge(s2, r2).NewType?
    requires RolesOf(s1) + RolesOf(r1) + {FN} == RolesOf(s2) + RolesOf(r2) + {FN}
    ensures RoleMerge(s1, r1).t == RoleMerge(s2, r2).t
  {
    MergeAddsRole(s1, r1);
    MergeAddsRole(s2, r2);
    RolesDetermineMergedType(RoleMerge(s1, r1).t, RoleMerge(s2, r2).t);
  }

  /** Nodes that already have all four roles, and UE or SERVER rows, are
      never updated. */
  lemma FullNodesNotUpdated(reported: int)
    ensures RoleMerge(ELEMENT_TYPE_FN_NAP_TM_RV, reported) == NoUpdate
    ensures RoleMerge(ELEMENT_TYPE_FN_GW_TM_RV, reported) == NoUpdate
    ensures RoleMerge(ELEMENT_TYPE_UE, reported) == NoUpdate
    ensures RoleMerge(ELEMENT_TYPE_SERVER, reported) == NoUpdate
  {
  }

  /** The stored name gets the reported one appended, after ", ", only
      when they differ. */
  function MergedName(stored: seq<uint8>, reported: seq<uint8>): (r: seq<uint8>)
    ensures r == stored <==> reported == stored
    ensures |r| >= |stored| && r[..|stored|] == stored
    ensures r != stored ==> r[|stored|..] == [44, 32] + reported
  {
    if stored == reported then stored else stored + [44, 32] + reported
  }

  // ---- _send ----

  datatype NodeRow = NodeRow(name: seq<uint8>, nodeType: int)

  datatype Query =
    | InsertLink(linkId: string, source: int, destination: int, linkType: int)
    | InsertLinkValue(epoch: int, linkId': string, destination': int, value: string, attribute: int)
    | InsertNode(nodeId: uint32, name: seq<uint8>, nodeType: int)
    | UpdateNode(newType: Option<int>, name': seq<uint8>, nodeId': uint32)
    | InsertNodeValue(timestamp: uint32, nodeId'': int, number: int, attribute': int)

  /** The 32-bit little-endian value at i, where the buffer has it. */
  function Read32(data: seq<uint8>, i: nat): (r: Option<uint32>)
    ensures r.Some? <==> i + 4 <= |data|
    ensures r.Some? ==> r.value == ReadLE32(data, i)
  {
    if i + 4 <= |data| then Some(ReadLE32(data, i)) else None
  }

  function Read16(data: seq<uint8>, i: nat): (r: Option<uint16>)
    ensures r.Some? <==> i + 2 <= |data|
    ensures r.Some? ==> r.value == ReadLE16(data, i)
  {
    if i + 2 <= |data| then Some(ReadLE16(data, i)) else None
  }

  /** The HTTP_REQUESTS_PER_FQDN body as written: the running offset is a
      uint8_t, so the count is read at (8 + length) mod 256. */
  function DecodeHttpRequestsAsWritten(data: seq<uint8>): (r: Option<uint32>)
    ensures r.Some? ==> |data| >= 8 && 8 + ReadLE32(data, 4) <= |data|
    ensures r.Some? ==> (8 + ReadLE32(data, 4)) % 256 + 4 <= |data| && r.value == ReadLE32(data, (8 + ReadLE32(data, 4)) % 256)
    ensures |data| >= 8 && 12 + ReadLE32(data, 4) <= |data| && 8 + ReadLE32(data, 4) < 256 ==> r == DecodeHttpRequests(data)
  {
    match Read32(data, 4)
    case None => None
    case Some(n) =>
      if 8 + n > |data| then None else Read32(data, ToUint8(8 + n))
  }

  /** The same with the count read right after the FQDN. */
  function DecodeHttpRequests(data: seq<uint8>): (r: Option<uint32>)
    ensures r.Some? ==> |data| >= 8 && 12 + ReadLE32(data, 4) <= |data| && r.value == ReadLE32(data, 8 + ReadLE32(data, 4))
  {
    match Read32(data, 4)
    case None => None
    case Some(n) =>
      if 8 + n > |data| then None else Read32(data, 8 + n)
  }

  /** The intended decoder reads back what the intended builder wrote. */
  lemma HttpRequestsRoundTrip(epoch: uint32, fqdn: seq<uint8>, requests: uint32)
    requires |fqdn| < 0x1_0000_0000
    ensures DecodeHttpRequests(HttpRequestsPayload(epoch, fqdn, requests)) == Some(requests)
  {
  }

  /** Builder and decoder as written agree with each other on the count for
      every length, because both wrap the same way, but from 248 bytes on
      the count has been written over the epoch: for a 248-byte FQDN the
      server's timestamp is the count. */
  lemma HttpRequestsAsWrittenEpoch(epoch: uint32, fqdn: seq<uint8>, requests: uint32, junk: seq<uint8>)
    requires |fqdn| == 248 && |junk| == 4
    ensures var p := HttpRequestsPayloadAsWritten(epoch, fqdn, requests, junk);
      DecodeHttpRequestsAsWritten(p) == Some(requests) && ReadLE32(p, 0) == requests
  {
    var p := HttpRequestsPayloadAsWritten(epoch, fqdn, requests, junk);
    HttpRequestsLongOverwritesEpoch(epoch, fqdn, requests, junk);
    ReadLE32At(p, 0, requests);
    var buf := LE32(epoch) + LE32(ToUint32(|fqdn|)) + fqdn + junk;
    ReadLE32Concat(LE32(epoch), 248, fqdn + junk);
    assert buf == LE32(epoch) + LE32(248) + (fqdn + junk);
    assert p[4..8] == buf[4..8];
    assert ReadLE32(p, 4) == ReadLE32(buf, 4);
  }

  /** The HTTP attribute follows the reporting node's type. */
  function HttpAttribute(nodeType: uint8): (a: int)
    ensures a != 0 <==> nodeType == NODE_TYPE_NAP || nodeType == NODE_TYPE_GW
  {
    if nodeType == NODE_TYPE_NAP then ATTRIBUTE_NAP_HTTP_REQUESTS
    else if nodeType == NODE_TYPE_GW then ATTRIBUTE_GW_HTTP_REQUESTS
    else 0
  }

  /** ADD_NODE: UE and SERVER nodes are looked up by name (`byName` is the
      name in the first matching row) and inserted unless already there;
      other nodes are looked up by node id (`byId`), merged by RoleMerge and
      MergedName, or inserted when absent. */
  function AddNodeQueries(f: CidFields, name: seq<uint8>, byName: Option<seq<uint8>>, byId: Option<NodeRow>): (r: seq<Query>)
    ensures |r| <= 1
    ensures (f.nodeType == ELEMENT_TYPE_UE || f.nodeType == ELEMENT_TYPE_SERVER) ==>
      (r == [] <==> byName == Some(name))
    ensures !(f.nodeType == ELEMENT_TYPE_UE || f.nodeType == ELEMENT_TYPE_SERVER) && byId.None? ==>
      r == [InsertNode(f.nodeId, name, f.nodeType)]
    ensures !(f.nodeType == ELEMENT_TYPE_UE || f.nodeType == ELEMENT_TYPE_SERVER) && byId.Some? ==>
      (r == [] <==> RoleMerge(byId.value.nodeType, f.nodeType) == NoUpdate) &&
      (r != [] ==> r[0].UpdateNode? && r[0].name' == MergedName(byId.value.name, name))
  {
    var insert := InsertNode(f.nodeId, name, f.nodeType);
    if f.nodeType == ELEMENT_TYPE_UE || f.nodeType == ELEMENT_TYPE_SERVER then
      if byName == Some(name) then [] else [insert]
    else
      match byId
      case None => [insert]
      case Some(row) =>
        match RoleMerge(row.nodeType, f.nodeType)
        case NoUpdate => []
        case NewType(t) => [UpdateNode(Some(t), MergedName(row.name, name), f.nodeId)]
        case UninitialisedType => [UpdateNode(None, MergedName(row.name, name), f.nodeId)]
  }

  /** The ADD_LINK case of _send: the source node id at offset 4. */
  function AddLinkSend(f: CidFields, data: seq<uint8>): Option<seq<Query>>
    requires |data| >= 4
  {
    match Read32(data, 4)
    case None => None
    case Some(source) =>
      Some([InsertLink(f.linkId, ToInt32(source), ToInt32(f.destinationNodeId), f.linkType),
            InsertLinkValue(ToInt32(ReadLE32(data, 0)), f.linkId, ToInt32(f.destinationNodeId), StateStr(STATE_UP), ATTRIBUTE_LNK_STATE)])
  }

  /** The ADD_NODE case of _send: the name length at offset 4, then the
      name, read up to its first NUL. */
  function AddNodeSend(f: CidFields, data: seq<uint8>, byName: Option<seq<uint8>>, byId: Option<NodeRow>): Option<seq<Query>>
  {
    match Read32(data, 4)
    case None => None
    case Some(n) =>
      if 8 + n > |data| then None
      else Some(AddNodeQueries(f, CString(data[8..8 + n]), byName, byId))
  }

  /** The CMC group size case of _send: the size at offset 4. */
  function CmcGroupSizeSend(f: CidFields, data: seq<uint8>): Option<seq<Query>>
    requires |data| >= 4
  {
    match Read32(data, 4)
    case None => None
    case Some(size) =>
      Some([InsertNodeValue(ReadLE32(data, 0), ToInt32(f.nodeId), ToInt32(size), ATTRIBUTE_NAP_HTTP_REQ_RES_RATIO)])
  }

  /** The HTTP requests per FQDN case of _send. */
  function HttpRequestsSend(f: CidFields, data: seq<uint8>): Option<seq<Query>>
    requires |data| >= 4
  {
    match DecodeHttpRequests(data)
    case None => None
    case Some(requests) =>
      Some([InsertNodeValue(ReadLE32(data, 0), ToInt32(f.nodeId), requests, HttpAttribute(f.nodeType))])
  }

  /** The network latency per FQDN case of _send: the latency at offset 8. */
  function NetworkLatencySend(f: CidFields, data: seq<uint8>): Option<seq<Query>>
    requires |data| >= 4
  {
    match Read16(data, 8)
    case None => None
    case Some(latency) =>
      Some([InsertNodeValue(ReadLE32(data, 0), ToInt32(f.nodeId), latency, ATTRIBUTE_NAP_NETWORK_LATENCY)])
  }

  /** The statements _send issues for one message, or None where it reads
      past the message or the analyser throws. */
  function Send(icnId: string, data: seq<uint8>, byName: Option<seq<uint8>>, byId: Option<NodeRow>): (r: Option<seq<Query>>)
    ensures r.Some? ==> |data| >= 4
  {
    var analysed := PrimitiveSpec(InitialFields(icnId), icnId);
    var f := analysed.0;
    var primitive := analysed.2;
    if |data| < 4 || analysed.1 then None
    else if primitive == PRIMITIVE_TYPE_ADD_LINK then AddLinkSend(f, data)
    else if primitive == PRIMITIVE_TYPE_ADD_NODE then AddNodeSend(f, data, byName, byId)
    else if primitive == PRIMITIVE_TYPE_CMC_GROUP_SIZE then CmcGroupSizeSend(f, data)
    else if primitive == PRIMITIVE_TYPE_HTTP_REQUESTS_PER_FQDN then HttpRequestsSend(f, data)
    else if primitive == PRIMITIVE_TYPE_NETWORK_LATENCY_PER_FQDN then NetworkLatencySend(f, data)
    else Some([])
  }

  /** A link announced by Link::add is stored with its source, destination,
      type and the decimal text of its id, and recorded as up. */
  lemma ServerStoresAddedLink(root: int, epoch: uint32, linkId: uint32, source: uint32, destination: uint32,
                              linkType: uint8, byName: Option<seq<uint8>>, byId: Option<NodeRow>)
    requires 0 <= root < 0x8000_0000 && destination < 0x8000_0000
    ensures var text := if linkId == 0 then "" else Decimal(linkId);
      Send(LinkScopePath(root, linkId, destination, linkType, II_SOURCE_NODE_ID), EpochValuePayload(epoch, source), byName, byId)
      == Some([InsertLink(text, ToInt32(source), destination, linkType),
               InsertLinkValue(ToInt32(epoch), text, destination, "STATE_UP", ATTRIBUTE_LNK_STATE)])
  {
    var p := LinkScopePath(root, linkId, destination, linkType, II_SOURCE_NODE_ID);
    AnalyseLinkPath(InitialFields(p), root, linkId, destination, linkType, II_SOURCE_NODE_ID);
    ToInt32OfUint32(destination);
    var d := EpochValuePayload(epoch, source);
    assert Read32(d, 4) == Some(source);
  }

  /** A NAP's CMC group size reaches the database with its epoch and value
      under the NAP's node id. */
  lemma ServerStoresCmcGroupSize(root: int, nodeId: uint32, epoch: uint32, groupSize: uint32,
                                 byName: Option<seq<uint8>>, byId: Option<NodeRow>)
    requires 0 <= root < 0x8000_0000 && nodeId < 0x8000_0000
    ensures Send(NodeScopePath(root, NODE_TYPE_NAP, nodeId, II_CMC_GROUP_SIZE), EpochValuePayload(epoch, groupSize), byName, byId)
      == Some([InsertNodeValue(epoch, nodeId, ToInt32(groupSize), ATTRIBUTE_NAP_HTTP_REQ_RES_RATIO)])
  {
    ToInt32OfUint32(nodeId);
    var p := NodeScopePath(root, NODE_TYPE_NAP, nodeId, II_CMC_GROUP_SIZE);
    AnalyseNodePath(InitialFields(p), root, NODE_TYPE_NAP, nodeId, II_CMC_GROUP_SIZE);
    var d := EpochValuePayload(epoch, groupSize);
    assert Read32(d, 4) == Some(groupSize);
  }

  /** A NAP's HTTP request count reaches the database with its epoch. */
  lemma ServerStoresHttpRequests(root: int, nodeId: uint32, epoch: uint32, fqdn: seq<uint8>, requests: uint32,
                                 byName: Option<seq<uint8>>, byId: Option<NodeRow>)
    requires 0 <= root < 0x8000_0000 && nodeId < 0x8000_0000 && |fqdn| < 0x1_0000_0000
    ensures Send(NodeScopePath(root, NODE_TYPE_NAP, nodeId, II_HTTP_REQUESTS_PER_FQDN), HttpRequestsPayload(epoch, fqdn, requests), byName, byId)
      == Some([InsertNodeValue(epoch, nodeId, requests, ATTRIBUTE_NAP_HTTP_REQUESTS)])
  {
    ToInt32OfUint32(nodeId);
    var p := NodeScopePath(root, NODE_TYPE_NAP, nodeId, II_HTTP_REQUESTS_PER_FQDN);
    AnalyseNodePath(InitialFields(p), root, NODE_TYPE_NAP, nodeId, II_HTTP_REQUESTS_PER_FQDN);
    HttpRequestsRoundTrip(epoch, fqdn, requests);
  }

  /** A NAP's network latency reaches the database with its epoch. */
  lemma ServerStoresNetworkLatency(root: int, nodeId: uint32, epoch: uint32, hashedFqdn: uint32, latency: uint16,
                                   byName: Option<seq<uint8>>, byId: Option<NodeRow>)
    requires 0 <= root < 0x8000_0000 && nodeId < 0x8000_0000
    ensures Send(NodeScopePath(root, NODE_TYPE_NAP, nodeId, II_NETWORK_LATENCY_PER_FQDN), NetworkLatencyPayload(epoch, hashedFqdn, latency), byName, byId)
      == Some([InsertNodeValue(epoch, nodeId, latency, ATTRIBUTE_NAP_NETWORK_LATENCY)])
  {
    ToInt32OfUint32(nodeId);
    var p := NodeScopePath(root, NODE_TYPE_NAP, nodeId, II_NETWORK_LATENCY_PER_FQDN);
    AnalyseNodePath(InitialFields(p), root, NODE_TYPE_NAP, nodeId, II_NETWORK_LATENCY_PER_FQDN);
    var d := NetworkLatencyPayload(epoch, hashedFqdn, latency);
    assert Read16(d, 8) == Some(latency);
  }

  /** Link removals, link and node states and transmitted bytes carry
      information items that the analyser maps to no primitive, so the
      server issues no statement for them. */
  lemma ServerIgnoresStateReports(root: int, linkId: uint32, destination: uint32, linkType: uint8, data: seq<uint8>,
                                  byName: Option<seq<uint8>>, byId: Option<NodeRow>)
    requires 0 <= root < 0x8000_0000 && destination < 0x8000_0000 && |data| >= 4
    ensures Send(LinkScopePath(root, linkId, destination, linkType, II_STATE), data, byName, byId) == Some([])
    ensures Send(LinkScopePath(root, linkId, destination, linkType, II_TRANSMITTED_BYTES), data, byName, byId) == Some([])
  {
    var p := LinkScopePath(root, linkId, destination, linkType, II_STATE);
    AnalyseLinkPath(InitialFields(p), root, linkId, destination, linkType, II_STATE);
    var q := LinkScopePath(root, linkId, destination, linkType, II_TRANSMITTED_BYTES);
    AnalyseLinkPath(InitialFields(q), root, linkId, destination, linkType, II_TRANSMITTED_BYTES);
  }

  /** An ADD_NODE message (epoch, name length, name) under a node path with
      II_NAME reaches the role merge with the reporter's type, id and the
      full name, for names without NUL bytes. */
  lemma ServerReadsNodeName(root: int, nodeType: uint8, nodeId: uint32, epoch: uint32, name: seq<uint8>,
                            byName: Option<seq<uint8>>, byId: Option<NodeRow>)
    requires 0 <= root < 0x8000_0000 && nodeId < 0x8000_0000 && |name| < 0x1_0000_0000 && 0 !in name
    ensures var p := NodeScopePath(root, nodeType, nodeId, II_NAME);
      Send(p, LE32(epoch) + LE32(|name| as uint32) + name, byName, byId)
      == Some(AddNodeQueries(InitialFields(p).(nodeType := nodeType, nodeId := nodeId), name, byName, byId))
  {
    var p := NodeScopePath(root, nodeType, nodeId, II_NAME);
    var d := LE32(epoch) + LE32(|name| as uint32) + name;
    NameMessage(epoch, name);
    AnalyseNodePath(InitialFields(p), root, nodeType, nodeId, II_NAME);
    SendAddNode(p, d, byName, byId);
  }

  lemma NameMessage(epoch: uint32, name: seq<uint8>)
    requires |name| < 0x1_0000_0000 && 0 !in name
    ensures var d := LE32(epoch) + LE32(|name| as uint32) + name;
      |d| >= 8 && ReadLE32(d, 4) == |name| && CString(d[8..8 + |name|]) == name
  {
    var d := LE32(epoch) + LE32(|name| as uint32) + name;
    ReadLE32Concat(LE32(epoch), |name| as uint32, name);
    assert d[8..8 + |name|] == name;
    CStringAt(name, |name|);
  }

  /** Send on an ADD_NODE path, once the analyser's result is known. */
  lemma SendAddNode(icnId: string, data: seq<uint8>, byName: Option<seq<uint8>>, byId: Option<NodeRow>)
    requires PrimitiveSpec(InitialFields(icnId), icnId).1 == false
    requires PrimitiveSpec(InitialFields(icnId), icnId).2 == PRIMITIVE_TYPE_ADD_NODE
    requires |data| >= 8 && 8 + ReadLE32(data, 4) <= |data|
    ensures Send(icnId, data, byName, byId)
      == Some(AddNodeQueries(PrimitiveSpec(InitialFields(icnId), icnId).0, CString(data[8..8 + ReadLE32(data, 4)]), byName, byId))
  {
    var a := PrimitiveSpec(InitialFields(icnId), icnId);
    assert Send(icnId, data, byName, byId) == AddNodeSend(a.0, data, byName, byId);
    assert Read32(data, 4) == Some(ReadLE32(data, 4));
  }
}
