# A verified model of the core of the POINT H2020 platform

POINT runs IP services over an information-centric network (ICN): network
attachment points (NAPs) carry HTTP and CoAP traffic as ICN publications, an
SDN controller bootstraps the forwarding identifiers of the switches, and a
monitoring pipeline reports on the network. This project models, in Dafny,
the sequential logic at the centre of those parts, and it proves what each
part promises.

- **SDN bootstrapping (Java).** These modules model the link-identifier
  (LID) codec and the link orchestration. A LID is a 256-character bit
  string, and the codec turns it into the two IPv6 addresses the switches
  match on, in the preferred form of section 2.2 of RFC 4291
  (`lidcodec.dfy`). The orchestration uses the registries and the
  activation flag of the bootstrapping service (`bootstrapping.dfy`), and
  the C++ resource manager hands out node and link identifiers
  (`resourcemanager.dfy`).
- **Monitoring wire formats.** These files model the MOLY primitives with
  their length-prefixed encoders and decoders (`moly_*.dfy`). They also
  model BAMPERS: its 16-character decimal scope paths, its publish and
  buffer table, its CID analyser and its data-point payloads
  (`bampers_*.dfy`). Last come the monitoring server's payload decoding
  and node-role merge (`monitoring_server.dfy`).
- **CoAP proxy.** This part models the header, option and variable-integer
  formats of sections 3, 3.1 and 3.2 of RFC 7252 (`coap_codec.dfy`), and
  the packet builder and parser (`coap_packet.dfy`). It also covers
  timeval subtraction and address comparison (`coap_utils.dfy`) and the
  client list with its keep-alive pruning (`coap_clients.dfy`).
- **NAP.** This part models the lightweight transport: fragmentation,
  reassembly, the CTRL-WE gap check, NACK groups and the RTT list
  (`ltp_*.dfy`). It also models the HTTP handler's session, CMC-group and
  request tables (`nap_http.dfy`), the statistics counters
  (`nap_statistics.dfy`), and the TCP server's parsers for the method,
  Host header and resource (`nap_tcpserver.dfy`).

Shared helpers live in `bytes.dfy` and `text.dfy`. The bytes helpers cover
fixed-width integers and little- and big-endian layouts. The text helpers
cover decimal and hexadecimal rendering, strtol/atoi, setw/setfill padding,
std::string::find and ASCII case folding.

The modelling follows the source's own form. Code that mutates state
becomes a class:

- the bootstrapping service is `Bootstrapping.Service`;
- the resource manager is `ResourceManager.Manager`;
- BAMPERS' namespace is `BampersNamespace.Namespace`;
- the CoAP packet is `CoapMessage.CoapPacket`;
- the client list is `CoapClients.ClientTable`;
- the LTP state is `LtpLightweight.Lightweight`;
- the HTTP handler is `NapHttp.Http`;
- the statistics store is `NapStatistics.Statistics`.

Each of those classes has `modifies` clauses. Each method is specified by a
function of the old state, and the meaning of those functions is proved in
lemmas. Loops remain loops, with their invariants. Pure formatters and
codecs are functions. Every std::map is a Dafny `map` and every list a
`seq`. Fixed-width integers are subset types, and wrap-around is written
out where the source relies on it. Where the code and its documentation
disagree, the model follows the code. Where the code evidently misbehaves,
the model keeps both the code as written and the corrected form (see
"## Findings").

## Model

| member | source | states |
|---|---|---|
| MolyAddLink.SignedChar | lib/moly/primitives/addlink.cc:208-216 | each character enters the hash as a signed x86 char: a value in -128..127 congruent to the byte modulo 256 |
| MolyAddLink.PolySnoc | lib/moly/primitives/addlink.cc:208-216 | appending one character multiplies the hash polynomial by 31 and adds the signed character |
| MolyAddLink.HashIsPoly | lib/moly/primitives/addlink.cc:208-216 | the h = h*31 + c loop in 32-bit arithmetic equals the exact polynomial sum of c_i*31^(n-1-i) taken modulo 2^32 |
| MolyAddLink.ModStep | lib/moly/primitives/addlink.cc:212-215 | reducing h modulo 2^32 before the next step does not change the result modulo 2^32 |
| MolyAddLink.EncodeAddLink | lib/moly/primitives/addlink.cc:35-40 | the buffer is exactly size() = 4 + name length + 4 + 4 + 4 + 1 bytes |
| MolyAddLink.DecodeAddLink | lib/moly/primitives/addlink.cc:182-206 | decoding succeeds exactly when the buffer holds the 4-byte length prefix and every field that prefix announces |
| MolyAddLink.AddLinkRoundTrip | lib/moly/primitives/addlink.cc:159-206 | decoding an encoded ADD_LINK gives back name, hashed link id, source, destination and type, for a name without NUL bytes whose length fits 32 bits |
| MolyAddLink.AddLinkTail | lib/moly/primitives/addlink.cc:170-179 | the fixed tail reads back hashed link id at offset 0, source at 4, destination at 8 and the type byte at 12 |
| MolyAddLink.AddLink.constructor | lib/moly/primitives/addlink.cc:27-44 | the message holds the given name, the hash of the link id text, source, destination and type; size() is the fixed fields plus the name; the buffer is the encoding |
| MolyAddLink.AddLink.FromBuffer | lib/moly/primitives/addlink.cc:46-52 | the buffer of any length is copied; it is flagged as read past its end exactly when it is too short for the fields it announces, and otherwise the fields are its decoding |
| MolyAddLink.AddLink.HashLinkId | lib/moly/primitives/addlink.cc:208-216 | the stored hash is the 31-multiplier hash of the link id characters up to the first NUL |
| MolyAddLink.AddLink.ComposePacket | lib/moly/primitives/addlink.cc:159-180 | the buffer holds the encoding of the current fields |
| MolyAddLink.AddLink.DecomposePacket | lib/moly/primitives/addlink.cc:182-206 | the read runs past the buffer exactly when it is too short for the fields it announces, and the fields are then left as they were; otherwise they are the decoding of the buffer |
| MolyAddNode.EncodeAddNode | lib/moly/primitives/addnode.cc:25-33 | the buffer is exactly size() = 4 + name length + 4 + 1 bytes |
| MolyAddNode.DecodeAddNode | lib/moly/primitives/addnode.cc:126-144 | decoding succeeds exactly when the buffer holds the length prefix and the fields it announces |
| MolyAddNode.AddNodeRoundTrip | lib/moly/primitives/addnode.cc:109-144 | decoding an encoded ADD_NODE gives back name, node id and node type, for a name without NUL bytes |
| MolyAddNode.AddNode.constructor | lib/moly/primitives/addnode.cc:25-33 | the accessors answer the constructor arguments, size() matches and the buffer is their encoding |
| MolyAddNode.AddNode.FromBuffer | lib/moly/primitives/addnode.cc:35-41 | the buffer of any length is copied; it is flagged as read past its end exactly when it is too short for the fields it announces, and otherwise the fields are its decoding |
| MolyAddNode.AddNode.ComposePacket | lib/moly/primitives/addnode.cc:109-124 | the buffer holds the encoding of the fields |
| MolyAddNode.AddNode.DecomposePacket | lib/moly/primitives/addnode.cc:126-144 | the read runs past the buffer exactly when it is too short for the fields it announces, and the fields are then left as they were; otherwise they are the decoding of the buffer |
| MolyAddNodeType.EncodeAddNodeType | lib/moly/primitives/addnodetype.cc:26-33 | the buffer is exactly size() = 4 + name length + 1 bytes |
| MolyAddNodeType.DecodeAddNodeType | lib/moly/primitives/addnodetype.cc:117-132 | decoding succeeds exactly when the buffer holds the length prefix and the fields it announces |
| MolyAddNodeType.AddNodeTypeRoundTrip | lib/moly/primitives/addnodetype.cc:103-132 | decoding an encoded ADD_NODE_TYPE gives back name and node type, for a name without NUL bytes |
| MolyAddNodeType.AddNodeType.constructor | lib/moly/primitives/addnodetype.cc:26-33 | the accessors answer the constructor arguments, size() matches and the buffer is their encoding |
| MolyAddNodeType.AddNodeType.FromBuffer | lib/moly/primitives/addnodetype.cc:35-41 | the buffer of any length is copied; it is flagged as read past its end exactly when it is too short for the fields it announces, and otherwise the fields are its decoding |
| MolyAddNodeType.AddNodeType.ComposePacket | lib/moly/primitives/addnodetype.cc:103-115 | the buffer holds the encoding of the fields |
| MolyAddNodeType.AddNodeType.DecomposePacket | lib/moly/primitives/addnodetype.cc:117-132 | the read runs past the buffer exactly when it is too short for the fields it announces, and the fields are then left as they were; otherwise they are the decoding of the buffer |
| MolyEnum.LinkTypeLabel | lib/moly/primitives/addlink.cc:92-144 | the link type column is "-" exactly for codes above LINK_TYPE_OPTICAL |
| MolyEnum.LinkTypeLabelsDistinct | lib/moly/primitives/addlink.cc:92-144 | two different known link type codes never print the same label |
| MolyEnum.NodeTypeLabel | lib/moly/primitives/addnode.cc:69-94 | the node type column is "-" exactly for codes outside NODE_TYPE_GW..NODE_TYPE_UE |
| MolyLinkState.EncodeLinkState | lib/moly/primitives/linkstate.cc:83-86 | the buffer is always 10 bytes |
| MolyLinkState.DecodeLinkState | lib/moly/primitives/linkstate.cc:109-123 | decoding succeeds exactly when at least 10 bytes are given |
| MolyLinkState.LinkStateRoundTrip | lib/moly/primitives/linkstate.cc:93-123 | decoding an encoded LINK_STATE gives back link id, destination, link type and state |
| MolyLinkState.LinkState.constructor | lib/moly/primitives/linkstate.cc:25-38 | the accessors answer the constructor arguments, size() is 10 and the buffer is their encoding |
| MolyLinkState.LinkState.FromBuffer | lib/moly/primitives/linkstate.cc:40-46 | the buffer of any length is copied; it is flagged as read past its end exactly when it is too short for the fields it announces, and otherwise the fields are its decoding |
| MolyLinkState.LinkState.ComposePacket | lib/moly/primitives/linkstate.cc:93-107 | the buffer holds the encoding of the fields |
| MolyLinkState.LinkState.DecomposePacket | lib/moly/primitives/linkstate.cc:109-123 | the read runs past the buffer exactly when it is too short for the fields it announces, and the fields are then left as they were; otherwise they are the decoding of the buffer |
| MolyNodeState.EncodeNodeState | lib/moly/primitives/nodestate.cc:30 | the buffer is always 6 bytes: node type first, then node id, then state |
| MolyNodeState.DecodeNodeState | lib/moly/primitives/nodestate.cc:95-106 | decoding succeeds exactly when at least 6 bytes are given |
| MolyNodeState.NodeStateRoundTrip | lib/moly/primitives/nodestate.cc:82-106 | decoding an encoded NODE_STATE gives back node type, node id and state |
| MolyNodeState.NodeState.constructor | lib/moly/primitives/nodestate.cc:25-33 | the accessors answer the constructor arguments, size() is 6 and the buffer is their encoding |
| MolyNodeState.NodeState.FromBuffer | lib/moly/primitives/nodestate.cc:35-41 | the buffer of any length is copied; it is flagged as read past its end exactly when it is too short for the fields it announces, and otherwise the fields are its decoding |
| MolyNodeState.NodeState.ComposePacket | lib/moly/primitives/nodestate.cc:82-93 | the buffer holds the encoding of the fields |
| MolyNodeState.NodeState.DecomposePacket | lib/moly/primitives/nodestate.cc:95-106 | the read runs past the buffer exactly when it is too short for the fields it announces, and the fields are then left as they were; otherwise they are the decoding of the buffer |
| MolyNetworkLatencyPerFqdn.EncodeNetworkLatency | lib/moly/primitives/networklatencyperfqdn.cc:71-74 | the buffer is always 6 bytes |
| MolyNetworkLatencyPerFqdn.DecodeNetworkLatency | lib/moly/primitives/networklatencyperfqdn.cc:84-90 | decoding succeeds exactly when at least 6 bytes are given |
| MolyNetworkLatencyPerFqdn.NetworkLatencyRoundTrip | lib/moly/primitives/networklatencyperfqdn.cc:76-90 | decoding an encoded message gives back the hashed FQDN and the latency |
| MolyNetworkLatencyPerFqdn.NetworkLatencyPerFqdn.constructor | lib/moly/primitives/networklatencyperfqdn.cc:25-32 | the accessors answer the constructor arguments, size() is 6 and the buffer is their encoding |
| MolyNetworkLatencyPerFqdn.NetworkLatencyPerFqdn.FromBuffer | lib/moly/primitives/networklatencyperfqdn.cc:34-40 | the buffer of any length is copied; it is flagged as read past its end exactly when it is too short for the fields it announces, and otherwise the fields are its decoding |
| MolyNetworkLatencyPerFqdn.NetworkLatencyPerFqdn.ComposePacket | lib/moly/primitives/networklatencyperfqdn.cc:76-82 | the buffer holds the hashed FQDN at offset 0 and the latency at offset 4 |
| MolyNetworkLatencyPerFqdn.NetworkLatencyPerFqdn.DecomposePacket | lib/moly/primitives/networklatencyperfqdn.cc:84-90 | the read runs past the buffer exactly when it is too short for the fields it announces, and the fields are then left as they were; otherwise they are the decoding of the buffer |
| MolyHttpRequestsPerFqdn.EncodeHttpRequests | lib/moly/primitives/httprequestsperfqdn.cc:25-32 | the buffer is exactly size() = 4 + FQDN length + 4 bytes |
| MolyHttpRequestsPerFqdn.DecodeHttpRequests | lib/moly/primitives/httprequestsperfqdn.cc:90-105 | decoding succeeds exactly when the buffer holds the length prefix and the fields it announces |
| MolyHttpRequestsPerFqdn.HttpRequestsRoundTrip | lib/moly/primitives/httprequestsperfqdn.cc:76-105 | decoding an encoded message gives back the FQDN (without NUL bytes) and the request count |
| MolyHttpRequestsPerFqdn.HttpRequestsPerFqdn.constructor | lib/moly/primitives/httprequestsperfqdn.cc:25-32 | the accessors answer the constructor arguments, size() matches and the buffer is their encoding |
| MolyHttpRequestsPerFqdn.HttpRequestsPerFqdn.FromBuffer | lib/moly/primitives/httprequestsperfqdn.cc:34-41 | the buffer of any length is copied; it is flagged as read past its end exactly when it is too short for the fields it announces, and otherwise the fields are its decoding |
| MolyHttpRequestsPerFqdn.HttpRequestsPerFqdn.ComposePacket | lib/moly/primitives/httprequestsperfqdn.cc:76-88 | the buffer holds the encoding of the fields |
| MolyHttpRequestsPerFqdn.HttpRequestsPerFqdn.DecomposePacket | lib/moly/primitives/httprequestsperfqdn.cc:90-105 | the read runs past the buffer exactly when it is too short for the fields it announces, and the fields are then left as they were; otherwise they are the decoding of the buffer |
| BampersNamespace.Field | lib/bampers/namespace.cc:72-107 | a rendered level is never shorter than 16 characters: decimal text left-filled with '0' |
| BampersNamespace.FieldLength | lib/bampers/namespace.cc:72-107 | every 32-bit field renders as exactly 16 characters |
| BampersNamespace.FieldValue | lib/bampers/namespace.cc:72-107 | reading a rendered non-negative int field back with atoi gives the value |
| BampersNamespace.FieldNegative | lib/bampers/namespace.cc:72-107 | a negative field renders with its zeros before the '-', and atoi reads such a level as 0 |
| BampersNamespace.Levels5 | lib/bampers/namespace.cc:72-94 | five 16-character levels concatenate to 80 characters with each level at its 16-character slot |
| BampersNamespace.Levels6 | lib/bampers/namespace.cc:96-107 | six 16-character levels concatenate to 96 characters with each level at its slot |
| BampersNamespace.NodeScopePathLevels | lib/bampers/namespace.cc:72-94 | a node path has 5 levels: root, TOPOLOGY_NODES, node type, node id (as int) and information item |
| BampersNamespace.LinkScopePathLevels | lib/bampers/namespace.cc:96-107 | a link path has 6 levels: root, TOPOLOGY_LINKS, link id, destination (as int), link type and information item |
| BampersNamespace.LevelCalls | lib/bampers/namespace.cc:251-277 | the publishing loop makes one ICN call per 16-character level |
| BampersNamespace.LevelCallsAt | lib/bampers/namespace.cc:251-277 | call j of the loop is the one built for level j |
| BampersNamespace.LevelCallsNoData | lib/bampers/namespace.cc:251-277 | publishing a scope path never publishes data |
| BampersNamespace.PublishedLevels | lib/bampers/namespace.cc:251-277 | level j is published with id = characters [16j, 16j+16) under the concatenation of the previous levels, as an information item exactly when it is the last level |
| BampersNamespace.Recorded | lib/bampers/namespace.cc:32-37 | recording a path adds it with subscriber=false when it is new and never overwrites an existing flag |
| BampersNamespace.PublishScopePathSpec | lib/bampers/namespace.cc:239-280 | a length that is not a multiple of 16 changes nothing; otherwise one call per level is appended, the path is recorded and the buffer is untouched |
| BampersNamespace.PrepareSpec | lib/bampers/namespace.cc:120-147 | data is published exactly when the path is recorded with a subscriber, and is otherwise buffered; recorded paths are never lost; the only throw is advertising a path shorter than 16 characters |
| BampersNamespace.Namespace.constructor | lib/bampers/namespace.cc:24-28 | a new namespace has no recorded path, no buffered data and no ICN calls |
| BampersNamespace.Namespace.SetNodeId | lib/bampers/namespace.cc:114-118 | the node id is set |
| BampersNamespace.Namespace.AddPublishedScopePath | lib/bampers/namespace.cc:32-37 | the table becomes the recorded one (a new path with false, an existing flag kept) |
| BampersNamespace.Namespace.RemovePublishedScopePath | lib/bampers/namespace.cc:161-171 | the path is no longer recorded and nothing else changes |
| BampersNamespace.Namespace.SetSubscriberAvailability | lib/bampers/namespace.cc:173-185 | a recorded path gets the new flag; an unrecorded path changes nothing |
| BampersNamespace.Namespace.AddDataToBuffer | lib/bampers/namespace.cc:206-232 | there is one entry per path and a later call replaces its data and size; corrected — see the lib/bampers/namespace.cc:223 Findings row |
| BampersNamespace.Namespace.GetDataFromBuffer | lib/bampers/namespace.cc:53-70 | false with no change when there is no entry; otherwise the data and size are handed out and the entry is erased |
| BampersNamespace.Namespace.AdvertiseInformationItem | lib/bampers/namespace.cc:39-46 | the last 16 characters are advertised under the rest of the path; a path shorter than 16 characters throws |
| BampersNamespace.Namespace.PublishScopePath | lib/bampers/namespace.cc:239-280 | the state afterwards is the publishing specification applied to the state before |
| BampersNamespace.Namespace.PrepareDataToBePublished | lib/bampers/namespace.cc:120-147 | the state and throw afterwards are those of the publish-or-buffer specification |
| BampersNamespace.NextLevel | lib/bampers/namespace.cc:251-277 | the call for the level at it is an information item exactly for the last level, the prefix grows by that level's identifier, and the level calls extend by that call |
| BampersNamespace.Namespace.CopyLevel | lib/bampers/namespace.cc:254-258 | the identifier copied is the 16 characters from it on |
| BampersNamespace.Namespace.PublishLevel | lib/bampers/namespace.cc:252-276 | one pass appends exactly the call for its level and yields that level's identifier |
| BampersNamespace.AddDataAsWritten | lib/bampers/namespace.cc:206-232 | every other path keeps its data, and the updated entry dangles exactly when the path was buffered and realloc moved the block |
| BampersNamespace.AddDataAsWrittenDangles | lib/bampers/namespace.cc:206-232 | a moved block leaves a buffered path's entry dangling; when realloc keeps the block or fails, the code stores what the corrected AddDataToBuffer stores |
| BampersCid.LevelAt | lib/bampers/cidanalyser.cc:199-207 | a 16-character level fully inside the CID is read with atoi |
| BampersCid.LinksScope | lib/bampers/cidanalyser.cc:68-75 | linksScope throws exactly when the CID is shorter than 16 characters |
| BampersCid.NodesScope | lib/bampers/cidanalyser.cc:87-94 | nodesScope (and statisticsScope, lines 190-197) throws exactly on a CID shorter than 16 characters, and a node scope is never a link scope |
| BampersCid.InitialFields | lib/bampers/cidanalyser.cc:36-54 | the constructor clears link id, link type, destination, state and node id, and sets the node type to 0 when the CID is shorter than 48 characters |
| BampersCid.PrimitiveOf | lib/bampers/cidanalyser.cc:134-182 | SOURCE_NODE_ID gives ADD_LINK, NAME gives ADD_NODE, and the CMC group size, HTTP requests and network latency items give their own primitives, each in both directions; no item gives ADD_NODE_TYPE, LINK_STATE or NODE_STATE |
| BampersCid.ScopeStep | lib/bampers/cidanalyser.cc:104-127 | the scope switch never changes the state field |
| BampersCid.NodeScopeStep | lib/bampers/cidanalyser.cc:107-112 | the node case never changes the state field |
| BampersCid.LinkScopeStep | lib/bampers/cidanalyser.cc:113-124 | the link case never changes the state field |
| BampersCid.PrimitiveSpec | lib/bampers/cidanalyser.cc:101-183 | a CID shorter than 16 characters throws with nothing changed; otherwise the primitive is the one of the information item, and the state is either kept or set to UP |
| BampersCid.Level1Of | lib/bampers/cidanalyser.cc:204-207 | the level-1 scope type is the atoi of characters [16, 32) |
| BampersCid.LastLevelOf | lib/bampers/cidanalyser.cc:199-202 | the information item is the atoi of the last 16 characters |
| BampersCid.LinkLevelsOf | lib/bampers/cidanalyser.cc:113-124 | on a 96-character path the link case stores the stripped link id, the destination and the link type without throwing |
| BampersCid.NodeLevelsOf | lib/bampers/cidanalyser.cc:107-112 | on an 80-character path the node case stores node type and node id without throwing |
| BampersCid.ReadLinkLevels | lib/bampers/cidanalyser.cc:101-183 | primitive() on a link path yields its link id, destination, type and the information item's primitive, with state UP exactly for SOURCE_NODE_ID |
| BampersCid.ReadNodeLevels | lib/bampers/cidanalyser.cc:101-183 | primitive() on a node path yields its node type, node id and the information item's primitive |
| BampersCid.AtoiLevel | lib/bampers/cidanalyser.cc:107-124 | atoi of a rendered level gives the value, or 0 for a negative one |
| BampersCid.StripLevel | lib/bampers/cidanalyser.cc:115-116 | stripping the leading zeros of a rendered link id gives its decimal text, or "" for 0 |
| BampersCid.LinkPathLevelValues | lib/bampers/namespace.cc:96-107 | each level of a rendered link path reads back as its field, a destination of 2^31 or more as 0 |
| BampersCid.NodePathLevelValues | lib/bampers/namespace.cc:72-94 | each level of a rendered node path reads back as its field |
| BampersCid.AnalyseLinkPath | lib/bampers/cidanalyser.cc:101-183 | round trip: analysing getScopePath(linkId, destination, type, item) gives the decimal text of linkId, the destination, the type and the item's primitive |
| BampersCid.AnalyseNodePath | lib/bampers/cidanalyser.cc:101-183 | round trip: analysing a node path gives back node type, node id and the item's primitive |
| BampersCid.ScopesOfPaths | lib/bampers/cidanalyser.cc:36-94 | a node path is a node scope, a link path is a link scope, and the constructor already reads the node type of a node path |
| BampersCid.AnalyseHighDestination | lib/bampers/cidanalyser.cc:117-118 | a destination of 2^31 or more is rendered negative and read back as node 0 |
| BampersCid.CIdAnalyser.constructor | lib/bampers/cidanalyser.cc:36-54 | the fields are the initial ones for this CID |
| BampersCid.CIdAnalyser.ReadScope | lib/bampers/cidanalyser.cc:104-127 | the fields and throw are those of the scope switch |
| BampersCid.CIdAnalyser.ReadNodeScope | lib/bampers/cidanalyser.cc:107-112 | the fields and throw are those of the node case |
| BampersCid.CIdAnalyser.ReadLinkScope | lib/bampers/cidanalyser.cc:113-124 | the fields and throw are those of the link case |
| BampersCid.CIdAnalyser.Primitive | lib/bampers/cidanalyser.cc:101-183 | the fields, throw and primitive are those of the primitive specification |
| BampersDatapoints.EpochValuePayload | lib/bampers/datapoints/statistics.cc:30-60 | an 8-byte payload: the epoch, then the 4-byte value |
| BampersDatapoints.HttpRequestsPayload | lib/bampers/datapoints/statistics.cc:62-87 | 12 + length bytes: epoch, FQDN length, FQDN bytes, request count |
| BampersDatapoints.HttpRequestsPayloadAsWritten | lib/bampers/datapoints/statistics.cc:62-87 | the payload as written, with the running offset held in a uint8_t, still has 12 + length bytes |
| BampersDatapoints.HttpRequestsShortAgrees | lib/bampers/datapoints/statistics.cc:72-85 | for an FQDN shorter than 248 bytes the as-written payload is the intended one |
| BampersDatapoints.HttpRequestsLongOverwritesEpoch | lib/bampers/datapoints/statistics.cc:72-85 | with a 248-byte FQDN the offset wraps to 0 and the request count overwrites the epoch |
| BampersDatapoints.NetworkLatencyPayload | lib/bampers/datapoints/statistics.cc:89-108 | exactly 10 bytes: epoch, hashed FQDN, 2-byte latency |
| BampersDatapoints.StatePayload | lib/bampers/datapoints/state.cc:34-43 | 5 bytes: epoch then the state byte |
| BampersDatapoints.HostnameStatePayload | lib/bampers/datapoints/state.cc:53-66 | 9 + length bytes: epoch, state, hostname length, hostname bytes |
| BampersDatapoints.HostnameStatePayloadAsWritten | lib/bampers/datapoints/state.cc:68 | the as-written payload, copying from the std::string object instead of its characters, has the declared length |
| BampersDatapoints.HostnameStateCopiesObject | lib/bampers/datapoints/state.cc:68 | the as-written payload is right only when the object's bytes happen to equal the hostname; a one-letter hostname shows the difference |
| BampersDatapoints.PublishedFirstTime | lib/bampers/namespace.cc:120-131 | handing data over for an unrecorded path buffers it, records the path with no subscriber and publishes every level |
| BampersDatapoints.PublishedWithSubscriber | lib/bampers/namespace.cc:142-146 | with a subscriber, exactly one data publication is appended and nothing else changes |
| BampersDatapoints.BuildEpochValue | lib/bampers/datapoints/statistics.cc:30-43 | the buffer filled at the running offset is the epoch-value payload |
| BampersDatapoints.BuildHttpRequests | lib/bampers/datapoints/statistics.cc:62-87 | the buffer filled field by field is the corrected HTTP-requests payload; corrected — see the lib/bampers/datapoints/statistics.cc:72-85 Findings row |
| BampersDatapoints.BuildNetworkLatency | lib/bampers/datapoints/statistics.cc:89-108 | the buffer filled field by field is the latency payload |
| BampersDatapoints.BuildState | lib/bampers/datapoints/state.cc:34-43 | the buffer is the 5-byte state payload |
| BampersDatapoints.BuildHostnameState | lib/bampers/datapoints/state.cc:53-68 | the buffer is the corrected hostname payload; corrected — see the lib/bampers/datapoints/state.cc:68 Findings row |
| BampersDatapoints.Statistics.CmcGroupSize | lib/bampers/datapoints/statistics.cc:30-43 | exactly one payload, epoch then group size, goes to the NAP node path with II_CMC_GROUP_SIZE |
| BampersDatapoints.Statistics.TransmittedBytes | lib/bampers/datapoints/statistics.cc:45-60 | exactly one payload, epoch then the byte count, goes to the link path with II_TRANSMITTED_BYTES |
| BampersDatapoints.Statistics.HttpRequestsPerFqdn | lib/bampers/datapoints/statistics.cc:62-87 | exactly one HTTP-requests payload goes to the NAP node path with II_HTTP_REQUESTS_PER_FQDN; corrected — see the lib/bampers/datapoints/statistics.cc:72-85 Findings row |
| BampersDatapoints.Statistics.NetworkLatencyPerFqdn | lib/bampers/datapoints/statistics.cc:89-108 | exactly one latency payload goes to the NAP node path with II_NETWORK_LATENCY_PER_FQDN |
| BampersDatapoints.Link.Add | lib/bampers/datapoints/link.cc:30-45 | exactly one payload, epoch then source node id, goes to the II_SOURCE_NODE_ID link path |
| BampersDatapoints.Link.Remove | lib/bampers/datapoints/link.cc:47-65 | exactly one payload, epoch then destination node id, goes to the II_STATE link path, which is then un-recorded |
| BampersDatapoints.State.UpdateNode | lib/bampers/datapoints/state.cc:29-45 | the state payload goes to the node path built with the state as its information item |
| BampersDatapoints.State.UpdateHostname | lib/bampers/datapoints/state.cc:47-71 | the hostname payload goes to the node's own path with the state as item; corrected — see the lib/bampers/datapoints/state.cc:68 Findings row |
| BampersDatapoints.State.UpdateLink | lib/bampers/datapoints/state.cc:73-90 | the state payload goes to the II_STATE link path |
| CoapCodec.VersionOf | apps/coapproxy/coap.cpp:331-333 | the version is bits 7-6 of byte 0, a value below 4 |
| CoapCodec.TypeOf | apps/coapproxy/coap.cpp:446-448 | the type is bits 5-4 of byte 0 in place: one of 0x00, 0x10, 0x20, 0x30 |
| CoapCodec.TklOf | apps/coapproxy/coap.cpp:336-338 | the token length is the low nibble, a value below 16 |
| CoapCodec.JoinFields | apps/coapproxy/coap.cpp:331-338 | a byte built from version, type and TKL reads back each of the three |
| CoapCodec.SplitFields | apps/coapproxy/coap.cpp:331-338 | every byte is exactly its version, type and TKL fields put together |
| CoapCodec.SetVersionField | apps/coapproxy/coap.cpp:435-440 | setVersion with version <= 3 sets the version and leaves type and TKL unchanged |
| CoapCodec.SetTypeField | apps/coapproxy/coap.cpp:455-458 | setType sets the type and leaves version and TKL unchanged |
| CoapCodec.SetTklField | apps/coapproxy/coap.cpp:464-469 | setTKL with TKL <= 8 sets the TKL and leaves version and type unchanged |
| CoapCodec.Nibble | apps/coapproxy/coap.cpp:693-713 | the header nibble of a delta or length is the value itself, 13 or 14 |
| CoapCodec.ExtBytes | apps/coapproxy/coap.cpp:693-713 | the extension bytes of a value are as many as section 3.1 of RFC 7252 demands: 0, 1 or 2 |
| CoapCodec.OptionHeader | apps/coapproxy/coap.cpp:689-716 | the intended option header is 1 + e(delta) + e(length) bytes and never starts with the 0xFF payload marker |
| CoapCodec.OptionEncodeAsWritten | apps/coapproxy/coap.cpp:689-716 | coap_option_encode as written returns 1 + e(delta) + e(length) bytes with the `< 270` bound and an 8-bit length |
| CoapCodec.OptionEncodeAgrees | apps/coapproxy/coap.cpp:689-716 | for every delta other than 269 the as-written encoding is the section 3.1 format |
| CoapCodec.OptionEncodeAsWrittenMisencodes | apps/coapproxy/coap.cpp:695-697 | delta 269 is written as 0xd0 0x00 and reads back as 13; a 300-byte length is cut to 44 by the uint8_t parameter |
| CoapCodec.DecodeHeaderAgrees | apps/coapproxy/coap.cpp:79-111 | the parser as written reads every header correctly except a 2-byte length after an extended delta |
| CoapCodec.DecodeHeaderAsWrittenMisreads | apps/coapproxy/coap.cpp:105-109 | after a 1-byte delta extension a 2-byte length is read with its low byte taken from pos+2: 527 reads as 526 |
| CoapCodec.DecodeExt | apps/coapproxy/coap.cpp:84-111 | the extension bytes of a value read back as that value |
| CoapCodec.DecodeOptionHeader | apps/coapproxy/coap.cpp:79-111 | reading an encoded option header gives back delta, length and header size |
| CoapCodec.HeaderParts | apps/coapproxy/coap.cpp:689-716 | an encoded header is the nibble byte, then the delta extension, then the length extension |
| CoapCodec.HeaderAt | apps/coapproxy/coap.cpp:79-111 | an encoded header is not the payload marker and decodes to its delta and length |
| CoapCodec.CountFrom | apps/coapproxy/coap.cpp:207-271 | the intended option walk never counts fewer options than it has already seen |
| CoapCodec.OptionCountAsWrittenAtPayload | apps/coapproxy/coap.cpp:222-226 | for a GET with two options and a payload, the count as written is 1 instead of 2 |
| CoapCodec.OptionCountAsWrittenWithoutOptions | apps/coapproxy/coap.cpp:222-226 | with no option and a payload, the count as written is 1 instead of 0 |
| CoapCodec.CountStep | apps/coapproxy/coap.cpp:228-266 | one loop step skips exactly one option of 1 + ext + ext + value bytes |
| CoapCodec.CountEncoded | apps/coapproxy/coap.cpp:207-271 | walking options laid out by insertOption, up to the end or the payload marker, counts exactly their number |
| CoapCodec.Prepend | apps/coapproxy/coap.cpp:113-124 | recording an option in front of a parsed rest succeeds exactly when the rest did |
| CoapCodec.ParseFrom | apps/coapproxy/coap.cpp:63-129 | parsing k options yields exactly k records |
| CoapCodec.ParseStep | apps/coapproxy/coap.cpp:80-125 | one parse step records delta, running option number, value length, total length and the value's position 1+ext+ext after the header |
| CoapCodec.ParseUnfold | apps/coapproxy/coap.cpp:80-125 | a successful parse of k options starts with a decodable header and continues with k-1 options from after it |
| CoapCodec.ParseEncoded | apps/coapproxy/coap.cpp:63-129 | parsing options laid out by insertOption succeeds and recovers each option number (the running sum of deltas), value length and value bytes |
| CoapCodec.ParseFirst | apps/coapproxy/coap.cpp:80-125 | a first option that matches plus a rest that matches give a parse that matches the whole list |
| CoapCodec.DescribesEach | apps/coapproxy/coap.cpp:113-124 | a matching parse gives, for option i, its number, its length and where its value bytes start |
| CoapCodec.DescribesCons | apps/coapproxy/coap.cpp:113-124 | a matching record in front of a matching rest matches the whole list |
| CoapCodec.EncodeOptions | apps/coapproxy/coap.cpp:722-752 | a non-empty ascending list of options never starts with the payload marker |
| CoapCodec.EncodedFirst | apps/coapproxy/coap.cpp:722-752 | an encoded list starts with the first option's header and value, followed by the encoding of the rest |
| CoapCodec.LaidOutOf | apps/coapproxy/coap.cpp:722-752 | bytes equal to an encoded ascending list are a layout of those options |
| CoapCodec.LaidOutCons | apps/coapproxy/coap.cpp:722-752 | a header and value in front of a laid-out rest give a laid-out list |
| CoapCodec.Pow256 | apps/coapproxy/coap.cpp:757-769 | powers of 256 are positive |
| CoapCodec.MinBytes | apps/coapproxy/coap.cpp:757-769 | the byte count is the least n with value < 256^n: 0 exactly for 0 |
| CoapCodec.MinBytesOfUint32 | apps/coapproxy/coap.cpp:760-761 | a 32-bit value never needs more than 4 bytes |
| CoapCodec.PowMonotone | apps/coapproxy/coap.cpp:757-769 | powers of 256 grow with the exponent |
| CoapCodec.BigEndian | apps/coapproxy/coap.cpp:762-766 | the big-endian rendering of a value has the requested number of bytes |
| CoapCodec.BigEndianRoundTrip | apps/coapproxy/coap.cpp:762-766 | reading a big-endian rendering back gives the value |
| CoapCodec.EncodeVarBytesAsWrittenShifts | apps/coapproxy/coap.cpp:762-766 | port 5683 is written to buf[1..3), so the first two bytes read back as 22 instead of 5683 |
| CoapCodec.DecodeHeader | apps/coapproxy/coap.cpp:79-111 | the intended header read succeeds exactly when both extensions fit in the packet; the header is 1 + ext + ext bytes, and a nibble under 13 is the delta or length itself |
| CoapCodec.DecodeHeaderAsWritten | apps/coapproxy/coap.cpp:79-111 | the as-written read succeeds wherever the intended one does, and then agrees with it on the delta and the header size (only the length can differ) |
| CoapCodec.CountFromAsWritten | apps/coapproxy/coap.cpp:207-271 | the as-written walk never counts fewer options than it has seen, except for the 1 it answers at the payload marker |
| CoapCodec.OptionCount | apps/coapproxy/coap.cpp:207-271 | a packet that ends after its token, or whose options start with the payload marker, has no options |
| CoapCodec.OptionCountAsWritten | apps/coapproxy/coap.cpp:207-271 | as written, a packet that ends after its token counts 0 options, but one whose options start with the payload marker counts 1 |
| CoapCodec.EncodeVarBytesAsWritten | apps/coapproxy/coap.cpp:757-769 | the value goes big-endian into buf[1..1+n), with buf[0] and the bytes after it unchanged |
| CoapMessage.Message | apps/coapproxy/coap.cpp:722-752 | a message built by insertOption and addPayload is the header, the encoded options and, for a non-empty payload, the 0xFF marker and the payload |
| CoapMessage.MessageTail | apps/coapproxy/coap.cpp:530-547 | the options of a built message end at its end or at the payload marker |
| CoapMessage.MessageOptionCount | apps/coapproxy/coap.cpp:207-271 | the intended count of a built message is exactly the number of options inserted |
| CoapMessage.MessageOptionsParse | apps/coapproxy/coap.cpp:63-129 | parsing a built message recovers every inserted option's number, length and value |
| CoapMessage.CountedParses | apps/coapproxy/coap.cpp:63-81 | when the count walks k options, the parser can read those k options |
| CoapMessage.EncodeOptionsSnoc | apps/coapproxy/coap.cpp:722-752 | inserting an option with a number not below the last appends its header (delta against the last number) and then its value |
| CoapMessage.LastNumber | apps/coapproxy/coap.cpp:748 | the recorded last option type is the number of the last option inserted, never smaller than the start |
| CoapMessage.AddPayloadAsWritten | apps/coapproxy/coap.cpp:530-547 | addPayload as written grows the packet by the payload and marker (nothing for an empty payload) |
| CoapMessage.AddPayloadAsWrittenWithoutOptions | apps/coapproxy/coap.cpp:530-547 | on a packet without options the as-written payload lands where it should |
| CoapMessage.AddPayloadAsWrittenLosesOptions | apps/coapproxy/coap.cpp:538-541 | with one option present, the marker written at 4+TKL overwrites it and the packet then has no option |
| CoapMessage.CoapPacket.constructor | apps/coapproxy/coap.cpp:26-37 | a new packet is the 4-byte header with version 1, type CON, TKL 0, and no option |
| CoapMessage.CoapPacket.Received | apps/coapproxy/coap.cpp:42-56 | a datagram of any length is kept; the read runs past it exactly for an empty one or one whose option header extension bytes lie past the end; otherwise its options are counted and parsed, with isProxy set exactly for a Proxy-Uri option; corrected — see the apps/coapproxy/coap.cpp:105-109 and apps/coapproxy/coap.cpp:222-226 Findings rows |
| CoapMessage.CoapPacket.OptionCountFromRecv | apps/coapproxy/coap.cpp:207-271 | the read runs past the packet exactly when it is empty or an option header's extension bytes lie past its end; otherwise the stored and returned count is the intended option count; nothing else changes |
| CoapMessage.CoapPacket.ParseOptionsFromRcv | apps/coapproxy/coap.cpp:63-129 | the read runs past the packet exactly when it is empty or the stored count of options does not fit in it, and then nothing is parsed; otherwise the result is the parse of that many options, and isProxy is set when one of them is Proxy-Uri |
| CoapMessage.CoapPacket.SetVersion | apps/coapproxy/coap.cpp:435-440 | a version above 3 returns 0 with no change; otherwise only bits 7-6 change and 1 is returned |
| CoapMessage.CoapPacket.SetType | apps/coapproxy/coap.cpp:455-458 | only the type bits of byte 0 change |
| CoapMessage.CoapPacket.SetTkl | apps/coapproxy/coap.cpp:464-469 | a TKL above 8 returns 1 with no change; otherwise only the low nibble changes and 0 is returned |
| CoapMessage.CoapPacket.SetMessageId | apps/coapproxy/coap.cpp:475-480 | bytes 2-3 hold the message id big-endian and getMessageID reads it back; nothing else changes |
| CoapMessage.CoapPacket.SetCode | apps/coapproxy/coap.cpp:487-495 | only byte 1 changes, to the code |
| CoapMessage.CoapPacket.SetTokenValue | apps/coapproxy/coap.cpp:510-522 | no token or a length above 8 returns 0 with no change; otherwise the packet grows by the length and the token is copied at offset 4 |
| CoapMessage.CoapPacket.InsertOption | apps/coapproxy/coap.cpp:722-752 | a type below the last inserted one changes nothing; otherwise the header for delta = type - last and the value are appended and the type is recorded; 0 is returned either way; corrected — see the apps/coapproxy/coap.cpp:695-697 Findings row |
| CoapMessage.CoapPacket.AddPayload | apps/coapproxy/coap.cpp:530-547 | an empty payload returns 0 with no change; otherwise the marker and payload follow the options and 1 is returned; corrected — see the apps/coapproxy/coap.cpp:538-541 Findings row |
| CoapMessage.ParseOptions | apps/coapproxy/coap.cpp:80-125 | the option loop computes the parse of k options and whether one is Proxy-Uri |
| CoapMessage.ParseHead | apps/coapproxy/coap.cpp:82-111 | a parse that still has options to read starts at a decodable header |
| CoapMessage.ParseAdvance | apps/coapproxy/coap.cpp:80-125 | one loop iteration appends exactly the next option record and updates the Proxy-Uri flag |
| CoapMessage.ProxyUriSnoc | apps/coapproxy/coap.cpp:114-116 | a list holds a Proxy-Uri option exactly when its prefix does or the new option is one |
| CoapMessage.EncodeVarBytes | apps/coapproxy/coap.cpp:757-769 | the corrected encoder returns the minimal byte count (at most 4) and writes the value big-endian in buf[0..n), leaving the rest |
| CoapMessage.VarBytesCount | apps/coapproxy/coap.cpp:760-761 | the counting loop gives the minimal byte count, at most 4 |
| CoapMessage.WriteBigEndian | apps/coapproxy/coap.cpp:762-766 | the writing loop stores the value big-endian in the first n bytes, leaving the rest |
| CoapMessage.ReadOption | apps/coapproxy/coap.cpp:81-122 | one round reads the option at the current position: its number is the running number plus the delta, the parse still to do moves it to the options read, and Proxy-Uri among them is updated by its number |
| CoapMessage.AscendingSnoc | apps/coapproxy/coap.cpp:728-730 | an option numbered at least the last accepted one keeps the inserted options in the order insertOption accepts |
| CoapUtils.Subtract | apps/coapproxy/utils.c:32-53 | the normalised y denotes the same instant, result = x - y in microseconds, 0 <= result.usec <= 10^6, and 1 is returned exactly when result.sec < 0 |
| CoapUtils.SubtractInRange | apps/coapproxy/utils.c:32-53 | for in-range inputs the result is in range and the return flag means x is earlier than y |
| CoapUtils.SubtractSign | apps/coapproxy/utils.c:48-52 | a negative flag means x <= y, a clear one x >= y |
| CoapUtils.SubtractNegativeAtEqual | apps/coapproxy/utils.c:40-52 | with y = 0 s 1000000 us and x = 1 s, equal instants, the flag is still set |
| CoapUtils.CompareSockaddr | apps/coapproxy/utils.c:56-70 | 0 exactly for the same client (family, and port and IPv4 address or IPv6 port), 1 for a family mismatch, 2 and 3 for IPv4 port and address, 4 for the IPv6 port, 6 for another family |
| CoapUtils.CompareSockaddrSymmetric | apps/coapproxy/utils.c:56-70 | the comparison is symmetric |
| CoapUtils.CompareSockaddrSelf | apps/coapproxy/utils.c:56-70 | an address equals itself exactly for IPv4 and IPv6; IPv6 addresses with the same port always compare equal |
| CoapClients.KeepAliveAsWritten | apps/coapproxy/clients.c:38 | the keep-alive as written has KEEP_ALIVE_TIMEOUT/1000 seconds |
| CoapClients.KeepAlive | apps/coapproxy/clients.c:38 | the intended keep-alive is the timeout in milliseconds as microseconds |
| CoapClients.KeepAliveAsWrittenShort | apps/coapproxy/clients.c:38 | the two agree exactly when the timeout is a whole number of seconds; 1500 ms gives 1.0005 s instead of 1.5 s |
| CoapClients.TokenOf | apps/coapproxy/clients.c:138-142 | the token is the TKL bytes after the 4-byte header |
| CoapClients.ReceivedLengthAsWritten | apps/coapproxy/clients.c:118-126 | with an unsigned recvlen only 0 is rejected |
| CoapClients.ReceivedLength | apps/coapproxy/clients.c:118-126 | the intended check rejects 0 and a failed receive (-1) |
| CoapClients.ReceivedLengthAsWrittenAcceptsFailure | apps/coapproxy/clients.c:111-126 | a failed receive (-1) becomes 2^64-1 and is accepted as written; the two agree on every real length |
| CoapClients.Touch | apps/coapproxy/clients.c:187 | testing a node normalises its last_seen in place without changing the instant or any other field |
| CoapClients.ExpiredMeans | apps/coapproxy/clients.c:187-189 | an expired node has been idle at least the keep-alive, and one idle longer is expired |
| CoapClients.Survivors | apps/coapproxy/clients.c:175-203 | pruning never lengthens the list |
| CoapClients.SurvivorsRetain | apps/coapproxy/clients.c:175-203 | the survivors are the kept nodes in their original order |
| CoapClients.SurvivorsCount | apps/coapproxy/clients.c:175-203 | survivors plus expired nodes are all the nodes |
| CoapClients.SurvivorsWithinKeepAlive | apps/coapproxy/clients.c:187-189 | every survivor has been idle no longer than the keep-alive |
| CoapClients.NoneExpired | apps/coapproxy/clients.c:175-203 | when every node is within the keep-alive, none is pruned |
| CoapClients.SurvivorsTerminated | apps/coapproxy/clients.c:97-99 | pruning keeps every token NUL-terminated |
| CoapClients.PruneStep | apps/coapproxy/clients.c:185-201 | one loop step either unlinks the node or keeps it (normalised) and moves on |
| CoapClients.UnlinkAt | apps/coapproxy/clients.c:191-192 | unlinking or replacing the current node gives the expected list |
| CoapClients.TestClient | apps/coapproxy/clients.c:187-189 | the two timeval_subtract calls decide expiry as the specification does and normalise last_seen |
| CoapClients.Prune | apps/coapproxy/clients.c:175-203 | the loop keeps exactly the survivors and counts the expired nodes |
| CoapClients.FindClient | apps/coapproxy/clients.c:144-147 | the lookup finds a node equal by compare_sockaddr exactly when one exists, and the first such node |
| CoapClients.FindToken | apps/coapproxy/clients.c:68-78 | the first node whose token is strcmp-equal to the given one |
| CoapClients.ZeroByteTokensCollide | apps/coapproxy/clients.c:75 | tokens that differ after a NUL byte compare equal under strcmp |
| CoapClients.ClientTable.constructor | apps/coapproxy/clients.c:35-43 | the list starts empty with the keep-alive of the intended timeval; corrected — see the apps/coapproxy/clients.c:38 Findings row |
| CoapClients.ClientTable.AddClient | apps/coapproxy/clients.c:88-103 | one node holding address, length, socket, a NUL-terminated copy of the token and the time is prepended |
| CoapClients.ClientTable.ReadClient | apps/coapproxy/clients.c:107-159 | -1 with no change for an empty or failed receive or a datagram shorter than its header and token; otherwise the first client equal by compare_sockaddr is returned, or a new one holding the packet's token is prepended when there is none; corrected — see the apps/coapproxy/clients.c:111-126 and apps/coapproxy/clients.c:135-142 Findings rows |
| CoapClients.ClientTable.ForwardResponse | apps/coapproxy/clients.c:64-80 | the client the response goes to is the first node, in list order, whose token is strcmp-equal to the given one; when there is none the response is dropped, where the code as written sends it through the null node; corrected — see the apps/coapproxy/clients.c:75-79 Findings row |
| CoapClients.ClientTable.PruneExpiredClients | apps/coapproxy/clients.c:175-203 | the list becomes the survivors and the number unlinked is returned |
| CoapClients.TokenAsWritten | apps/coapproxy/clients.c:135-142 | the copy reads past the received bytes exactly when the TKL is non-zero and the datagram is shorter than its header and token; otherwise it yields the TKL bytes from offset 4 |
| CoapClients.TokenAsWrittenOverReads | apps/coapproxy/clients.c:135-142 | the one-byte datagram 0x48 over-reads and is rejected by the corrected read; a datagram that holds its token gets the same token both ways |
| CoapClients.ForwardAsWritten | apps/coapproxy/clients.c:64-80 | the walk ends on the null node exactly when no client's token is strcmp-equal to the given one; otherwise it sends to the first client that matches |
| CoapClients.ForwardAsWrittenUnmatched | apps/coapproxy/clients.c:64-80 | a client still holding its first token makes a response with a new token dereference the null node |
| LidCodec.GenerateLid | sdn/bootstrapping/implementation/src/main/java/eu/point/bootstrapping/impl/icn/IcnIdConfigurator.java:366-376 | a generated LID has 256 characters, all of them '0' or '1', with '1' exactly at index pos (nowhere when pos is outside 0..255) |
| LidCodec.LidBitPosition | sdn/bootstrapping/implementation/src/main/java/eu/point/bootstrapping/impl/icn/IcnIdConfigurator.java:460-467 | the result is the index of the first '1', or -1 exactly when the LID holds no '1' |
| LidCodec.FirstOneFrom | sdn/bootstrapping/implementation/src/main/java/eu/point/bootstrapping/impl/icn/IcnIdConfigurator.java:462-466 | the loop's search from a given index finds the first '1' at or after it, or -1 exactly when there is none |
| LidCodec.BitPositionOfGeneratedLid | sdn/bootstrapping/implementation/src/main/java/eu/point/bootstrapping/impl/icn/IcnIdConfigurator.java:366-376 | lidBitPosition inverts generateLid for every position 0..255 and gives -1 for every other position |
| LidCodec.Reverse | sdn/bootstrapping/implementation/src/main/java/eu/point/bootstrapping/impl/icn/IcnIdConfigurator.java:289 | the reversal holds the characters in opposite order |
| LidCodec.ParseBinary | sdn/bootstrapping/implementation/src/main/java/eu/point/bootstrapping/impl/icn/IcnIdConfigurator.java:389 | Integer.parseInt(bs, 2) of a binary string is its most-significant-first value |
| LidCodec.LidBytes | sdn/bootstrapping/implementation/src/main/java/eu/point/bootstrapping/impl/icn/IcnIdConfigurator.java:385-390 | a half-LID that converts gives exactly 16 address bytes |
| LidCodec.ChunkBytes | sdn/bootstrapping/implementation/src/main/java/eu/point/bootstrapping/impl/icn/IcnIdConfigurator.java:386-390 | the chunks from index i on give 16 - i bytes |
| LidCodec.MsbOfReverse | sdn/bootstrapping/implementation/src/main/java/eu/point/bootstrapping/impl/icn/IcnIdConfigurator.java:388-389 | parsing the reversed 8-character chunk reads the chunk least significant bit first |
| LidCodec.ChunkByteValue | sdn/bootstrapping/implementation/src/main/java/eu/point/bootstrapping/impl/icn/IcnIdConfigurator.java:387-389 | an 8-character chunk of '0'/'1' always parses, to its least-significant-first value |
| LidCodec.ChunkBytesOfBits | sdn/bootstrapping/implementation/src/main/java/eu/point/bootstrapping/impl/icn/IcnIdConfigurator.java:386-390 | from chunk i on, a '0'/'1' half-LID converts without an exception into the chunk values, each chunk read least significant bit first |
| LidCodec.LidBytesOfBits | sdn/bootstrapping/implementation/src/main/java/eu/point/bootstrapping/impl/icn/IcnIdConfigurator.java:385-390 | every '0'/'1' half-LID converts without an exception, byte k being chunk k read least significant bit first |
| LidCodec.LsbValueZero | sdn/bootstrapping/implementation/src/main/java/eu/point/bootstrapping/impl/icn/IcnIdConfigurator.java:389 | an all-'0' chunk is the byte 0 |
| LidCodec.LsbValueSingle | sdn/bootstrapping/implementation/src/main/java/eu/point/bootstrapping/impl/icn/IcnIdConfigurator.java:389 | a chunk whose only '1' is at index m is the byte 2^m |
| LidCodec.SingleBitBytes | sdn/bootstrapping/implementation/src/main/java/eu/point/bootstrapping/impl/icn/IcnIdConfigurator.java:385-390 | the reference address of a single-bit half-LID has 16 bytes |
| LidCodec.LidBytesAre | sdn/bootstrapping/implementation/src/main/java/eu/point/bootstrapping/impl/icn/IcnIdConfigurator.java:385-390 | a '0'/'1' half-LID whose chunk values are b converts to exactly b |
| LidCodec.ChunkZero | sdn/bootstrapping/implementation/src/main/java/eu/point/bootstrapping/impl/icn/IcnIdConfigurator.java:387-389 | a chunk that does not hold the single '1' is the byte 0 |
| LidCodec.HalfLidSingleBit | sdn/bootstrapping/implementation/src/main/java/eu/point/bootstrapping/impl/icn/IcnIdConfigurator.java:385-390 | a half-LID whose only '1' is at index 127 - q converts to the single-bit address of q |
| LidCodec.HalfLidZero | sdn/bootstrapping/implementation/src/main/java/eu/point/bootstrapping/impl/icn/IcnIdConfigurator.java:385-390 | an all-'0' half-LID converts to the all-zero address |
| LidCodec.IndexOfColon | sdn/bootstrapping/implementation/src/main/java/eu/point/bootstrapping/impl/icn/IcnIdConfigurator.java:404 | the result is the first ':' of the text, or -1 exactly when there is none |
| LidCodec.SplitAll | sdn/bootstrapping/implementation/src/main/java/eu/point/bootstrapping/impl/icn/IcnIdConfigurator.java:404 | splitting always yields at least one piece |
| LidCodec.DropTrailingEmpty | sdn/bootstrapping/implementation/src/main/java/eu/point/bootstrapping/impl/icn/IcnIdConfigurator.java:404 | removing trailing empty pieces keeps a prefix of the pieces |
| LidCodec.ReplaceSpaces | sdn/bootstrapping/implementation/src/main/java/eu/point/bootstrapping/impl/icn/IcnIdConfigurator.java:406 | replace(' ', '0') keeps the length |
| LidCodec.Hex4 | sdn/bootstrapping/implementation/src/main/java/eu/point/bootstrapping/impl/icn/IcnIdConfigurator.java:402-413 | the reference group text has exactly four digits |
| LidCodec.Hex4RoundTrip | sdn/bootstrapping/implementation/src/main/java/eu/point/bootstrapping/impl/icn/IcnIdConfigurator.java:402-413 | a four-digit group reads back as the 16-bit value it was written from |
| LidCodec.HexDigitRoundTrip | sdn/bootstrapping/implementation/src/main/java/eu/point/bootstrapping/impl/icn/IcnIdConfigurator.java:402-413 | each hexadecimal digit reads back as its value |
| LidCodec.PreferredFormLength | sdn/bootstrapping/implementation/src/main/java/eu/point/bootstrapping/impl/icn/IcnIdConfigurator.java:402-413 | the full-form address has 39 characters (eight groups of four and seven colons) |
| LidCodec.SplitJoin | sdn/bootstrapping/implementation/src/main/java/eu/point/bootstrapping/impl/icn/IcnIdConfigurator.java:404 | splitting at ':' undoes joining pieces that hold no ':' |
| LidCodec.SplitAt | sdn/bootstrapping/implementation/src/main/java/eu/point/bootstrapping/impl/icn/IcnIdConfigurator.java:404 | splitting a piece without ':' followed by ':' yields that piece first |
| LidCodec.FullFormOfPieces | sdn/bootstrapping/implementation/src/main/java/eu/point/bootstrapping/impl/icn/IcnIdConfigurator.java:405-411 | the loop from piece i is the padded pieces i..7 joined by ':' |
| LidCodec.PaddedFrom | sdn/bootstrapping/implementation/src/main/java/eu/point/bootstrapping/impl/icn/IcnIdConfigurator.java:405-406 | the padded pieces i..7 are 8 - i pieces, each padded to four characters with zeros |
| LidCodec.FullFormPiecesStep | sdn/bootstrapping/implementation/src/main/java/eu/point/bootstrapping/impl/icn/IcnIdConfigurator.java:405-411 | before index 7 the loop writes the padded piece and a ':' |
| LidCodec.FullFormPiecesLast | sdn/bootstrapping/implementation/src/main/java/eu/point/bootstrapping/impl/icn/IcnIdConfigurator.java:408-410 | piece 7 is written without a trailing ':' |
| LidCodec.HexNoColon | sdn/bootstrapping/implementation/src/main/java/eu/point/bootstrapping/impl/icn/IcnIdConfigurator.java:391 | getHostAddress's groups are non-empty and hold neither ':' nor ' ' |
| LidCodec.PadGroupNoSpaces | sdn/bootstrapping/implementation/src/main/java/eu/point/bootstrapping/impl/icn/IcnIdConfigurator.java:406 | padding a group without spaces prefixes it with '0's up to four characters |
| LidCodec.PadHexGroup | sdn/bootstrapping/implementation/src/main/java/eu/point/bootstrapping/impl/icn/IcnIdConfigurator.java:406 | padding a getHostAddress group gives the four-digit group |
| LidCodec.JoinHasColon | sdn/bootstrapping/implementation/src/main/java/eu/point/bootstrapping/impl/icn/IcnIdConfigurator.java:404 | the host address text of eight groups holds a ':' |
| LidCodec.PadAllGroups | sdn/bootstrapping/implementation/src/main/java/eu/point/bootstrapping/impl/icn/IcnIdConfigurator.java:405-406 | padding all eight getHostAddress groups gives the eight four-digit groups |
| LidCodec.FullFormOfJoin | sdn/bootstrapping/implementation/src/main/java/eu/point/bootstrapping/impl/icn/IcnIdConfigurator.java:402-413 | fullFormIpv6 of eight colon-free groups joined by ':' pads each group and re-joins them |
| LidCodec.JavaSplitJoin | sdn/bootstrapping/implementation/src/main/java/eu/point/bootstrapping/impl/icn/IcnIdConfigurator.java:404 | split(":") recovers the eight non-empty groups it was given |
| LidCodec.FullFormIsPreferred | sdn/bootstrapping/implementation/src/main/java/eu/point/bootstrapping/impl/icn/IcnIdConfigurator.java:391-392 | for every address that is not IPv4-mapped the converted text is the full preferred form of RFC 4291 section 2.2 |
| LidCodec.LinkAddresses | sdn/bootstrapping/implementation/src/main/java/eu/point/bootstrapping/impl/icn/IcnIdConfigurator.java:289-301 | only a LID shorter than 256 characters escapes the exception handler |
| LidCodec.LinkAddressesParses | sdn/bootstrapping/implementation/src/main/java/eu/point/bootstrapping/impl/icn/IcnIdConfigurator.java:289-301 | a LID converts into two addresses exactly when it is long enough and both halves parse |
| LidCodec.BitLidConverts | sdn/bootstrapping/implementation/src/main/java/eu/point/bootstrapping/impl/icn/IcnIdConfigurator.java:289-301 | every 256-character '0'/'1' LID converts into two addresses |
| LidCodec.AddressHalves | sdn/bootstrapping/implementation/src/main/java/eu/point/bootstrapping/impl/icn/IcnIdConfigurator.java:289-291 | after the reversal the source address depends only on LID positions 128..255 and the destination address only on positions 0..127 |
| LidCodec.GeneratedLidBytes | sdn/bootstrapping/implementation/src/main/java/eu/point/bootstrapping/impl/icn/IcnIdConfigurator.java:289-296 | the half holding the '1' of a generated LID gives the single-bit address and the other half the zero address |
| LidCodec.SingleBitNotMapped | sdn/bootstrapping/implementation/src/main/java/eu/point/bootstrapping/impl/icn/IcnIdConfigurator.java:391 | neither a single-bit address nor the zero address is IPv4-mapped, so getHostAddress gives eight groups |
| LidCodec.GeneratedLidAddresses | sdn/bootstrapping/implementation/src/main/java/eu/point/bootstrapping/impl/icn/IcnIdConfigurator.java:289-296 | every generated LID converts, into the full preferred forms of its two halves' addresses |
| LidCodec.PathLids | sdn/bootstrapping/implementation/src/main/java/eu/point/bootstrapping/impl/icn/IcnIdConfigurator.java:427-441 | the collected positions start with the TM's internal LID position |
| LidCodec.CalculateTmFid | sdn/bootstrapping/implementation/src/main/java/eu/point/bootstrapping/impl/icn/IcnIdConfigurator.java:445-450 | the TMFID has 256 characters |
| LidCodec.PathLidsMembers | sdn/bootstrapping/implementation/src/main/java/eu/point/bootstrapping/impl/icn/IcnIdConfigurator.java:427-441 | a position other than -1 is collected exactly when it is the internal position or the bit position of a registered LID of some hop |
| LidCodec.TmFidBits | sdn/bootstrapping/implementation/src/main/java/eu/point/bootstrapping/impl/icn/IcnIdConfigurator.java:423-453 | the TMFID has '1' at index i exactly when i is the internal position or the bit position of a registered LID of some hop |
| LidCodec.HostAddress | sdn/bootstrapping/implementation/src/main/java/eu/point/bootstrapping/impl/icn/IcnIdConfigurator.java:391 | for an address that is not IPv4-mapped, split(":") of the host address text gives back its eight hexadecimal groups |
| LidCodec.HexGroupsNoColon | sdn/bootstrapping/implementation/src/main/java/eu/point/bootstrapping/impl/icn/IcnIdConfigurator.java:391 | each of getHostAddress's eight groups is non-empty and holds no ':' |
| LidCodec.FullFormIpv6 | sdn/bootstrapping/implementation/src/main/java/eu/point/bootstrapping/impl/icn/IcnIdConfigurator.java:402-413 | a text of eight ':'-separated pieces is rewritten as the eight pieces, each zero-padded to four characters, joined by ':' |
| LidCodec.LidToIpv6 | sdn/bootstrapping/implementation/src/main/java/eu/point/bootstrapping/impl/icn/IcnIdConfigurator.java:384-393 | a half-LID converts exactly when every chunk parses as binary, and then, unless the address is IPv4-mapped, into the full preferred form of RFC 4291 section 2.2 |
| LidCodec.HalfAddress | sdn/bootstrapping/implementation/src/main/java/eu/point/bootstrapping/impl/icn/IcnIdConfigurator.java:384-393 | a half-LID that converts to an address that is not IPv4-mapped gives that address's full preferred form |
| LidCodec.HalvesAddresses | sdn/bootstrapping/implementation/src/main/java/eu/point/bootstrapping/impl/icn/IcnIdConfigurator.java:289-301 | a LID whose two halves convert to addresses that are not IPv4-mapped is split into their two full preferred forms |
| LidCodec.ChunkValuesAt | sdn/bootstrapping/implementation/src/main/java/eu/point/bootstrapping/impl/icn/IcnIdConfigurator.java:386-390 | entry k - i of the chunk values from i on is chunk k read least significant bit first |
| LidCodec.BothHalvesConvert | sdn/bootstrapping/implementation/src/main/java/eu/point/bootstrapping/impl/icn/IcnIdConfigurator.java:289-301 | a LID both of whose halves convert is turned into exactly those two addresses |
| Bootstrapping.AddLinkSpec | sdn/bootstrapping/implementation/src/main/java/eu/point/bootstrapping/impl/icn/IcnIdConfigurator.java:238-306 | a registered link is left alone and counts as added; a missing offer changes neither map; an offer is recorded under src and "src,dst" even when its rule cannot be built; the link counts as added exactly when it was registered or its rule is installed; an exception escapes only for a LID too short to split |
| Bootstrapping.AddLinksGrows | sdn/bootstrapping/implementation/src/main/java/eu/point/bootstrapping/impl/icn/IcnIdConfigurator.java:89-107 | the iteration of addLinks never un-registers a link key |
| Bootstrapping.AddLinksFromRemovals | sdn/bootstrapping/implementation/src/main/java/eu/point/bootstrapping/impl/icn/IcnIdConfigurator.java:92-102 | from index i on: host links and links already kept stay in the list, a removed link is a registered non-host link, and without an exception every previously registered non-host link is removed |
| Bootstrapping.AddLinksRemovals | sdn/bootstrapping/implementation/src/main/java/eu/point/bootstrapping/impl/icn/IcnIdConfigurator.java:89-107 | addLinks keeps every host link, keeps only links of its input, removes only non-host links that end up registered, and without an exception removes every link that was registered before |
| Bootstrapping.PrepareFromProperties | sdn/bootstrapping/implementation/src/main/java/eu/point/bootstrapping/impl/icn/IcnIdConfigurator.java:124-137 | from index i on, each new request comes from an unregistered non-host link, each link either stays or gets its request, and requests plus remaining links account for every link |
| Bootstrapping.PrepareRequestsProperties | sdn/bootstrapping/implementation/src/main/java/eu/point/bootstrapping/impl/icn/IcnIdConfigurator.java:124-137 | registered links produce no request, every request comes from a non-host link of the input, only host or registered links stay in the list, and every link either stays or has its request |
| Bootstrapping.LinkAddressesThrowsOnShort | sdn/bootstrapping/implementation/src/main/java/eu/point/bootstrapping/impl/icn/IcnIdConfigurator.java:180-192 | the conversion of the offer loop throws past its handler only for a LID shorter than 256 characters |
| Bootstrapping.ApplyOffers | sdn/bootstrapping/implementation/src/main/java/eu/point/bootstrapping/impl/icn/IcnIdConfigurator.java:149-196 | the loop applies at most all offers, and all of them when it ends normally |
| Bootstrapping.ApplyOffersThrows | sdn/bootstrapping/implementation/src/main/java/eu/point/bootstrapping/impl/icn/IcnIdConfigurator.java:149-196 | the offer loop ends with an exception only for an offer without a matching request or a LID too short to split |
| Bootstrapping.ApplyOffersKeepsKeys | sdn/bootstrapping/implementation/src/main/java/eu/point/bootstrapping/impl/icn/IcnIdConfigurator.java:161-162 | the offer loop never un-registers a link key |
| Bootstrapping.RecordKeepsPositional | sdn/bootstrapping/implementation/src/main/java/eu/point/bootstrapping/impl/icn/IcnIdConfigurator.java:153-162 | recording offer i for requests[i] keeps every earlier request's LID equal to its offer's LID when the requested keys are distinct |
| Bootstrapping.OffersPositional | sdn/bootstrapping/implementation/src/main/java/eu/point/bootstrapping/impl/icn/IcnIdConfigurator.java:149-196 | with distinct requested keys, the LID registered for requests[k] is offers[k].lid for every recorded offer |
| Bootstrapping.RemoveLinkSpec | sdn/bootstrapping/implementation/src/main/java/eu/point/bootstrapping/impl/icn/IcnIdConfigurator.java:333-359 | an unregistered link changes nothing; otherwise only its key is removed from assignedLinkIds, node ids are untouched, and an exception escapes exactly when its LID is too short to split |
| Bootstrapping.RemoveLinksEffect | sdn/bootstrapping/implementation/src/main/java/eu/point/bootstrapping/impl/icn/IcnIdConfigurator.java:315-325 | removeLinks never touches node ids, only removes link keys, and without an exception removes exactly the keys of the non-host links |
| Bootstrapping.NodeLinkSpec | sdn/bootstrapping/implementation/src/main/java/eu/point/bootstrapping/impl/BootstrappingServiceImpl.java:139-195 | no request is sent exactly when both identifiers are registered; an answer always agrees with the registry afterwards; a fresh answer is the first offer; there is no answer exactly when the identifiers are unknown and no offer comes back, and then both maps are unchanged |
| Bootstrapping.Service.constructor | sdn/bootstrapping/implementation/src/main/java/eu/point/bootstrapping/impl/BootstrappingServiceImpl.java:42-52 | the service starts with empty registries, no queued links and the application inactive |
| Bootstrapping.Service.ConfigureTm | sdn/bootstrapping/implementation/src/main/java/eu/point/bootstrapping/impl/BootstrappingServiceImpl.java:62-89 | the TM parameters are stored, and the TM's node id and the LID of its link to the attached switch are registered and written to the registries |
| Bootstrapping.Service.AddLink | sdn/bootstrapping/implementation/src/main/java/eu/point/bootstrapping/impl/icn/IcnIdConfigurator.java:238-306 | the new registry state and both results are those of the addLink specification |
| Bootstrapping.Service.AddLinks | sdn/bootstrapping/implementation/src/main/java/eu/point/bootstrapping/impl/icn/IcnIdConfigurator.java:89-107 | while active, the registry and remaining list are those of the addLinks specification; while inactive, nothing is registered and the links are queued |
| Bootstrapping.Service.AddMultipleLinks | sdn/bootstrapping/implementation/src/main/java/eu/point/bootstrapping/impl/icn/IcnIdConfigurator.java:118-201 | while active, the registry and remaining list are those of the addMultipleLinks specification; while inactive, nothing is registered and the links are queued |
| Bootstrapping.Service.PrepareLinks | sdn/bootstrapping/implementation/src/main/java/eu/point/bootstrapping/impl/icn/IcnIdConfigurator.java:124-137 | the requests and remaining links are those of the request preparation specification |
| Bootstrapping.Service.ApplyEachOffer | sdn/bootstrapping/implementation/src/main/java/eu/point/bootstrapping/impl/icn/IcnIdConfigurator.java:149-196 | the registry and the way the loop ends are those of the offer loop specification |
| Bootstrapping.Service.RemoveLink | sdn/bootstrapping/implementation/src/main/java/eu/point/bootstrapping/impl/icn/IcnIdConfigurator.java:333-359 | the registry and the exception flag are those of the removeLink specification |
| Bootstrapping.Service.RemoveLinks | sdn/bootstrapping/implementation/src/main/java/eu/point/bootstrapping/impl/icn/IcnIdConfigurator.java:315-325 | the registry and the exception flag are those of the removeLinks specification |
| Bootstrapping.Service.AddLinkManually | sdn/bootstrapping/implementation/src/main/java/eu/point/bootstrapping/impl/icn/IcnIdConfigurator.java:476-495 | the generated LID always converts, and exactly its rule is installed on the given switch and port |
| Bootstrapping.Service.ActivateApplication | sdn/bootstrapping/implementation/src/main/java/eu/point/bootstrapping/impl/BootstrappingServiceImpl.java:98-112 | the flag is set; when it is set the queued links go through addLinks, otherwise nothing changes |
| Bootstrapping.Service.ConfigureSwitch | sdn/bootstrapping/implementation/src/main/java/eu/point/bootstrapping/impl/BootstrappingServiceImpl.java:122-126 | the rule of generateLid(linkId) is installed on the given switch and port |
| Bootstrapping.Service.NodeLinkInformation | sdn/bootstrapping/implementation/src/main/java/eu/point/bootstrapping/impl/BootstrappingServiceImpl.java:139-195 | the registry and the answer are those of the nodeLinkInformation specification |
| Bootstrapping.RecordOffer | sdn/bootstrapping/implementation/src/main/java/eu/point/bootstrapping/impl/icn/IcnIdConfigurator.java:161-178 | the source switch is registered with the offered node id and "src,dst" with the offered LID, and exactly three registry writes are appended to the log |
| Bootstrapping.AddLinksSpec | sdn/bootstrapping/implementation/src/main/java/eu/point/bootstrapping/impl/icn/IcnIdConfigurator.java:89-107 | addLinks never un-registers a link key, keeps only links of its input, and keeps every host link |
| Bootstrapping.PrepareRequests | sdn/bootstrapping/implementation/src/main/java/eu/point/bootstrapping/impl/icn/IcnIdConfigurator.java:124-137 | each link of the input either stays in the list or produces one request, and the links that stay come from the input |
| Bootstrapping.AddMultipleLinksSpec | sdn/bootstrapping/implementation/src/main/java/eu/point/bootstrapping/impl/icn/IcnIdConfigurator.java:118-201 | no link key is un-registered; the remaining list is the one left by request preparation; without a reply the method throws and both maps are unchanged |
| Bootstrapping.RemoveLinksSpec | sdn/bootstrapping/implementation/src/main/java/eu/point/bootstrapping/impl/icn/IcnIdConfigurator.java:315-325 | removeLinks leaves node ids unchanged, only removes link keys, and never counts a link as added |
| Bootstrapping.AcceptOffer | sdn/bootstrapping/implementation/src/main/java/eu/point/bootstrapping/impl/icn/IcnIdConfigurator.java:266-304 | an accepted offer is recorded under src and "src,dst" whatever follows; the step reports the link added exactly when the LID converts, and throws only for a LID too short to split |
| ResourceManager.FirstFree | apps/icn-sdn/resource_manager.cpp:42-60 | the result is the least number from k on that has not been handed out |
| ResourceManager.NumberToNodeId | apps/icn-sdn/resource_manager.cpp:62-69 | a node id is eight decimal digits |
| ResourceManager.NodeIdRoundTrip | apps/icn-sdn/resource_manager.cpp:62-69 | a node id reads back as the number it was made from |
| ResourceManager.NodeIdInjective | apps/icn-sdn/resource_manager.cpp:62-69 | two numbers give the same node id exactly when they are equal |
| ResourceManager.NodeIdSpec | apps/icn-sdn/resource_manager.cpp:71-99 | at the number limit nothing is handed out; a known node gets its id back and consumes nothing; a new node gets the least unused number, recorded in the table and the graph as the TM when it is 1; no number is ever handed out twice |
| ResourceManager.AddNodeValid | apps/icn-sdn/resource_manager.cpp:85-93 | recording a new node under the next free number keeps the handed-out numbers distinct and below the limit |
| ResourceManager.NextNid | apps/icn-sdn/resource_manager.cpp:42-50 | while every handed-out number is below the limit, the next number is between 1 and the limit |
| ResourceManager.InternalLinkIdSpec | apps/icn-sdn/resource_manager.cpp:145-172 | a fresh position is taken only when asked to and none is stored, and it is the least unused one unless that is 255, which yields ""; otherwise the stored position (0 when none) is returned as a LID; the tables stay consistent |
| ResourceManager.LinkPositionSpec | apps/icn-sdn/resource_manager.cpp:112-139 | a link with a position keeps it; a new link gets the least unused position, recorded under "src,dst", unless the string overload hits position 255; only the link tables change; the tables stay consistent |
| ResourceManager.NewLinkValid | apps/icn-sdn/resource_manager.cpp:129-130 | recording a new link position keeps every stored position one that was handed out |
| ResourceManager.LinkIdSpec | apps/icn-sdn/resource_manager.cpp:101-143 | the string overload of generate_link_id keeps the tables consistent |
| ResourceManager.RequestOfferSpec | apps/icn-sdn/resource_manager.cpp:185-228 | the request overload of generate_link_id keeps the tables consistent |
| ResourceManager.NodeIdIdempotent | apps/icn-sdn/resource_manager.cpp:71-99 | asking again for a node that got an id returns the same id and consumes nothing, unless the number space is exhausted, when "" is returned |
| ResourceManager.NodeIdsDistinct | apps/icn-sdn/resource_manager.cpp:71-99 | two different nodes never share a node id |
| ResourceManager.LinkPositionIdempotent | apps/icn-sdn/resource_manager.cpp:112-139 | asking again for a link that has a position returns that position and changes nothing |
| ResourceManager.LinkIdIdempotent | apps/icn-sdn/resource_manager.cpp:101-143 | asking generate_link_id again for the same pair answers the same text and changes nothing, once position 0 is taken and while node numbers remain |
| ResourceManager.KnownNodes | apps/icn-sdn/resource_manager.cpp:105-106 | after the two node steps both nodes are in the table under the ids just returned |
| ResourceManager.LinkLimit | apps/icn-sdn/resource_manager.cpp:114-120 | at position 255 the string overload returns early without recording the link, while the request overload records and hands out 255 |
| ResourceManager.RequestOfferFields | apps/icn-sdn/resource_manager.cpp:185-228 | the offer carries the source node id, the source MAC and the LID whose only '1' is the link's position; a new link gets the least unused position and, unless its source is the TM, an internal LID equal to its LID; an existing link's internal LID is empty |
| ResourceManager.Manager.constructor | apps/icn-sdn/resource_manager.cpp:21-36 | the manager starts with consistent tables, after the TM's internal LID and the TM's link have been generated |
| ResourceManager.Manager.GenerateNodeIdNumber | apps/icn-sdn/resource_manager.cpp:42-50 | the result is the least number from 1 on that has not been handed out |
| ResourceManager.Manager.GenerateLinkIdBitPosition | apps/icn-sdn/resource_manager.cpp:52-60 | the result is the least position from 0 on that has not been handed out |
| ResourceManager.Manager.GenerateNodeId | apps/icn-sdn/resource_manager.cpp:71-99 | the new tables and the id are those of the generate_node_id specification, and the tables stay consistent |
| ResourceManager.Manager.GenerateInternalLinkId | apps/icn-sdn/resource_manager.cpp:145-172 | the new tables and the LID are those of the generate_internal_link_id specification |
| ResourceManager.Manager.LinkPosition | apps/icn-sdn/resource_manager.cpp:112-139 | the new tables and the position are those of the link table specification |
| ResourceManager.Manager.GenerateLinkId | apps/icn-sdn/resource_manager.cpp:101-143 | the new tables and the text are those of the string overload's specification |
| ResourceManager.Manager.GenerateRequestOffer | apps/icn-sdn/resource_manager.cpp:185-228 | the new tables and the offer are those of the request overload's specification |
| ResourceManager.NodeIdKnown | apps/icn-sdn/resource_manager.cpp:71-80 | generate_node_id for a node that already has a number answers its recorded id and changes nothing |
| ResourceManager.NodeIdKeepsLids | apps/icn-sdn/resource_manager.cpp:71-99 | generate_node_id never touches the link positions handed out |
| ResourceManager.LinkPositionAgain | apps/icn-sdn/resource_manager.cpp:112-139 | once position 0 is taken, the position a link gets is never 0, and asking again for it answers the same position and changes nothing |
| MonitoringServer.StateStr | apps/monitoring/server/mysqlconnector.cc:636-655 | the name is "" exactly for a value that is not one of the four node states, and otherwise starts with "STATE_" |
| MonitoringServer.StateStrInjective | apps/monitoring/server/mysqlconnector.cc:636-655 | distinct node states have distinct names |
| MonitoringServer.MergeAddsRole | apps/monitoring/server/mysqlconnector.cc:177-494 | an updating role merge adds exactly one role the stored type lacked, together with FN |
| MonitoringServer.MergeSingleAddsRole | apps/monitoring/server/mysqlconnector.cc:181-306 | the same for a stored single-role type |
| MonitoringServer.MergeCombinedAddsRole | apps/monitoring/server/mysqlconnector.cc:307-494 | the same for a stored combined type |
| MonitoringServer.RolesDetermineMergedType | apps/monitoring/server/mysqlconnector.cc:177-494 | two element types with the same non-empty set of roles are the same type |
| MonitoringServer.MergeOrderIndependent | apps/monitoring/server/mysqlconnector.cc:177-494 | two merges that reach the same set of roles give the same element type, whatever order the roles were reported in |
| MonitoringServer.FullNodesNotUpdated | apps/monitoring/server/mysqlconnector.cc:475-486 | nodes that hold all four roles, and UE or SERVER rows, are never updated |
| MonitoringServer.MergedName | apps/monitoring/server/mysqlconnector.cc:495-502 | the stored name is kept exactly when the reported one equals it, and otherwise gets ", " and the reported one appended |
| MonitoringServer.Read32 | apps/monitoring/server/mysqlconnector.cc:91 | a 32-bit read succeeds exactly when the message holds four bytes there, and gives their little-endian value |
| MonitoringServer.Read16 | apps/monitoring/server/mysqlconnector.cc:615 | a 16-bit read succeeds exactly when the message holds two bytes there, and gives their little-endian value |
| MonitoringServer.DecodeHttpRequests | apps/monitoring/server/mysqlconnector.cc:539-553 | the request count is the 32-bit value right after the FQDN whose length follows the epoch; corrected — see the lib/bampers/datapoints/statistics.cc:72-85 Findings row; corrected — see the apps/monitoring/server/mysqlconnector.cc:90-552 Findings row |
| MonitoringServer.HttpRequestsRoundTrip | apps/monitoring/server/mysqlconnector.cc:539-553 | the server reads back the count the NAP's data point wrote |
| MonitoringServer.HttpRequestsAsWrittenEpoch | apps/monitoring/server/mysqlconnector.cc:539-553 | with the as-written builder and a 248-byte FQDN the server's leading "epoch" bytes are the count itself |
| MonitoringServer.HttpAttribute | apps/monitoring/server/mysqlconnector.cc:555-569 | an HTTP attribute exists exactly for reports from a NAP or a gateway |
| MonitoringServer.AddNodeQueries | apps/monitoring/server/mysqlconnector.cc:125-520 | at most one statement; a UE or SERVER is inserted unless a row of that name exists; another node is inserted when its id is unknown, and otherwise updated exactly when the role merge changes its type, with the merged name |
| MonitoringServer.Send | apps/monitoring/server/mysqlconnector.cc:83-634 | the statements are only produced for a message that holds at least its epoch; corrected — see the apps/monitoring/server/mysqlconnector.cc:90-552 Findings row |
| MonitoringServer.ServerStoresAddedLink | apps/monitoring/server/mysqlconnector.cc:95-124 | a link announced by Link::add is stored with its id, source, destination and type, and recorded as STATE_UP |
| MonitoringServer.ServerStoresCmcGroupSize | apps/monitoring/server/mysqlconnector.cc:521-538 | a NAP's CMC group size is stored with its epoch under the NAP's node id |
| MonitoringServer.ServerStoresHttpRequests | apps/monitoring/server/mysqlconnector.cc:539-579 | a NAP's HTTP request count is stored with its epoch under the NAP's node id |
| MonitoringServer.ServerStoresNetworkLatency | apps/monitoring/server/mysqlconnector.cc:607-629 | a NAP's network latency is stored with its epoch under the NAP's node id |
| MonitoringServer.ServerIgnoresStateReports | apps/monitoring/server/mysqlconnector.cc:580-633 | link state and transmitted-bytes reports issue no statement: the analyser never yields the link-state primitive, so they fall to the default case |
| MonitoringServer.ServerReadsNodeName | apps/monitoring/server/mysqlconnector.cc:125-135 | a node's name report reaches the ADD_NODE statements with its full name, for names without NUL bytes |
| MonitoringServer.NameMessage | apps/monitoring/server/mysqlconnector.cc:128-133 | the length after the epoch frames the name exactly, and C-string reading keeps a name without NUL bytes |
| MonitoringServer.SendAddNode | apps/monitoring/server/mysqlconnector.cc:125-520 | on an ADD_NODE path the statements are those of the node insertion or update for the name the message frames |
| MonitoringServer.RoleMerge | apps/monitoring/server/mysqlconnector.cc:177-494 | the merged type is UninitialisedType exactly when the stored type lies outside GW..FN_GW_TM_RV (LNK, FN_TM_RV, FN_GW_NAP or any unknown value), the branch that leaves the type variable never set |
| MonitoringServer.RolesOf | apps/monitoring/server/mysqlconnector.cc:177-494 | the roles an element type stands for: none exactly for SERVER, UE, LNK and unknown values, and every type with more than one role includes FN |
| MonitoringServer.DecodeHttpRequestsAsWritten | apps/monitoring/server/mysqlconnector.cc:539-553 | the as-written decoder reads the count at (8 + FQDN length) mod 256, and agrees with the intended one whenever that offset stays below 256 |
| NapStatistics.RttSumBound | apps/nap/monitoring/statistics.cc:66-71 | the sum of a list of 16-bit RTTs is at most 0xFFFF times its length, and non-zero only for a non-empty list |
| NapStatistics.LatencyBounds | apps/nap/monitoring/statistics.cc:73-77 | the latency (half the truncated mean) fits 15 bits, and a list of equal RTTs v gives v / 2 |
| NapStatistics.ConstantSum | apps/nap/monitoring/statistics.cc:66-71 | a list of equal RTTs v sums to v times its length |
| NapStatistics.SumRtts | apps/nap/monitoring/statistics.cc:63-71 | the inner loop gives the list's sum cut to 32 bits and its length cut to 16 bits, as the uint32_t and uint16_t counters wrap |
| NapStatistics.DrainRtts | apps/nap/monitoring/statistics.cc:60-81 | the drain crashes exactly when some list has a non-zero 32-bit sum and a length that wraps to 0; otherwise exactly the FQDNs the code reports are reported, each with the latency the code computes; their lists are emptied and every other list is kept |
| NapStatistics.DrainEndpoints | apps/nap/monitoring/statistics.cc:163-180 | exactly the endpoints not yet reported are copied out unchanged, and every endpoint is marked reported |
| NapStatistics.Statistics.constructor | apps/nap/monitoring/statistics.cc:28-31 | both CMC counters start at 0 and every table starts empty |
| NapStatistics.Statistics.AverageCmcGroupSize | apps/nap/monitoring/statistics.cc:33-50 | the truncated mean of the reported sizes, 0 when none was reported; both counters are reset and nothing else changes |
| NapStatistics.Statistics.CmcGroupSize | apps/nap/monitoring/statistics.cc:86-92 | one more report and its size added, both with 32-bit wrap-around; nothing else changes |
| NapStatistics.Statistics.AverageNetworkDelayPerFqdn | apps/nap/monitoring/statistics.cc:52-84 | crashed exactly when a list divides by zero; otherwise exactly the FQDNs the code reports are reported, each with the latency the code computes, and their lists emptied; nothing else changes |
| NapStatistics.Statistics.IpEndpointAddUe | apps/nap/monitoring/statistics.cc:94-112 | a UE address is recorded, unreported, only the first time it is seen; nothing else changes |
| NapStatistics.Statistics.IpEndpointAddSurrogate | apps/nap/monitoring/statistics.cc:114-134 | a surrogate server with its port is recorded, unreported, only the first time its address is seen |
| NapStatistics.Statistics.IpEndpointAddServer | apps/nap/monitoring/statistics.cc:136-157 | a server with its FQDN and port is recorded, unreported, only the first time its address is seen |
| NapStatistics.Statistics.IpEndpoints | apps/nap/monitoring/statistics.cc:159-181 | exactly the endpoints not yet reported are returned, after which every endpoint is marked reported and nothing is left to report |
| NapStatistics.Statistics.DrainHttpRequestsPerFqdn | apps/nap/monitoring/statistics.cc:183-191 | the accumulated counts are returned and the table is emptied |
| NapStatistics.Statistics.AddHttpRequestsPerFqdn | apps/nap/monitoring/statistics.cc:193-210 | the FQDN's count grows by n with 32-bit wrap-around, or starts at n; no other FQDN's count changes |
| NapStatistics.Statistics.RoundTripTime | apps/nap/monitoring/statistics.cc:212-232 | the RTT goes to the front of the list of the CID's hashed FQDN, a new list being made when there is none; nothing else changes |
| NapStatistics.Latency | apps/nap/monitoring/statistics.cc:57-77 | the latency meant for a non-empty list is at most half its RTT sum |
| NapStatistics.LatencyAsWritten | apps/nap/monitoring/statistics.cc:57-77 | as written, a list is not reported exactly when its sum is 0 modulo 2^32, and divides by zero exactly when that sum is not 0 and its length is a multiple of 65536 |
| NapStatistics.LatencyAsWrittenAgrees | apps/nap/monitoring/statistics.cc:57-77 | below 65536 entries nothing wraps: a zero sum is not reported, and any other list is reported with the intended latency |
| NapStatistics.LatencyAsWrittenWraps | apps/nap/monitoring/statistics.cc:57-77 | 65536 RTTs of 2 divide by zero where the latency is 1; an RTT of 100 before 65536 zeros reports 50 where the latency is 0 |
| NapStatistics.DrainRttsShortLists | apps/nap/monitoring/statistics.cc:60-81 | with every list shorter than 65536 entries the drain never crashes and reports exactly the FQDNs with a non-zero sum, each with the intended latency |
| NapTcpServer.Inc | apps/nap/proxies/http/tcpserver.cc:169 | ++ on a size_t position stays a size_t (npos + 1 wraps to 0) |
| NapTcpServer.Find | apps/nap/proxies/http/tcpserver.cc:222 | find returns npos exactly when the pattern does not occur from the given index |
| NapTcpServer.MethodWindow | apps/nap/proxies/http/tcpserver.cc:216-218 | _httpMethod searches exactly the first 50 bytes of the socket buffer, whatever the segment's length |
| NapTcpServer.ParseMethod | apps/nap/proxies/http/tcpserver.cc:202-294 | the loop's method is the one the pass-by-pass keyword search of the lower-cased window specifies |
| NapTcpServer.FindsFromZero | apps/nap/proxies/http/tcpserver.cc:219-222 | a keyword found from index 1 is found from index 0 too |
| NapTcpServer.MethodUnknownIff | apps/nap/proxies/http/tcpserver.cc:219-287 | for a segment of two bytes or more the method is unknown exactly when no keyword occurs in the window |
| NapTcpServer.MethodFromPath | apps/nap/proxies/http/tcpserver.cc:219-287 | a GET request whose path mentions "post" after the start is classified POST, since each pass tries the keywords in order from one past the previous find |
| NapTcpServer.MethodAtStart | apps/nap/proxies/http/tcpserver.cc:219-287 | a "get" only at index 0 is missed by the first pass's search from index 1: a one-byte segment stays unknown, a longer one is GET on the second pass |
| NapTcpServer.FirstFrom | apps/nap/proxies/http/tcpserver.cc:177-183 | the first index at or after from that holds the character, or none exactly when it does not occur |
| NapTcpServer.FqdnWindow | apps/nap/proxies/http/tcpserver.cc:156-166 | _fqdn searches at most the first 1000 bytes of the segment |
| NapTcpServer.Fqdn | apps/nap/proxies/http/tcpserver.cc:148-200 | the loop's value is the as-written FQDN reading of the window, or none where it reads past the text |
| NapTcpServer.FqdnOf | apps/nap/proxies/http/tcpserver.cc:148-200 | the intended FQDN is the Host header's value up to the line end, and holds no newline |
| NapTcpServer.LineOf | apps/nap/proxies/http/tcpserver.cc:172-188 | the intended header value holds no newline; corrected — see the apps/nap/proxies/http/tcpserver.cc:185-188 Findings row |
| NapTcpServer.LineAgrees | apps/nap/proxies/http/tcpserver.cc:172-188 | wherever the code as written reads a line closed by "\r\n", its value is the intended one |
| NapTcpServer.FqdnAsWrittenBareHost | apps/nap/proxies/http/tcpserver.cc:177-188 | a newline straight after "host: " makes the code read past the text, where the intended FQDN is empty |
| NapTcpServer.LineAsWrittenUnterminated | apps/nap/proxies/http/tcpserver.cc:177-183 | a Host line without a newline makes the code read past the text, where the intended value is the rest of it |
| NapTcpServer.LineAsWrittenBareLf | apps/nap/proxies/http/tcpserver.cc:185-188 | with LF-only line ends the code drops the value's last character, which the intended value keeps |
| NapTcpServer.LineCrLf | apps/nap/proxies/http/tcpserver.cc:172-188 | a header line "value\r\n" yields its value both as written and as intended |
| NapTcpServer.FqdnHostHeader | apps/nap/proxies/http/tcpserver.cc:148-200 | a Host header closed by "\r\n" yields its value both as written and as intended |
| NapTcpServer.HostAt | apps/nap/proxies/http/tcpserver.cc:169-173 | the FQDN is read from six characters after the first "host: " found from index 1 |
| NapTcpServer.Resource | apps/nap/proxies/http/tcpserver.cc:296-327 | the loop's value is the as-written resource reading of the segment, or none where it reads past the text |
| NapTcpServer.ResourceOf | apps/nap/proxies/http/tcpserver.cc:296-327 | the intended resource starts with "/" and holds no space after it |
| NapTcpServer.PathOf | apps/nap/proxies/http/tcpserver.cc:309-315 | "/" and the path up to the next space or the end of the text |
| NapTcpServer.ResourceAt | apps/nap/proxies/http/tcpserver.cc:305-309 | the resource is read from two characters after the first " /" found from index 1 |
| NapTcpServer.PathAgrees | apps/nap/proxies/http/tcpserver.cc:309-315 | wherever the code as written gives a resource, it is the intended one |
| NapTcpServer.PathAsWrittenUnterminated | apps/nap/proxies/http/tcpserver.cc:309-315 | a path that runs to the end of the segment makes the code read past the text, where the intended resource is the whole path |
| NapTcpServer.PathTerminated | apps/nap/proxies/http/tcpserver.cc:309-315 | a path followed by a space yields "/" and the path |
| NapTcpServer.ResourceRequestLine | apps/nap/proxies/http/tcpserver.cc:296-327 | a request line "<method> /<path> HTTP/1.1" yields "/<path>" |
| NapTcpServer.TcpSession.constructor | apps/nap/proxies/http/tcpserver.cc:36-45 | a session starts with the method unknown and no FQDN or resource |
| NapTcpServer.TcpSession.Segment | apps/nap/proxies/http/tcpserver.cc:105-136 | a segment without a method inherits the previous request's method, FQDN and resource; otherwise they are read from it and remembered; it is handed to the HTTP handler exactly when the FQDN is non-empty; corrected — see the apps/nap/proxies/http/tcpserver.cc:177-188 and apps/nap/proxies/http/tcpserver.cc:177-183 and apps/nap/proxies/http/tcpserver.cc:309-315 and apps/nap/proxies/http/tcpserver.cc:185-188 Findings rows |
| NapTcpServer.Round | apps/nap/proxies/http/tcpserver.cc:219-287 | one pass finds no method exactly when none of the keywords occurs from its start index (the second "delete" from its own), and "connect" wins over every other keyword |
| NapTcpServer.MethodOf | apps/nap/proxies/http/tcpserver.cc:202-294 | a one-byte segment gets only the first pass, and a reported method's keyword occurs in the window |
| NapTcpServer.FqdnAsWritten | apps/nap/proxies/http/tcpserver.cc:148-200 | without "host: " after index 0 the FQDN is empty; otherwise a value read is a stretch of the text right after "host: " |
| NapTcpServer.LineAsWritten | apps/nap/proxies/http/tcpserver.cc:172-188 | a value read is a stretch of the text from the start index; the code reads past the text exactly when the line is empty or, in a text cut short of the segment, has no newline |
| NapTcpServer.ResourceAsWritten | apps/nap/proxies/http/tcpserver.cc:296-327 | a resource read starts with "/" and holds no space, and is "/" when no " /" follows index 0 |
| NapTcpServer.PathAsWritten | apps/nap/proxies/http/tcpserver.cc:309-315 | the copy runs past the text exactly when no space follows the start; otherwise the resource is "/" and the text from the start up to the space |
| LtpFragments.Pad | apps/nap/transport/lightweight.cc:2951-2958 | the padding is under 8 bytes and makes the last fragment a multiple of 8 |
| LtpFragments.PendingNext | apps/nap/transport/lightweight.cc:2940-2944 | a full fragment keeps the loop's sent count and sequence number within bounds |
| LtpFragments.PendingLast | apps/nap/transport/lightweight.cc:2946-2958 | the last fragment's padding runs exactly to the padded message end, and its sequence number fits 16 bits |
| LtpFragments.FragmentsFull | apps/nap/transport/lightweight.cc:2940-2995 | with more than mtu bytes to go the loop sends one fragment of mtu bytes numbered one past the previous, then the rest |
| LtpFragments.FragmentsLast | apps/nap/transport/lightweight.cc:2946-2995 | with at most mtu bytes to go the loop sends a single last fragment of the remaining bytes and their padding |
| LtpFragments.Capacity | apps/nap/transport/lightweight.cc:2920-2922 | the payload capacity is the room rounded down to a multiple of 8 |
| LtpFragments.PublishData | apps/nap/transport/lightweight.cc:2909-3008 | with no room for 8 bytes the loop, which as written never ends, reports that it is stalled and sends nothing; otherwise it sends exactly the fragment list of the message, padded with zeros, and returns its length as the last sequence number; corrected — see the apps/nap/transport/lightweight.cc:2986 and apps/nap/transport/lightweight.cc:2920-2921 Findings rows |
| LtpFragments.AppendFull | apps/nap/transport/lightweight.cc:2940-2995 | a full fragment sent by the loop keeps the invariant that sent fragments plus fragments to go is the whole list |
| LtpFragments.AppendLast | apps/nap/transport/lightweight.cc:2946-2995 | the last fragment sent by the loop completes the list |
| LtpFragments.FragmentsNumbered | apps/nap/transport/lightweight.cc:2938 | the fragments are numbered consecutively after the starting sequence number |
| LtpFragments.FragmentsSized | apps/nap/transport/lightweight.cc:2940-2961 | there are no fragments exactly when nothing is left to send; every fragment but the last carries mtu bytes; the last carries 1..mtu payload bytes padded to a multiple of 8 |
| LtpFragments.FragmentCount | apps/nap/transport/lightweight.cc:2927-3005 | there are at most (dataSize - sent) / 8 + 1 fragments to go |
| LtpFragments.FragmentsRoundTrip | apps/nap/transport/lightweight.cc:2927-3005 | the fragments' payloads, padding dropped, put back together in order give back the bytes still to send |
| LtpFragments.RoundTripFull | apps/nap/transport/lightweight.cc:2940-2995 | a full fragment contributes its mtu bytes ahead of the rest |
| LtpFragments.RoundTripLast | apps/nap/transport/lightweight.cc:2946-2995 | the last fragment contributes the remaining bytes without its padding |
| LtpFragments.PayloadsCons | apps/nap/transport/lightweight.cc:517-524 | reassembling a fragment and the rest is its payload followed by theirs |
| LtpFragments.ReceivedNumbered | apps/nap/transport/lightweight.cc:1168-1193 | fragments numbered 1, 2, ... are each buffered under their own number |
| LtpFragments.UptoNumbered | apps/nap/transport/lightweight.cc:510-524 | walking the buffered numbers in ascending order collects the payloads of the first n fragments in order |
| LtpFragments.UptoBeyond | apps/nap/transport/lightweight.cc:510-524 | past the last buffered number nothing more is collected |
| LtpFragments.PayloadsSnoc | apps/nap/transport/lightweight.cc:517-524 | reassembling fragments and one more is their payload followed by its payload |
| LtpFragments.PublishRetrieveRoundTrip | apps/nap/transport/lightweight.cc:456-553 | fragmenting a message, buffering each fragment under its sequence number and reassembling the buffer in ascending order gives back the message |
| LtpFragments.Fragments | apps/nap/transport/lightweight.cc:2927-3005 | there are fragments exactly when bytes are left to send, and the first is numbered one past the fragments already gone |
| LtpFragments.NextFragment | apps/nap/transport/lightweight.cc:2940-2995 | one pass sends mtu bytes numbered one past the previous while more than mtu remain, otherwise the remainder padded with zeros to a multiple of 8, and moves the sent count by the payload |
| LtpFragments.AppendStep | apps/nap/transport/lightweight.cc:2940-2995 | the fragment one pass sends keeps the invariant that sent fragments plus fragments to go is the whole list, and completes the list when it is the last |
| LtpFragments.StepAsWrittenStalls | apps/nap/transport/lightweight.cc:2920-2995 | with less than 8 bytes of room a pass does not move sentBytes and the loop never ends; with 8 or more every pass moves it on |
| LtpFragments.PaddingAsWrittenReadsBeyond | apps/nap/transport/lightweight.cc:2986 | the last fragment of a 5-byte message in 8-byte fragments carries three bytes from behind the message, where the corrected loop pads with zeros |
| LtpGapCheck.Below | apps/nap/transport/lightweight.cc:1919-1920 | the walk visits only sequence numbers below the bound |
| LtpGapCheck.SortedKeys | apps/nap/transport/lightweight.cc:1919-1920 | std::map iteration visits every buffered sequence number exactly once, in ascending order, and visits none exactly when there is none |
| LtpGapCheck.BelowExact | apps/nap/transport/lightweight.cc:1919-1920 | the ascending walk below n lists exactly the buffered numbers under n |
| LtpGapCheck.StepSummary | apps/nap/transport/lightweight.cc:1931-1944 | one more key extends the known-missing range over the gap before it, keeping first and last missing numbers exact |
| LtpGapCheck.AscendingBound | apps/nap/transport/lightweight.cc:1949-1950 | the reverse iterator's first key is the largest buffered number |
| LtpGapCheck.ScanSummary | apps/nap/transport/lightweight.cc:1919-1946 | after the walk the range is exactly the missing numbers up to the largest key |
| LtpGapCheck.FinishSummary | apps/nap/transport/lightweight.cc:1950-1962 | when the announced number was not buffered, the range ends at it and still starts at the first missing number |
| LtpGapCheck.WindowComplete | apps/nap/transport/lightweight.cc:1914-1962 | the check reports all fragments received exactly when none is missing, and otherwise the first and last missing numbers, with every missing number between them |
| LtpGapCheck.ScanAsWrittenFromOne | apps/nap/transport/lightweight.cc:1919-1946 | when fragment 1 arrived the as-written walk agrees with the corrected one |
| LtpGapCheck.WindowAsWrittenFromOne | apps/nap/transport/lightweight.cc:1914-1962 | when fragment 1 arrived and the announced number was buffered or is the next one, the as-written check agrees with the corrected one |
| LtpGapCheck.WindowAsWrittenLosesFragment | apps/nap/transport/lightweight.cc:1922-1929 | with fragments 1 and 2 lost and 3 buffered, the as-written check asks again only for fragment 1 |
| LtpGapCheck.WindowAsWrittenLosesTail | apps/nap/transport/lightweight.cc:1950-1962 | with fragment 1 buffered and 2 and 3 lost, the as-written check asks only for fragment 3 |
| LtpGapCheck.CheckWindow | apps/nap/transport/lightweight.cc:1914-1962 | the loop's result is the corrected check's answer |
| LtpGapCheck.StepAsWritten | apps/nap/transport/lightweight.cc:1922-1944 | as written, a first key other than 1 marks only fragment 1 as missing; every other step is the corrected one |
| LtpGapCheck.Step | apps/nap/transport/lightweight.cc:1931-1944 | one key further: a gap before the key makes the range end at the number before it, every step that leaves everything received had no gap, and a first missing number once set never moves |
| LtpGapCheck.ScanAsWritten | apps/nap/transport/lightweight.cc:1919-1946 | after the as-written walk the previous number is the last key, and the range is empty exactly when nothing was found missing |
| LtpGapCheck.Scan | apps/nap/transport/lightweight.cc:1919-1946 | after the corrected walk the previous number is the last key, and the range is empty exactly when nothing was found missing |
| LtpGapCheck.FinishAsWritten | apps/nap/transport/lightweight.cc:1948-1962 | as written, an announced number above the highest key ends the range there and, when nothing was missing before, makes the range that number alone; otherwise nothing changes |
| LtpGapCheck.Finish | apps/nap/transport/lightweight.cc:1948-1962 | corrected, an announced number above the highest key ends the range there, and the range starts right after the highest key when nothing was missing before; otherwise nothing changes |
| LtpGapCheck.WindowAsWritten | apps/nap/transport/lightweight.cc:1914-1962 | the as-written answer reports all received exactly when its range is empty, and never when the announced number lies above the highest key |
| LtpGapCheck.Window | apps/nap/transport/lightweight.cc:1914-1962 | the corrected answer reports all received exactly when its range is empty, and never when the announced number lies above the highest key |
| LtpTables.Child | apps/nap/transport/lightweight.cc:1103-1127 | a level's child map is the stored one, or an empty one when the key is absent |
| LtpTables.Put3 | apps/nap/transport/lightweight.cc:1223-1305 | storing under rCID > ripd > SK makes the value findable there, leaves every other path as it was, and adds only the rCID |
| LtpTables.Put3Same | apps/nap/transport/lightweight.cc:1292-1303 | storing the value a path already holds changes nothing |
| LtpTables.Put3NoEmpty | apps/nap/transport/lightweight.cc:1223-1305 | storing keeps every level non-empty |
| LtpTables.PruneAt | apps/nap/transport/lightweight.cc:1531-1545 | a changed inner level is put back, or its key dropped when it became empty; other keys are untouched |
| LtpTables.Erase3 | apps/nap/transport/lightweight.cc:1502-1548 | erasing leaves the path empty, and changes nothing when it was absent |
| LtpTables.ErasePut3 | apps/nap/transport/lightweight.cc:1502-1548 | erasing an entry just stored under a free path gives the table back, levels and all |
| LtpTables.Erase3At | apps/nap/transport/lightweight.cc:1502-1548 | erasing one entry leaves any other path as it was |
| LtpTables.Erase3Others | apps/nap/transport/lightweight.cc:1502-1548 | erasing one entry leaves every other path as it was |
| LtpTables.Erase3NoEmpty | apps/nap/transport/lightweight.cc:1502-1548 | erasing keeps every level non-empty |
| LtpTables.BufferSentStores | apps/nap/transport/lightweight.cc:1203-1311 | after buffering, the session holds the sequence number with the packet first buffered under it besides its other numbers; every other session is unchanged |
| LtpTables.BufferSentIdempotent | apps/nap/transport/lightweight.cc:1292-1303 | a second packet under a buffered sequence number changes nothing |
| LtpTables.BufferSentNoEmpty | apps/nap/transport/lightweight.cc:1203-1311 | buffering a sent packet keeps every level non-empty |
| LtpTables.EraseSentNoEmpty | apps/nap/transport/lightweight.cc:1440-1500 | deleting a buffered session keeps every level non-empty |
| LtpTables.Put4 | apps/nap/transport/lightweight.cc:1049-1201 | storing a session under rCID > ripd > NID > SK makes it findable there |
| LtpTables.Put4Others | apps/nap/transport/lightweight.cc:1049-1201 | storing one session leaves every other session as it was |
| LtpTables.PruneNoEmptyIcn | apps/nap/transport/lightweight.cc:536-549 | putting back a ripd level without empty levels, or dropping an empty one, keeps the ICN buffer without empty levels |
| LtpTables.Put4NoEmpty | apps/nap/transport/lightweight.cc:1049-1201 | storing a non-empty session keeps the ICN buffer without empty levels |
| LtpTables.BufferIcnStores | apps/nap/transport/lightweight.cc:1049-1201 | after buffering, the session holds the payload under its number unless one of the same length was there, and keeps its other numbers; other sessions are unchanged |
| LtpTables.BufferIcnIdempotent | apps/nap/transport/lightweight.cc:1168-1193 | buffering the same payload twice is buffering it once |
| LtpTables.BufferIcnNoEmpty | apps/nap/transport/lightweight.cc:1049-1201 | buffering keeps every level non-empty |
| LtpTables.BufferIcnAsWrittenDangles | apps/nap/transport/lightweight.cc:1168-1193 | a payload of a new length under a known sequence number is dropped by the source, which frees the old one yet keeps pointing at it; the corrected buffer holds the new payload |
| LtpTables.BufferIcnAsWrittenAgrees | apps/nap/transport/lightweight.cc:1168-1193 | wherever the source's buffer is not left dangling it agrees with the corrected one |
| LtpTables.EraseIcn | apps/nap/transport/lightweight.cc:527-550 | the corrected clean-up removes the retrieved session |
| LtpTables.EraseIcnKeeps | apps/nap/transport/lightweight.cc:527-550 | the corrected clean-up leaves every other session alone and no level empty |
| LtpTables.Retrieve | apps/nap/transport/lightweight.cc:456-553 | nothing is retrieved exactly when a level is missing; otherwise the packet is the session's payloads in ascending order, its length truncated to 16 bits, and the session is removed from the buffer; corrected — see the apps/nap/transport/lightweight.cc:531-542 Findings row |
| LtpTables.EraseIcnAsWrittenLosesSessions | apps/nap/transport/lightweight.cc:531-542 | retrieving a node's only session erases, in the source, the whole ripd level with another node's buffered fragments; the corrected clean-up keeps them |
| LtpTables.EraseIcnAsWrittenAgrees | apps/nap/transport/lightweight.cc:527-531 | when the node still has other sessions the source's clean-up and the corrected one agree |
| LtpTables.NewGroupForKnownRipdAsWritten | apps/nap/transport/lightweight.cc:608-624 | the group the source creates under a known rCID and ripd leaves its end sequence unset |
| LtpTables.NewGroup | apps/nap/transport/lightweight.cc:567-570 | a new group holds just the node and the NACK's range |
| LtpTables.MergeGroup | apps/nap/transport/lightweight.cc:625-664 | merging keeps node ids distinct, adds exactly the node, and widens the range to cover both the group's and the NACK's |
| LtpTables.AddNackKeeps | apps/nap/transport/lightweight.cc:555-665 | adding a NACK keeps the groups valid, puts the node in the NACK's group, and leaves every other group as it was |
| LtpTables.AddNackNoEmpty | apps/nap/transport/lightweight.cc:555-665 | adding a NACK keeps every level non-empty |
| LtpTables.EraseGroupsValid | apps/nap/transport/lightweight.cc:1502-1548 | deleting a NACK group keeps the groups valid |
| LtpTables.AddNackIdempotent | apps/nap/transport/lightweight.cc:625-664 | the same NACK from the same node added twice is added once |
| LtpTables.NewGroupAsWrittenLacksEnd | apps/nap/transport/lightweight.cc:608-624 | the as-written group under a known ripd has no end sequence where the corrected one has the NACK's end, with the same node ids |
| LtpTables.BufferSent | apps/nap/transport/lightweight.cc:1203-1311 | after buffering, the session holds the sequence number; a number already buffered leaves the buffer unchanged, and a new one holds the packet |
| LtpTables.BufferIcnAsWritten | apps/nap/transport/lightweight.cc:1168-1193 | as written, the entry is left dangling exactly when a known sequence number arrives with a new length, and a known number never changes the buffer; a new number is added to its session |
| LtpTables.BufferIcn | apps/nap/transport/lightweight.cc:1049-1201 | corrected, the session holds a payload of the new length under the number; a same-length repeat leaves the buffer unchanged, and otherwise the payload is stored under the number |
| LtpTables.EraseIcnAsWritten | apps/nap/transport/lightweight.cc:527-550 | the as-written clean-up removes the session, and on removing a node's last session it removes every session of every other node under the same ripd |
| LtpTables.Merge | apps/nap/transport/lightweight.cc:625-664 | a merged group keeps the old nodes and holds the new one, and its range covers both the group's and the NACK's |
| LtpTables.AddNack | apps/nap/transport/lightweight.cc:555-665 | after a NACK its session has a group that holds the node and every node the group held before |
| LtpLightweight.ConcatBelow | apps/nap/transport/lightweight.cc:517-524 | concatenating the buffered payloads of the numbers below n in ascending order is the walk that collects them |
| LtpLightweight.AnswerForMeans | apps/nap/transport/lightweight.cc:1914-1997 | for a buffered session the window is reported complete, with the session key, exactly when nothing up to the highest of the announced and buffered numbers is missing; otherwise the NACK range runs from a missing number to a missing number, holds every missing one, and starts at 1 when fragment 1 is missing; some answer is always sent; corrected — see the apps/nap/transport/lightweight.cc:1922-1929 and lightweight.cc:1950-1962 Findings rows |
| LtpLightweight.Unconfirmed | apps/nap/transport/lightweight.cc:3711-3720 | the loop lists, in ascending order and each once, exactly the node ids whose window update has not been confirmed |
| LtpLightweight.Resized | apps/nap/transport/lightweight.cc:3756 | forward_list::resize keeps the first n entries and fills up with zeros |
| LtpLightweight.MeanOfList | apps/nap/transport/lightweight.cc:3728-3745 | the mean is the truncated quotient of the list's sum by the list size, and a list of equal RTTs v has mean v |
| LtpLightweight.RecordedKeeps | apps/nap/transport/lightweight.cc:3747-3759 | the corrected list keeps the configured size: the new RTT, at least 1 ms, in front, then the newest entries of the old list |
| LtpLightweight.RecordedAsWrittenGrows | apps/nap/transport/lightweight.cc:3755-3757 | the as-written list grows to the list size plus one, so a list of one 200 ms entry has a mean of 400 ms after recording 200 ms, where the corrected list's mean is 200 ms |
| LtpLightweight.BufferAllReceived | apps/nap/transport/lightweight.cc:1049-1201 | buffering fragments numbered 1, 2, ... into a free session leaves the session holding exactly the received fragments |
| LtpLightweight.PublishBufferRetrieve | apps/nap/transport/lightweight.cc:456-553 | fragmenting a message, buffering its fragments into a free session and retrieving it gives back the message and its length |
| LtpLightweight.Reassemble | apps/nap/transport/lightweight.cc:507-524 | the packet is the session's payloads in ascending order, and its size is their total length truncated to 16 bits |
| LtpLightweight.PacketSize | apps/nap/transport/lightweight.cc:509-514 | the first loop's total is the reassembled packet's length truncated to 16 bits |
| LtpLightweight.CopyOut | apps/nap/transport/lightweight.cc:515-524 | the second loop copies out the session's payloads in ascending order |
| LtpLightweight.ConcatStep | apps/nap/transport/lightweight.cc:517-522 | one more key appends its payload |
| LtpLightweight.Lightweight.constructor | apps/nap/transport/lightweight.cc:38-60 | the RTT list starts with the configured number of 200 ms entries, none for a configured size of 0, and every buffer starts empty |
| LtpLightweight.Lightweight.BufferIcnPacket | apps/nap/transport/lightweight.cc:1049-1201 | the ICN buffer becomes the corrected buffering of the payload, and no level is left empty; corrected — see the apps/nap/transport/lightweight.cc:1168-1193 Findings row |
| LtpLightweight.Lightweight.BufferLtpPacket | apps/nap/transport/lightweight.cc:1203-1311 | the LTP buffer becomes the buffering of the packet, a repeated sequence number keeping its first packet |
| LtpLightweight.Lightweight.BufferProxyPacket | apps/nap/transport/lightweight.cc:1313-1438 | the proxy buffer becomes the buffering of the packet, a repeated sequence number keeping its first packet |
| LtpLightweight.Lightweight.RetrievePacket | apps/nap/transport/lightweight.cc:456-553 | found exactly when the session is buffered; then the packet, its 16-bit size and the buffer left behind are those of the retrieval specification; otherwise the buffer is unchanged; corrected — see the apps/nap/transport/lightweight.cc:531-542 Findings row |
| LtpLightweight.Lightweight.AddNackNodeId | apps/nap/transport/lightweight.cc:555-665 | the NACK groups become the corrected addition of the node to the NACK's group; corrected — see the apps/nap/transport/lightweight.cc:608-624 Findings row |
| LtpLightweight.Lightweight.DeleteBufferedLtpPacket | apps/nap/transport/lightweight.cc:1440-1500 | the session under ripd 0 is erased from the LTP buffer, with each level that became empty |
| LtpLightweight.Lightweight.DeleteNackGroup | apps/nap/transport/lightweight.cc:1502-1548 | the NACK's group is erased, with each level that became empty |
| LtpLightweight.Lightweight.WudsNotReceived | apps/nap/transport/lightweight.cc:3689-3726 | exactly the node ids of the session whose window update is unconfirmed, in ascending order, and none when a level is missing |
| LtpLightweight.Lightweight.WindowEnd | apps/nap/transport/lightweight.cc:1854-1997 | the answer to a CTRL-WE is that of the window-end specification: no action for an unknown rCID, ripd or SK or without a reverse look-up entry, a confirmation for an unknown NID, and otherwise the gap walk's answer |
| LtpLightweight.Lightweight.Rtt | apps/nap/transport/lightweight.cc:3728-3745 | a configured list size of 0 divides by zero and is reported as a crash; otherwise the result is the truncated mean of the RTT list over the configured list size |
| LtpLightweight.Lightweight.RecordRtt | apps/nap/transport/lightweight.cc:3747-3759 | the RTT list becomes the corrected list with the new RTT in front, and a list of size 0 stays empty; corrected — see the apps/nap/transport/lightweight.cc:3755-3757 Findings row |
| LtpLightweight.WindowEndAnswerOf | apps/nap/transport/lightweight.cc:1854-1997 | no action for an unknown rCID, ripd or SK or without a reverse look-up entry; a bare confirmation exactly for a known session whose NID has nothing buffered; the gap walk's answer, under the CTRL-WE's SK, exactly when the session is buffered |
| LtpLightweight.Mean | apps/nap/transport/lightweight.cc:3728-3745 | for a list no longer than the configured size the mean is the truncated quotient of its sum by that size, with nothing cut by the uint16 result |
| LtpLightweight.MeanFits | apps/nap/transport/lightweight.cc:3728-3745 | the mean of at most list-size RTTs fits 16 bits |
| LtpLightweight.RecordedAsWritten | apps/nap/transport/lightweight.cc:3747-3759 | the as-written list holds list size + 1 entries: the new RTT, at least 1 ms, then the old entries cut or zero-filled to the list size |
| LtpLightweight.Recorded | apps/nap/transport/lightweight.cc:3747-3759 | the corrected list holds exactly list size entries: the new RTT, at least 1 ms, then the newest old entries, zero-filled |
| LtpLightweight.SizeStep | apps/nap/transport/lightweight.cc:509-514 | adding one more fragment length to the 16-bit total keeps it the length so far truncated to 16 bits |
| LtpLightweight.ConcatSorted | apps/nap/transport/lightweight.cc:509-524 | walking all of a session's sequence numbers in ascending order collects the reassembled packet |
| NapHttp.AppendedKeeps | apps/nap/namespaces/http.cc:66-80 | appending an rCID or session key unless it is listed keeps exactly the old elements plus the new one, creates no repetition and is the identity on a listed element |
| NapHttp.Find | apps/nap/namespaces/http.cc:67-78 | the list search loop reports found exactly when the element occurs in the list |
| NapHttp.AddReverseKeeps | apps/nap/namespaces/http.cc:49-84 | after addReversNidTorCIdLookUp the NID lists its old rCIDs plus the new one, every other NID's entry is unchanged, and lists stay non-empty and repetition-free |
| NapHttp.AddReverseIdempotent | apps/nap/namespaces/http.cc:69-78 | adding an rCID a second time for the same NID changes nothing |
| NapHttp.AddSessionKeeps | apps/nap/namespaces/http.cc:773-825 | after _addIpEndpointSession rCID > 0 lists its old session keys plus the new one, every other ripd and rCID is unchanged, and no level is empty or repeats a key |
| NapHttp.RemoveFirstKeeps | apps/nap/namespaces/http.cc:101-115 | erasing the first occurrence from a repetition-free list removes the key altogether and keeps every other key without creating repetitions |
| NapHttp.RemoveSessionKey | apps/nap/namespaces/http.cc:95-124 | the first loop of deleteSessionKey keeps every rCID and every ripd entry, only their lists shrink |
| NapHttp.Ascending | apps/nap/namespaces/http.cc:127-174 | the order a std::map is walked in: strictly ascending and holding exactly the map's keys |
| NapHttp.AscendingUnique | apps/nap/namespaces/http.cc:127-174 | two strictly ascending lists with the same elements are the same list, so the walk order of a map is determined by its keys |
| NapHttp.AscendingLeast | apps/nap/namespaces/http.cc:127-174 | the first key of an ascending walk is the least one |
| NapHttp.AscendingTail | apps/nap/namespaces/http.cc:127-174 | after the first key of an ascending walk come exactly the other keys |
| NapHttp.Walk | apps/nap/namespaces/http.cc:126-174 | the pruning walk (erase, reset to begin(), advance) only ever drops keys whose entry is empty and keeps every other key |
| NapHttp.SessionKeyDeletedKeeps | apps/nap/namespaces/http.cc:86-174 | deleteSessionKey as intended leaves the key in no list, keeps every other key under its rCID > ripd, and leaves no empty list or map |
| NapHttp.SessionKeyDeletedAsWrittenLeavesEmpty | apps/nap/namespaces/http.cc:154-172 | as written, when two rCIDs both lose their only session key the walk erases the first, resets and advances past the second, so the second is left with an empty ripd map; the intended deletion leaves nothing |
| NapHttp.TwoSessionsDeleted | apps/nap/namespaces/http.cc:86-174 | the intended deletion of key 7 from two single-session rCIDs empties the table |
| NapHttp.CreateGroupKeeps | apps/nap/namespaces/http.cc:956-1024 | _createCmcGroup installs the NIDs under rCID > 0 > SK unless a non-empty group is already there, replaces an empty one, leaves every other group alone, and keeps every level non-empty |
| NapHttp.CloseCreatedGroup | apps/nap/namespaces/http.cc:176-228 | closeCmcGroup after _createCmcGroup on a session without a group returns the CMC table to what it was |
| NapHttp.SetForwardingMeans | apps/nap/namespaces/http.cc:475-493 | forwarding on a known NID makes _forwardingEnabled report the new state, an unknown NID stays disabled and unknown, and no other NID's state changes |
| NapHttp.CmcGroupLookupMeans | apps/nap/namespaces/http.cc:1059-1226 | for a first packet with no NIDs and no non-empty group, the NIDs sent to are exactly the ready ones with forwarding enabled, in ascending order, they become the CMC group and leave the potential group with every other NID kept, and the packet is buffered exactly when a ready NID lacks forwarding or none moved |
| NapHttp.BufferRequestStores | apps/nap/namespaces/http.cc:827-903 | _bufferRequest stores the request with ripd 0 and a copy of exactly packetSize bytes under CID > rCID and keeps every other buffered request |
| NapHttp.BufferRequestOverwrites | apps/nap/namespaces/http.cc:827-903 | a second request for the same CID > rCID replaces the first |
| NapHttp.SelectNids | apps/nap/namespaces/http.cc:1157-1187 | the loop over the potential group yields exactly the ready NIDs with forwarding enabled, in ascending order, and flags whether a ready NID still lacks forwarding |
| NapHttp.EraseNids | apps/nap/namespaces/http.cc:1199-1209 | the erase loop removes exactly the moved NIDs from the potential group and keeps every other NID with its flag |
| NapHttp.Http.constructor | apps/nap/namespaces/http.cc:33-45 | a new handler starts with all six tables empty and its invariant holding |
| NapHttp.Http.AddReversNidTorCIdLookUp | apps/nap/namespaces/http.cc:49-84 | the reverse look-up becomes the old one with the rCID added for the NID; lists stay non-empty and repetition-free |
| NapHttp.Http.AddIpEndpointSession | apps/nap/namespaces/http.cc:773-825 | the session table becomes the old one with the key added under rCID > 0; the invariant is kept |
| NapHttp.Http.DeleteSessionKey | apps/nap/namespaces/http.cc:86-174 | the session table becomes the old one with the key deleted everywhere and empty levels dropped; the invariant is kept; corrected — see the apps/nap/namespaces/http.cc:154-172 Findings row |
| NapHttp.Http.CloseCmcGroup | apps/nap/namespaces/http.cc:176-228 | the group under rCID > 0 > SK is erased and the levels it leaves empty are pruned; the invariant is kept |
| NapHttp.Http.CreateCmcGroup | apps/nap/namespaces/http.cc:956-1024 | the CMC table becomes the old one with the group created as _createCmcGroup decides; the invariant is kept |
| NapHttp.Http.Forwarding | apps/nap/namespaces/http.cc:475-493 | the known-NID table becomes the old one with a known NID's state set |
| NapHttp.Http.IsForwardingEnabled | apps/nap/namespaces/http.cc:1039-1057 | reports true exactly for a known NID whose state is enabled |
| NapHttp.Http.BufferRequestPacket | apps/nap/namespaces/http.cc:827-903 | the request buffer becomes the old one with the request stored under CID > rCID |
| NapHttp.Http.GetCmcGroup | apps/nap/namespaces/http.cc:1059-1226 | the returned buffer flag and NIDs and the new CMC and potential tables are those of the _getCmcGroup specification, whose meaning CmcGroupLookupMeans states; the invariant is kept |
| NapHttp.Http.MoveNids | apps/nap/namespaces/http.cc:1137-1225 | the move from the potential group to a new CMC group yields the buffer flag, NIDs and tables of its specification; the invariant is kept |
| NapHttp.AddReverse | apps/nap/namespaces/http.cc:49-84 | afterwards the NID lists exactly its old rCIDs and the new one, an rCID already listed changes nothing, and every other NID keeps its list |
| NapHttp.AddSession | apps/nap/namespaces/http.cc:773-825 | afterwards rCID > 0 lists exactly its old session keys and the new one, and every other rCID keeps its entry |
| NapHttp.SessionKeyDeletedAsWritten | apps/nap/namespaces/http.cc:86-174 | the as-written deletion only ever removes rCIDs and ripd entries, never adds any |
| NapHttp.SessionKeyDeleted | apps/nap/namespaces/http.cc:86-174 | the intended deletion only removes entries, and leaves no empty ripd map and no empty session-key list |
| NapHttp.CreateGroup | apps/nap/namespaces/http.cc:956-1024 | a non-empty group already under rCID > 0 > SK is kept with the table unchanged; otherwise the group becomes the given NIDs |
| NapHttp.CmcGroupLookup | apps/nap/namespaces/http.cc:1059-1226 | an existing non-empty group is used as it is with both tables unchanged; only the first packet of a response with no NIDs given can be buffered or change the tables |
| NapHttp.MovedLookup | apps/nap/namespaces/http.cc:1137-1225 | the NIDs moved are exactly the ready ones with forwarding enabled, and the packet is buffered exactly when a ready NID lacks forwarding or none moved |
| NapHttp.BufferRequest | apps/nap/namespaces/http.cc:827-903 | the request is stored under CID > rCID with ripd 0, its session key and a copy of exactly packetSize bytes; every other buffered request stays |
| Text.Strtol | apps/coapproxy/coap_proxy.c:133 | strtol's value always lies in the 64-bit long range, and is 0 for a text of only white space |
| Text.Atoi | lib/bampers/cidanalyser.cc:199-207 | atoi's value is a 32-bit int congruent to strtol's value modulo 2^32 (the truncation of the long to int) |

## Left out

- Sockets, netlink, pcap, libnet, the ICN core's publish and subscribe calls, OpenDaylight's datastore and switch programming, and the SQL statements are outside the model. Calls the core makes into them are recorded as action or query values (IcnCall, the switch and registry actions, Query), or their answers are parameters.
- Clocks are parameters: time(0) in the BAMPERS data points is `epoch`, and the current time in the CoAP client table is `now`. Timers, the thread spawns, the buffer cleaners and the busy-wait retry loops are left out because they only schedule work.
- Mutexes are absent and the model is sequential, because every operation runs under its table's lock. The unbalanced unlock in lib/bampers/namespace.cc is a locking defect and is not modelled.
- Floating point is absent: the `ceil` and `floor` calls of the NAP statistics and of `_rtt()` apply to integer quotients and are modelled as integer division.
- The resource manager's answers to the bootstrapping service are inputs (the replies and offers the service methods take), because the request travels over the network.
- Bootstrapping.ApplyOffers: the lidToIpv6 and InetAddress parse of each offer is a parameter `convert`. The one fact used about it, that it escapes its handler only for a LID shorter than 256 characters, is the precondition ThrowsOnShort. LidCodec.LinkAddresses states that fact in its own ensures, and Bootstrapping.LinkAddressesThrowsOnShort proves ThrowsOnShort for the real conversion.
- LidCodec.LinkAddresses: its own ensures states only when the exception escapes. LidCodec.LinkAddressesParses states when two addresses result.
- LidCodec.ParseBinary: only the ASCII digits '0' and '1' are read as binary digits. Java's Integer.parseInt also accepts every other Unicode digit whose value is 0 or 1, through Character.digit. The LIDs it is applied to are built from '0' and '1' only, so such digits never reach it.
- LidCodec.LidBytes: the Java byte loop of lidToIpv6 is modelled by recursion over the 8-character chunks, stated chunk by chunk in the lemmas beside it.
- ResourceManager.LinkIdSpec and ResourceManager.RequestOfferSpec: their ensures state only that the tables stay consistent. What the string and request overloads return and record is stated in ResourceManager.LinkPositionSpec, ResourceManager.LinkIdIdempotent, ResourceManager.LinkLimit and ResourceManager.RequestOfferFields.
- The graph code of resource_manager.cpp (addNode, addNodeConnector, updateGraph and the igraph calls) is left out because it depends on igraph and Bitvector. The model records the graph updates as actions.
- MolyAddLink.AddLink.FromBuffer, MolyAddLink.AddLink.DecomposePacket, MolyAddNode.AddNode.FromBuffer, MolyAddNode.AddNode.DecomposePacket, MolyAddNodeType.AddNodeType.FromBuffer, MolyAddNodeType.AddNodeType.DecomposePacket, MolyLinkState.LinkState.FromBuffer, MolyLinkState.LinkState.DecomposePacket, MolyNodeState.NodeState.FromBuffer, MolyNodeState.NodeState.DecomposePacket, MolyNetworkLatencyPerFqdn.NetworkLatencyPerFqdn.FromBuffer, MolyNetworkLatencyPerFqdn.NetworkLatencyPerFqdn.DecomposePacket, MolyHttpRequestsPerFqdn.HttpRequestsPerFqdn.FromBuffer, MolyHttpRequestsPerFqdn.HttpRequestsPerFqdn.DecomposePacket, CoapMessage.CoapPacket.Received, CoapMessage.CoapPacket.OptionCountFromRecv and CoapMessage.CoapPacket.ParseOptionsFromRcv: a received buffer too short for what it announces is read past its end in the C++ code, which is undefined behaviour. The model flags it in the field readPastEnd and does not say what the junk bytes would be. The decomposition leaves the fields as they were, the fresh objects hold unspecified fields, and a received CoAP packet stops after the failed count.
- CoapMessage.CoapPacket.Received: isProxy and maxDelta are left uninitialised by the receiving constructor. The model sets them to false and 0.
- CoapCodec.EncodeVarBytesAsWritten: requires a buffer longer than the byte count. apps/coapproxy/coap_proxy.c:132-134 passes a two-byte `portbuf`, so for a port of 256 or more the shifted write also lands one byte past it. The model exhibits the misread port (EncodeVarBytesAsWrittenShifts) but not that out-of-bounds write.
- CoAP_packet::parse and getResourceURIfromOptions are left out. The '[' branch loop of parse never advances, and getResourceURIfromOptions writes into a fixed 50-byte buffer; neither has a coherent contract.
- lib/bampers/datapoints/name.cc is left out because its length field and offset disagree, so it has no coherent contract.
- The ELEMENT_TYPE_LNK and FN_TM_RV cases of the ADD_NODE merge, and every other stored type outside GW..FN_GW_TM_RV, issue an update with an uninitialised type: they fall to RoleMerge's final `else UninitialisedType`. The model reports them as UninitialisedType, with no further meaning.
- The print and logging helpers of all primitives are left out, except the enum labels the MOLY print() methods show.
- The LTP packet header's byte layout is left out because it depends on enum sizes from lightweighttypedef.hh, which is not part of this model. Fragments carry their sequence number, payload length and bytes as fields.
- LtpTables.Retrieve and LtpLightweight.Reassemble: reassembly is modelled only as far as 65535 bytes. apps/nap/transport/lightweight.cc:516-522 keeps its copy offset in a uint16_t and writes into the 65535-byte retrievedPacket of apps/nap/icn.cc:56. A session whose payloads total more than that overruns the buffer, and past 65536 bytes the offset wraps and overwrites its start. Both members return the whole concatenation instead, with only the reported size cut to 16 bits. A conforming sender cannot produce such a session, because _publishData takes a uint16_t dataSize (lightweight.cc:2909-2910); only a non-conforming peer can.
- LtpFragments.PublishData: the model describes only fragments whose padded size plus the LTP data header stays below 65536 bytes. _publishData keeps fragmentSize and packetSize in uint16_t variables (apps/nap/transport/lightweight.cc:2914-2916). The uint32 mtu (lightweight.cc:2920-2922) exceeds 65535 when the configured MTU is smaller than the headers it subtracts. A message of 65529 to 65535 bytes then pads to a fragmentSize of 0 (lightweight.cc:2955), so one fragment without payload goes out and sentBytes wraps past dataSize (lightweight.cc:2995). A somewhat shorter fragment makes packetSize wrap below fragmentSize (lightweight.cc:2961), and the memcpy at lightweight.cc:2986 writes past the allocated packet, which is undefined behaviour. The model sends such a message as one padded fragment. The header's size depends on enum sizes outside this model, so the exact bound is not stated.
- LtpFragments.PublishData: the credit check and the sleep between fragments of _publishData are left out, because they only pace the sending.
- The CTRL-WED/SED waits of the LTP publish path, and the windowUpdate helpers that add and remove NIDs, are left out. The model only reads the awaited window updates, in WudsNotReceived.
- The CID reverse look-up of the CTRL-WE handler is the parameter `cidKnown`.
- http_methods_t's header is not part of this model. The methods are a datatype of their own, and their numeric values are left out.
- The blocking retry in the HTTP handler's handleResponse is left out because it is a wait loop around the ICN core.
- The request timestamp of request_packet_t is left out because only the buffer cleaner, which is outside the model, reads it.
- NapTcpServer.MethodWindow, NapTcpServer.ParseMethod and NapTcpServer.TcpSession.Segment: they require a socket buffer of at least 50 bytes. _httpMethod always copies the buffer's first 50 bytes (apps/nap/proxies/http/tcpserver.cc:216), whatever the segment's length. The buffer has the configured tcpServerSocketBufferSize (tcpserver.cc:55). A configured size below 50 makes that copy read past the array, which is undefined behaviour and is not modelled. The bytes behind a short segment are whatever the buffer held before; the model takes them as given.

## Findings

| source | as written | input that shows it | evidently intended | confidence | as-written member | corrected member |
|---|---|---|---|---|---|---|
| lib/bampers/datapoints/statistics.cc:72-85 | the running offset of the HTTP-requests payload is a uint8_t | an FQDN of 248 bytes: the offset wraps to 0 and the request count overwrites the epoch | a size_t offset | not executed | BampersDatapoints.HttpRequestsLongOverwritesEpoch | BampersDatapoints.HttpRequestsPayload |
| lib/bampers/datapoints/state.cc:68 | memcpy copies from the address of the std::string object | any hostname, for example "a" | copy the hostname's characters | not executed | BampersDatapoints.HostnameStateCopiesObject | BampersDatapoints.HostnameStatePayload |
| apps/monitoring/server/mysqlconnector.cc:90-552 | the server's running offset is a uint8_t, so the count is read at (8 + FQDN length) mod 256 | a 248-byte FQDN: the count is read from offset 0, where the builder as written also put it over the epoch | a size_t offset | not executed | MonitoringServer.HttpRequestsAsWrittenEpoch | MonitoringServer.HttpRequestsRoundTrip |
| apps/coapproxy/coap.cpp:695-697 | a one-byte delta extension is chosen for values below 270 | delta 269 is written as 0xd0 0x00 and reads back as 13 | values below 269 (13 + 255 is the largest one-byte extension) | not executed | CoapCodec.OptionEncodeAsWrittenMisencodes | CoapCodec.OptionHeader |
| apps/coapproxy/coap.cpp:105-109 | after a delta extension, the low byte of a two-byte length is read at pos+2 | a one-byte delta extension and length 527: reads as 526 | read the low byte behind the delta extension | not executed | CoapCodec.DecodeHeaderAsWrittenMisreads | CoapCodec.DecodeOptionHeader |
| apps/coapproxy/coap.cpp:222-226 | reaching the 0xFF payload marker returns 1 | a message with no option and a payload: the count is 1 | return the options counted so far | not executed | CoapCodec.OptionCountAsWrittenWithoutOptions | CoapCodec.CountEncoded |
| apps/coapproxy/coap.cpp:762-766 | the value is written to buf[1..n] | port 5683: the first two bytes read back as 22 | write it to buf[0..n) | not executed | CoapCodec.EncodeVarBytesAsWrittenShifts | CoapMessage.EncodeVarBytes |
| apps/coapproxy/coap.cpp:538-541 | the payload marker is written at 4+TKL | a packet with one option: the marker overwrites it | write the marker behind the options | not executed | CoapMessage.AddPayloadAsWrittenLosesOptions | CoapMessage.CoapPacket.AddPayload |
| apps/coapproxy/clients.c:38 | the keep-alive's tv_usec is the millisecond remainder itself | a 1500 ms timeout gives 1.0005 s | the remainder times 1000 | not executed | CoapClients.KeepAliveAsWrittenShort | CoapClients.KeepAlive |
| apps/coapproxy/clients.c:111-126 | an unsigned size_t recvlen is tested for < 0 | a failed receive (-1) becomes 2^64-1 and is accepted | a signed length, so that a failure is rejected | not executed | CoapClients.ReceivedLengthAsWrittenAcceptsFailure | CoapClients.ReceivedLength |
| apps/nap/proxies/http/tcpserver.cc:177-188 | the FQDN length is the distance to the newline minus one, in size_t | "host: " straight followed by a newline: the length underflows and the copy reads past the text | an empty FQDN | not executed | NapTcpServer.FqdnAsWrittenBareHost | NapTcpServer.FqdnOf |
| apps/nap/proxies/http/tcpserver.cc:177-183 | the Host value runs to the next newline, and the scan stops otherwise only at the segment size | a segment over 1000 bytes whose Host line has no newline in the first 1000: the scan and the copy read past the 1000-byte text (in a segment of at most 1000 bytes the size bound stops the scan and the copy yields the rest of the text) | the rest of the text | not executed | NapTcpServer.LineAsWrittenUnterminated | NapTcpServer.LineOf |
| apps/nap/proxies/http/tcpserver.cc:185-188 | the copy always drops the last character before the newline, taking it for the carriage return | "host: a.b\n" with an LF-only line end: the FQDN is "a." | drop the last character only when it is a carriage return | not executed | NapTcpServer.LineAsWrittenBareLf | NapTcpServer.LineOf |
| apps/nap/proxies/http/tcpserver.cc:309-315 | the path runs to the next space, without a test for npos | a request line that ends after its path: the copy reads past the text | the whole path | not executed | NapTcpServer.PathAsWrittenUnterminated | NapTcpServer.PathOf |
| apps/nap/transport/lightweight.cc:1922-1929 | when the first buffered number is above 1, the missing range starts and ends at 1 | fragments 1 and 2 lost, 3 buffered: only fragment 1 is asked for again | the range 1 to 2 | not executed | LtpGapCheck.WindowAsWrittenLosesFragment | LtpGapCheck.WindowComplete |
| apps/nap/transport/lightweight.cc:1950-1962 | when nothing is missing before the last buffered number but the announced one is beyond it, the range starts at the announced number | fragment 1 buffered, 2 and 3 lost: only fragment 3 is asked for again | the range 2 to 3 | not executed | LtpGapCheck.WindowAsWrittenLosesTail | LtpGapCheck.WindowComplete |
| apps/nap/transport/lightweight.cc:1168-1193 | a repeated fragment of a new length frees the old payload and calls std::map::insert, which keeps the old entry | the same sequence number with a different length: the buffer points at freed memory | replace the entry | not executed | LtpTables.BufferIcnAsWrittenDangles | LtpTables.BufferIcnStores |
| apps/nap/transport/lightweight.cc:531-542 | the ripd level is erased when it is NOT empty | two NIDs buffered under one ripd, one retrieved: the other's fragments are lost | erase the level when it is empty | not executed | LtpTables.EraseIcnAsWrittenLosesSessions | LtpTables.EraseIcnKeeps |
| apps/nap/transport/lightweight.cc:608-624 | a new NACK group under a known rCID and ripd gets no end sequence | a NACK for a new session key under a known ripd | set the end to the NACK's end | not executed | LtpTables.NewGroupAsWrittenLacksEnd | LtpTables.NewGroup |
| apps/nap/transport/lightweight.cc:3755-3757 | the RTT list is resized to its size and then pushed at the front | a list of one 200 ms entry, then 200 ms recorded: the mean becomes 400 ms | keep the configured number of entries | not executed | LtpLightweight.RecordedAsWrittenGrows | LtpLightweight.RecordedKeeps |
| apps/nap/namespaces/http.cc:154-172 | after erasing an empty entry the walk resets to begin() and then advances | two rCIDs whose only session key is deleted: the second keeps an empty map | drop every empty entry | not executed | NapHttp.SessionKeyDeletedAsWrittenLeavesEmpty | NapHttp.SessionKeyDeletedKeeps |
| apps/nap/monitoring/statistics.cc:57-75 | the list length is counted in a uint16_t and divides the sum | 65536 RTTs of 2: the length wraps to 0 and line 75 divides by zero; 100 then 65536 zeros: the length wraps to 1 and 50 is reported | a counter as wide as the list | not executed | NapStatistics.LatencyAsWrittenWraps | NapStatistics.Latency |
| apps/coapproxy/clients.c:75-79 | when no client's token matches, the send dereferences the null node the walk ended on | a client that returns with a new token keeps its first one, so the response to its new request matches nobody | drop the response when no client matches | not executed | CoapClients.ForwardAsWrittenUnmatched | CoapClients.ClientTable.ForwardResponse |
| apps/coapproxy/clients.c:135-142 | the token is copied TKL bytes from offset 4 whatever the number of bytes received | the one-byte datagram 0x48 announces an 8-byte token, copied from stale buffer bytes | reject a datagram shorter than its header and token | not executed | CoapClients.TokenAsWrittenOverReads | CoapClients.ClientTable.ReadClient |
| apps/nap/transport/lightweight.cc:2986 | the last fragment copies its padding from behind the data | a 5-byte message in 8-byte fragments: three bytes come from behind the message | pad with zeros | not executed | LtpFragments.PaddingAsWrittenReadsBeyond | LtpFragments.PublishData |
| apps/nap/transport/lightweight.cc:2920-2921 | the fragment size is the room rounded down to a multiple of 8, with no test for 0 | less than 8 bytes of room: every pass sends an empty fragment and the loop never ends | refuse to send without room for 8 bytes | not executed | LtpFragments.StepAsWrittenStalls | LtpFragments.PublishData |
| lib/bampers/namespace.cc:223 | realloc's answer is dropped | a second, larger datum buffered under the same path, which makes realloc move the block: the entry keeps the freed pointer | keep the pointer realloc returns | not executed | BampersNamespace.AddDataAsWrittenDangles | BampersNamespace.Namespace.AddDataToBuffer |
