// The enumerations of lib/moly/enum.hh that the primitives carry, and the
// labels their print() methods show for them.

module MolyEnum {
  import opened Bytes

  const PRIMITIVE_TYPE_UNKNOWN: uint8 := 0
  const PRIMITIVE_TYPE_ADD_LINK: uint8 := 1
  const PRIMITIVE_TYPE_ADD_NODE: uint8 := 2
  const PRIMITIVE_TYPE_ADD_NODE_TYPE: uint8 := 3
  const PRIMITIVE_TYPE_CMC_GROUP_SIZE: uint8 := 4
  const PRIMITIVE_TYPE_HTTP_REQUESTS_PER_FQDN: uint8 := 5
  const PRIMITIVE_TYPE_LINK_STATE: uint8 := 6
  const PRIMITIVE_TYPE_NETWORK_LATENCY_PER_FQDN: uint8 := 7
  const PRIMITIVE_TYPE_NODE_STATE: uint8 := 8

  const LINK_STATES_UNKNOWN: uint8 := 0
  const LINK_STATES_UP: uint8 := 1
  const LINK_STATES_DOWN: uint8 := 2

  const LINK_TYPE_UNKNOWN: uint8 := 0
  const LINK_TYPE_OPTICAL: uint8 := 15

  const NODE_TYPE_UNKNOWN: uint8 := 0
  const NODE_TYPE_GW: uint8 := 1
  const NODE_TYPE_FN: uint8 := 2
  const NODE_TYPE_NAP: uint8 := 3
  const NODE_TYPE_RV: uint8 := 4
  const NODE_TYPE_SERVER: uint8 := 5
  const NODE_TYPE_TM: uint8 := 6
  const NODE_TYPE_UE: uint8 := 7
  const NODE_TYPE_LNK: uint8 := 18

  const STATE_UNKNOWN: uint8 := 0
  const STATE_BOOTED: uint8 := 1
  const STATE_DOWN: uint8 := 4
  const STATE_UP: uint8 := 8

  /** The "Link type" column of AddLink::print: every LinkTypes code has a
      label of its own, anything else shows as "-". */
  function LinkTypeLabel(t: uint8): (r: string)
    ensures r == "-" <==> t > LINK_TYPE_OPTICAL
  {
    match t
    case 0 => "Unknown"
    case 1 => "802.3"
    case 2 => "802.11"
    case 3 => "802.11a"
    case 4 => "802.11b"
    case 5 => "802.11g"
    case 6 => "802.11n"
    case 7 => "802.11aa"
    case 8 => "802.11ac"
    case 9 => "802.3z"
    case 10 => "802.3.ae"
    case 11 => "GPRS"
    case 12 => "UMTS"
    case 13 => "LTE"
    case 14 => "LTE-A"
    case 15 => "Optical"
    case _ => "-"
  }

  /** The "Node type" column of AddNode::print and AddNodeType::print: the
      seven named roles, and "-" for anything else, NODE_TYPE_UNKNOWN included. */
  function NodeTypeLabel(t: uint8): (r: string)
    ensures r == "-" <==> !(NODE_TYPE_GW <= t <= NODE_TYPE_UE)
  {
    match t
    case 1 => "NODE_TYPE_GW"
    case 2 => "NODE_TYPE_FN"
    case 3 => "NODE_TYPE_NAP"
    case 4 => "NODE_TYPE_RV"
    case 5 => "NODE_TYPE_SERVER"
    case 6 => "NODE_TYPE_TM"
    case 7 => "NODE_TYPE_UE"
    case _ => "-"
  }

  /** Two different known codes never share a label. */
  lemma LinkTypeLabelsDistinct(a: uint8, b: uint8)
    requires a <= LINK_TYPE_OPTICAL && b <= LINK_TYPE_OPTICAL && a != b
    ensures LinkTypeLabel(a) != LinkTypeLabel(b)
  {
  }
}
