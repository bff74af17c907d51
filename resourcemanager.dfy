// The resource manager of the ICN-SDN application: it hands out 8-digit node
// identifiers (the smallest unused number from 1) and link identifiers (the
// smallest unused bit position from 0, as a 256-character LID), remembering
// what it gave to each node or link so that repeated requests get the same
// answer. The graph it keeps beside the tables is recorded as actions.

module ResourceManager {
  import opened Text
  import opened LidCodec

  /** generate_node_id refuses to hand out this number. */
  const NID_LIMIT: int := 99999999

  /** generate_link_id refuses (or, for a request, merely reports) this position. */
  const LID_LIMIT: int := 255

  /** The node id of the topology manager. */
  const TM_NID: string := "00000001"

  /** One past the largest element (0 for the empty sequence). */
  function Bound(s: seq<int>): (b: int)
    ensures forall i :: 0 <= i < |s| ==> s[i] < b
    ensures b >= 0
  {
    if s == [] then 0
    else
      var rest := Bound(s[1..]);
      if s[0] + 1 > rest then s[0] + 1 else rest
  }

  /** The least number >= k that is not in given. */
  function FirstFree(given: seq<int>, k: int): (r: int)
    ensures r >= k && r !in given
    ensures forall j :: k <= j < r ==> j in given
    decreases Bound(given) - k
  {
    if k in given then FirstFree(given, k + 1) else k
  }

  /** A value of a std::map<string, int> read with operator[]: an absent key
      reads as 0 (the entry operator[] inserts is never observed otherwise). */
  function At(m: map<string, int>, k: string): int
  {
    if k in m then m[k] else 0
  }

  predicate NoDuplicates(s: seq<int>)
  {
    forall i, j :: 0 <= i < j < |s| ==> s[i] != s[j]
  }

  /** number_to_node_id: the decimal text left-padded with '0' to 8 characters. */
  function NumberToNodeId(n: nat): (nid: string)
    requires n < 100_000_000
    ensures |nid| == 8
    ensures AllDigits(nid)
  {
    DecimalLength(n);
    var d := Decimal(n);
    PadLeftZeros(d, 8);
    ZerosValue(8 - |d|);
    assert AllDigits(Zeros(8 - |d|) + d);
    PadLeft(d, 8, '0')
  }

  lemma DecimalLength(n: nat)
    ensures n < 100_000_000 ==> |Decimal(n)| <= 8
  {
    if n < 100_000_000 {
      assert Pow10(8) == 100_000_000;
      DecimalDigitsBound(n, 8);
    }
  }

  /** The node id is read back as the number it was made from. */
  lemma NodeIdRoundTrip(n: nat)
    requires n < 100_000_000
    ensures Strtol(NumberToNodeId(n)) == n
  {
    StrtolPaddedDecimal(n, 8);
  }

  /** Different numbers give different node ids. */
  lemma NodeIdInjective(n: nat, m: nat)
    requires n < 100_000_000 && m < 100_000_000
    ensures NumberToNodeId(n) == NumberToNodeId(m) <==> n == m
  {
    NodeIdRoundTrip(n);
    NodeIdRoundTrip(m);
  }

  /** The calls into the graph library, in the order they happen. */
  datatype GraphAction =
    | AddNode(nid: string, tm: bool)
    | AddNodeConnector(src: string, dst: string, lid: string, ilid: string)

  /** given_nids, given_lids, given_node_ids, given_link_ids,
      given_internal_link_ids and the graph calls. */
  datatype RmState = RmState(
    givenNids: seq<int>,
    givenLids: seq<int>,
    nodeIds: map<string, int>,
    linkIds: map<string, int>,
    internalLinkIds: map<string, int>,
    graph: seq<GraphAction>)

  /** What the tables keep true: handed-out numbers are distinct, node numbers
      stay below the limit, and every key's non-zero number is one handed out
      for it alone. */
  predicate Valid(s: RmState)
  {
    NoDuplicates(s.givenNids) && NoDuplicates(s.givenLids)
    && (forall i :: 0 <= i < |s.givenNids| ==> 1 <= s.givenNids[i] < NID_LIMIT)
    && (forall k :: k in s.nodeIds ==> 0 <= s.nodeIds[k] < NID_LIMIT)
    && (forall k :: k in s.nodeIds && s.nodeIds[k] != 0 ==> s.nodeIds[k] in s.givenNids)
    && (forall a, b :: a in s.nodeIds && b in s.nodeIds && s.nodeIds[a] == s.nodeIds[b] && s.nodeIds[a] != 0 ==> a == b)
    && (forall k :: k in s.linkIds && s.linkIds[k] != 0 ==> s.linkIds[k] in s.givenLids)
    && (forall k :: k in s.linkIds ==> s.linkIds[k] >= 0)
    && (forall k :: k in s.internalLinkIds ==> s.internalLinkIds[k] >= 0)
  }

  datatype Step<T> = Step(st: RmState, out: T)

  /** generate_node_id(node_information). */
  function NodeIdSpec(s: RmState, info: string): (r: Step<string>)
    requires Valid(s)
    // past the limit nothing is handed out, known node or not
    ensures NextNid(s.givenNids) == NID_LIMIT ==> r == Step(s, "")
    // a known node gets its id back and consumes nothing
    ensures NextNid(s.givenNids) != NID_LIMIT && At(s.nodeIds, info) != 0 ==>
      r == Step(s, NumberToNodeId(s.nodeIds[info]))
    // a new node gets the least unused number, flagged as the TM when it is 1
    ensures NextNid(s.givenNids) != NID_LIMIT && At(s.nodeIds, info) == 0 ==>
      var n := NextNid(s.givenNids);
      r.out == NumberToNodeId(n)
      && r.st == s.(givenNids := s.givenNids + [n], nodeIds := s.nodeIds[info := n],
                    graph := s.graph + [AddNode(NumberToNodeId(n), n == 1)])
    // and the tables stay consistent: no number is handed out twice
    ensures Valid(r.st)
  {
    var n := NextNid(s.givenNids);
    if n == NID_LIMIT then Step(s, "")
    else if At(s.nodeIds, info) == 0 then
      AddNodeValid(s, info, n);
      var nid := NumberToNodeId(n);
      Step(s.(givenNids := s.givenNids + [n], nodeIds := s.nodeIds[info := n],
              graph := s.graph + [AddNode(nid, n == 1)]), nid)
    else Step(s, NumberToNodeId(s.nodeIds[info]))
  }

  /** Recording a new node under the next free number keeps the tables consistent. */
  lemma AddNodeValid(s: RmState, info: string, n: int)
    requires Valid(s) && n == NextNid(s.givenNids) && n != NID_LIMIT && At(s.nodeIds, info) == 0
    ensures Valid(s.(givenNids := s.givenNids + [n], nodeIds := s.nodeIds[info := n],
                     graph := s.graph + [AddNode(NumberToNodeId(n), n == 1)]))
  {
    var g := s.givenNids + [n];
    var m := s.nodeIds[info := n];
    assert n !in s.givenNids;
    forall i, j | 0 <= i < j < |g| ensures g[i] != g[j] {
      if j < |s.givenNids| {
        assert g[i] == s.givenNids[i] && g[j] == s.givenNids[j];
      } else {
        assert g[i] == s.givenNids[i];
      }
    }
    forall i | 0 <= i < |g| ensures 1 <= g[i] < NID_LIMIT {
      if i < |s.givenNids| {
        assert g[i] == s.givenNids[i];
      }
    }
    forall k | k in m && m[k] != 0 ensures m[k] in g {
      if k != info {
        assert m[k] in s.givenNids;
      }
    }
    forall a, b | a in m && b in m && m[a] == m[b] && m[a] != 0 ensures a == b {
      if a != info && b != info {
        assert s.nodeIds[a] == s.nodeIds[b];
      }
    }
  }

  /** The number generate_node_id_number picks: with every handed-out number
      below the limit it is at most the limit. */
  function NextNid(given: seq<int>): (n: int)
    requires forall i :: 0 <= i < |given| ==> given[i] < NID_LIMIT
    ensures 1 <= n <= NID_LIMIT
    ensures n == FirstFree(given, 1)
  {
    assert NID_LIMIT !in given;
    FirstFree(given, 1)
  }

  /** generate_internal_link_id(src_node_id, flag). */
  function InternalLinkIdSpec(s: RmState, src: string, flag: bool): (r: Step<string>)
    requires Valid(s)
    ensures Valid(r.st)
    // a fresh position is taken only when asked to and none is stored
    ensures flag && At(s.internalLinkIds, src) == 0 && FirstFree(s.givenLids, 0) != LID_LIMIT ==>
      var p := FirstFree(s.givenLids, 0);
      r.out == GenerateLid(p)
      && r.st == s.(givenLids := s.givenLids + [p], internalLinkIds := s.internalLinkIds[src := p])
    ensures flag && At(s.internalLinkIds, src) == 0 && FirstFree(s.givenLids, 0) == LID_LIMIT ==>
      r == Step(s, "")
    // otherwise the stored position (0 when there is none) is returned as a LID
    ensures !(flag && At(s.internalLinkIds, src) == 0) ==>
      r == Step(s, GenerateLid(At(s.internalLinkIds, src)))
  {
    if At(s.internalLinkIds, src) == 0 && flag then
      var p := FirstFree(s.givenLids, 0);
      if p == LID_LIMIT then Step(s, "")
      else Step(s.(givenLids := s.givenLids + [p], internalLinkIds := s.internalLinkIds[src := p]), GenerateLid(p))
    else Step(s, GenerateLid(At(s.internalLinkIds, src)))
  }

  /** What generate_link_id does once both node ids are known: the position
      registered under "src,dst", allocating the least unused one when there
      is none; -1 stands for the early return at position 255. */
  function LinkPositionSpec(s: RmState, srcNid: string, dstNid: string, stopAtLimit: bool): (r: Step<int>)
    requires Valid(s)
    ensures Valid(r.st)
    ensures At(s.linkIds, srcNid + "," + dstNid) != 0 ==> r == Step(s, s.linkIds[srcNid + "," + dstNid])
    ensures At(s.linkIds, srcNid + "," + dstNid) == 0 && stopAtLimit && FirstFree(s.givenLids, 0) == LID_LIMIT ==>
      r == Step(s, -1)
    ensures At(s.linkIds, srcNid + "," + dstNid) == 0 && !(stopAtLimit && FirstFree(s.givenLids, 0) == LID_LIMIT) ==>
      var p := FirstFree(s.givenLids, 0);
      r.out == p
      && r.st.givenLids == s.givenLids + [p]
      && r.st.linkIds == s.linkIds[srcNid + "," + dstNid := p]
      && r.st.givenNids == s.givenNids && r.st.nodeIds == s.nodeIds
      && r.st.internalLinkIds == s.internalLinkIds
  {
    var key := srcNid + "," + dstNid;
    if At(s.linkIds, key) == 0 then
      var p := FirstFree(s.givenLids, 0);
      if stopAtLimit && p == LID_LIMIT then Step(s, -1)
      else
        var lidBits := GenerateLid(p);
        var ilid := if srcNid == TM_NID then InternalLinkIdSpec(s, srcNid, false).out else lidBits;
        NewLinkValid(s, key, p);
        Step(s.(givenLids := s.givenLids + [p], linkIds := s.linkIds[key := p],
                graph := s.graph + [AddNodeConnector(srcNid, dstNid, lidBits, ilid)]), p)
    else Step(s, s.linkIds[key])
  }

  lemma NewLinkValid(s: RmState, key: string, p: int)
    requires Valid(s) && p == FirstFree(s.givenLids, 0)
    ensures Valid(s.(givenLids := s.givenLids + [p], linkIds := s.linkIds[key := p]))
  {
    var t := s.(givenLids := s.givenLids + [p], linkIds := s.linkIds[key := p]);
    assert forall k :: k in t.linkIds && t.linkIds[k] != 0 ==> t.linkIds[k] in t.givenLids;
  }

  /** generate_link_id(node_information, attached_node_information): both node
      ids, then "srcNid,position", or "" at position 255. */
  function LinkIdSpec(s: RmState, src: string, dst: string): (r: Step<string>)
    requires Valid(s)
    ensures Valid(r.st)
  {
    var a := NodeIdSpec(s, src);
    var b := NodeIdSpec(a.st, dst);
    var l := LinkPositionSpec(b.st, a.out, b.out, true);
    if l.out < 0 then Step(l.st, "") else Step(l.st, a.out + "," + IntToString(l.out))
  }

  /** A resource offer as the request overload fills it. */
  datatype OfferOut = OfferOut(nid: string, lid: string, ilid: string, srcMac: string)

  /** generate_link_id(request, offer): like the string overload, but position
      255 is only reported and still handed out, and the internal LID is left
      empty when the link already had its position. */
  function RequestOfferSpec(s: RmState, srcNode: string, dstNode: string, srcMac: string): (r: Step<OfferOut>)
    requires Valid(s)
    ensures Valid(r.st)
  {
    var a := NodeIdSpec(s, srcNode);
    var b := NodeIdSpec(a.st, dstNode);
    var isNew := At(b.st.linkIds, a.out + "," + b.out) == 0;
    var l := LinkPositionSpec(b.st, a.out, b.out, false);
    var lid := GenerateLid(l.out);
    var ilid := if !isNew then "" else if a.out == TM_NID then InternalLinkIdSpec(b.st, a.out, false).out else lid;
    Step(l.st, OfferOut(a.out, lid, ilid, srcMac))
  }

  // ---------------------------------------------------------------------
  // Properties of the specifications

  /** Asking again for a node that got an id returns that id and consumes no
      number (as long as the number space is not exhausted, since the limit is
      checked before the table). */
  lemma NodeIdIdempotent(s: RmState, info: string)
    requires Valid(s)
    requires NodeIdSpec(s, info).out != ""
    ensures var a := NodeIdSpec(s, info);
      (NextNid(a.st.givenNids) != NID_LIMIT ==> NodeIdSpec(a.st, info) == a)
      && (NextNid(a.st.givenNids) == NID_LIMIT ==> NodeIdSpec(a.st, info) == Step(a.st, ""))
  {
  }

  /** Distinct nodes never share a node id. */
  lemma NodeIdsDistinct(s: RmState, x: string, y: string)
    requires Valid(s) && x != y
    requires At(s.nodeIds, x) != 0 && At(s.nodeIds, y) != 0
    ensures NumberToNodeId(s.nodeIds[x]) != NumberToNodeId(s.nodeIds[y])
  {
    NodeIdInjective(s.nodeIds[x], s.nodeIds[y]);
  }

  /** A link that has its position is answered from the table: the same
      "srcNid,position" text and no new position. */
  lemma LinkPositionIdempotent(s: RmState, srcNid: string, dstNid: string, stopAtLimit: bool)
    requires Valid(s)
    requires LinkPositionSpec(s, srcNid, dstNid, stopAtLimit).out > 0
    ensures var l := LinkPositionSpec(s, srcNid, dstNid, stopAtLimit);
      LinkPositionSpec(l.st, srcNid, dstNid, stopAtLimit) == Step(l.st, l.out)
  {
  }

  /** generate_link_id(src, dst) asked again answers the same text and
      changes nothing, once position 0 is taken (the constructor gives it to
      the TM's internal link) and while node numbers remain. */
  lemma LinkIdIdempotent(s: RmState, src: string, dst: string, r: Step<string>)
    requires Valid(s) && 0 in s.givenLids
    requires r == LinkIdSpec(s, src, dst) && r.out != ""
    requires FirstFree(r.st.givenNids, 1) != NID_LIMIT
    ensures LinkIdSpec(r.st, src, dst) == r
  {
    var a := NodeIdSpec(s, src);
    var b := NodeIdSpec(a.st, dst);
    var l := LinkPositionSpec(b.st, a.out, b.out, true);
    assert r.st == l.st && l.st.givenNids == b.st.givenNids && l.st.nodeIds == b.st.nodeIds;
    KnownNodes(s, src, dst);
    NodeIdKnown(r.st, src, a.out);
    NodeIdKnown(r.st, dst, b.out);
    assert 0 in b.st.givenLids by {
      NodeIdKeepsLids(s, src);
      NodeIdKeepsLids(a.st, dst);
    }
    LinkPositionAgain(b.st, a.out, b.out);
    LinkIdFromSteps(r.st, src, dst, a.out, b.out, l.out);
  }

  /** A known node's step answers its id and changes nothing. */
  lemma NodeIdKnown(t: RmState, info: string, out: string)
    requires Valid(t) && NextNid(t.givenNids) != NID_LIMIT
    requires At(t.nodeIds, info) != 0 && NumberToNodeId(t.nodeIds[info]) == out
    ensures NodeIdSpec(t, info) == Step(t, out)
  {
  }

  /** generate_link_id from the answers of its three steps, when none of
      them changes the state. */
  lemma LinkIdFromSteps(t: RmState, src: string, dst: string, srcNid: string, dstNid: string, p: int)
    requires Valid(t) && NodeIdSpec(t, src) == Step(t, srcNid) && NodeIdSpec(t, dst) == Step(t, dstNid)
    requires LinkPositionSpec(t, srcNid, dstNid, true) == Step(t, p) && p >= 0
    ensures LinkIdSpec(t, src, dst) == Step(t, srcNid + "," + IntToString(p))
  {
  }

  /** A node step never hands out a link position. */
  lemma NodeIdKeepsLids(s: RmState, info: string)
    requires Valid(s)
    ensures NodeIdSpec(s, info).st.givenLids == s.givenLids
  {
  }

  /** Once position 0 is taken, a link step that answers a position answers
      one above 0, and a second step for the same nodes answers it again
      without changing anything. */
  lemma LinkPositionAgain(t: RmState, srcNid: string, dstNid: string)
    requires Valid(t) && 0 in t.givenLids
    ensures var l := LinkPositionSpec(t, srcNid, dstNid, true);
      l.out != 0 && (l.out > 0 ==> LinkPositionSpec(l.st, srcNid, dstNid, true) == Step(l.st, l.out))
  {
  }

  /** After the two node steps of generate_link_id, both nodes are known and
      a second pair of node steps answers the same ids. */
  lemma KnownNodes(s: RmState, src: string, dst: string)
    requires Valid(s)
    requires NextNid(NodeIdSpec(NodeIdSpec(s, src).st, dst).st.givenNids) != NID_LIMIT
    ensures var a := NodeIdSpec(s, src);
      var b := NodeIdSpec(a.st, dst);
      At(b.st.nodeIds, src) != 0 && At(b.st.nodeIds, dst) != 0
      && NumberToNodeId(b.st.nodeIds[src]) == a.out && NumberToNodeId(b.st.nodeIds[dst]) == b.out
  {
    var a := NodeIdSpec(s, src);
    assert a.st.givenNids <= NodeIdSpec(a.st, dst).st.givenNids;
    assert NextNid(a.st.givenNids) != NID_LIMIT;
    assert NextNid(s.givenNids) != NID_LIMIT;
  }

  /** The string overload stops at position 255 without recording a link; the
      request overload hands 255 out. */
  lemma LinkLimit(s: RmState, srcNid: string, dstNid: string)
    requires Valid(s)
    requires At(s.linkIds, srcNid + "," + dstNid) == 0 && FirstFree(s.givenLids, 0) == LID_LIMIT
    ensures LinkPositionSpec(s, srcNid, dstNid, true) == Step(s, -1)
    ensures LinkPositionSpec(s, srcNid, dstNid, false).out == LID_LIMIT
    ensures LinkPositionSpec(s, srcNid, dstNid, false).st.linkIds[srcNid + "," + dstNid] == LID_LIMIT
  {
  }

  /** The offer carries the source node id and the LID of the link's
      position; a newly allocated link's internal LID is that LID unless the
      source is the TM, and an existing link's is empty. */
  lemma RequestOfferFields(s: RmState, srcNode: string, dstNode: string, srcMac: string)
    requires Valid(s)
    ensures var a := NodeIdSpec(s, srcNode);
      var b := NodeIdSpec(a.st, dstNode);
      var isNew := At(b.st.linkIds, a.out + "," + b.out) == 0;
      var p := LinkPositionSpec(b.st, a.out, b.out, false).out;
      var o := RequestOfferSpec(s, srcNode, dstNode, srcMac).out;
      o.nid == a.out && o.srcMac == srcMac
      && |o.lid| == LID_LENGTH
      && (forall i :: 0 <= i < |o.lid| ==> (o.lid[i] == '1' <==> i == p))
      && (isNew ==> p == FirstFree(b.st.givenLids, 0))
      && (isNew && a.out != TM_NID ==> o.ilid == o.lid)
      && (!isNew ==> o.ilid == "")
  {
  }

  // ---------------------------------------------------------------------
  // The manager object

  class Manager {
    var givenNids: seq<int>
    var givenLids: seq<int>
    var nodeIds: map<string, int>
    var linkIds: map<string, int>
    var internalLinkIds: map<string, int>
    var graph: seq<GraphAction>

    function St(): RmState
      reads this
    {
      RmState(givenNids, givenLids, nodeIds, linkIds, internalLinkIds, graph)
    }

    /** ResourceManager(tm_nid, tm_of_id, attached_switch_of_id): the TM's
        internal LID first, then the link between the TM and its switch. The
        default constructor is this one with "00000001",
        "host:00:00:00:00:00:01" and "openflow:1". */
    constructor (tmNid: string, tmOfId: string, attachedSwitchOfId: string)
      ensures Valid(St())
      ensures var s0 := RmState([], [], map[], map[], map[], []);
        var i := InternalLinkIdSpec(s0, tmNid, true);
        St() == LinkIdSpec(i.st, tmOfId, attachedSwitchOfId).st
    {
      givenNids, givenLids := [], [];
      nodeIds, linkIds, internalLinkIds := map[], map[], map[];
      graph := [];
      new;
      var _ := GenerateInternalLinkId(tmNid, true);
      var _ := GenerateLinkId(tmOfId, attachedSwitchOfId);
    }

    /** generate_node_id_number: the least number from 1 on that is not in given_nids. */
    method GenerateNodeIdNumber() returns (n: int)
      ensures n >= 1 && n !in givenNids
      ensures forall j :: 1 <= j < n ==> j in givenNids
      ensures n == FirstFree(givenNids, 1)
    {
      n := 1;
      while n in givenNids
        invariant n >= 1
        invariant FirstFree(givenNids, n) == FirstFree(givenNids, 1)
        decreases Bound(givenNids) - n
      {
        n := n + 1;
      }
    }

    /** generate_link_id_bit_position: the least position from 0 on that is not in given_lids. */
    method GenerateLinkIdBitPosition() returns (p: int)
      ensures p >= 0 && p !in givenLids
      ensures forall j :: 0 <= j < p ==> j in givenLids
      ensures p == FirstFree(givenLids, 0)
    {
      p := 0;
      while p in givenLids
        invariant p >= 0
        invariant FirstFree(givenLids, p) == FirstFree(givenLids, 0)
        decreases Bound(givenLids) - p
      {
        p := p + 1;
      }
    }

    method GenerateNodeId(info: string) returns (nid: string)
      requires Valid(St())
      modifies this`givenNids, this`nodeIds, this`graph
      ensures Valid(St())
      ensures Step(St(), nid) == NodeIdSpec(old(St()), info)
    {
      var n := GenerateNodeIdNumber();
      assert n == NextNid(givenNids);
      if n == NID_LIMIT {
        return "";
      }
      if At(nodeIds, info) == 0 {
        nodeIds := nodeIds[info := n];
        givenNids := givenNids + [n];
        nid := NumberToNodeId(n);
        graph := graph + [AddNode(nid, n == 1)];
        return nid;
      }
      return NumberToNodeId(nodeIds[info]);
    }

    method GenerateInternalLinkId(src: string, flag: bool) returns (ilid: string)
      requires Valid(St())
      modifies this`givenLids, this`internalLinkIds
      ensures Valid(St())
      ensures Step(St(), ilid) == InternalLinkIdSpec(old(St()), src, flag)
    {
      if At(internalLinkIds, src) == 0 && flag {
        var p := GenerateLinkIdBitPosition();
        if p == LID_LIMIT {
          return "";
        }
        ilid := GenerateLid(p);
        givenLids := givenLids + [p];
        internalLinkIds := internalLinkIds[src := p];
        return ilid;
      }
      return GenerateLid(At(internalLinkIds, src));
    }

    /** The table step shared by both overloads of generate_link_id. */
    method LinkPosition(srcNid: string, dstNid: string, stopAtLimit: bool) returns (p: int)
      requires Valid(St())
      modifies this`givenLids, this`linkIds, this`graph, this`internalLinkIds
      ensures Valid(St())
      ensures Step(St(), p) == LinkPositionSpec(old(St()), srcNid, dstNid, stopAtLimit)
    {
      ghost var s0 := St();
      var key := srcNid + "," + dstNid;
      if At(linkIds, key) == 0 {
        p := GenerateLinkIdBitPosition();
        if stopAtLimit && p == LID_LIMIT {
          return -1;
        }
        var lidBits := GenerateLid(p);
        var ilid := lidBits;
        if srcNid == TM_NID {
          ilid := GenerateInternalLinkId(srcNid, false);
        }
        assert St() == s0;
        givenLids := givenLids + [p];
        linkIds := linkIds[key := p];
        graph := graph + [AddNodeConnector(srcNid, dstNid, lidBits, ilid)];
        assert St() == LinkPositionSpec(s0, srcNid, dstNid, stopAtLimit).st;
        return p;
      }
      return linkIds[key];
    }

    /** generate_link_id(node_information, attached_node_information). */
    method GenerateLinkId(src: string, dst: string) returns (id: string)
      requires Valid(St())
      modifies this`givenNids, this`givenLids, this`nodeIds, this`linkIds, this`graph, this`internalLinkIds
      ensures Valid(St())
      ensures Step(St(), id) == LinkIdSpec(old(St()), src, dst)
    {
      var srcNid := GenerateNodeId(src);
      var dstNid := GenerateNodeId(dst);
      var p := LinkPosition(srcNid, dstNid, true);
      if p < 0 {
        return "";
      }
      return srcNid + "," + IntToString(p);
    }

    /** generate_link_id(request, offer). */
    method GenerateRequestOffer(srcNode: string, dstNode: string, srcMac: string) returns (offer: OfferOut)
      requires Valid(St())
      modifies this`givenNids, this`givenLids, this`nodeIds, this`linkIds, this`graph, this`internalLinkIds
      ensures Valid(St())
      ensures Step(St(), offer) == RequestOfferSpec(old(St()), srcNode, dstNode, srcMac)
    {
      var srcNid := GenerateNodeId(srcNode);
      var dstNid := GenerateNodeId(dstNode);
      var isNew := At(linkIds, srcNid + "," + dstNid) == 0;
      var internal := GenerateLid(At(internalLinkIds, srcNid));
      var p := LinkPosition(srcNid, dstNid, false);
      var lid := GenerateLid(p);
      var ilid := "";
      if isNew {
        ilid := if srcNid == TM_NID then internal else lid;
      }
      return OfferOut(srcNid, lid, ilid, srcMac);
    }
  }
}
