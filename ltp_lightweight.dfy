// The lightweight transport's state as an object: the ICN packet buffer a
// receiver fills, the buffers of sent packets a publisher keeps for
// retransmission, the NACK groups, the awaited window updates and the list
// of measured round-trip times. Each method changes the std::map it works
// on as the source does, by the table operations of LtpTables.

module LtpLightweight {
  import opened Wrappers
  import opened Bytes
  import opened LtpTables
  import LtpFragments
  import LtpGapCheck
  import NapStatistics

  /** _windowUpdate: rCID > ripd > SK > NID > whether its CTRL-WED came. */
  type WindowUpdates = Table3<map<uint32, bool>>

  // ---------------------------------------------------------------------
  // Reassembly loop

  /** The payloads under the listed sequence numbers, concatenated in list
      order. */
  function Concat(m: SequenceMap, ks: seq<uint16>): seq<uint8>
  {
    if ks == [] then []
    else Concat(m, ks[..|ks| - 1]) + (if ks[|ks| - 1] in m then m[ks[|ks| - 1]] else [])
  }

  /** Walking a session's sequence numbers in ascending order collects the
      same bytes as the reassembly specification. */
  lemma {:induction false} ConcatBelow(m: SequenceMap, n: nat)
    requires n <= 0x1_0000
    ensures Concat(m, LtpGapCheck.Below(m.Keys, n)) == LtpFragments.Upto(m, n)
  {
    if n > 0 {
      ConcatBelow(m, n - 1);
      var ks := LtpGapCheck.Below(m.Keys, n - 1);
      var k := (n - 1) as uint16;
      if k in m {
        assert (ks + [k])[..|ks|] == ks;
      } else {
        assert LtpGapCheck.Below(m.Keys, n) == ks;
      }
    }
  }

  /** A sum kept in 16 bits, one addend at a time, is the full sum in 16
      bits. */
  lemma ModAdd(a: nat, b: nat)
    ensures (a % 0x1_0000 + b) % 0x1_0000 == (a + b) % 0x1_0000
  {
    var q := a / 0x1_0000;
    assert a == q * 0x1_0000 + a % 0x1_0000;
  }

  // ---------------------------------------------------------------------
  // CTRL-WE

  /** What the receiver does on a CTRL-WE: nothing; confirm the window
      with a CTRL-WED and report no action (TP_STATE_NO_ACTION_REQUIRED);
      confirm it and report the session complete
      (TP_STATE_ALL_FRAGMENTS_RECEIVED, with the session key handed back);
      or send a NACK for a range of sequence numbers. */
  datatype WindowEndAnswer =
    | NoAction
    | ConfirmedOnly
    | AllFragmentsReceived(sessionKey: uint16)
    | NackRange(first: uint16, last: uint16)

  /** The gap walk's answer for buffered session sk. */
  function AnswerFor(s: SequenceMap, sk: uint16, we: uint16): WindowEndAnswer
    requires |s| > 0
  {
    var g := LtpGapCheck.Window(LtpGapCheck.SortedKeys(s.Keys), we);
    if g.all then AllFragmentsReceived(sk) else NackRange(g.first, g.last)
  }

  /** For a buffered session numbered from 1: the window is confirmed
      exactly when every number from 1 up to the highest of the announced
      and the buffered ones arrived; otherwise the NACK asks for a range
      from a missing number to a missing number that holds every missing
      one, and starts at 1 when fragment 1 is missing. */
  lemma AnswerForMeans(s: SequenceMap, sk: uint16, we: uint16)
    requires |s| > 0 && 0 !in s
    ensures var keys := LtpGapCheck.SortedKeys(s.Keys);
      var top := LtpGapCheck.Top(keys, we);
      var a := AnswerFor(s, sk, we);
      (forall k :: k in s ==> k as int <= top) && we as int <= top &&
      (a.AllFragmentsReceived? <==> forall m :: !LtpGapCheck.Missing(keys, top, m)) &&
      (a.AllFragmentsReceived? ==> a.sessionKey == sk) &&
      (a.NackRange? ==>
         1 <= a.first <= a.last <= top &&
         LtpGapCheck.Missing(keys, top, a.first as int) && LtpGapCheck.Missing(keys, top, a.last as int) &&
         forall m :: LtpGapCheck.Missing(keys, top, m) ==> a.first <= m <= a.last) &&
      (LtpGapCheck.Missing(keys, top, 1) ==> a.NackRange? && a.first == 1) &&
      (a.AllFragmentsReceived? || a.NackRange?)
  {
    var keys := LtpGapCheck.SortedKeys(s.Keys);
    assert keys[0] in keys;
    LtpGapCheck.AscendingBound(keys);
    LtpGapCheck.WindowComplete(keys, we);
  }

  /** The CTRL-WE handler for rCID > ripd > NID > SK announcing sequence
      number we: unknown rCID, ripd or SK mean no action; an unknown NID is
      confirmed anyway, with no action to follow; otherwise the gap walk
      decides between a complete session and a NACK. cidKnown says whether
      the rCID has an entry in the CID reverse look-up, without which
      nothing is sent. */
  function WindowEndAnswerOf(b: IcnBuffer, r: uint32, ripd: uint32, nid: uint32, sk: uint16, we: uint16, cidKnown: bool)
    : (a: WindowEndAnswer)
    requires NoEmptyIcn(b)
    ensures !cidKnown ==> a == NoAction
    ensures a.ConfirmedOnly? <==> cidKnown && r in b && ripd in b[r] && nid !in b[r][ripd]
    ensures a.AllFragmentsReceived? || a.NackRange? <==> cidKnown && Get4(b, r, ripd, nid, sk).Some?
    ensures a.AllFragmentsReceived? ==> a.sessionKey == sk
  {
    if r !in b || ripd !in b[r] then NoAction
    else if nid !in b[r][ripd] then (if cidKnown then ConfirmedOnly else NoAction)
    else if sk !in b[r][ripd][nid] then NoAction
    else if !cidKnown then NoAction
    else
      assert IcnLevel(b, r) && Get3(b[r], ripd, nid, sk).Some?;
      AnswerFor(b[r][ripd][nid][sk], sk, we)
  }

  // ---------------------------------------------------------------------
  // Awaited CTRL-WEDs

  predicate StrictlyAscending(l: seq<uint32>)
  {
    forall i, j :: 0 <= i < j < |l| ==> l[i] < l[j]
  }

  /** A finite non-empty set of node ids has a least one: the std::map's
      next key. */
  predicate IsLeast(k: uint32, s: set<uint32>)
  {
    k in s && forall x :: x in s ==> k <= x
  }

  lemma MinExists(s: set<uint32>)
    requires s != {}
    ensures exists k :: IsLeast(k, s)
    decreases |s|
  {
    var x :| x in s;
    var rest := s - {x};
    var k := x;
    if rest != {} {
      MinExists(rest);
      var y :| IsLeast(y, rest);
      if y < x {
        k := y;
      }
    }
    forall z | z in s ensures k <= z {
      if z != x {
        assert z in rest;
      }
    }
    assert IsLeast(k, s);
  }

  /** The loop of _wudsNotReceived: the node ids whose flag is false, in
      the ascending order a std::map is walked in. */
  method Unconfirmed(m: map<uint32, bool>) returns (nids: seq<uint32>)
    ensures StrictlyAscending(nids)
    ensures forall x :: x in nids <==> x in m && !m[x]
  {
    nids := [];
    var todo := m.Keys;
    while todo != {}
      invariant todo <= m.Keys
      invariant StrictlyAscending(nids)
      invariant forall x, y :: x in nids && y in todo ==> x < y
      invariant forall x :: x in nids <==> x in m && !m[x] && x !in todo
      decreases |todo|
    {
      MinExists(todo);
      var k :| IsLeast(k, todo);
      if !m[k] {
        forall i | 0 <= i < |nids| ensures nids[i] < k {
          assert nids[i] in nids;
        }
        nids := nids + [k];
      }
      todo := todo - {k};
    }
  }

  // ---------------------------------------------------------------------
  // Round-trip times

  /** std::forward_list::resize: cut to n entries, or fill up with zeros. */
  function Resized(l: seq<uint16>, n: nat): (u: seq<uint16>)
    ensures |u| == n
    ensures forall i :: 0 <= i < n ==> u[i] == if i < |l| then l[i] else 0
  {
    if |l| >= n then l[..n] else l + seq(n - |l|, _ => 0)
  }

  /** _rtt(): the uint32 sum of the list divided by the configured list
      size, cast to uint16. */
  function Mean(l: seq<uint16>, n: uint16): (r: uint16)
    requires n >= 1
    ensures |l| <= n as int ==> r as int == NapStatistics.RttSum(l) / n as int
  {
    var q := NapStatistics.RttSum(l) / n as int;
    if |l| <= n as int then
      MeanFits(l, n);
      assert ToUint16(q) as int == q;
      ToUint16(q)
    else
      ToUint16(q)
  }

  /** The mean of at most n RTTs over n fits 16 bits. */
  lemma MeanFits(l: seq<uint16>, n: uint16)
    requires 1 <= n && |l| <= n as int
    ensures NapStatistics.RttSum(l) / n as int <= 0xFFFF
  {
    NapStatistics.RttSumBound(l);
    NapStatistics.MulMonotone(n as nat, |l|, 0xFFFF);
    assert NapStatistics.RttSum(l) <= 0xFFFF * n as nat;
    NapStatistics.MeanBound(NapStatistics.RttSum(l), n as nat);
  }

  /** A list of the configured size has a mean that fits 16 bits, and a
      list of equal RTTs v has the mean v. */
  lemma MeanOfList(l: seq<uint16>, n: uint16, v: uint16)
    requires n >= 1 && |l| == n as int
    ensures Mean(l, n) as int == NapStatistics.RttSum(l) / n as int
    ensures (forall i :: 0 <= i < |l| ==> l[i] == v) ==> Mean(l, n) == v
  {
    var sum := NapStatistics.RttSum(l);
    NapStatistics.RttSumBound(l);
    NapStatistics.MeanBound(sum, n as int);
    if forall i :: 0 <= i < |l| ==> l[i] == v {
      NapStatistics.ConstantSum(l, v);
      NapStatistics.MulDiv(v as nat, n as nat);
      assert sum / n as int == v as int;
    }
  }

  /** _rtt(v) as written: 0 becomes 1, the list is resized to the list
      size, then v is pushed to the front. */
  function RecordedAsWritten(l: seq<uint16>, n: uint16, v: uint16): (r: seq<uint16>)
    ensures |r| == n as int + 1 && r[0] >= 1 && (v != 0 ==> r[0] == v)
    ensures forall i :: 1 <= i < |r| ==> r[i] == if i - 1 < |l| then l[i - 1] else 0
  {
    [if v == 0 then 1 else v] + Resized(l, n as nat)
  }

  /** _rtt(v) as its comment describes it: the oldest entry makes room,
      so that the list keeps its size. */
  function Recorded(l: seq<uint16>, n: uint16, v: uint16): (r: seq<uint16>)
    requires n >= 1
    ensures |r| == n as int && r[0] >= 1 && (v != 0 ==> r[0] == v)
    ensures forall i :: 1 <= i < |r| ==> r[i] == if i - 1 < |l| then l[i - 1] else 0
  {
    [if v == 0 then 1 else v] + Resized(l, n as nat - 1)
  }

  /** The corrected list keeps the configured size: the new RTT (at least
      1 ms) in front, then the newest entries of the old list. */
  lemma RecordedKeeps(l: seq<uint16>, n: uint16, v: uint16)
    requires n >= 1
    ensures var u := Recorded(l, n, v);
      |u| == n as int && u[0] >= 1 && (v != 0 ==> u[0] == v) &&
      forall i :: 1 <= i < |u| ==> u[i] == if i - 1 < |l| then l[i - 1] else 0
  {
  }

  /** The source's list grows to one entry more than its size, and the
      mean, still divided by the size, outgrows every RTT: with a list size
      of 1, the seeded 200 ms and one measured RTT of 200 ms it reports
      400 ms; the corrected list reports 200 ms. */
  lemma RecordedAsWrittenGrows(l: seq<uint16>, n: uint16, v: uint16)
    ensures |RecordedAsWritten(l, n, v)| == n as int + 1
    ensures RecordedAsWritten([200], 1, 200) == [200, 200] && Mean([200, 200], 1) == 400
    ensures Recorded([200], 1, 200) == [200] && Mean([200], 1) == 200
  {
    assert NapStatistics.RttSum([200, 200]) == 200 + NapStatistics.RttSum([200]) by {
      assert [200, 200][1..] == [200 as uint16];
    }
    assert NapStatistics.RttSum([200]) == 200 + NapStatistics.RttSum([]) by {
      assert [200 as uint16][1..] == [];
    }
  }

  // ---------------------------------------------------------------------
  // End to end

  /** The receiver buffering the fragments in list order under one session. */
  function BufferAll(b: IcnBuffer, r: uint32, p: uint32, n: uint32, sk: uint16, fs: seq<LtpFragments.DataFragment>): IcnBuffer
  {
    if fs == [] then b
    else
      var f := fs[|fs| - 1];
      BufferIcn(BufferAll(b, r, p, n, sk, fs[..|fs| - 1]), r, p, n, sk, f.sequenceNumber, LtpFragments.Clip(f))
  }

  /** Buffering fragments numbered 1, 2, ... into a session that was not
      there leaves it holding what the reassembly specification receives. */
  lemma {:induction false} BufferAllReceived(b: IcnBuffer, r: uint32, p: uint32, n: uint32, sk: uint16, fs: seq<LtpFragments.DataFragment>)
    requires Get4(b, r, p, n, sk).None?
    requires forall i :: 0 <= i < |fs| ==> fs[i].sequenceNumber as int == i + 1
    ensures IcnSession(BufferAll(b, r, p, n, sk, fs), r, p, n, sk) == LtpFragments.Received(fs)
    ensures fs != [] ==> Get4(BufferAll(b, r, p, n, sk, fs), r, p, n, sk).Some?
  {
    if fs != [] {
      var init := fs[..|fs| - 1];
      var f := fs[|fs| - 1];
      BufferAllReceived(b, r, p, n, sk, init);
      LtpFragments.ReceivedNumbered(init);
      var u := BufferAll(b, r, p, n, sk, init);
      assert f.sequenceNumber !in IcnSession(u, r, p, n, sk);
      BufferIcnStores(u, r, p, n, sk, f.sequenceNumber, LtpFragments.Clip(f));
    }
  }

  /** Publishing a message of dataSize > 0 bytes, buffering its fragments
      at a receiver under a fresh session and retrieving the packet gives
      the message back, with its length. */
  lemma PublishBufferRetrieve(b: IcnBuffer, r: uint32, n: uint32, sk: uint16, data: seq<uint8>, dataSize: nat,
                               padding: seq<uint8>, room: nat)
    requires Get4(b, r, 0, n, sk).None?
    requires room >= 8 && 0 < dataSize < 0x1_0000 && LtpFragments.Source(data, dataSize, padding)
    ensures var fs := LtpFragments.Fragments(data, dataSize, padding, LtpFragments.Capacity(room), 0, 0);
      var res := Retrieve(BufferAll(b, r, 0, n, sk, fs), r, n, sk);
      res.Some? && res.value.packet == data[..dataSize] && res.value.packetSize as int == dataSize
  {
    var fs := LtpFragments.Fragments(data, dataSize, padding, LtpFragments.Capacity(room), 0, 0);
    LtpFragments.FragmentsNumbered(data, dataSize, padding, LtpFragments.Capacity(room), 0, 0);
    LtpFragments.FragmentsSized(data, dataSize, padding, LtpFragments.Capacity(room), 0, 0);
    BufferAllReceived(b, r, 0, n, sk, fs);
    LtpFragments.PublishRetrieveRoundTrip(data, dataSize, padding, room);
  }

  // ---------------------------------------------------------------------
  // The transport object

  /** retrievePacket's two walks over a session: the uint16 sum of the
      fragment lengths, then the fragments copied out one after the other,
      both in ascending sequence order. */
  method Reassemble(s: SequenceMap) returns (packet: Packet, packetSize: uint16)
    ensures packet == LtpFragments.Reassembled(s)
    ensures packetSize as int == |packet| % 0x1_0000
  {
    packetSize := PacketSize(s);
    packet := CopyOut(s);
  }

  /** The first walk: the fragment lengths summed into a uint16. */
  method PacketSize(s: SequenceMap) returns (packetSize: uint16)
    ensures packetSize as int == |LtpFragments.Reassembled(s)| % 0x1_0000
  {
    var keys := LtpGapCheck.SortedKeys(s.Keys);
    packetSize := 0;
    var i := 0;
    while i < |keys|
      invariant 0 <= i <= |keys|
      invariant packetSize as int == |Concat(s, keys[..i])| % 0x1_0000
    {
      var k := keys[i];
      assert k in s by {
        assert k in keys;
      }
      SizeStep(s, keys, i, packetSize);
      packetSize := ToUint16(packetSize as int + |s[k]|);
      i := i + 1;
    }
    ConcatSorted(s, keys);
  }

  /** One addend more in the 16-bit sum of the fragment lengths. */
  lemma SizeStep(s: SequenceMap, keys: seq<uint16>, i: nat, p: uint16)
    requires i < |keys| && keys[i] in s && p as int == |Concat(s, keys[..i])| % 0x1_0000
    ensures ToUint16(p as int + |s[keys[i]]|) as int == |Concat(s, keys[..i + 1])| % 0x1_0000
  {
    ConcatStep(s, keys, i);
    ModAdd(|Concat(s, keys[..i])|, |s[keys[i]]|);
  }

  /** The walk over all of a session's sorted sequence numbers is the
      reassembly specification. */
  lemma ConcatSorted(s: SequenceMap, keys: seq<uint16>)
    requires keys == LtpGapCheck.SortedKeys(s.Keys)
    ensures Concat(s, keys[..|keys|]) == LtpFragments.Reassembled(s)
  {
    assert keys[..|keys|] == keys;
    ConcatBelow(s, 0x1_0000);
  }

  /** The second walk: the fragments appended in ascending order. */
  method CopyOut(s: SequenceMap) returns (packet: Packet)
    ensures packet == LtpFragments.Reassembled(s)
  {
    var keys := LtpGapCheck.SortedKeys(s.Keys);
    packet := [];
    var i := 0;
    while i < |keys|
      invariant 0 <= i <= |keys|
      invariant packet == Concat(s, keys[..i])
    {
      var k := keys[i];
      assert k in s by {
        assert k in keys;
      }
      ConcatStep(s, keys, i);
      packet := packet + s[k];
      i := i + 1;
    }
    ConcatSorted(s, keys);
  }

  lemma ConcatStep(s: SequenceMap, keys: seq<uint16>, i: nat)
    requires i < |keys| && keys[i] in s
    ensures Concat(s, keys[..i + 1]) == Concat(s, keys[..i]) + s[keys[i]]
  {
    assert keys[..i + 1][..i] == keys[..i];
  }

  /** The object's invariant on its fields' values: no buffer keeps an
      empty level, every NACK group lists its nodes once, and the RTT list
      has its configured size (which may be 0). */
  ghost predicate Invariant(icn: IcnBuffer, ltp: SentBuffer, proxy: SentBuffer, groups: NackGroups, rtts: seq<uint16>, rttListSize: uint16)
  {
    NoEmptyIcn(icn) && NoEmptySent(ltp) && NoEmptySent(proxy) &&
    NoEmpty3(groups) && GroupsValid(groups) &&
    |rtts| == rttListSize as int
  }

  class Lightweight {
    var icnPacketBuffer: IcnBuffer
    var ltpPacketBuffer: SentBuffer
    var proxyPacketBuffer: SentBuffer
    var nackGroups: NackGroups
    var windowUpdate: WindowUpdates
    var rtts: seq<uint16>
    const rttListSize: uint16

    ghost predicate Valid()
      reads this
    {
      Invariant(icnPacketBuffer, ltpPacketBuffer, proxyPacketBuffer, nackGroups, rtts, rttListSize)
    }

    /** The constructor seeds the RTT list with listSize entries of 200 ms;
        a list size of 0 seeds none. */
    constructor(listSize: uint16)
      ensures Valid() && rttListSize == listSize
      ensures rtts == seq(listSize, _ => 200)
      ensures icnPacketBuffer == map[] && ltpPacketBuffer == map[] && proxyPacketBuffer == map[]
      ensures nackGroups == map[] && windowUpdate == map[]
    {
      var l: seq<uint16> := [];
      var i: uint16 := 0;
      while i < listSize
        invariant i <= listSize && l == seq(i, _ => 200)
      {
        l := [200] + l;
        i := i + 1;
      }
      icnPacketBuffer := map[];
      ltpPacketBuffer := map[];
      proxyPacketBuffer := map[];
      nackGroups := map[];
      windowUpdate := map[];
      rtts := l;
      rttListSize := listSize;
    }

    // Each field is replaced through one of these, so that the invariant
    // is re-established for one field at a time.

    method SetIcnPacketBuffer(u: IcnBuffer)
      requires Valid() && NoEmptyIcn(u)
      modifies this`icnPacketBuffer
      ensures Valid() && icnPacketBuffer == u
    {
      icnPacketBuffer := u;
    }

    method SetLtpPacketBuffer(u: SentBuffer)
      requires Valid() && NoEmptySent(u)
      modifies this`ltpPacketBuffer
      ensures Valid() && ltpPacketBuffer == u
    {
      ltpPacketBuffer := u;
    }

    method SetProxyPacketBuffer(u: SentBuffer)
      requires Valid() && NoEmptySent(u)
      modifies this`proxyPacketBuffer
      ensures Valid() && proxyPacketBuffer == u
    {
      proxyPacketBuffer := u;
    }

    method SetNackGroups(u: NackGroups)
      requires Valid() && NoEmpty3(u) && GroupsValid(u)
      modifies this`nackGroups
      ensures Valid() && nackGroups == u
    {
      nackGroups := u;
    }

    method SetRtts(u: seq<uint16>)
      requires Valid() && |u| == rttListSize as int
      modifies this`rtts
      ensures Valid() && rtts == u
    {
      rtts := u;
    }

    /** _bufferIcnPacket, corrected to overwrite a payload of a new length. */
    method BufferIcnPacket(r: uint32, ripd: uint32, nid: uint32, sk: uint16, seqNo: uint16, payload: Packet)
      requires Valid()
      modifies this`icnPacketBuffer
      ensures Valid()
      ensures icnPacketBuffer == BufferIcn(old(icnPacketBuffer), r, ripd, nid, sk, seqNo, payload)
    {
      BufferIcnNoEmpty(icnPacketBuffer, r, ripd, nid, sk, seqNo, payload);
      SetIcnPacketBuffer(BufferIcn(icnPacketBuffer, r, ripd, nid, sk, seqNo, payload));
    }

    /** _bufferLtpPacket: a packet sent to the rCID, kept for NACKs. */
    method BufferLtpPacket(r: uint32, ripd: uint32, sk: uint16, seqNo: uint16, packet: Packet)
      requires Valid()
      modifies this`ltpPacketBuffer
      ensures Valid()
      ensures ltpPacketBuffer == BufferSent(old(ltpPacketBuffer), r, ripd, sk, seqNo, packet)
    {
      BufferSentNoEmpty(ltpPacketBuffer, r, ripd, sk, seqNo, packet);
      SetLtpPacketBuffer(BufferSent(ltpPacketBuffer, r, ripd, sk, seqNo, packet));
    }

    /** _bufferProxyPacket: a packet sent for the proxy, kept for NACKs. */
    method BufferProxyPacket(r: uint32, ripd: uint32, sk: uint16, seqNo: uint16, packet: Packet)
      requires Valid()
      modifies this`proxyPacketBuffer
      ensures Valid()
      ensures proxyPacketBuffer == BufferSent(old(proxyPacketBuffer), r, ripd, sk, seqNo, packet)
    {
      BufferSentNoEmpty(proxyPacketBuffer, r, ripd, sk, seqNo, packet);
      SetProxyPacketBuffer(BufferSent(proxyPacketBuffer, r, ripd, sk, seqNo, packet));
    }

    /** retrievePacket(rCID, NID, SK): nothing when a level is missing;
        otherwise the session's packet, its length, and the session erased
        with the corrected clean-up. */
    method RetrievePacket(r: uint32, nid: uint32, sk: uint16) returns (found: bool, packet: Packet, packetSize: uint16)
      requires Valid()
      modifies this`icnPacketBuffer
      ensures Valid()
      ensures var res := Retrieve(old(icnPacketBuffer), r, nid, sk);
        found == res.Some? &&
        (found ==> packet == res.value.packet && packetSize == res.value.packetSize && icnPacketBuffer == res.value.rest) &&
        (!found ==> icnPacketBuffer == old(icnPacketBuffer))
    {
      packet := [];
      packetSize := 0;
      var b := icnPacketBuffer;
      if r !in b || 0 !in b[r] || nid !in b[r][0] || sk !in b[r][0][nid] {
        found := false;
        return;
      }
      packet, packetSize := Reassemble(b[r][0][nid][sk]);
      EraseIcnKeeps(b, r, nid, sk);
      SetIcnPacketBuffer(EraseIcn(b, r, nid, sk));
      found := true;
    }

    /** _addNackNodeId, corrected to give a new group the NACK's range. */
    method AddNackNodeId(r: uint32, nack: Nack, nid: uint32)
      requires Valid()
      modifies this`nackGroups
      ensures Valid()
      ensures nackGroups == AddNack(old(nackGroups), r, nack, nid)
    {
      AddNackKeeps(nackGroups, r, nack, nid);
      AddNackNoEmpty(nackGroups, r, nack, nid);
      SetNackGroups(AddNack(nackGroups, r, nack, nid));
    }

    /** _deleteBufferedLtpPacket(rCID, SK): the session under ripd 0. */
    method DeleteBufferedLtpPacket(r: uint32, sk: uint16)
      requires Valid()
      modifies this`ltpPacketBuffer
      ensures Valid()
      ensures ltpPacketBuffer == Erase3(old(ltpPacketBuffer), r, 0, sk)
    {
      EraseSentNoEmpty(ltpPacketBuffer, r, 0, sk);
      SetLtpPacketBuffer(Erase3(ltpPacketBuffer, r, 0, sk));
    }

    /** _deleteNackGroup(rCID, NACK): the group under the NACK's ripd and
        session key. */
    method DeleteNackGroup(r: uint32, nack: Nack)
      requires Valid()
      modifies this`nackGroups
      ensures Valid()
      ensures nackGroups == Erase3(old(nackGroups), r, nack.ripd, nack.sessionKey)
    {
      Erase3NoEmpty(nackGroups, r, nack.ripd, nack.sessionKey);
      EraseGroupsValid(nackGroups, r, nack.ripd, nack.sessionKey);
      SetNackGroups(Erase3(nackGroups, r, nack.ripd, nack.sessionKey));
    }

    /** _wudsNotReceived(rCID, SK): the nodes under rCID > 0 > SK whose
        CTRL-WED has not come, in ascending order; none when a level is
        missing. */
    method WudsNotReceived(r: uint32, sk: uint16) returns (nids: seq<uint32>)
      ensures StrictlyAscending(nids)
      ensures forall x :: x in nids <==>
        Get3(windowUpdate, r, 0, sk).Some? && x in Get3(windowUpdate, r, 0, sk).value && !Get3(windowUpdate, r, 0, sk).value[x]
    {
      var t := windowUpdate;
      if r !in t || 0 !in t[r] || sk !in t[r][0] {
        return [];
      }
      nids := Unconfirmed(t[r][0][sk]);
    }

    /** The CTRL-WE handler's decision, with the corrected gap walk. */
    method WindowEnd(r: uint32, ripd: uint32, nid: uint32, sk: uint16, we: uint16, cidKnown: bool) returns (a: WindowEndAnswer)
      requires Valid()
      ensures a == WindowEndAnswerOf(icnPacketBuffer, r, ripd, nid, sk, we, cidKnown)
    {
      var b := icnPacketBuffer;
      if r !in b || ripd !in b[r] {
        return NoAction;
      }
      if nid !in b[r][ripd] {
        return if cidKnown then ConfirmedOnly else NoAction;
      }
      if sk !in b[r][ripd][nid] {
        return NoAction;
      }
      var s: SequenceMap := b[r][ripd][nid][sk];
      assert |s| > 0 by {
        assert IcnLevel(b, r) && Get3(b[r], ripd, nid, sk).Some?;
      }
      var all, first, last := LtpGapCheck.CheckWindow(LtpGapCheck.SortedKeys(s.Keys), we);
      if !cidKnown {
        return NoAction;
      }
      a := if all then AllFragmentsReceived(sk) else NackRange(first, last);
    }

    /** _rtt(): the mean of the RTT list, summed in a uint32. The C++ code
        divides by the configured list size, so a size of 0 divides by zero:
        the model reports that as crashed. */
    method Rtt() returns (crashed: bool, rtt: uint16)
      requires Valid()
      ensures crashed <==> rttListSize == 0
      ensures !crashed ==> rtt == Mean(rtts, rttListSize)
    {
      var l := rtts;
      NapStatistics.RttSumBound(l);
      var sum: uint32 := 0;
      var i := 0;
      while i < |l|
        invariant i <= |l|
        invariant sum as int + NapStatistics.RttSum(l[i..]) == NapStatistics.RttSum(l)
      {
        assert l[i..][1..] == l[i + 1..];
        NapStatistics.RttSumBound(l[i + 1..]);
        sum := sum + l[i];
        i := i + 1;
      }
      if rttListSize == 0 {
        return true, 0;
      }
      crashed := false;
      rtt := ToUint16(sum as int / rttListSize as int);
    }

    /** _rtt(v), corrected to keep the list at its size: a list of size 0
        stays empty. */
    method RecordRtt(v: uint16)
      requires Valid()
      modifies this`rtts
      ensures Valid()
      ensures rttListSize == 0 ==> rtts == []
      ensures rttListSize >= 1 ==> rtts == Recorded(old(rtts), rttListSize, v)
    {
      if rttListSize == 0 {
        return;
      }
      var rtt := v;
      if rtt == 0 {
        rtt := 1;
      }
      SetRtts([rtt] + Resized(rtts, rttListSize as nat - 1));
    }
  }
}
