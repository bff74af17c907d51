// The NAP's statistics store: counters the HTTP handler and the transport
// feed, which the monitoring collector drains on every read.

module NapStatistics {
  import opened Wrappers
  import opened Bytes
  import opened MolyEnum

  /** ip_endpoint_t: a UE or server seen by the NAP; the UE variant never
      sets a port. */
  datatype IpEndpoint = IpEndpoint(ipAddress: uint32, nodeType: uint8, surrogate: bool,
                                   fqdn: string, port: Option<uint16>, reported: bool)

  /** The sum of an RTT list. */
  function RttSum(l: seq<uint16>): nat
  {
    if l == [] then 0 else l[0] + RttSum(l[1..])
  }

  lemma {:induction false} RttSumBound(l: seq<uint16>)
    ensures RttSum(l) <= 0xFFFF * |l|
    ensures RttSum(l) != 0 ==> |l| > 0
  {
    if l != [] {
      RttSumBound(l[1..]);
    }
  }

  /** averageNetworkDelayPerFqdn for one list, as meant: half its mean,
      both divisions truncating, with counters wide enough for any list. */
  function Latency(l: seq<uint16>): (r: nat)
    requires RttSum(l) != 0
    ensures r <= RttSum(l) / 2
  {
    RttSumBound(l);
    (RttSum(l) / |l|) / 2
  }

  /** What the C++ code makes of one list. */
  datatype Mean = NotReported | Reported(latency: uint16) | DividesByZero

  /** One list as written: the sum is a uint32 and the length a uint16,
      both wrapping; a wrapped sum of 0 is not reported, a wrapped length
      of 0 divides by zero, and the latency is cut to a uint16. */
  function LatencyAsWritten(l: seq<uint16>): (r: Mean)
    ensures r.NotReported? <==> RttSum(l) % 0x1_0000_0000 == 0
    ensures r.DividesByZero? <==> RttSum(l) % 0x1_0000_0000 != 0 && |l| % 0x1_0000 == 0
  {
    var rttSum := ToUint32(RttSum(l));
    var listSize := ToUint16(|l|);
    if rttSum == 0 then NotReported
    else if listSize == 0 then DividesByZero
    else Reported(ToUint16((rttSum / listSize) / 2))
  }

  /** Below 65536 entries nothing wraps, and the code as written reports
      exactly the lists with a non-zero sum, each with its latency. */
  lemma LatencyAsWrittenAgrees(l: seq<uint16>)
    requires |l| < 0x1_0000
    ensures RttSum(l) == 0 ==> LatencyAsWritten(l) == NotReported
    ensures RttSum(l) != 0 ==> LatencyAsWritten(l).Reported? && LatencyAsWritten(l).latency == Latency(l)
  {
    var n := |l|;
    var sum := RttSum(l);
    RttSumBound(l);
    MulMonotone(0xFFFF, n, 0xFFFF);
    assert sum < 0x1_0000_0000;
    assert ToUint32(sum) == sum && ToUint16(n) == n;
    if sum != 0 {
      LatencyBounds(l, 0);
      var mean := (sum / n) / 2;
      assert mean == Latency(l) && ToUint16(mean) == mean;
      assert LatencyAsWritten(l) == Reported(mean);
    }
  }

  /** 65536 RTTs of 2 wrap the length to 0 and divide by zero, where the
      mean is 2 and the latency 1; one RTT of 100 before 65536 zeros wraps
      the length to 1 and reports 50, where the latency is 0. */
  lemma LatencyAsWrittenWraps()
    ensures LatencyAsWritten(seq(0x1_0000, i => 2)) == DividesByZero
    ensures Latency(seq(0x1_0000, i => 2)) == 1
    ensures LatencyAsWritten([100] + seq(0x1_0000, i => 0)) == Reported(50)
    ensures Latency([100] + seq(0x1_0000, i => 0)) == 0
  {
    var twos: seq<uint16> := seq(0x1_0000, i => 2);
    ConstantSum(twos, 2);
    var zeros: seq<uint16> := seq(0x1_0000, i => 0);
    ConstantSum(zeros, 0);
    assert ([100] + zeros)[1..] == zeros;
    assert RttSum([100] + zeros) == 100;
  }

  /** Half the mean of RTTs is at most half the largest RTT, so it fits
      the uint16 it is stored in; a list of equal RTTs v gives v / 2. */
  lemma LatencyBounds(l: seq<uint16>, v: uint16)
    requires RttSum(l) != 0
    ensures Latency(l) <= 0x7FFF
    ensures (forall i :: 0 <= i < |l| ==> l[i] == v) ==> Latency(l) == v / 2
  {
    RttSumBound(l);
    MeanBound(RttSum(l), |l|);
    if forall i :: 0 <= i < |l| ==> l[i] == v {
      ConstantSum(l, v);
      MulDiv(v, |l|);
    }
  }

  lemma MeanBound(s: nat, n: nat)
    requires n > 0 && s <= 0xFFFF * n
    ensures s / n <= 0xFFFF
  {
    var q := s / n;
    assert q * n <= s;
    if q > 0xFFFF {
      MulMonotone(q, 0x10000, n);
    }
  }

  lemma MulMonotone(a: nat, b: nat, n: nat)
    requires a >= b
    ensures a * n >= b * n
  {
  }

  lemma MulDiv(v: nat, n: nat)
    requires n > 0
    ensures (v * n) / n == v
  {
    var q := (v * n) / n;
    var r := (v * n) % n;
    assert v * n == q * n + r && 0 <= r < n;
    MulStep(v, n);
    MulStep(q, n);
    if q > v {
      MulMonotone(q, v + 1, n);
    } else if q < v {
      MulMonotone(v, q + 1, n);
    }
  }

  lemma MulStep(a: nat, n: nat)
    ensures (a + 1) * n == a * n + n
  {
  }

  lemma {:induction false} ConstantSum(l: seq<uint16>, v: uint16)
    requires forall i :: 0 <= i < |l| ==> l[i] == v
    ensures RttSum(l) == v * |l|
  {
    if l != [] {
      assert forall i :: 0 <= i < |l[1..]| ==> l[1..][i] == l[i + 1];
      ConstantSum(l[1..], v);
    }
  }

  lemma ModAdd32(a: int, b: int)
    ensures (a % 0x1_0000_0000 + b) % 0x1_0000_0000 == (a + b) % 0x1_0000_0000
  {
    var q := a / 0x1_0000_0000;
    assert a == q * 0x1_0000_0000 + a % 0x1_0000_0000;
  }

  /** The inner loop of averageNetworkDelayPerFqdn: the uint32 sum of a
      list and its uint16 length, both wrapping. */
  method SumRtts(l: seq<uint16>) returns (rttSum: uint32, listSize: uint16)
    ensures rttSum == ToUint32(RttSum(l)) && listSize == ToUint16(|l|)
  {
    rttSum := 0;
    listSize := 0;
    var i := 0;
    while i < |l|
      invariant i <= |l| && listSize == ToUint16(i)
      invariant (rttSum as int + RttSum(l[i..])) % 0x1_0000_0000 == RttSum(l) % 0x1_0000_0000
    {
      assert l[i..][1..] == l[i + 1..];
      ModAdd32(rttSum + l[i], RttSum(l[i + 1..]));
      rttSum := ToUint32(rttSum + l[i]);
      ModAdd16(i, 1);
      listSize := ToUint16(listSize + 1);
      i := i + 1;
    }
    assert l[i..] == [];
  }

  lemma ModAdd16(a: int, b: int)
    ensures (a % 0x1_0000 + b) % 0x1_0000 == (a + b) % 0x1_0000
  {
    var q := a / 0x1_0000;
    assert a == q * 0x1_0000 + a % 0x1_0000;
  }

  /** The FQDNs a drain of the RTT table reports: those whose RTTs do not
      sum to 0. */
  predicate Reportable(rtts: map<uint32, seq<uint16>>, k: uint32)
  {
    k in rtts && RttSum(rtts[k]) != 0
  }

  /** The FQDNs the code as written reports, and those it divides by zero
      on. */
  predicate ReportedAsWritten(rtts: map<uint32, seq<uint16>>, k: uint32)
  {
    k in rtts && LatencyAsWritten(rtts[k]).Reported?
  }

  predicate Crashes(rtts: map<uint32, seq<uint16>>, k: uint32)
  {
    k in rtts && LatencyAsWritten(rtts[k]).DividesByZero?
  }

  /** The outer loop of averageNetworkDelayPerFqdn over the RTT table, as
      written: crashed when a list wraps its length to 0 with a non-zero
      sum and the division by zero ends the process; otherwise each FQDN
      the code reports has its latency, its list emptied, and every other
      list is kept. */
  method DrainRtts(rtts: map<uint32, seq<uint16>>)
    returns (crashed: bool, latencies: map<uint32, uint16>, rest: map<uint32, seq<uint16>>)
    ensures crashed <==> exists k :: Crashes(rtts, k)
    ensures !crashed ==> forall k :: k in latencies <==> ReportedAsWritten(rtts, k)
    ensures !crashed ==> forall k :: ReportedAsWritten(rtts, k) ==> latencies[k] == LatencyAsWritten(rtts[k]).latency
    ensures !crashed ==> rest.Keys == rtts.Keys
    ensures !crashed ==> forall k :: k in rtts ==> rest[k] == if ReportedAsWritten(rtts, k) then [] else rtts[k]
  {
    latencies := map[];
    rest := rtts;
    var todo := rtts.Keys;
    while todo != {}
      invariant todo <= rtts.Keys && rest.Keys == rtts.Keys
      invariant forall k :: k in todo ==> rest[k] == rtts[k]
      invariant forall k :: k in rtts && k !in todo ==>
                  !Crashes(rtts, k) && rest[k] == if ReportedAsWritten(rtts, k) then [] else rtts[k]
      invariant forall k :: k in latencies <==> ReportedAsWritten(rtts, k) && k !in todo
      invariant forall k :: k in latencies ==> latencies[k] == LatencyAsWritten(rtts[k]).latency
      decreases |todo|
    {
      var k :| k in todo;
      var rttSum, listSize := SumRtts(rest[k]);
      if rttSum != 0 {
        if listSize == 0 {
          assert Crashes(rtts, k);
          return true, latencies, rest;
        }
        var latency: uint16 := ToUint16((rttSum / listSize) / 2);
        latencies := latencies[k := latency];
        rest := rest[k := []];
      }
      todo := todo - {k};
    }
    crashed := false;
  }

  /** With every list shorter than 65536 entries nothing wraps: the drain
      does not crash and reports exactly the FQDNs with a non-zero RTT sum,
      each with its latency. */
  lemma DrainRttsShortLists(rtts: map<uint32, seq<uint16>>, k: uint32)
    requires forall j :: j in rtts ==> |rtts[j]| < 0x1_0000
    ensures !Crashes(rtts, k)
    ensures ReportedAsWritten(rtts, k) <==> Reportable(rtts, k)
    ensures Reportable(rtts, k) ==> LatencyAsWritten(rtts[k]).latency == Latency(rtts[k])
  {
    if k in rtts {
      LatencyAsWrittenAgrees(rtts[k]);
    }
  }

  /** The endpoints not yet reported. */
  predicate Unreported(m: map<uint32, IpEndpoint>, k: uint32)
  {
    k in m && !m[k].reported
  }

  /** The loop of ipEndpoints: copy out each endpoint not yet reported and
      mark it reported. */
  method DrainEndpoints(m: map<uint32, IpEndpoint>) returns (unreported: map<uint32, IpEndpoint>, marked: map<uint32, IpEndpoint>)
    ensures forall k :: k in unreported <==> Unreported(m, k)
    ensures forall k :: k in unreported ==> k in m && unreported[k] == m[k]
    ensures marked.Keys == m.Keys
    ensures forall k :: k in m ==> marked[k] == m[k].(reported := true)
  {
    unreported := map[];
    marked := m;
    var todo := m.Keys;
    while todo != {}
      invariant todo <= m.Keys && marked.Keys == m.Keys
      invariant forall k :: k in todo ==> marked[k] == m[k]
      invariant forall k :: k in m && k !in todo ==> marked[k] == m[k].(reported := true)
      invariant forall k :: k in unreported <==> Unreported(m, k) && k !in todo
      invariant forall k :: k in unreported ==> k in m && unreported[k] == m[k]
      decreases |todo|
    {
      var k :| k in todo;
      if !marked[k].reported {
        unreported := unreported[k := marked[k]];
        marked := marked[k := marked[k].(reported := true)];
      }
      todo := todo - {k};
    }
  }

  /** Statistics: the CMC group size pair, the RTTs per hashed FQDN (most
      recent first), the HTTP request counts per FQDN and the IP
      endpoints by address. */
  class Statistics {
    var cmcReports: uint32
    var cmcSizeSum: uint32
    var rttPerFqdn: map<uint32, seq<uint16>>
    var httpRequestsPerFqdn: map<string, uint32>
    var ipEndpoints: map<uint32, IpEndpoint>

    constructor()
      ensures cmcReports == 0 && cmcSizeSum == 0
      ensures rttPerFqdn == map[] && httpRequestsPerFqdn == map[] && ipEndpoints == map[]
    {
      cmcReports := 0;
      cmcSizeSum := 0;
      rttPerFqdn := map[];
      httpRequestsPerFqdn := map[];
      ipEndpoints := map[];
    }

    /** averageCmcGroupSize: the truncated mean of the reported sizes (0
        when none was reported), after which both counters are reset. */
    method AverageCmcGroupSize() returns (r: uint32)
      modifies this
      ensures old(cmcReports) != 0 ==> r == old(cmcSizeSum) / old(cmcReports)
      ensures old(cmcReports) == 0 ==> r == 0
      ensures cmcReports == 0 && cmcSizeSum == 0
      ensures rttPerFqdn == old(rttPerFqdn) && httpRequestsPerFqdn == old(httpRequestsPerFqdn)
      ensures ipEndpoints == old(ipEndpoints)
    {
      if cmcReports != 0 {
        r := cmcSizeSum / cmcReports;
      } else {
        r := 0;
      }
      cmcReports := 0;
      cmcSizeSum := 0;
    }

    /** cmcGroupSize: one more report, its size added; both uint32. */
    method CmcGroupSize(size: uint32)
      modifies this
      ensures cmcReports == ToUint32(old(cmcReports) + 1)
      ensures cmcSizeSum == ToUint32(old(cmcSizeSum) + size)
      ensures rttPerFqdn == old(rttPerFqdn) && httpRequestsPerFqdn == old(httpRequestsPerFqdn)
      ensures ipEndpoints == old(ipEndpoints)
    {
      cmcReports := ToUint32(cmcReports + 1);
      cmcSizeSum := ToUint32(cmcSizeSum + size);
    }

    /** averageNetworkDelayPerFqdn: half the mean RTT of every FQDN the
        code reports, whose list is then emptied, the others neither
        reported nor changed; crashed when a list of a multiple of 65536
        entries divides by zero, after which nothing is stated. */
    method AverageNetworkDelayPerFqdn() returns (crashed: bool, r: map<uint32, uint16>)
      modifies this
      ensures crashed <==> exists k :: Crashes(old(rttPerFqdn), k)
      ensures !crashed ==> forall k :: k in r <==> ReportedAsWritten(old(rttPerFqdn), k)
      ensures !crashed ==> forall k :: ReportedAsWritten(old(rttPerFqdn), k) ==>
                r[k] == LatencyAsWritten(old(rttPerFqdn)[k]).latency
      ensures !crashed ==> rttPerFqdn.Keys == old(rttPerFqdn).Keys
      ensures !crashed ==> forall k :: k in old(rttPerFqdn) ==>
                rttPerFqdn[k] == if ReportedAsWritten(old(rttPerFqdn), k) then [] else old(rttPerFqdn)[k]
      ensures cmcReports == old(cmcReports) && cmcSizeSum == old(cmcSizeSum)
      ensures httpRequestsPerFqdn == old(httpRequestsPerFqdn) && ipEndpoints == old(ipEndpoints)
    {
      crashed, r, rttPerFqdn := DrainRtts(rttPerFqdn);
    }

    /** ipEndpointAdd(ip): a UE, recorded only the first time its address
        is seen. */
    method IpEndpointAddUe(ip: uint32)
      modifies this
      ensures ip in old(ipEndpoints) ==> ipEndpoints == old(ipEndpoints)
      ensures ip !in old(ipEndpoints) ==>
                ipEndpoints == old(ipEndpoints)[ip := IpEndpoint(ip, NODE_TYPE_UE, false, "", None, false)]
      ensures cmcReports == old(cmcReports) && cmcSizeSum == old(cmcSizeSum)
      ensures rttPerFqdn == old(rttPerFqdn) && httpRequestsPerFqdn == old(httpRequestsPerFqdn)
    {
      if ip !in ipEndpoints {
        ipEndpoints := ipEndpoints[ip := IpEndpoint(ip, NODE_TYPE_UE, false, "", None, false)];
      }
    }

    /** ipEndpointAdd(ip, port): a surrogate server. */
    method IpEndpointAddSurrogate(ip: uint32, port: uint16)
      modifies this
      ensures ip in old(ipEndpoints) ==> ipEndpoints == old(ipEndpoints)
      ensures ip !in old(ipEndpoints) ==>
                ipEndpoints == old(ipEndpoints)[ip := IpEndpoint(ip, NODE_TYPE_SERVER, true, "", Some(port), false)]
      ensures cmcReports == old(cmcReports) && cmcSizeSum == old(cmcSizeSum)
      ensures rttPerFqdn == old(rttPerFqdn) && httpRequestsPerFqdn == old(httpRequestsPerFqdn)
    {
      if ip !in ipEndpoints {
        ipEndpoints := ipEndpoints[ip := IpEndpoint(ip, NODE_TYPE_SERVER, true, "", Some(port), false)];
      }
    }

    /** ipEndpointAdd(ip, fqdn, port): a server known by its FQDN. */
    method IpEndpointAddServer(ip: uint32, fqdn: string, port: uint16)
      modifies this
      ensures ip in old(ipEndpoints) ==> ipEndpoints == old(ipEndpoints)
      ensures ip !in old(ipEndpoints) ==>
                ipEndpoints == old(ipEndpoints)[ip := IpEndpoint(ip, NODE_TYPE_SERVER, false, fqdn, Some(port), false)]
      ensures cmcReports == old(cmcReports) && cmcSizeSum == old(cmcSizeSum)
      ensures rttPerFqdn == old(rttPerFqdn) && httpRequestsPerFqdn == old(httpRequestsPerFqdn)
    {
      if ip !in ipEndpoints {
        ipEndpoints := ipEndpoints[ip := IpEndpoint(ip, NODE_TYPE_SERVER, false, fqdn, Some(port), false)];
      }
    }

    /** ipEndpoints: exactly the endpoints not yet reported, which are then
        marked reported, so that nothing is left to report. */
    method IpEndpoints() returns (r: map<uint32, IpEndpoint>)
      modifies this
      ensures forall k :: k in r <==> Unreported(old(ipEndpoints), k)
      ensures forall k :: k in r ==> k in old(ipEndpoints) && r[k] == old(ipEndpoints)[k]
      ensures ipEndpoints.Keys == old(ipEndpoints).Keys
      ensures forall k :: k in old(ipEndpoints) ==> ipEndpoints[k] == old(ipEndpoints)[k].(reported := true)
      ensures forall k :: !Unreported(ipEndpoints, k)
      ensures cmcReports == old(cmcReports) && cmcSizeSum == old(cmcSizeSum)
      ensures rttPerFqdn == old(rttPerFqdn) && httpRequestsPerFqdn == old(httpRequestsPerFqdn)
    {
      r, ipEndpoints := DrainEndpoints(ipEndpoints);
    }

    /** httpRequestsPerFqdn(): the accumulated counts, then none. */
    method DrainHttpRequestsPerFqdn() returns (r: map<string, uint32>)
      modifies this
      ensures r == old(httpRequestsPerFqdn) && httpRequestsPerFqdn == map[]
      ensures cmcReports == old(cmcReports) && cmcSizeSum == old(cmcSizeSum)
      ensures rttPerFqdn == old(rttPerFqdn) && ipEndpoints == old(ipEndpoints)
    {
      r := httpRequestsPerFqdn;
      httpRequestsPerFqdn := map[];
    }

    /** httpRequestsPerFqdn(fqdn, n): n more requests for fqdn, the count
        kept in a uint32; no other FQDN's count changes. */
    method AddHttpRequestsPerFqdn(fqdn: string, numberOfRequests: uint32)
      modifies this
      ensures httpRequestsPerFqdn.Keys == old(httpRequestsPerFqdn).Keys + {fqdn}
      ensures httpRequestsPerFqdn[fqdn] ==
                if fqdn in old(httpRequestsPerFqdn)
                then ToUint32(old(httpRequestsPerFqdn)[fqdn] + numberOfRequests)
                else numberOfRequests
      ensures forall f :: f in old(httpRequestsPerFqdn) && f != fqdn ==>
                httpRequestsPerFqdn[f] == old(httpRequestsPerFqdn)[f]
      ensures cmcReports == old(cmcReports) && cmcSizeSum == old(cmcSizeSum)
      ensures rttPerFqdn == old(rttPerFqdn) && ipEndpoints == old(ipEndpoints)
    {
      if fqdn !in httpRequestsPerFqdn {
        httpRequestsPerFqdn := httpRequestsPerFqdn[fqdn := numberOfRequests];
      } else {
        httpRequestsPerFqdn := httpRequestsPerFqdn[fqdn := ToUint32(httpRequestsPerFqdn[fqdn] + numberOfRequests)];
      }
    }

    /** roundTripTime(cid, rtt): rtt goes in front of the list of the
        CID's hashed FQDN, a new list being made for it if needed. */
    method RoundTripTime(hashedFqdn: uint32, rtt: uint16)
      modifies this
      ensures rttPerFqdn == old(rttPerFqdn)[hashedFqdn :=
                [rtt] + if hashedFqdn in old(rttPerFqdn) then old(rttPerFqdn)[hashedFqdn] else []]
      ensures cmcReports == old(cmcReports) && cmcSizeSum == old(cmcSizeSum)
      ensures httpRequestsPerFqdn == old(httpRequestsPerFqdn) && ipEndpoints == old(ipEndpoints)
    {
      if hashedFqdn !in rttPerFqdn {
        rttPerFqdn := rttPerFqdn[hashedFqdn := [rtt]];
        assert [rtt] + [] == [rtt];
      } else {
        rttPerFqdn := rttPerFqdn[hashedFqdn := [rtt] + rttPerFqdn[hashedFqdn]];
      }
    }
  }
}
