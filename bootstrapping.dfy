// The bootstrapping service of the SDN controller: the static registries of
// node and link identifiers, the activation flag with its queue of links that
// arrived while inactive, and the link orchestration that asks the resource
// manager for identifiers and installs the arbitrary-bitmask rule on the
// switch. The resource manager's answers are inputs; the datastore registries,
// the resource-manager message and the switch rules are recorded as actions.

module Bootstrapping {
  import opened Wrappers
  import opened LidCodec

  /** A topology link as the topology listener hands it over. */
  datatype Link = Link(linkId: string, srcNode: string, srcTp: string, dstNode: string)

  /** One entry of a resource request message. */
  datatype Request = Request(srcNode: string, dstNode: string, nodeConnector: string)

  /** One entry of a resource offer message. */
  datatype Offer = Offer(nid: string, lid: string)

  /** The resource manager's answer to a message: None for a null message. */
  type Reply = Option<seq<Offer>>

  /** Side effects outside the two maps, in the order they happen. */
  datatype Action =
    | SendRequests(requests: seq<Request>)
    | WriteNodeRegistry(name: string, id: string)
    | WriteLinkRegistry(name: string, lid: string)
    | WriteConnectorRegistry(connector: string, src: string, dst: string)
    | DeleteLinkRegistry(name: string)
    | DeleteConnectorRegistry(connector: string)
    | AddFlow(switchId: string, connector: string, srcAddress: string, dstAddress: string)
    | DeleteFlow(switchId: string, connector: string)

  /** assignedNodeIds, assignedLinkIds and the action log. */
  datatype Registry = Registry(nodeIds: map<string, string>, linkIds: map<string, string>, log: seq<Action>)

  predicate IsHostLink(l: Link)
  {
    |l.linkId| >= 4 && l.linkId[..4] == "host"
  }

  function KeyOf(l: Link): string { LinkKey(l.srcNode, l.dstNode) }

  function RequestOf(l: Link): Request { Request(l.srcNode, l.dstNode, l.srcTp) }

  predicate NoOffer(reply: Reply)
  {
    reply.None? || |reply.value| == 0
  }

  // ---------------------------------------------------------------------
  // addLink

  datatype Outcome = Outcome(reg: Registry, added: bool, threw: bool)

  /** The registry writes that follow an accepted offer. */
  function RecordOffer(r: Registry, src: string, dst: string, connector: string, o: Offer): (u: Registry)
    ensures src in u.nodeIds && u.nodeIds[src] == o.nid
    ensures LinkKey(src, dst) in u.linkIds && u.linkIds[LinkKey(src, dst)] == o.lid
    ensures |u.log| == |r.log| + 3 && u.log[..|r.log|] == r.log
  {
    var key := LinkKey(src, dst);
    Registry(r.nodeIds[src := o.nid], r.linkIds[key := o.lid],
             r.log + [WriteNodeRegistry(src, o.nid), WriteLinkRegistry(key, o.lid),
                      WriteConnectorRegistry(connector, src, dst)])
  }

  /** addLink(src, dst, connector) with the resource manager answering reply. */
  function AddLinkSpec(r: Registry, src: string, dst: string, connector: string, reply: Reply): (o: Outcome)
    // a configured link is left alone and reported as added
    ensures LinkKey(src, dst) in r.linkIds ==> o == Outcome(r, true, false)
    // a missing offer fails without touching either map
    ensures LinkKey(src, dst) !in r.linkIds && NoOffer(reply) ==>
      !o.added && !o.threw && o.reg.nodeIds == r.nodeIds && o.reg.linkIds == r.linkIds
    // an accepted offer is recorded under src and "src,dst", even when the rule cannot be built
    ensures LinkKey(src, dst) !in r.linkIds && !NoOffer(reply) ==>
      o.reg.nodeIds == r.nodeIds[src := reply.value[0].nid]
      && o.reg.linkIds == r.linkIds[LinkKey(src, dst) := reply.value[0].lid]
    // the link counts as added exactly when it is registered and its rule is installed
    ensures o.added <==>
      LinkKey(src, dst) in r.linkIds
      || (!NoOffer(reply) && LinkAddresses(reply.value[0].lid).Addresses?)
    ensures o.threw ==> !NoOffer(reply) && |reply.value[0].lid| < LID_LENGTH
    ensures r.log <= o.reg.log
  {
    var key := LinkKey(src, dst);
    if key in r.linkIds then Outcome(r, true, false)
    else
      var sent := r.(log := r.log + [SendRequests([Request(src, dst, "")])]);
      if NoOffer(reply) then Outcome(sent, false, false)
      else
        AcceptOffer(sent, src, dst, connector, reply.value[0])
  }

  /** The part of addLink after an offer arrived: the registry writes, then
      the rule on the switch when the LID converts. */
  function AcceptOffer(r: Registry, src: string, dst: string, connector: string, offer: Offer): (o: Outcome)
    // the offer is recorded under src and "src,dst", even when the rule cannot be built
    ensures o.reg.nodeIds == r.nodeIds[src := offer.nid]
    ensures o.reg.linkIds == r.linkIds[LinkKey(src, dst) := offer.lid]
    // added exactly when the LID converts; a throw only for a LID too short to split
    ensures o.added <==> LinkAddresses(offer.lid).Addresses?
    ensures o.threw ==> |offer.lid| < LID_LENGTH
    ensures r.log <= o.reg.log
  {
    var written := RecordOffer(r, src, dst, connector, offer);
    match LinkAddresses(offer.lid)
    case Uncaught => Outcome(written, false, true)
    case Caught => Outcome(written, false, false)
    case Addresses(s, d) => Outcome(written.(log := written.log + [AddFlow(src, connector, s, d)]), true, false)
  }

  // ---------------------------------------------------------------------
  // addLinks

  /** What a batch operation leaves: the registry, the links still in the
      caller's list, and whether an exception escaped. */
  datatype Batch = Batch(reg: Registry, remaining: seq<Link>, threw: bool)

  /** The iterator loop of addLinks from index i on, with kept the links
      already passed over and left in the list: every non-host link goes
      through addLink and is removed from the list when that succeeds; an
      exception aborts the iteration and propagates. */
  function AddLinksFrom(r: Registry, links: seq<Link>, i: nat, kept: seq<Link>, rm: (string, string) -> Reply): Batch
    requires i <= |links|
    decreases |links| - i
  {
    if i == |links| then Batch(r, kept, false)
    else
      var l := links[i];
      if IsHostLink(l) then AddLinksFrom(r, links, i + 1, kept + [l], rm)
      else
        var o := AddLinkSpec(r, l.srcNode, l.dstNode, l.srcTp, rm(l.srcNode, l.dstNode));
        if o.threw then Batch(o.reg, kept + links[i..], true)
        else AddLinksFrom(o.reg, links, i + 1, if o.added then kept else kept + [l], rm)
  }

  /** addLinks while the application is active. */
  function AddLinksSpec(r: Registry, links: seq<Link>, rm: (string, string) -> Reply): (b: Batch)
    ensures r.linkIds.Keys <= b.reg.linkIds.Keys
    ensures forall l :: l in b.remaining ==> l in links
    ensures forall l :: l in links && IsHostLink(l) ==> l in b.remaining
  {
    AddLinksGrows(r, links, 0, [], rm);
    AddLinksFromRemovals(r, links, 0, [], rm);
    assert links[0..] == links;
    AddLinksFrom(r, links, 0, [], rm)
  }

  lemma {:induction false} AddLinksGrows(r: Registry, links: seq<Link>, i: nat, kept: seq<Link>, rm: (string, string) -> Reply)
    requires i <= |links|
    ensures r.linkIds.Keys <= AddLinksFrom(r, links, i, kept, rm).reg.linkIds.Keys
    decreases |links| - i
  {
    if i < |links| {
      var l := links[i];
      if IsHostLink(l) {
        AddLinksGrows(r, links, i + 1, kept + [l], rm);
      } else {
        var o := AddLinkSpec(r, l.srcNode, l.dstNode, l.srcTp, rm(l.srcNode, l.dstNode));
        if !o.threw {
          AddLinksGrows(o.reg, links, i + 1, if o.added then kept else kept + [l], rm);
        }
      }
    }
  }

  lemma {:induction false} AddLinksFromRemovals(r: Registry, links: seq<Link>, i: nat, kept: seq<Link>, rm: (string, string) -> Reply)
    requires i <= |links|
    ensures var b := AddLinksFrom(r, links, i, kept, rm);
      (forall l :: l in kept ==> l in b.remaining)
      && (forall l :: l in links[i..] && IsHostLink(l) ==> l in b.remaining)
      && (forall l :: l in b.remaining ==> l in kept || l in links[i..])
      && (forall l :: l in links[i..] && l !in b.remaining ==> !IsHostLink(l) && KeyOf(l) in b.reg.linkIds)
      && (!b.threw ==>
            forall l :: l in links[i..] && l !in kept && !IsHostLink(l) && KeyOf(l) in r.linkIds ==> l !in b.remaining)
    decreases |links| - i
  {
    if i < |links| {
      var l := links[i];
      assert forall x :: x in links[i..] <==> x == l || x in links[i + 1..] by {
        assert links[i..] == [l] + links[i + 1..];
      }
      if IsHostLink(l) {
        AddLinksFromRemovals(r, links, i + 1, kept + [l], rm);
      } else {
        var o := AddLinkSpec(r, l.srcNode, l.dstNode, l.srcTp, rm(l.srcNode, l.dstNode));
        if !o.threw {
          var kept' := if o.added then kept else kept + [l];
          AddLinksFromRemovals(o.reg, links, i + 1, kept', rm);
          AddLinksGrows(o.reg, links, i + 1, kept', rm);
          assert r.linkIds.Keys <= o.reg.linkIds.Keys;
          if o.added {
            assert KeyOf(l) in o.reg.linkIds;
          }
        }
      }
    }
  }

  /** addLinks keeps every host link, removes every link whose key was already
      registered (unless an exception escapes), and removes only links that end
      up registered. */
  lemma AddLinksRemovals(r: Registry, links: seq<Link>, rm: (string, string) -> Reply)
    ensures var b := AddLinksSpec(r, links, rm);
      (forall l :: l in links && IsHostLink(l) ==> l in b.remaining)
      && (forall l :: l in b.remaining ==> l in links)
      && (forall l :: l in links && l !in b.remaining ==> !IsHostLink(l) && KeyOf(l) in b.reg.linkIds)
      && (!b.threw ==> forall l :: l in links && !IsHostLink(l) && KeyOf(l) in r.linkIds ==> l !in b.remaining)
  {
    AddLinksFromRemovals(r, links, 0, [], rm);
    assert links[0..] == links;
  }

  // ---------------------------------------------------------------------
  // addMultipleLinks

  datatype Prepared = Prepared(requests: seq<Request>, remaining: seq<Link>)

  /** The first loop of addMultipleLinks from index i on: a request
      (prepareRequest) for every non-host link whose key is not registered, and
      that link leaves the list. */
  function PrepareFrom(linkIds: map<string, string>, links: seq<Link>, i: nat, requests: seq<Request>, kept: seq<Link>): Prepared
    requires i <= |links|
    decreases |links| - i
  {
    if i == |links| then Prepared(requests, kept)
    else
      var l := links[i];
      if !IsHostLink(l) && KeyOf(l) !in linkIds then PrepareFrom(linkIds, links, i + 1, requests + [RequestOf(l)], kept)
      else PrepareFrom(linkIds, links, i + 1, requests, kept + [l])
  }

  function PrepareRequests(linkIds: map<string, string>, links: seq<Link>): (p: Prepared)
    ensures |p.requests| + |p.remaining| == |links|
    ensures forall l :: l in p.remaining ==> l in links
  {
    PrepareFromProperties(linkIds, links, 0, [], []);
    assert links[0..] == links;
    PrepareFrom(linkIds, links, 0, [], [])
  }

  lemma {:induction false} PrepareFromProperties(linkIds: map<string, string>, links: seq<Link>, i: nat, requests: seq<Request>, kept: seq<Link>)
    requires i <= |links|
    ensures var p := PrepareFrom(linkIds, links, i, requests, kept);
      (forall q :: q in p.requests ==>
         q in requests || exists l :: l in links[i..] && !IsHostLink(l) && KeyOf(l) !in linkIds && RequestOf(l) == q)
      && (forall l :: l in p.remaining ==> l in kept || (l in links[i..] && (IsHostLink(l) || KeyOf(l) in linkIds)))
      && (forall l :: l in links[i..] ==> l in p.remaining || RequestOf(l) in p.requests)
      && requests <= p.requests && kept <= p.remaining
      && |p.requests| + |p.remaining| == |requests| + |kept| + |links| - i
    decreases |links| - i
  {
    if i < |links| {
      var l := links[i];
      assert forall x :: x in links[i..] <==> x == l || x in links[i + 1..] by {
        assert links[i..] == [l] + links[i + 1..];
      }
      if !IsHostLink(l) && KeyOf(l) !in linkIds {
        PrepareFromProperties(linkIds, links, i + 1, requests + [RequestOf(l)], kept);
        var p := PrepareFrom(linkIds, links, i + 1, requests + [RequestOf(l)], kept);
        assert RequestOf(l) in p.requests by {
          assert (requests + [RequestOf(l)])[|requests|] == RequestOf(l);
        }
      } else {
        PrepareFromProperties(linkIds, links, i + 1, requests, kept + [l]);
        var p := PrepareFrom(linkIds, links, i + 1, requests, kept + [l]);
        assert l in p.remaining by {
          assert (kept + [l])[|kept|] == l;
        }
      }
    }
  }

  /** Already-registered links produce no request, every link that got a
      request leaves the caller's list, and only host or registered links stay. */
  lemma PrepareRequestsProperties(linkIds: map<string, string>, links: seq<Link>)
    ensures var p := PrepareRequests(linkIds, links);
      (forall q :: q in p.requests ==> LinkKey(q.srcNode, q.dstNode) !in linkIds)
      && (forall q :: q in p.requests ==> exists l :: l in links && !IsHostLink(l) && RequestOf(l) == q)
      && (forall l :: l in p.remaining ==> l in links && (IsHostLink(l) || KeyOf(l) in linkIds))
      && (forall l :: l in links ==> l in p.remaining || RequestOf(l) in p.requests)
      && |p.requests| + |p.remaining| == |links|
  {
    PrepareFromProperties(linkIds, links, 0, [], []);
    assert links[0..] == links;
  }

  /** What the offer loop of addMultipleLinks leaves: the registry, how many
      offers were recorded, and how it ended. */
  datatype OffersEnd = AllApplied | Stopped | Threw
  datatype OffersResult = OffersResult(reg: Registry, applied: nat, end: OffersEnd)

  /** A LID conversion that, like LinkAddresses, throws exactly on a LID too
      short to split. The lemmas about the offer loop hold for any such
      conversion, so they do not depend on how a LID becomes an address. */
  ghost predicate ThrowsOnShort(convert: string -> Conversion)
  {
    forall g :: convert(g).Uncaught? <==> |g| < LID_LENGTH
  }

  lemma LinkAddressesThrowsOnShort()
    ensures ThrowsOnShort(LinkAddresses)
  {
  }

  /** The offer loop from offer i on, converting LIDs with convert (always
      LinkAddresses in the model): offer i is paired with requests[i] by
      position alone; a missing request or a too-short LID throws, a LID that
      does not convert ends the method normally. */
  function ApplyOffers(convert: string -> Conversion, r: Registry, requests: seq<Request>, offers: seq<Offer>, i: nat): (res: OffersResult)
    requires i <= |offers|
    ensures i <= res.applied <= |offers|
    ensures res.end == AllApplied ==> res.applied == |offers|
    decreases |offers| - i
  {
    if i == |offers| then OffersResult(r, i, AllApplied)
    else if i >= |requests| then OffersResult(r, i, Threw)
    else
      var q := requests[i];
      var written := RecordOffer(r, q.srcNode, q.dstNode, q.nodeConnector, offers[i]);
      match convert(offers[i].lid)
      case Uncaught => OffersResult(written, i + 1, Threw)
      case Caught => OffersResult(written, i + 1, Stopped)
      case Addresses(s, d) =>
        ApplyOffers(convert, written.(log := written.log + [AddFlow(q.srcNode, q.nodeConnector, s, d)]), requests, offers, i + 1)
  }

  /** Why a run of the offer loop that threw did so: an offer without a
      request, or a LID too short to split. */
  predicate ThrowExplained(res: OffersResult, requests: seq<Request>, offers: seq<Offer>)
    requires res.applied <= |offers|
  {
    res.end == Threw ==>
      res.applied >= |requests| || (res.applied > 0 && |offers[res.applied - 1].lid| < LID_LENGTH)
  }

  /** The offer loop ends early with a throw only for an offer without a
      request or a LID too short to split. */
  lemma {:induction false} ApplyOffersThrows(convert: string -> Conversion, r: Registry, requests: seq<Request>, offers: seq<Offer>, i: nat)
    requires i <= |offers| && ThrowsOnShort(convert)
    ensures ThrowExplained(ApplyOffers(convert, r, requests, offers, i), requests, offers)
    decreases |offers| - i
  {
    var res := ApplyOffers(convert, r, requests, offers, i);
    if i == |offers| {
      assert res.end == AllApplied;
    } else if i >= |requests| {
      assert res.applied == i;
    } else {
      var q := requests[i];
      var written := RecordOffer(r, q.srcNode, q.dstNode, q.nodeConnector, offers[i]);
      var c := convert(offers[i].lid);
      if c.Uncaught? {
        assert res == OffersResult(written, i + 1, Threw);
        assert |offers[res.applied - 1].lid| < LID_LENGTH;
      } else if c.Addresses? {
        var next := written.(log := written.log + [AddFlow(q.srcNode, q.nodeConnector, c.src, c.dst)]);
        assert res == ApplyOffers(convert, next, requests, offers, i + 1);
        ApplyOffersThrows(convert, next, requests, offers, i + 1);
      } else {
        assert res.end == Stopped;
      }
    }
  }

  /** The offer loop never forgets a registered link key. */
  lemma {:induction false} ApplyOffersKeepsKeys(convert: string -> Conversion, r: Registry, requests: seq<Request>, offers: seq<Offer>, i: nat)
    requires i <= |offers|
    ensures r.linkIds.Keys <= ApplyOffers(convert, r, requests, offers, i).reg.linkIds.Keys
    decreases |offers| - i
  {
    if i < |offers| && i < |requests| {
      var q := requests[i];
      var written := RecordOffer(r, q.srcNode, q.dstNode, q.nodeConnector, offers[i]);
      assert r.linkIds.Keys <= written.linkIds.Keys;
      var c := convert(offers[i].lid);
      if c.Addresses? {
        var next := written.(log := written.log + [AddFlow(q.srcNode, q.nodeConnector, c.src, c.dst)]);
        assert ApplyOffers(convert, r, requests, offers, i) == ApplyOffers(convert, next, requests, offers, i + 1);
        ApplyOffersKeepsKeys(convert, next, requests, offers, i + 1);
      }
    }
  }

  predicate DistinctKeys(requests: seq<Request>)
  {
    forall j, k :: 0 <= j < k < |requests| ==>
      LinkKey(requests[j].srcNode, requests[j].dstNode) != LinkKey(requests[k].srcNode, requests[k].dstNode)
  }

  /** The LID registered for requests[k] is offers[k].lid, for every k < n. */
  predicate Positional(linkIds: map<string, string>, requests: seq<Request>, offers: seq<Offer>, n: nat)
  {
    forall k :: 0 <= k < n && k < |requests| && k < |offers| ==>
      LinkKey(requests[k].srcNode, requests[k].dstNode) in linkIds
      && linkIds[LinkKey(requests[k].srcNode, requests[k].dstNode)] == offers[k].lid
  }

  lemma RecordKeepsPositional(r: Registry, requests: seq<Request>, offers: seq<Offer>, i: nat)
    requires i < |offers| && i < |requests| && DistinctKeys(requests)
    requires Positional(r.linkIds, requests, offers, i)
    ensures Positional(RecordOffer(r, requests[i].srcNode, requests[i].dstNode, requests[i].nodeConnector, offers[i]).linkIds,
                       requests, offers, i + 1)
  {
    var q := requests[i];
    var written := RecordOffer(r, q.srcNode, q.dstNode, q.nodeConnector, offers[i]);
    forall k | 0 <= k < i + 1 && k < |requests| && k < |offers|
      ensures LinkKey(requests[k].srcNode, requests[k].dstNode) in written.linkIds
      ensures written.linkIds[LinkKey(requests[k].srcNode, requests[k].dstNode)] == offers[k].lid
    {
      if k < i {
        assert LinkKey(requests[k].srcNode, requests[k].dstNode) != LinkKey(q.srcNode, q.dstNode);
      }
    }
  }

  /** Positional correlation: when the requested links have distinct keys, the
      LID registered for requests[k] is offers[k].lid for every recorded offer. */
  lemma {:induction false} OffersPositional(convert: string -> Conversion, r: Registry, requests: seq<Request>, offers: seq<Offer>, i: nat)
    requires i <= |offers| && DistinctKeys(requests)
    requires Positional(r.linkIds, requests, offers, i)
    ensures var res := ApplyOffers(convert, r, requests, offers, i);
      Positional(res.reg.linkIds, requests, offers, res.applied)
    decreases |offers| - i
  {
    if i < |offers| && i < |requests| {
      var q := requests[i];
      var written := RecordOffer(r, q.srcNode, q.dstNode, q.nodeConnector, offers[i]);
      RecordKeepsPositional(r, requests, offers, i);
      var c := convert(offers[i].lid);
      if c.Uncaught? {
        assert ApplyOffers(convert, r, requests, offers, i) == OffersResult(written, i + 1, Threw);
      } else if c.Caught? {
        assert ApplyOffers(convert, r, requests, offers, i) == OffersResult(written, i + 1, Stopped);
      } else {
        var next := written.(log := written.log + [AddFlow(q.srcNode, q.nodeConnector, c.src, c.dst)]);
        assert ApplyOffers(convert, r, requests, offers, i) == ApplyOffers(convert, next, requests, offers, i + 1);
        OffersPositional(convert, next, requests, offers, i + 1);
      }
    } else {
      assert ApplyOffers(convert, r, requests, offers, i).reg == r;
      assert ApplyOffers(convert, r, requests, offers, i).applied == i;
    }
  }

  /** addMultipleLinks while active, with the resource manager answering reply. */
  function AddMultipleLinksSpec(r: Registry, links: seq<Link>, reply: Reply): (b: Batch)
    ensures r.linkIds.Keys <= b.reg.linkIds.Keys
    ensures b.remaining == PrepareRequests(r.linkIds, links).remaining
    ensures reply.None? ==> b.threw && b.reg.linkIds == r.linkIds && b.reg.nodeIds == r.nodeIds
  {
    var p := PrepareRequests(r.linkIds, links);
    var sent := r.(log := r.log + [SendRequests(p.requests)]);
    if reply.None? then Batch(sent, p.remaining, true)
    else
      ApplyOffersKeepsKeys(LinkAddresses, sent, p.requests, reply.value, 0);
      var res := ApplyOffers(LinkAddresses, sent, p.requests, reply.value, 0);
      Batch(res.reg, p.remaining, res.end == Threw)
  }

  // ---------------------------------------------------------------------
  // removeLink / removeLinks

  /** removeLink: an unknown key changes nothing; otherwise the key leaves
      assignedLinkIds (assignedNodeIds is never touched) and the rule is deleted
      by switch and connector alone. The stored LID is split without reversal
      and its addresses are only logged, but a LID shorter than 256 characters
      makes substring throw before the rule is deleted. */
  function RemoveLinkSpec(r: Registry, src: string, dst: string, connector: string): (o: Outcome)
    ensures LinkKey(src, dst) !in r.linkIds ==> o == Outcome(r, false, false)
    ensures o.reg.nodeIds == r.nodeIds
    ensures o.reg.linkIds == r.linkIds - {LinkKey(src, dst)}
    ensures o.threw <==> LinkKey(src, dst) in r.linkIds && |r.linkIds[LinkKey(src, dst)]| < LID_LENGTH
    ensures !o.added
  {
    var key := LinkKey(src, dst);
    if key !in r.linkIds then Outcome(r, false, false)
    else
      var lid := r.linkIds[key];
      var cleared := Registry(r.nodeIds, r.linkIds - {key},
                              r.log + [DeleteLinkRegistry(key), DeleteConnectorRegistry(connector)]);
      if |lid| < LID_LENGTH then Outcome(cleared, false, true)
      else Outcome(cleared.(log := cleared.log + [DeleteFlow(src, connector)]), false, false)
  }

  /** removeLinks: removeLink for every non-host link until an exception escapes. */
  function RemoveLinksSpec(r: Registry, links: seq<Link>): (o: Outcome)
    ensures o.reg.nodeIds == r.nodeIds && o.reg.linkIds.Keys <= r.linkIds.Keys && !o.added
    decreases |links|
  {
    if links == [] then Outcome(r, false, false)
    else
      var l := links[0];
      if IsHostLink(l) then RemoveLinksSpec(r, links[1..])
      else
        var o := RemoveLinkSpec(r, l.srcNode, l.dstNode, l.srcTp);
        if o.threw then o else RemoveLinksSpec(o.reg, links[1..])
  }

  function NonHostKeys(links: seq<Link>): set<string>
  {
    set l | l in links && !IsHostLink(l) :: KeyOf(l)
  }

  /** removeLinks never touches assignedNodeIds and, unless an exception
      escapes, un-registers exactly the keys of the non-host links. */
  lemma {:induction false} RemoveLinksEffect(r: Registry, links: seq<Link>)
    ensures RemoveLinksSpec(r, links).reg.nodeIds == r.nodeIds
    ensures RemoveLinksSpec(r, links).reg.linkIds.Keys <= r.linkIds.Keys
    ensures !RemoveLinksSpec(r, links).threw ==> RemoveLinksSpec(r, links).reg.linkIds == r.linkIds - NonHostKeys(links)
    decreases |links|
  {
    if links != [] {
      var l := links[0];
      var tail := links[1..];
      assert forall x :: x in links <==> x == l || x in tail;
      if IsHostLink(l) {
        RemoveLinksEffect(r, tail);
        assert NonHostKeys(links) == NonHostKeys(tail);
      } else {
        var o := RemoveLinkSpec(r, l.srcNode, l.dstNode, l.srcTp);
        if !o.threw {
          RemoveLinksEffect(o.reg, tail);
          assert NonHostKeys(links) == {KeyOf(l)} + NonHostKeys(tail);
        }
      }
    } else {
      assert NonHostKeys(links) == {};
    }
  }

  // ---------------------------------------------------------------------
  // nodeLinkInformation

  datatype Answer = Answer(reg: Registry, output: Option<(string, string)>)

  /** nodeLinkInformation(src, dst): the registered (node id, LID) when both
      are known, otherwise the first offer of a fresh request, recorded first. */
  function NodeLinkSpec(r: Registry, src: string, dst: string, reply: Reply): (a: Answer)
    // no request is made iff both identifiers are already registered
    ensures a.reg.log == r.log <==> src in r.nodeIds && LinkKey(src, dst) in r.linkIds
    // an answer always agrees with the registry afterwards
    ensures a.output.Some? ==>
      src in a.reg.nodeIds && LinkKey(src, dst) in a.reg.linkIds
      && a.output.value == (a.reg.nodeIds[src], a.reg.linkIds[LinkKey(src, dst)])
    // a fresh answer is exactly the first offer
    ensures !(src in r.nodeIds && LinkKey(src, dst) in r.linkIds) && !NoOffer(reply) ==>
      a.output == Some((reply.value[0].nid, reply.value[0].lid))
    // no answer leaves both maps as they were
    ensures a.output.None? ==> a.reg.nodeIds == r.nodeIds && a.reg.linkIds == r.linkIds
    ensures a.output.None? <==> !(src in r.nodeIds && LinkKey(src, dst) in r.linkIds) && NoOffer(reply)
  {
    var key := LinkKey(src, dst);
    if src in r.nodeIds && key in r.linkIds then Answer(r, Some((r.nodeIds[src], r.linkIds[key])))
    else
      var sent := r.log + [SendRequests([Request(src, dst, "")])];
      if NoOffer(reply) then Answer(r.(log := sent), None)
      else
        var o := reply.value[0];
        Answer(Registry(r.nodeIds[src := o.nid], r.linkIds[key := o.lid],
                        sent + [WriteNodeRegistry(src, o.nid), WriteLinkRegistry(key, o.lid)]),
               Some((o.nid, o.lid)))
  }

  // ---------------------------------------------------------------------
  // The service state

  class Service {
    var assignedNodeIds: map<string, string>
    var assignedLinkIds: map<string, string>
    var unconfiguredLinks: seq<Link>
    var applicationActivated: bool
    var log: seq<Action>
    // TM client and TM identity set by configureTm
    var serverIp: string
    var tcpPort: int
    var tmOpenflowId: string
    var tmAttachedSwitchId: string
    var tmNodeId: string
    var tmLidPosition: int
    var tmInternalLidPosition: int

    function Reg(): Registry
      reads this
    {
      Registry(assignedNodeIds, assignedLinkIds, log)
    }

    constructor ()
      ensures assignedNodeIds == map[] && assignedLinkIds == map[]
      ensures unconfiguredLinks == [] && !applicationActivated && log == []
    {
      assignedNodeIds := map[];
      assignedLinkIds := map[];
      unconfiguredLinks := [];
      applicationActivated := false;
      log := [];
      serverIp, tcpPort := "", 0;
      tmOpenflowId, tmAttachedSwitchId, tmNodeId := "", "", "";
      tmLidPosition, tmInternalLidPosition := 0, 0;
    }

    /** configureTm: stores the TM parameters and registers the TM's node id
        and the LID of its link to the attached switch. */
    method ConfigureTm(ip: string, port: int, openflowId: string, attachedSwitchId: string,
                       nodeId: string, lidPosition: int, internalLidPosition: int)
      modifies this`serverIp, this`tcpPort, this`tmOpenflowId, this`tmAttachedSwitchId, this`tmNodeId
      modifies this`tmLidPosition, this`tmInternalLidPosition, this`assignedNodeIds, this`assignedLinkIds, this`log
      ensures serverIp == ip && tcpPort == port && tmOpenflowId == openflowId
      ensures tmAttachedSwitchId == attachedSwitchId && tmNodeId == nodeId
      ensures tmLidPosition == lidPosition && tmInternalLidPosition == internalLidPosition
      ensures assignedNodeIds == old(assignedNodeIds)[openflowId := nodeId]
      ensures assignedLinkIds == old(assignedLinkIds)[LinkKey(openflowId, attachedSwitchId) := GenerateLid(lidPosition)]
      ensures log == old(log) + [WriteNodeRegistry(openflowId, nodeId),
                                 WriteLinkRegistry(LinkKey(openflowId, attachedSwitchId), GenerateLid(lidPosition))]
    {
      serverIp, tcpPort := ip, port;
      tmOpenflowId, tmAttachedSwitchId, tmNodeId := openflowId, attachedSwitchId, nodeId;
      tmLidPosition, tmInternalLidPosition := lidPosition, internalLidPosition;
      assignedNodeIds := assignedNodeIds[tmOpenflowId := tmNodeId];
      log := log + [WriteNodeRegistry(tmOpenflowId, tmNodeId)];
      var key := LinkKey(tmOpenflowId, tmAttachedSwitchId);
      assignedLinkIds := assignedLinkIds[key := GenerateLid(tmLidPosition)];
      log := log + [WriteLinkRegistry(key, GenerateLid(tmLidPosition))];
    }

    /** addLink(src, dst, connector); reply is the resource manager's answer
        to the request the call sends. */
    method AddLink(src: string, dst: string, connector: string, reply: Reply) returns (added: bool, threw: bool)
      modifies this`assignedNodeIds, this`assignedLinkIds, this`log
      ensures var o := AddLinkSpec(old(Reg()), src, dst, connector, reply);
        Reg() == o.reg && added == o.added && threw == o.threw
    {
      var key := LinkKey(src, dst);
      if key in assignedLinkIds {
        return true, false;
      }
      log := log + [SendRequests([Request(src, dst, "")])];
      if reply.None? || |reply.value| == 0 {
        return false, false;
      }
      var offer := reply.value[0];
      assignedNodeIds := assignedNodeIds[src := offer.nid];
      assignedLinkIds := assignedLinkIds[key := offer.lid];
      log := log + [WriteNodeRegistry(src, offer.nid), WriteLinkRegistry(key, offer.lid),
                    WriteConnectorRegistry(connector, src, dst)];
      var conversion := LinkAddresses(offer.lid);
      if conversion.Uncaught? {
        return false, true;
      }
      if conversion.Caught? {
        return false, false;
      }
      log := log + [AddFlow(src, connector, conversion.src, conversion.dst)];
      return true, false;
    }

    /** addLinks(links); rm(src, dst) is the resource manager's answer to a
        request for that link. Returns what is left of the caller's list. */
    method AddLinks(links: seq<Link>, rm: (string, string) -> Reply) returns (remaining: seq<Link>, threw: bool)
      modifies this`assignedNodeIds, this`assignedLinkIds, this`log, this`unconfiguredLinks
      ensures applicationActivated ==>
        Batch(Reg(), remaining, threw) == AddLinksSpec(old(Reg()), links, rm)
        && unconfiguredLinks == old(unconfiguredLinks)
      ensures !applicationActivated ==>
        Reg() == old(Reg()) && remaining == links && !threw
        && unconfiguredLinks == old(unconfiguredLinks) + links
    {
      if !applicationActivated {
        unconfiguredLinks := unconfiguredLinks + links;
        return links, false;
      }
      var kept: seq<Link> := [];
      var i := 0;
      while i < |links|
        invariant 0 <= i <= |links|
        invariant unconfiguredLinks == old(unconfiguredLinks)
        invariant AddLinksSpec(old(Reg()), links, rm) == AddLinksFrom(Reg(), links, i, kept, rm)
        decreases |links| - i
      {
        var l := links[i];
        if IsHostLink(l) {
          kept := kept + [l];
        } else {
          var added, t := AddLink(l.srcNode, l.dstNode, l.srcTp, rm(l.srcNode, l.dstNode));
          if t {
            return kept + links[i..], true;
          }
          if !added {
            kept := kept + [l];
          }
        }
        i := i + 1;
      }
      return kept, false;
    }

    /** addMultipleLinks(links): one request message for all unregistered links,
        answered by reply. Returns what is left of the caller's list. */
    method AddMultipleLinks(links: seq<Link>, reply: Reply) returns (remaining: seq<Link>, threw: bool)
      modifies this`assignedNodeIds, this`assignedLinkIds, this`log, this`unconfiguredLinks
      ensures applicationActivated ==>
        Batch(Reg(), remaining, threw) == AddMultipleLinksSpec(old(Reg()), links, reply)
        && unconfiguredLinks == old(unconfiguredLinks)
      ensures !applicationActivated ==>
        Reg() == old(Reg()) && remaining == links && !threw
        && unconfiguredLinks == old(unconfiguredLinks) + links
    {
      if !applicationActivated {
        unconfiguredLinks := unconfiguredLinks + links;
        return links, false;
      }
      var requests;
      requests, remaining := PrepareLinks(links);
      log := log + [SendRequests(requests)];
      if reply.None? {
        return remaining, true;
      }
      var end := ApplyEachOffer(requests, reply.value);
      return remaining, end == Threw;
    }

    /** The first loop of addMultipleLinks: the requests to send and the links
        left in the caller's list. */
    method PrepareLinks(links: seq<Link>) returns (requests: seq<Request>, remaining: seq<Link>)
      ensures Prepared(requests, remaining) == PrepareRequests(assignedLinkIds, links)
    {
      requests, remaining := [], [];
      var i := 0;
      while i < |links|
        invariant 0 <= i <= |links|
        invariant PrepareRequests(assignedLinkIds, links) == PrepareFrom(assignedLinkIds, links, i, requests, remaining)
        decreases |links| - i
      {
        var l := links[i];
        if !IsHostLink(l) && !(KeyOf(l) in assignedLinkIds) {
          requests := requests + [RequestOf(l)];
        } else {
          remaining := remaining + [l];
        }
        i := i + 1;
      }
    }

    /** The offer loop of addMultipleLinks: offer j is recorded for
        requests[j], and its flow is added when its LID converts. */
    method ApplyEachOffer(requests: seq<Request>, offers: seq<Offer>) returns (end: OffersEnd)
      modifies this`assignedNodeIds, this`assignedLinkIds, this`log
      ensures var res := ApplyOffers(LinkAddresses, old(Reg()), requests, offers, 0);
        Reg() == res.reg && end == res.end
    {
      ghost var r0 := Reg();
      var j := 0;
      while j < |offers|
        invariant 0 <= j <= |offers|
        invariant ApplyOffers(LinkAddresses, r0, requests, offers, 0) == ApplyOffers(LinkAddresses, Reg(), requests, offers, j)
        decreases |offers| - j
      {
        if j >= |requests| {
          return Threw;
        }
        var q := requests[j];
        var o := offers[j];
        var key := LinkKey(q.srcNode, q.dstNode);
        assignedNodeIds := assignedNodeIds[q.srcNode := o.nid];
        assignedLinkIds := assignedLinkIds[key := o.lid];
        log := log + [WriteNodeRegistry(q.srcNode, o.nid), WriteLinkRegistry(key, o.lid),
                      WriteConnectorRegistry(q.nodeConnector, q.srcNode, q.dstNode)];
        var conversion := LinkAddresses(o.lid);
        if conversion.Uncaught? {
          return Threw;
        }
        if conversion.Caught? {
          return Stopped;
        }
        log := log + [AddFlow(q.srcNode, q.nodeConnector, conversion.src, conversion.dst)];
        j := j + 1;
      }
      return AllApplied;
    }

    /** removeLink(src, dst, connector). */
    method RemoveLink(src: string, dst: string, connector: string) returns (threw: bool)
      modifies this`assignedLinkIds, this`log
      ensures Outcome(Reg(), false, threw) == RemoveLinkSpec(old(Reg()), src, dst, connector)
    {
      var key := LinkKey(src, dst);
      if key !in assignedLinkIds {
        return false;
      }
      var lid := assignedLinkIds[key];
      assignedLinkIds := assignedLinkIds - {key};
      log := log + [DeleteLinkRegistry(key), DeleteConnectorRegistry(connector)];
      if |lid| < LID_LENGTH {
        return true;
      }
      log := log + [DeleteFlow(src, connector)];
      return false;
    }

    /** removeLinks(links). */
    method RemoveLinks(links: seq<Link>) returns (threw: bool)
      modifies this`assignedLinkIds, this`log
      ensures Outcome(Reg(), false, threw) == RemoveLinksSpec(old(Reg()), links)
    {
      var i := 0;
      while i < |links|
        invariant 0 <= i <= |links|
        invariant RemoveLinksSpec(old(Reg()), links) == RemoveLinksSpec(Reg(), links[i..])
        decreases |links| - i
      {
        var l := links[i];
        assert links[i..][0] == l && links[i..][1..] == links[i + 1..];
        if !IsHostLink(l) {
          threw := RemoveLink(l.srcNode, l.dstNode, l.srcTp);
          if threw {
            return;
          }
        }
        i := i + 1;
      }
      return false;
    }

    /** addLinkManually(switchId, portId, lidPosition): installs the rule of
        generateLid(lidPosition) without touching any registry. */
    method AddLinkManually(switchId: string, portId: string, lidPosition: int)
      modifies this`log
      ensures LinkAddresses(GenerateLid(lidPosition)).Addresses?
      ensures log == old(log) + [AddFlow(switchId, portId, LinkAddresses(GenerateLid(lidPosition)).src,
                                         LinkAddresses(GenerateLid(lidPosition)).dst)]
    {
      var genlid := GenerateLid(lidPosition);
      BitLidConverts(genlid);
      var conversion := LinkAddresses(genlid);
      log := log + [AddFlow(switchId, portId, conversion.src, conversion.dst)];
    }

    /** activateApplication(status): sets the flag and, when it is set, retries
        the queued links through addLinks. */
    method ActivateApplication(status: bool, rm: (string, string) -> Reply) returns (threw: bool)
      modifies this`applicationActivated, this`assignedNodeIds, this`assignedLinkIds, this`log, this`unconfiguredLinks
      ensures applicationActivated == status
      ensures status ==>
        Batch(Reg(), unconfiguredLinks, threw) == AddLinksSpec(old(Reg()), old(unconfiguredLinks), rm)
      ensures !status ==> Reg() == old(Reg()) && unconfiguredLinks == old(unconfiguredLinks) && !threw
    {
      applicationActivated := status;
      threw := false;
      if applicationActivated {
        var remaining;
        remaining, threw := AddLinks(unconfiguredLinks, rm);
        unconfiguredLinks := remaining;
      }
    }

    /** configureSwitch: hands its three inputs to addLinkManually. */
    method ConfigureSwitch(switchId: string, portId: string, linkId: int)
      modifies this`log
      ensures LinkAddresses(GenerateLid(linkId)).Addresses?
      ensures log == old(log) + [AddFlow(switchId, portId, LinkAddresses(GenerateLid(linkId)).src,
                                         LinkAddresses(GenerateLid(linkId)).dst)]
    {
      AddLinkManually(switchId, portId, linkId);
    }

    /** nodeLinkInformation(src, dst), answered by reply when a request is needed. */
    method NodeLinkInformation(src: string, dst: string, reply: Reply) returns (output: Option<(string, string)>)
      modifies this`assignedNodeIds, this`assignedLinkIds, this`log
      ensures Answer(Reg(), output) == NodeLinkSpec(old(Reg()), src, dst, reply)
    {
      var key := LinkKey(src, dst);
      if src in assignedNodeIds && key in assignedLinkIds {
        return Some((assignedNodeIds[src], assignedLinkIds[key]));
      }
      log := log + [SendRequests([Request(src, dst, "")])];
      if reply.None? || |reply.value| == 0 {
        return None;
      }
      var offer := reply.value[0];
      assignedNodeIds := assignedNodeIds[src := offer.nid];
      assignedLinkIds := assignedLinkIds[key := offer.lid];
      log := log + [WriteNodeRegistry(src, offer.nid), WriteLinkRegistry(key, offer.lid)];
      return Some((assignedNodeIds[src], assignedLinkIds[key]));
    }
  }
}
