// The CoAP proxy's table of clients: a list, newest first, of the
// addresses that sent a request, with the token each is waiting on and
// when it was last seen.

module CoapClients {
  import opened Wrappers
  import opened Bytes
  import opened Buffers
  import opened CoapCodec
  import opened CoapUtils

  /** struct client_node without its link: address and its length, the
      socket, the NUL-terminated token and the time it was last seen. */
  datatype Client = Client(addr: SockAddr, addrLen: nat, sd: int, token: seq<uint8>, lastSeen: Timeval)

  /** tv_keep_alive as written: the milliseconds left over after whole
      seconds are put in the microseconds field unscaled. */
  function KeepAliveAsWritten(ms: nat): (t: Timeval)
    ensures InRange(t) && t.sec == ms / 1000
  {
    Timeval(ms / 1000, ms % 1000)
  }

  /** tv_keep_alive as the millisecond timeout means it. */
  function KeepAlive(ms: nat): (t: Timeval)
    ensures InRange(t) && Micros(t) == ms * 1000
  {
    Timeval(ms / 1000, (ms % 1000) * 1000)
  }

  /** The two agree exactly on whole seconds; a 1500 ms timeout as written
      lasts 1.0005 s. */
  lemma KeepAliveAsWrittenShort(ms: nat)
    ensures Micros(KeepAliveAsWritten(ms)) == Micros(KeepAlive(ms)) <==> ms % 1000 == 0
    ensures Micros(KeepAliveAsWritten(1500)) == 1000500 && Micros(KeepAlive(1500)) == 1500000
  {
    assert Micros(KeepAlive(ms)) - Micros(KeepAliveAsWritten(ms)) == (ms % 1000) * 999;
  }

  /** The token a client waits on: the TKL bytes after the 4-byte header. */
  function TokenOf(msg: seq<uint8>): (t: seq<uint8>)
    requires |msg| >= 1 && 4 + TklOf(msg[0]) as int <= |msg|
    ensures |t| == TklOf(msg[0]) as int && t == msg[4..4 + |t|]
  {
    msg[4..4 + TklOf(msg[0]) as int]
  }

  /** A datagram that holds its 4-byte header and the token its TKL
      announces. */
  predicate HoldsToken(msg: seq<uint8>)
  {
    |msg| >= 4 && 4 + TklOf(msg[0]) as int <= |msg|
  }

  /** The bytes read_client's token copy reads. */
  datatype TokenRead = Token(bytes: seq<uint8>) | OverRead

  /** The token copy as written: TKL bytes from offset 4 of the packet's
      copy of the received bytes, whatever their number; a datagram shorter
      than its header and token makes it read past that copy. */
  function TokenAsWritten(msg: seq<uint8>): (r: TokenRead)
    requires |msg| >= 1
    ensures r.OverRead? <==> TklOf(msg[0]) != 0 && |msg| < 4 + TklOf(msg[0]) as int
    ensures r.Token? ==> |r.bytes| == TklOf(msg[0]) as int && (|r.bytes| == 0 || r.bytes == msg[4..4 + |r.bytes|])
  {
    var tkl := TklOf(msg[0]) as int;
    if tkl == 0 then Token([])
    else if |msg| < 4 + tkl then OverRead
    else Token(TokenOf(msg))
  }

  /** The one-byte datagram 0x48 announces an 8-byte token and makes the
      copy as written read past the received byte; the corrected read
      rejects it. On a datagram that holds its token the two agree. */
  lemma TokenAsWrittenOverReads(msg: seq<uint8>)
    ensures TokenAsWritten([0x48]) == OverRead && !HoldsToken([0x48])
    ensures HoldsToken(msg) ==> TokenAsWritten(msg) == Token(TokenOf(msg))
  {
  }

  /** The length read_client takes from recvfrom's answer as written: the
      answer lands in a size_t, so a failure (-1) is never below zero. */
  function ReceivedLengthAsWritten(n: int): (r: Option<nat>)
    requires -1 <= n < 0x1_0000_0000_0000_0000
    ensures r.None? <==> n == 0
  {
    var recvlen := n % 0x1_0000_0000_0000_0000;
    if recvlen == 0 then None else Some(recvlen)
  }

  /** The length as meant: a closed connection (0) or a failure (-1)
      gives no message. */
  function ReceivedLength(n: int): (r: Option<nat>)
    ensures r.None? <==> n <= 0
    ensures r.Some? ==> r.value == n
  {
    if n <= 0 then None else Some(n)
  }

  /** A failed recvfrom passes the guard as written with a length of
      2^64 - 1, where it was meant to be rejected; on real lengths the two
      agree. */
  lemma ReceivedLengthAsWrittenAcceptsFailure(n: int)
    ensures ReceivedLengthAsWritten(-1) == Some(0xFFFF_FFFF_FFFF_FFFF)
    ensures ReceivedLength(-1) == None
    ensures 0 <= n < 0x1_0000_0000_0000_0000 ==> ReceivedLengthAsWritten(n) == ReceivedLength(n)
  {
  }

  /** prune_expired_clients' test for one client at time now: the time
      since it was last seen is not negative and exceeds the keep-alive. */
  predicate Expired(c: Client, now: Timeval, keepAlive: Timeval)
  {
    var elapsed := Subtract(now, c.lastSeen);
    !elapsed.negative && Subtract(keepAlive, elapsed.result).negative
  }

  /** The client as left behind by the test: timeval_subtract has carried
      its last-seen time in place, to the same instant. */
  function Touch(c: Client, now: Timeval): (d: Client)
    ensures d.(lastSeen := c.lastSeen) == c && Micros(d.lastSeen) == Micros(c.lastSeen)
  {
    c.(lastSeen := Subtract(now, c.lastSeen).newY)
  }

  /** An expired client was idle at least the keep-alive; one idle longer
      is expired. */
  lemma ExpiredMeans(c: Client, now: Timeval, keepAlive: Timeval)
    requires Micros(keepAlive) >= 0
    ensures Expired(c, now, keepAlive) ==> Micros(now) - Micros(c.lastSeen) >= Micros(keepAlive)
    ensures Micros(now) - Micros(c.lastSeen) > Micros(keepAlive) ==> Expired(c, now, keepAlive)
  {
    var elapsed := Subtract(now, c.lastSeen);
    SubtractSign(now, c.lastSeen);
    SubtractSign(keepAlive, elapsed.result);
  }

  /** The list after pruning at time now: the clients that are not
      expired, in their order, with their last-seen times carried. */
  function Survivors(cs: seq<Client>, now: Timeval, keepAlive: Timeval): (r: seq<Client>)
    ensures |r| <= |cs|
  {
    if cs == [] then []
    else (if Expired(cs[0], now, keepAlive) then [] else [Touch(cs[0], now)])
         + Survivors(cs[1..], now, keepAlive)
  }

  function CountExpired(cs: seq<Client>, now: Timeval, keepAlive: Timeval): nat
  {
    if cs == [] then 0
    else (if Expired(cs[0], now, keepAlive) then 1 else 0) + CountExpired(cs[1..], now, keepAlive)
  }

  /** Equal but for how the last-seen instant is written. */
  predicate SameClientRecord(a: Client, b: Client)
  {
    a.(lastSeen := b.lastSeen) == b && Micros(a.lastSeen) == Micros(b.lastSeen)
  }

  /** a is b with some clients unlinked, the rest in order. */
  predicate Retains(a: seq<Client>, b: seq<Client>)
    decreases |b|
  {
    if a == [] then true
    else if b == [] then false
    else (SameClientRecord(a[0], b[0]) && Retains(a[1..], b[1..])) || Retains(a, b[1..])
  }

  /** Pruning unlinks clients and keeps the others in order. */
  lemma {:induction false} SurvivorsRetain(cs: seq<Client>, now: Timeval, keepAlive: Timeval)
    ensures Retains(Survivors(cs, now, keepAlive), cs)
  {
    if cs != [] {
      var s := Survivors(cs, now, keepAlive);
      var rest := Survivors(cs[1..], now, keepAlive);
      SurvivorsRetain(cs[1..], now, keepAlive);
      if Expired(cs[0], now, keepAlive) {
        assert s == rest;
      } else {
        assert s == [Touch(cs[0], now)] + rest;
        assert s[1..] == rest;
      }
    }
  }

  /** Pruning removes exactly the expired clients. */
  lemma {:induction false} SurvivorsCount(cs: seq<Client>, now: Timeval, keepAlive: Timeval)
    ensures |Survivors(cs, now, keepAlive)| + CountExpired(cs, now, keepAlive) == |cs|
  {
    if cs != [] {
      SurvivorsCount(cs[1..], now, keepAlive);
    }
  }

  /** After pruning, no client has been idle longer than the keep-alive. */
  lemma {:induction false} SurvivorsWithinKeepAlive(cs: seq<Client>, now: Timeval, keepAlive: Timeval)
    requires Micros(keepAlive) >= 0
    ensures forall i :: 0 <= i < |Survivors(cs, now, keepAlive)| ==>
              Micros(now) - Micros(Survivors(cs, now, keepAlive)[i].lastSeen) <= Micros(keepAlive)
  {
    if cs != [] {
      SurvivorsWithinKeepAlive(cs[1..], now, keepAlive);
      ExpiredMeans(cs[0], now, keepAlive);
    }
  }

  /** A list in which every client was seen within the keep-alive loses
      none of them. */
  lemma {:induction false} NoneExpired(cs: seq<Client>, now: Timeval, keepAlive: Timeval)
    requires Micros(keepAlive) >= 0
    requires forall i :: 0 <= i < |cs| ==> Micros(now) - Micros(cs[i].lastSeen) < Micros(keepAlive)
    ensures CountExpired(cs, now, keepAlive) == 0
    ensures |Survivors(cs, now, keepAlive)| == |cs|
  {
    if cs != [] {
      ExpiredMeans(cs[0], now, keepAlive);
      assert forall i :: 0 <= i < |cs[1..]| ==> cs[1..][i] == cs[i + 1];
      NoneExpired(cs[1..], now, keepAlive);
    }
  }

  /** Every stored token carries the NUL strcmp stops at. */
  predicate TokensTerminated(cs: seq<Client>)
  {
    forall i :: 0 <= i < |cs| ==> 0 in cs[i].token
  }

  lemma {:induction false} SurvivorsTerminated(cs: seq<Client>, now: Timeval, keepAlive: Timeval)
    requires TokensTerminated(cs)
    ensures TokensTerminated(Survivors(cs, now, keepAlive))
  {
    if cs != [] {
      assert forall i :: 0 <= i < |cs[1..]| ==> cs[1..][i] == cs[i + 1];
      SurvivorsTerminated(cs[1..], now, keepAlive);
    }
  }

  /** One node of the walk: the survivors so far, then this node's
      outcome, then the rest. */
  lemma PruneStep(cs: seq<Client>, j: nat, now: Timeval, keepAlive: Timeval, done: seq<Client>,
                  expired: bool, touched: Client)
    requires j < |cs| && done + Survivors(cs[j..], now, keepAlive) == Survivors(cs, now, keepAlive)
    requires expired == Expired(cs[j], now, keepAlive) && touched == Touch(cs[j], now)
    ensures expired ==> done + Survivors(cs[j + 1..], now, keepAlive) == Survivors(cs, now, keepAlive)
    ensures !expired ==> (done + [touched]) + Survivors(cs[j + 1..], now, keepAlive) == Survivors(cs, now, keepAlive)
  {
    assert cs[j..][1..] == cs[j + 1..];
    var rest := Survivors(cs[j + 1..], now, keepAlive);
    assert done + ([touched] + rest) == (done + [touched]) + rest;
  }

  /** Unlinking or replacing the node after done. */
  lemma UnlinkAt(kept: seq<Client>, done: seq<Client>, tail: seq<Client>, t: Client)
    requires kept == done + tail && tail != []
    ensures kept[..|done|] + kept[|done| + 1..] == done + tail[1..]
    ensures kept[|done| := t] == (done + [t]) + tail[1..]
  {
    assert kept[..|done|] == done;
    assert kept[|done| + 1..] == tail[1..];
  }

  /** The two timeval_subtract calls prune_expired_clients makes for one
      node: the time elapsed since it was last seen (carrying last_seen in
      place), then the keep-alive less that. */
  method TestClient(c: Client, now: Timeval, keepAlive: Timeval) returns (expired: bool, touched: Client)
    ensures expired == Expired(c, now, keepAlive)
    ensures touched == Touch(c, now)
  {
    var elapsed := Subtract(now, c.lastSeen);
    touched := c.(lastSeen := elapsed.newY);
    var remain := Subtract(keepAlive, elapsed.result);
    expired := !elapsed.negative && remain.negative;
  }

  /** The walk of prune_expired_clients: each node is tested, an expired
      one is unlinked where it stands, and the count of unlinked nodes is
      returned. */
  method Prune(cs: seq<Client>, now: Timeval, keepAlive: Timeval) returns (kept: seq<Client>, pruned: nat)
    ensures kept == Survivors(cs, now, keepAlive)
    ensures pruned == |cs| - |kept| == CountExpired(cs, now, keepAlive)
  {
    kept := cs;
    pruned := 0;
    var i := 0;
    var j := 0;
    ghost var done: seq<Client> := [];
    while i < |kept|
      invariant j <= |cs| && i == |done| && kept == done + cs[j..]
      invariant done + Survivors(cs[j..], now, keepAlive) == Survivors(cs, now, keepAlive)
      invariant pruned == j - i
      decreases |kept| - i
    {
      var c := kept[i];
      assert c == cs[j];
      var expired, touched := TestClient(c, now, keepAlive);
      PruneStep(cs, j, now, keepAlive, done, expired, touched);
      UnlinkAt(kept, done, cs[j..], touched);
      assert cs[j..][1..] == cs[j + 1..];
      if expired {
        kept := kept[..i] + kept[i + 1..];
        pruned := pruned + 1;
      } else {
        kept := kept[i := touched];
        done := done + [touched];
        i := i + 1;
      }
      j := j + 1;
    }
    assert cs[j..] == [];
    SurvivorsCount(cs, now, keepAlive);
  }

  /** The first client, in list order, whose address compare_sockaddr
      finds equal to from; none when there is no such client. */
  method FindClient(cs: seq<Client>, from: SockAddr) returns (found: bool, i: nat)
    ensures found <==> exists j :: 0 <= j < |cs| && CompareSockaddr(cs[j].addr, from) == 0
    ensures found ==> i < |cs| && CompareSockaddr(cs[i].addr, from) == 0
    ensures found ==> forall j :: 0 <= j < i ==> CompareSockaddr(cs[j].addr, from) != 0
  {
    i := 0;
    while i < |cs|
      invariant i <= |cs|
      invariant forall j :: 0 <= j < i ==> CompareSockaddr(cs[j].addr, from) != 0
    {
      if CompareSockaddr(cs[i].addr, from) == 0 {
        return true, i;
      }
      i := i + 1;
    }
    return false, 0;
  }

  /** The first client, in list order, whose token strcmp finds equal to
      the given NUL-terminated one; none when there is no such client. */
  method FindToken(cs: seq<Client>, token: seq<uint8>) returns (found: bool, i: nat)
    ensures found <==> exists j :: 0 <= j < |cs| && CString(cs[j].token) == CString(token)
    ensures found ==> i < |cs| && CString(cs[i].token) == CString(token)
    ensures found ==> forall j :: 0 <= j < i ==> CString(cs[j].token) != CString(token)
  {
    i := 0;
    while i < |cs|
      invariant i <= |cs|
      invariant forall j :: 0 <= j < i ==> CString(cs[j].token) != CString(token)
    {
      if CString(cs[i].token) == CString(token) {
        return true, i;
      }
      i := i + 1;
    }
    return false, 0;
  }

  /** What forward_response does. */
  datatype Forward = SendTo(client: Client) | NullDereference

  /** forward_response as written: the response goes to the first client
      whose token strcmp finds equal; when the walk ends without one, the
      send dereferences the null node it ended on. */
  function ForwardAsWritten(cs: seq<Client>, token: seq<uint8>): (r: Forward)
    ensures r.NullDereference? <==> forall j :: 0 <= j < |cs| ==> CString(cs[j].token) != CString(token)
    ensures r.SendTo? ==> exists i :: (0 <= i < |cs| && r.client == cs[i] &&
                                        CString(cs[i].token) == CString(token) &&
                                        forall j :: 0 <= j < i ==> CString(cs[j].token) != CString(token))
  {
    if cs == [] then NullDereference
    else if CString(cs[0].token) == CString(token) then SendTo(cs[0])
    else
      var r := ForwardAsWritten(cs[1..], token);
      assert forall j :: 1 <= j < |cs| ==> cs[j] == cs[1..][j - 1];
      r
  }

  /** read_client leaves a known client as it is, so one that comes back
      with a new token keeps its first; the response to the new request
      then matches nobody and is sent through the null node. */
  lemma ForwardAsWrittenUnmatched(c: Client)
    requires c.token == [0x01, 0x00]
    ensures ForwardAsWritten([c], [0x02, 0x00]) == NullDereference
  {
    assert CString([0x01, 0x00]) == [0x01];
    assert CString([0x02, 0x00]) == [0x02];
  }

  /** strcmp stops at the first NUL, so two tokens that differ only after
      a zero byte pick the same client. */
  lemma ZeroByteTokensCollide()
    ensures [0x00 as uint8, 0x01, 0x00] != [0x00 as uint8, 0x02, 0x00]
    ensures CString([0x00, 0x01, 0x00]) == CString([0x00, 0x02, 0x00]) == []
  {
  }

  /** The global clients_list and the keep-alive it is pruned against. */
  class ClientTable {
    var clients: seq<Client>
    const keepAlive: Timeval

    predicate Valid()
      reads this
    {
      TokensTerminated(clients)
    }

    /** An empty list; keepAliveMs is KEEP_ALIVE_TIMEOUT. */
    constructor(keepAliveMs: nat)
      ensures clients == [] && keepAlive == KeepAlive(keepAliveMs)
      ensures Valid()
    {
      clients := [];
      keepAlive := KeepAlive(keepAliveMs);
    }

    /** add_client: a new node in front, holding the address, its length,
        the socket, the first tokenLen token bytes followed by a NUL, and
        the current time. */
    method AddClient(addr: SockAddr, len: nat, sd: int, token: seq<uint8>, tokenLen: nat, now: Timeval)
      requires Valid() && tokenLen <= |token|
      modifies this
      ensures clients == [Client(addr, len, sd, token[..tokenLen] + [0], now)] + old(clients)
      ensures Valid()
    {
      clients := [Client(addr, len, sd, token[..tokenLen] + [0], now)] + clients;
      assert clients[0].token[tokenLen] == 0;
      assert forall i :: 1 <= i < |clients| ==> clients[i] == old(clients)[i - 1];
    }

    /** read_client after recvfrom answered received, having filled that
        many bytes of buf, from address from: -1 for a closed connection, a
        failure or (corrected) a datagram shorter than its header and
        token; otherwise the first listed client with that address, or,
        when there is none, a new client in front holding the packet's
        token. */
    method ReadClient(received: int, buf: seq<uint8>, from: SockAddr, fromLen: nat, sd: int, now: Timeval)
      returns (ret: int, node: nat)
      requires Valid() && received <= |buf|
      modifies this
      ensures Valid()
      ensures ret == -1 <==> ReceivedLength(received).None? || !HoldsToken(buf[..received])
      ensures ret == -1 ==> clients == old(clients)
      ensures ret == 0 ==> node < |clients|
      ensures ret == 0 && (exists j :: 0 <= j < |old(clients)| && CompareSockaddr(old(clients)[j].addr, from) == 0) ==>
                clients == old(clients) && CompareSockaddr(clients[node].addr, from) == 0 &&
                forall j :: 0 <= j < node ==> CompareSockaddr(clients[j].addr, from) != 0
      ensures ret == 0 && (forall j :: 0 <= j < |old(clients)| ==> CompareSockaddr(old(clients)[j].addr, from) != 0) ==>
                clients == [Client(from, fromLen, sd, TokenOf(buf[..received]) + [0], now)] + old(clients) && node == 0
      ensures ret == 0 && from.family in {AF_INET, AF_INET6} ==>
                exists j :: 0 <= j < |clients| && CompareSockaddr(clients[j].addr, from) == 0
    {
      if ReceivedLength(received).None? {
        return -1, 0;
      }
      var msg := buf[..received];
      if !HoldsToken(msg) {
        return -1, 0;
      }
      var token := TokenOf(msg);
      var found, i := FindClient(clients, from);
      if found {
        return 0, i;
      }
      AddClient(from, fromLen, sd, token, |token|, now);
      assert token[..|token|] == token;
      CompareSockaddrSelf(from, from);
      return 0, 0;
    }

    /** forward_response, corrected: the client the response goes to, the
        first whose token strcmp finds equal to the given one, or none, in
        which case the response is dropped instead of sent through a null
        node. */
    method ForwardResponse(token: seq<uint8>) returns (target: Option<Client>)
      ensures target.None? <==> ForwardAsWritten(clients, token).NullDereference?
      ensures target.Some? ==> ForwardAsWritten(clients, token) == SendTo(target.value)
    {
      var found, i := FindToken(clients, token);
      if found {
        target := Some(clients[i]);
      } else {
        target := None;
      }
    }

    /** prune_expired_clients at time now: the expired clients are
        unlinked, the others keep their order, and how many went is
        returned. */
    method PruneExpiredClients(now: Timeval) returns (pruned: nat)
      requires Valid()
      modifies this
      ensures Valid()
      ensures clients == Survivors(old(clients), now, keepAlive)
      ensures pruned == |old(clients)| - |clients|
    {
      SurvivorsTerminated(clients, now, keepAlive);
      clients, pruned := Prune(clients, now, keepAlive);
    }
  }
}
