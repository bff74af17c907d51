// The NAP's HTTP handler tables: the reverse NID > rCID look-up, the IP
// endpoint sessions (rCID > ripd > session keys), the CMC groups
// (rCID > ripd > SK > NIDs), the potential CMC groups
// (rCID > ripd > NID > ready), the HTTP request buffer (CID > rCID >
// request) and the forwarding state of the known NIDs. Each std::map is a
// Dafny map and each std::list a sequence; the ripd level is always 0.

module NapHttp {
  import opened Wrappers
  import opened Bytes
  import opened LtpTables
  import LtpLightweight
  import NapTcpServer

  // ---------------------------------------------------------------------
  // Lists without repetitions

  predicate NoDup<T(==)>(l: seq<T>)
  {
    forall i, j :: 0 <= i < j < |l| ==> l[i] != l[j]
  }

  /** The walk every add-to-list operation makes: append x unless the list
      already holds it. */
  function Appended<T(==)>(l: seq<T>, x: T): seq<T>
  {
    if x in l then l else l + [x]
  }

  /** Appending keeps a list without repetitions, holds x afterwards and
      loses nothing. */
  lemma AppendedKeeps<T>(l: seq<T>, x: T)
    ensures forall y :: y in Appended(l, x) <==> y in l || y == x
    ensures NoDup(l) ==> NoDup(Appended(l, x))
    ensures x in l ==> Appended(l, x) == l
  {
    if x !in l && NoDup(l) {
      var u := l + [x];
      forall i, j | 0 <= i < j < |u| ensures u[i] != u[j] {
        if j == |l| {
          assert u[i] == l[i];
        }
      }
    }
  }

  /** The search loop of addReversNidTorCIdLookUp and
      _addIpEndpointSession. */
  method Find<T(==)>(l: seq<T>, x: T) returns (found: bool)
    ensures found <==> x in l
  {
    var i := 0;
    while i < |l|
      invariant 0 <= i <= |l|
      invariant x !in l[..i]
    {
      if l[i] == x {
        return true;
      }
      assert l[..i + 1] == l[..i] + [l[i]];
      i := i + 1;
    }
    assert l[..i] == l;
    return false;
  }

  /** The list under k, or an empty one. */
  function ListAt<K, T>(m: map<K, seq<T>>, k: K): seq<T>
  {
    if k in m then m[k] else []
  }

  /** The list under k, if any, has no repetitions and is not empty. */
  ghost predicate ListOk<K, T>(m: map<K, seq<T>>, k: K)
  {
    k in m ==> |m[k]| > 0 && NoDup(m[k])
  }

  ghost predicate ListsOk<K(!new), T>(m: map<K, seq<T>>)
  {
    forall k: K :: ListOk(m, k)
  }

  // ---------------------------------------------------------------------
  // The reverse NID > rCID look-up

  type ReverseLookUp = map<uint32, seq<uint32>>

  /** addReversNidTorCIdLookUp: a new NID gets the list [rCID], a known one
      gets the rCID appended unless it is already listed. */
  function AddReverse(m: ReverseLookUp, nid: uint32, rCid: uint32): (u: ReverseLookUp)
    ensures nid in u && forall x :: x in u[nid] <==> x in ListAt(m, nid) || x == rCid
    ensures rCid in ListAt(m, nid) ==> u == m
    ensures forall n :: n != nid && n in m ==> n in u && u[n] == m[n]
  {
    AppendedKeeps(ListAt(m, nid), rCid);
    m[nid := Appended(ListAt(m, nid), rCid)]
  }

  /** After the call the NID's list is its old one plus the rCID, without
      repetitions; every other NID keeps its list. */
  lemma AddReverseKeeps(m: ReverseLookUp, nid: uint32, rCid: uint32)
    ensures var u := AddReverse(m, nid, rCid);
      nid in u && (forall x :: x in u[nid] <==> x in ListAt(m, nid) || x == rCid) &&
      (forall n: uint32 :: n != nid ==> (n in u <==> n in m) && (n in m ==> u[n] == m[n])) &&
      (ListsOk(m) ==> ListsOk(u))
  {
    var u := AddReverse(m, nid, rCid);
    AppendedKeeps(ListAt(m, nid), rCid);
    if ListsOk(m) {
      forall n: uint32 ensures ListOk(u, n) {
        assert ListOk(m, n);
      }
    }
  }

  /** Adding an rCID that is already listed for the NID changes nothing. */
  lemma AddReverseIdempotent(m: ReverseLookUp, nid: uint32, rCid: uint32)
    ensures AddReverse(AddReverse(m, nid, rCid), nid, rCid) == AddReverse(m, nid, rCid)
  {
    AppendedKeeps(ListAt(m, nid), rCid);
  }

  // ---------------------------------------------------------------------
  // The IP endpoint sessions

  type EndpointSessions = map<uint32, map<uint32, seq<uint16>>>

  /** _addIpEndpointSession: rCID > 0 gets the session key appended unless
      it is already listed, creating rCID and 0 levels as needed. */
  function AddSession(m: EndpointSessions, rCid: uint32, sk: uint16): (u: EndpointSessions)
    ensures rCid in u && 0 in u[rCid]
    ensures forall x :: x in u[rCid][0] <==> x in ListAt(Child(m, rCid), 0) || x == sk
    ensures forall r :: r != rCid && r in m ==> r in u && u[r] == m[r]
  {
    var pm := Child(m, rCid);
    AppendedKeeps(ListAt(pm, 0), sk);
    m[rCid := pm[0 := Appended(ListAt(pm, 0), sk)]]
  }

  /** The levels under rCID r, if any, are non-empty and no list repeats a
      key. */
  ghost predicate SessionsOk(m: EndpointSessions, r: uint32)
  {
    r in m ==> |m[r]| > 0 && ListsOk(m[r])
  }

  ghost predicate AllSessionsOk(m: EndpointSessions)
  {
    forall r: uint32 :: SessionsOk(m, r)
  }

  /** After the call rCID > 0 lists its old keys plus the new one; every
      other list is unchanged, and no list repeats a key or is empty. */
  lemma AddSessionKeeps(m: EndpointSessions, rCid: uint32, sk: uint16)
    ensures var u := AddSession(m, rCid, sk);
      rCid in u && 0 in u[rCid] &&
      (forall x :: x in u[rCid][0] <==> x in ListAt(Child(m, rCid), 0) || x == sk) &&
      (forall p: uint32 :: p != 0 ==> (p in u[rCid] <==> p in Child(m, rCid)) && (p in u[rCid] ==> u[rCid][p] == m[rCid][p])) &&
      (forall r: uint32 :: r != rCid ==> (r in u <==> r in m) && (r in m ==> u[r] == m[r])) &&
      (AllSessionsOk(m) ==> AllSessionsOk(u))
  {
    var u := AddSession(m, rCid, sk);
    var pm := Child(m, rCid);
    AppendedKeeps(ListAt(pm, 0), sk);
    if AllSessionsOk(m) {
      assert SessionsOk(m, rCid);
      forall p: uint32 ensures ListOk(u[rCid], p) {
        assert ListOk(pm, p);
      }
      forall r: uint32 ensures SessionsOk(u, r) {
        assert SessionsOk(m, r);
      }
    }
  }

  /** std::list::erase of the first occurrence of x, if any. */
  function RemoveFirst<T(==)>(l: seq<T>, x: T): seq<T>
  {
    if |l| == 0 then []
    else if l[0] == x then l[1..]
    else [l[0]] + RemoveFirst(l[1..], x)
  }

  /** Removing from a list without repetitions removes x altogether and
      keeps every other element, without creating repetitions. */
  lemma {:induction false} RemoveFirstKeeps<T>(l: seq<T>, x: T)
    requires NoDup(l)
    ensures forall y :: y in RemoveFirst(l, x) <==> y in l && y != x
    ensures NoDup(RemoveFirst(l, x))
  {
    if |l| > 0 {
      assert NoDup(l[1..]) by {
        forall i, j | 0 <= i < j < |l[1..]| ensures l[1..][i] != l[1..][j] {
          assert l[1..][i] == l[i + 1] && l[1..][j] == l[j + 1];
        }
      }
      assert forall y :: y in l <==> y == l[0] || y in l[1..];
      assert l[0] !in l[1..] by {
        forall i | 0 <= i < |l[1..]| ensures l[1..][i] != l[0] {
          assert l[1..][i] == l[i + 1];
        }
      }
      if l[0] != x {
        RemoveFirstKeeps(l[1..], x);
        var rest := RemoveFirst(l[1..], x);
        var u := [l[0]] + rest;
        forall i, j | 0 <= i < j < |u| ensures u[i] != u[j] {
          if i == 0 {
            assert u[j] == rest[j - 1];
            assert rest[j - 1] in rest;
          } else {
            assert u[i] == rest[i - 1] && u[j] == rest[j - 1];
          }
        }
      }
    }
  }

  /** The first loop of deleteSessionKey: the key erased from every
      rCID > ripd list. */
  function RemoveSessionKey(m: EndpointSessions, sk: uint16): (u: EndpointSessions)
    ensures u.Keys == m.Keys
    ensures forall r: uint32 :: r in m ==> u[r].Keys == m[r].Keys
  {
    map r | r in m :: map p | p in m[r] :: RemoveFirst(m[r][p], sk)
  }

  /** The keys in ascending order: the order a std::map is walked in. */
  ghost function Ascending(s: set<uint32>): (l: seq<uint32>)
    ensures LtpLightweight.StrictlyAscending(l)
    ensures forall x :: x in l <==> x in s
    decreases |s|
  {
    if s == {} then []
    else
      LtpLightweight.MinExists(s);
      var k :| LtpLightweight.IsLeast(k, s);
      var rest := Ascending(s - {k});
      assert forall i :: 0 <= i < |rest| ==> k < rest[i] by {
        forall i | 0 <= i < |rest| ensures k < rest[i] {
          assert rest[i] in rest;
        }
      }
      [k] + rest
  }

  /** Two ascending lists of the same keys are the same list. */
  lemma {:induction false} AscendingUnique(a: seq<uint32>, b: seq<uint32>)
    requires LtpLightweight.StrictlyAscending(a) && LtpLightweight.StrictlyAscending(b)
    requires forall x :: x in a <==> x in b
    ensures a == b
    decreases |a|
  {
    assert |a| > 0 ==> a[0] in b;
    assert |b| > 0 ==> b[0] in a;
    if |a| > 0 && |b| > 0 {
      assert a[0] == b[0] by {
        assert a[0] in b && b[0] in a;
        AscendingLeast(a, b[0]);
        AscendingLeast(b, a[0]);
      }
      forall x ensures x in a[1..] <==> x in b[1..] {
        AscendingTail(a, x);
        AscendingTail(b, x);
      }
      AscendingUnique(a[1..], b[1..]);
    }
  }

  lemma AscendingLeast(a: seq<uint32>, x: uint32)
    requires LtpLightweight.StrictlyAscending(a) && x in a
    ensures a[0] <= x
  {
  }

  lemma AscendingTail(a: seq<uint32>, x: uint32)
    requires LtpLightweight.StrictlyAscending(a) && |a| > 0
    ensures x in a[1..] <==> x in a && x != a[0]
  {
    if x in a && x != a[0] {
      var i :| 0 <= i < |a| && a[i] == x;
      assert a[1..][i - 1] == x;
    }
  }

  /** The pruning loops of deleteSessionKey over the keys ks (in map
      order), the ones in gone holding an empty entry: an empty entry is
      erased, and the iterator is reset to begin() and then advanced, so the
      walk resumes at the second key. Returns the keys left. */
  function Walk(ks: seq<uint32>, gone: set<uint32>, i: nat): (u: seq<uint32>)
    ensures forall x :: x in u ==> x in ks
    ensures forall x :: x in ks && x !in gone ==> x in u
    decreases |ks|, |ks| - i
  {
    if i >= |ks| then ks
    else if ks[i] in gone then
      var ks2 := ks[..i] + ks[i + 1..];
      assert forall x :: x in ks2 ==> x in ks;
      assert forall x :: x in ks && x != ks[i] ==> x in ks2;
      if |ks2| == 0 then ks2 else Walk(ks2, gone, 1)
    else Walk(ks, gone, i + 1)
  }

  function Restrict<V>(m: map<uint32, V>, ks: seq<uint32>): map<uint32, V>
  {
    map k | k in m && k in ks :: m[k]
  }

  /** One pruning loop as written, over a whole map level. */
  ghost function PruneWalked<V>(m: map<uint32, V>, gone: set<uint32>): map<uint32, V>
  {
    Restrict(m, Walk(Ascending(m.Keys), gone, 0))
  }

  /** The ripd keys whose SK list is empty. */
  function EmptyLists(m: map<uint32, seq<uint16>>): set<uint32>
  {
    set p | p in m && |m[p]| == 0
  }

  /** The rCID keys whose ripd map is empty. */
  function EmptyMaps(m: EndpointSessions): set<uint32>
  {
    set r | r in m && |m[r]| == 0
  }

  /** The second loop of deleteSessionKey as written: every ripd map pruned
      by the walk. */
  ghost function PruneLists(m: EndpointSessions): EndpointSessions
  {
    map r | r in m :: PruneWalked(m[r], EmptyLists(m[r]))
  }

  /** deleteSessionKey as written: the key erased everywhere, then the
      empty ripd lists and then the empty rCID maps pruned by the walks. */
  ghost function SessionKeyDeletedAsWritten(m: EndpointSessions, sk: uint16): (u: EndpointSessions)
    ensures forall r :: r in u ==> r in m && u[r].Keys <= m[r].Keys
  {
    var m2 := PruneLists(RemoveSessionKey(m, sk));
    PruneWalked(m2, EmptyMaps(m2))
  }

  /** deleteSessionKey as intended: the key erased everywhere, then every
      empty list and every empty rCID map dropped. */
  function SessionKeyDeleted(m: EndpointSessions, sk: uint16): (u: EndpointSessions)
    ensures forall r :: r in u ==> r in m && |u[r]| > 0 && u[r].Keys <= m[r].Keys
    ensures forall r, p :: r in u && p in u[r] ==> |u[r][p]| > 0
  {
    var m2 := DropEmptyLists(RemoveSessionKey(m, sk));
    map r | r in m2 && |m2[r]| > 0 :: m2[r]
  }

  /** Every empty SK list dropped from every ripd map. */
  function DropEmptyLists(m: EndpointSessions): EndpointSessions
  {
    map r | r in m :: map p | p in m[r] && |m[r][p]| > 0 :: m[r][p]
  }

  /** The corrected deletion leaves the key in no list, keeps every other
      key where it was, and keeps every level non-empty. */
  lemma SessionKeyDeletedKeeps(m: EndpointSessions, sk: uint16)
    requires AllSessionsOk(m)
    ensures var u := SessionKeyDeleted(m, sk);
      AllSessionsOk(u) &&
      (forall r: uint32, p: uint32 :: r in u && p in u[r] ==> r in m && p in m[r] && sk !in u[r][p]) &&
      (forall r: uint32, p: uint32, x: uint16 :: x != sk && r in m && p in m[r] && x in m[r][p] ==>
         r in u && p in u[r] && x in u[r][p])
  {
    var m1 := RemoveSessionKey(m, sk);
    var m2 := DropEmptyLists(m1);
    var u := SessionKeyDeleted(m, sk);
    forall r: uint32, p: uint32 | r in m && p in m[r]
      ensures NoDup(m1[r][p]) && forall y :: y in m1[r][p] <==> y in m[r][p] && y != sk
    {
      assert SessionsOk(m, r);
      assert ListOk(m[r], p);
      RemoveFirstKeeps(m[r][p], sk);
    }
    forall r: uint32 ensures SessionsOk(u, r) {
      if r in u {
        forall p: uint32 ensures ListOk(u[r], p) {
        }
      }
    }
    forall r: uint32, p: uint32, x: uint16 | x != sk && r in m && p in m[r] && x in m[r][p]
      ensures r in u && p in u[r] && x in u[r][p]
    {
      assert x in m1[r][p];
      assert p in m2[r];
    }
  }

  /** Two rCIDs, each with one ripd holding only SK 7. */
  function TwoSessions(): EndpointSessions
  {
    map[1 := map[0 := [7]], 2 := map[0 := [7]]]
  }

  /** The rCID level is pruned by the same walk: when two rCIDs both lose
      their only session, the first is erased and the walk, reset to the
      new first entry and advanced, never looks at the second, which stays
      behind with an empty ripd map. The corrected deletion drops both. */
  lemma SessionKeyDeletedAsWrittenLeavesEmpty()
    ensures SessionKeyDeletedAsWritten(TwoSessions(), 7) == map[2 := map[]]
    ensures SessionKeyDeleted(TwoSessions(), 7) == map[]
    ensures !AllSessionsOk(SessionKeyDeletedAsWritten(TwoSessions(), 7))
  {
    var e: map<uint32, seq<uint16>> := map[0 := []];
    var z: map<uint32, seq<uint16>> := map[];
    TwoSessionsRemoved();
    TwoSessionsListsPruned();
    var m2: EndpointSessions := map[1 := z, 2 := z];
    assert EmptyMaps(m2) == {1, 2};
    TwoSessionsMapsPruned();
    TwoSessionsDeleted();
    assert !SessionsOk(map[2 := z], 2);
  }

  lemma TwoSessionsRemoved()
    ensures RemoveSessionKey(TwoSessions(), 7) == map[1 := map[0 := []], 2 := map[0 := []]]
  {
    var u := RemoveSessionKey(TwoSessions(), 7);
    var e: map<uint32, seq<uint16>> := map[0 := []];
    assert RemoveFirst([7], 7) == [];
    assert u.Keys == {1, 2};
    assert u[1].Keys == {0} && u[1][0] == [];
    assert u[2].Keys == {0} && u[2][0] == [];
    assert u[1] == e && u[2] == e;
  }

  lemma TwoSessionsListsPruned()
    ensures PruneLists(map[1 := map[0 := []], 2 := map[0 := []]]) == map[1 := map[], 2 := map[]]
  {
    var e: map<uint32, seq<uint16>> := map[0 := []];
    var z: map<uint32, seq<uint16>> := map[];
    var m: EndpointSessions := map[1 := e, 2 := e];
    OneListPruned();
    var u := PruneLists(m);
    assert u.Keys == {1, 2};
    assert u[1] == z && u[2] == z;
  }

  /** The walk over a ripd map whose only list is empty erases it. */
  lemma OneListPruned()
    ensures var e: map<uint32, seq<uint16>> := map[0 := []];
      PruneWalked(e, EmptyLists(e)) == map[]
  {
    var e: map<uint32, seq<uint16>> := map[0 := []];
    assert EmptyLists(e) == {0};
    assert e.Keys == {0};
    AscendingUnique(Ascending({0}), [0]);
    assert Walk([0], {0}, 0) == [];
    assert Restrict(e, []) == map[];
  }

  lemma TwoSessionsMapsPruned()
    ensures var z: map<uint32, seq<uint16>> := map[];
      PruneWalked(map[1 := z, 2 := z], {1, 2}) == map[2 := z]
  {
    var z: map<uint32, seq<uint16>> := map[];
    var m: EndpointSessions := map[1 := z, 2 := z];
    assert m.Keys == {1, 2};
    AscendingUnique(Ascending({1, 2}), [1, 2]);
    WalkSkipsSecond();
    RestrictSecond();
  }

  lemma RestrictSecond()
    ensures var z: map<uint32, seq<uint16>> := map[];
      Restrict(map[1 := z, 2 := z], [2]) == map[2 := z]
  {
    var z: map<uint32, seq<uint16>> := map[];
    var r := Restrict(map[1 := z, 2 := z], [2]);
    assert r.Keys == {2};
  }

  /** The walk over keys 1 and 2, both empty, erases 1 and stops. */
  lemma WalkSkipsSecond()
    ensures Walk([1, 2], {1, 2}, 0) == [2]
  {
    assert [1, 2][..0] + [1, 2][1..] == [2];
    assert Walk([2], {1, 2}, 1) == [2];
  }

  lemma TwoSessionsDeleted()
    ensures SessionKeyDeleted(TwoSessions(), 7) == map[]
  {
    TwoSessionsRemoved();
    var e: map<uint32, seq<uint16>> := map[0 := []];
    var z: map<uint32, seq<uint16>> := map[];
    var m2 := DropEmptyLists(map[1 := e, 2 := e]);
    assert m2.Keys == {1, 2};
    assert m2[1] == z && m2[2] == z;
    var u := SessionKeyDeleted(TwoSessions(), 7);
    assert forall r :: r in u ==> r in m2 && |m2[r]| > 0;
    assert u.Keys == {};
  }

  // ---------------------------------------------------------------------
  // CMC groups

  type CmcGroups = Table3<seq<uint32>>

  /** _createCmcGroup: rCID > 0 > SK gets the NIDs unless it already holds
      a non-empty group; an empty one is replaced. */
  function CreateGroup(t: CmcGroups, r: uint32, sk: uint16, nids: seq<uint32>): (u: CmcGroups)
    ensures Get3(t, r, 0, sk).Some? && |Get3(t, r, 0, sk).value| > 0 ==> u == t
    ensures !(Get3(t, r, 0, sk).Some? && |Get3(t, r, 0, sk).value| > 0) ==> Get3(u, r, 0, sk) == Some(nids)
  {
    var g := Get3(t, r, 0, sk);
    if g.Some? && |g.value| > 0 then t else Put3(t, r, 0, sk, nids)
  }

  /** The group is the old one when that was non-empty and the given NIDs
      otherwise; every other group is unchanged, and no level is empty. */
  lemma CreateGroupKeeps(t: CmcGroups, r: uint32, sk: uint16, nids: seq<uint32>)
    ensures var u := CreateGroup(t, r, sk, nids);
      var g := Get3(t, r, 0, sk);
      Get3(u, r, 0, sk) == (if g.Some? && |g.value| > 0 then g else Some(nids)) &&
      (forall r2: uint32, p2: uint32, k2: uint16 :: (r2 != r || p2 != 0 || k2 != sk) ==> Get3(u, r2, p2, k2) == Get3(t, r2, p2, k2)) &&
      (NoEmpty3(t) ==> NoEmpty3(u))
  {
    if NoEmpty3(t) {
      Put3NoEmpty(t, r, 0, sk, nids);
    }
  }

  /** closeCmcGroup's table step is Erase3 under ripd 0. Closing a group
      just created where none was returns the table it started from. */
  lemma CloseCreatedGroup(t: CmcGroups, r: uint32, sk: uint16, nids: seq<uint32>)
    requires NoEmpty3(t) && Get3(t, r, 0, sk).None?
    ensures Erase3(CreateGroup(t, r, sk, nids), r, 0, sk) == t
  {
    ErasePut3(t, r, 0, sk, nids);
  }

  // ---------------------------------------------------------------------
  // Forwarding state and potential CMC groups

  /** NID > START_PUBLISH_iSUB received. */
  type KnownNids = map<uint32, bool>

  /** forwarding(NodeId, state): only a known NID's state changes. */
  function SetForwarding(n: KnownNids, nid: uint32, state: bool): (u: KnownNids)
  {
    if nid in n then n[nid := state] else n
  }

  /** _forwardingEnabled: false for an unknown NID. */
  predicate ForwardingEnabled(n: KnownNids, nid: uint32)
  {
    nid in n && n[nid]
  }

  /** Setting a known NID's state makes _forwardingEnabled report it; an
      unknown NID stays unknown and disabled; no other NID changes. */
  lemma SetForwardingMeans(n: KnownNids, nid: uint32, state: bool)
    ensures var u := SetForwarding(n, nid, state);
      u.Keys == n.Keys &&
      (nid in n ==> ForwardingEnabled(u, nid) == state) &&
      (nid !in n ==> !ForwardingEnabled(u, nid)) &&
      (forall m: uint32 :: m != nid ==> ForwardingEnabled(u, m) == ForwardingEnabled(n, m))
  {
  }

  type PotentialGroups = map<uint32, map<uint32, map<uint32, bool>>>

  /** The NIDs of a potential group that have sent their whole request and
      whose forwarding is enabled. */
  function Movable(pm: map<uint32, bool>, n: KnownNids): set<uint32>
  {
    set x | x in pm && pm[x] && ForwardingEnabled(n, x)
  }

  /** Some NID has sent its whole request but still lacks forwarding. */
  predicate Waiting(pm: map<uint32, bool>, n: KnownNids)
  {
    exists x :: x in pm && pm[x] && !ForwardingEnabled(n, x)
  }

  /** The outcome of _getCmcGroup: whether the packet must be buffered, the
      NIDs to send to, and the two tables afterwards. */
  datatype Lookup = Lookup(bufferPacket: bool, nodeIds: seq<uint32>, cmc: CmcGroups, potential: PotentialGroups)

  /** _getCmcGroup: an existing non-empty group is used as it is. For the
      first packet of a response with no NIDs given, the movable NIDs of the
      potential group, in ascending order, become a new CMC group and leave
      the potential group, whose empty levels are pruned; the packet is
      buffered when a ready NID still lacks forwarding or none could be
      moved. */
  ghost function CmcGroupLookup(cmc: CmcGroups, pot: PotentialGroups, n: KnownNids, r: uint32, sk: uint16,
                                firstPacket: bool, nodeIds: seq<uint32>): (res: Lookup)
    ensures Get3(cmc, r, 0, sk).Some? && |Get3(cmc, r, 0, sk).value| > 0 ==>
      res == Lookup(false, Get3(cmc, r, 0, sk).value, cmc, pot)
    ensures res.bufferPacket ==> firstPacket && |nodeIds| == 0
    ensures !firstPacket || |nodeIds| > 0 ==> res.cmc == cmc && res.potential == pot
  {
    var g := Get3(cmc, r, 0, sk);
    if g.Some? && |g.value| > 0 then Lookup(false, g.value, cmc, pot)
    else if !firstPacket || |nodeIds| > 0 then Lookup(false, nodeIds, cmc, pot)
    else if r !in pot || 0 !in pot[r] then Lookup(false, [], cmc, pot)
    else MovedLookup(cmc, pot, n, r, sk)
  }

  /** The last step of _getCmcGroup, once a potential group exists. */
  ghost function MovedLookup(cmc: CmcGroups, pot: PotentialGroups, n: KnownNids, r: uint32, sk: uint16): (res: Lookup)
    requires r in pot && 0 in pot[r]
    ensures forall x :: x in res.nodeIds <==> x in pot[r][0] && pot[r][0][x] && ForwardingEnabled(n, x)
    ensures res.bufferPacket <==> Waiting(pot[r][0], n) || |res.nodeIds| == 0
  {
    var pm := pot[r][0];
    var moved := Ascending(Movable(pm, n));
    if |moved| == 0 then Lookup(true, [], cmc, pot)
    else
      Lookup(Waiting(pm, n), moved, CreateGroup(cmc, r, sk, moved),
             PruneAt(pot, r, PruneAt(pot[r], 0, pm - Movable(pm, n))))
  }

  /** When some NID moves, the lookup sends to the movable NIDs in
      ascending order, creates their group and prunes them from the
      potential group. */
  lemma MovedLookupMoves(cmc: CmcGroups, pot: PotentialGroups, n: KnownNids, r: uint32, sk: uint16,
                         pm: map<uint32, bool>, ids: seq<uint32>, rest: map<uint32, bool>, waiting: bool)
    requires r in pot && 0 in pot[r] && pm == pot[r][0]
    requires ids == Ascending(Movable(pm, n)) && |ids| > 0
    requires rest == pm - Movable(pm, n)
    requires waiting == Waiting(pm, n)
    ensures MovedLookup(cmc, pot, n, r, sk) ==
      Lookup(waiting, ids, CreateGroup(cmc, r, sk, ids),
             PruneAt<uint32, uint32, map<uint32, bool>>(pot, r, PruneAt<uint32, uint32, bool>(pot[r], 0, rest)))
  {
  }

  /** What _getCmcGroup promises for the first packet: the NIDs sent to
      are exactly the movable ones, they form the new CMC group and have
      left the potential group, every other NID of the potential group is
      still there with its flag, and the packet is buffered exactly when a
      ready NID lacks forwarding or no NID moved. */
  lemma CmcGroupLookupMeans(cmc: CmcGroups, pot: PotentialGroups, n: KnownNids, r: uint32, sk: uint16)
    requires Get3(cmc, r, 0, sk).None? || |Get3(cmc, r, 0, sk).value| == 0
    requires r in pot && 0 in pot[r]
    ensures var pm := pot[r][0];
      var res := CmcGroupLookup(cmc, pot, n, r, sk, true, []);
      (forall x :: x in res.nodeIds <==> x in pm && pm[x] && ForwardingEnabled(n, x)) &&
      LtpLightweight.StrictlyAscending(res.nodeIds) &&
      (res.bufferPacket <==> Waiting(pm, n) || |res.nodeIds| == 0) &&
      (|res.nodeIds| > 0 ==> Get3(res.cmc, r, 0, sk) == Some(res.nodeIds)) &&
      (forall x :: x in Child(Child(res.potential, r), 0) <==> x in pm && x !in res.nodeIds) &&
      (forall x :: x in Child(Child(res.potential, r), 0) ==> Child(Child(res.potential, r), 0)[x] == pm[x])
  {
    var pm := pot[r][0];
    var mv := Movable(pm, n);
    var moved := Ascending(mv);
    if |moved| == 0 {
      assert forall x :: x in pm && pm[x] && ForwardingEnabled(n, x) ==> x in moved;
    } else {
      CreateGroupKeeps(cmc, r, sk, moved);
      var inner := PruneAt(pot[r], 0, pm - mv);
      forall x ensures x in Child(Child(PruneAt(pot, r, inner), r), 0) <==> x in pm && x !in moved {
      }
    }
  }

  // ---------------------------------------------------------------------
  // The HTTP request buffer

  /** request_packet_t without its timestamp: the IDs are their hashed
      uint32 values. */
  datatype Request = Request(cId: uint32, rCId: uint32, ripd: uint32, sessionKey: uint16,
                             httpMethod: NapTcpServer.HttpMethod, packet: seq<uint8>, packetSize: uint16)

  type RequestBuffer = map<uint32, map<uint32, Request>>

  /** _bufferRequest: all three branches store the same description, with
      ripd 0 and a copy of the packet's packetSize bytes, under CID > rCID. */
  function BufferRequest(b: RequestBuffer, cId: uint32, rCId: uint32, sk: uint16, m: NapTcpServer.HttpMethod,
                         packet: seq<uint8>, packetSize: uint16): (u: RequestBuffer)
    requires packetSize as int <= |packet|
    ensures cId in u && rCId in u[cId]
    ensures u[cId][rCId].packet == packet[..packetSize] && u[cId][rCId].ripd == 0 && u[cId][rCId].sessionKey == sk
    ensures forall c, r :: (c != cId || r != rCId) && c in b && r in b[c] ==> c in u && r in u[c] && u[c][r] == b[c][r]
  {
    b[cId := Child(b, cId)[rCId := Request(cId, rCId, 0, sk, m, packet[..packetSize], packetSize)]]
  }

  /** The buffer holds the new request under CID > rCID and every other
      request as before. */
  lemma BufferRequestStores(b: RequestBuffer, cId: uint32, rCId: uint32, sk: uint16, m: NapTcpServer.HttpMethod,
                            packet: seq<uint8>, packetSize: uint16)
    requires packetSize as int <= |packet|
    ensures var u := BufferRequest(b, cId, rCId, sk, m, packet, packetSize);
      cId in u && rCId in u[cId] &&
      u[cId][rCId] == Request(cId, rCId, 0, sk, m, packet[..packetSize], packetSize) &&
      |u[cId][rCId].packet| == packetSize as int &&
      (forall c: uint32, r: uint32 :: (c != cId || r != rCId) ==>
         ((c in u && r in u[c]) <==> (c in b && r in b[c])) && (c in b && r in b[c] ==> u[c][r] == b[c][r]))
  {
  }

  /** Only one request is kept per (CID, rCID): a later one overwrites it. */
  lemma BufferRequestOverwrites(b: RequestBuffer, cId: uint32, rCId: uint32, sk: uint16, m: NapTcpServer.HttpMethod,
                                packet: seq<uint8>, packetSize: uint16, sk2: uint16, m2: NapTcpServer.HttpMethod,
                                packet2: seq<uint8>, packetSize2: uint16)
    requires packetSize as int <= |packet| && packetSize2 as int <= |packet2|
    ensures BufferRequest(BufferRequest(b, cId, rCId, sk, m, packet, packetSize), cId, rCId, sk2, m2, packet2, packetSize2)
            == BufferRequest(b, cId, rCId, sk2, m2, packet2, packetSize2)
  {
    var u := BufferRequest(b, cId, rCId, sk, m, packet, packetSize);
    assert Child(u, cId)[rCId := Request(cId, rCId, 0, sk2, m2, packet2[..packetSize2], packetSize2)]
        == Child(b, cId)[rCId := Request(cId, rCId, 0, sk2, m2, packet2[..packetSize2], packetSize2)];
  }

  // ---------------------------------------------------------------------
  // The loops of _getCmcGroup

  /** The walk over a potential group: the ready NIDs with forwarding
      enabled, in ascending order, and whether a ready NID lacks
      forwarding. */
  method SelectNids(pm: map<uint32, bool>, n: KnownNids) returns (nids: seq<uint32>, waiting: bool)
    ensures LtpLightweight.StrictlyAscending(nids)
    ensures forall x :: x in nids <==> x in Movable(pm, n)
    ensures waiting <==> Waiting(pm, n)
  {
    nids := [];
    waiting := false;
    var todo := pm.Keys;
    while todo != {}
      invariant todo <= pm.Keys
      invariant LtpLightweight.StrictlyAscending(nids)
      invariant forall x, y :: x in nids && y in todo ==> x < y
      invariant forall x :: x in nids <==> x in Movable(pm, n) && x !in todo
      invariant waiting <==> exists x :: x in pm && x !in todo && pm[x] && !ForwardingEnabled(n, x)
      decreases |todo|
    {
      LtpLightweight.MinExists(todo);
      var k :| LtpLightweight.IsLeast(k, todo);
      if pm[k] {
        if !ForwardingEnabled(n, k) {
          waiting := true;
        } else {
          forall i | 0 <= i < |nids| ensures nids[i] < k {
            assert nids[i] in nids;
          }
          nids := nids + [k];
        }
      }
      todo := todo - {k};
    }
  }

  /** Erasing exactly the movable NIDs leaves the map minus that set. */
  lemma EraseMovable(pm: map<uint32, bool>, n: KnownNids, ids: seq<uint32>, rest: map<uint32, bool>)
    requires forall x :: x in ids <==> x in Movable(pm, n)
    requires forall x :: x in rest <==> x in pm && x !in ids
    requires forall x :: x in rest ==> rest[x] == pm[x]
    ensures rest == pm - Movable(pm, n)
  {
  }

  /** The erase loop: every moved NID leaves the potential group. */
  method EraseNids(pm: map<uint32, bool>, nids: seq<uint32>) returns (u: map<uint32, bool>)
    ensures forall x :: x in u <==> x in pm && x !in nids
    ensures forall x :: x in u ==> u[x] == pm[x]
  {
    u := pm;
    var i := 0;
    while i < |nids|
      invariant 0 <= i <= |nids|
      invariant forall x :: x in u <==> x in pm && x !in nids[..i]
      invariant forall x :: x in u ==> u[x] == pm[x]
    {
      assert nids[..i + 1] == nids[..i] + [nids[i]];
      u := u - {nids[i]};
      i := i + 1;
    }
    assert nids[..i] == nids;
  }

  // ---------------------------------------------------------------------
  // The handler object

  /** The handler's invariant on its tables: lists without repetitions and
      no empty level. */
  ghost predicate Invariant(reverse: ReverseLookUp, sessions: EndpointSessions, cmc: CmcGroups)
  {
    ListsOk(reverse) && AllSessionsOk(sessions) && NoEmpty3(cmc)
  }

  class Http {
    var reverseNidTorCIdLookUp: ReverseLookUp
    var ipEndpointSessions: EndpointSessions
    var cmcGroups: CmcGroups
    var potentialCmcGroups: PotentialGroups
    var packetBufferRequests: RequestBuffer
    var nIds: KnownNids

    ghost predicate Valid()
      reads this
    {
      Invariant(reverseNidTorCIdLookUp, ipEndpointSessions, cmcGroups)
    }

    constructor()
      ensures Valid()
      ensures reverseNidTorCIdLookUp == map[] && ipEndpointSessions == map[] && cmcGroups == map[]
      ensures potentialCmcGroups == map[] && packetBufferRequests == map[] && nIds == map[]
    {
      reverseNidTorCIdLookUp := map[];
      ipEndpointSessions := map[];
      cmcGroups := map[];
      potentialCmcGroups := map[];
      packetBufferRequests := map[];
      nIds := map[];
    }

    method SetReverse(u: ReverseLookUp)
      requires Valid() && ListsOk(u)
      modifies this`reverseNidTorCIdLookUp
      ensures Valid() && reverseNidTorCIdLookUp == u
    {
      reverseNidTorCIdLookUp := u;
    }

    method SetSessions(u: EndpointSessions)
      requires Valid() && AllSessionsOk(u)
      modifies this`ipEndpointSessions
      ensures Valid() && ipEndpointSessions == u
    {
      ipEndpointSessions := u;
    }

    method SetCmcGroups(u: CmcGroups)
      requires Valid() && NoEmpty3(u)
      modifies this`cmcGroups
      ensures Valid() && cmcGroups == u
    {
      cmcGroups := u;
    }

    method SetPotential(u: PotentialGroups)
      requires Valid()
      modifies this`potentialCmcGroups
      ensures Valid() && potentialCmcGroups == u
    {
      potentialCmcGroups := u;
    }

    /** addReversNidTorCIdLookUp. */
    method AddReversNidTorCIdLookUp(nid: uint32, rCid: uint32)
      requires Valid()
      modifies this`reverseNidTorCIdLookUp
      ensures Valid() && reverseNidTorCIdLookUp == AddReverse(old(reverseNidTorCIdLookUp), nid, rCid)
    {
      var m := reverseNidTorCIdLookUp;
      var l := ListAt(m, nid);
      var found := Find(l, rCid);
      AddReverseKeeps(m, nid, rCid);
      SetReverse(m[nid := if found then l else l + [rCid]]);
    }

    /** _addIpEndpointSession. */
    method AddIpEndpointSession(rCid: uint32, sk: uint16)
      requires Valid()
      modifies this`ipEndpointSessions
      ensures Valid() && ipEndpointSessions == AddSession(old(ipEndpointSessions), rCid, sk)
    {
      var m := ipEndpointSessions;
      var pm := Child(m, rCid);
      var l := ListAt(pm, 0);
      var found := Find(l, sk);
      AddSessionKeeps(m, rCid, sk);
      SetSessions(m[rCid := pm[0 := if found then l else l + [sk]]]);
    }

    /** deleteSessionKey, with the pruning corrected. */
    method DeleteSessionKey(sk: uint16)
      requires Valid()
      modifies this`ipEndpointSessions
      ensures Valid() && ipEndpointSessions == SessionKeyDeleted(old(ipEndpointSessions), sk)
    {
      SessionKeyDeletedKeeps(ipEndpointSessions, sk);
      SetSessions(SessionKeyDeleted(ipEndpointSessions, sk));
    }

    /** closeCmcGroup's table step. */
    method CloseCmcGroup(rCid: uint32, sk: uint16)
      requires Valid()
      modifies this`cmcGroups
      ensures Valid() && cmcGroups == Erase3(old(cmcGroups), rCid, 0, sk)
    {
      Erase3NoEmpty(cmcGroups, rCid, 0, sk);
      SetCmcGroups(Erase3(cmcGroups, rCid, 0, sk));
    }

    /** _createCmcGroup. */
    method CreateCmcGroup(rCid: uint32, sk: uint16, nids: seq<uint32>)
      requires Valid()
      modifies this`cmcGroups
      ensures Valid() && cmcGroups == CreateGroup(old(cmcGroups), rCid, sk, nids)
    {
      CreateGroupKeeps(cmcGroups, rCid, sk, nids);
      SetCmcGroups(CreateGroup(cmcGroups, rCid, sk, nids));
    }

    /** forwarding(NodeId, state). */
    method Forwarding(nid: uint32, state: bool)
      modifies this`nIds
      ensures nIds == SetForwarding(old(nIds), nid, state)
    {
      if nid in nIds {
        nIds := nIds[nid := state];
      }
    }

    /** _forwardingEnabled. */
    method IsForwardingEnabled(nid: uint32) returns (enabled: bool)
      ensures enabled == ForwardingEnabled(nIds, nid)
    {
      if nid !in nIds {
        return false;
      }
      enabled := nIds[nid];
    }

    /** _bufferRequest. */
    method BufferRequestPacket(cId: uint32, rCId: uint32, sk: uint16, m: NapTcpServer.HttpMethod,
                               packet: seq<uint8>, packetSize: uint16)
      requires packetSize as int <= |packet|
      modifies this`packetBufferRequests
      ensures packetBufferRequests == BufferRequest(old(packetBufferRequests), cId, rCId, sk, m, packet, packetSize)
    {
      var inner := Child(packetBufferRequests, cId);
      packetBufferRequests := packetBufferRequests[cId := inner[rCId := Request(cId, rCId, 0, sk, m, packet[..packetSize], packetSize)]];
    }

    /** _getCmcGroup. */
    method GetCmcGroup(rCid: uint32, sk: uint16, firstPacket: bool, nodeIds: seq<uint32>)
      returns (bufferPacket: bool, ids: seq<uint32>)
      requires Valid()
      modifies this`cmcGroups, this`potentialCmcGroups
      ensures Valid()
      ensures Lookup(bufferPacket, ids, cmcGroups, potentialCmcGroups) ==
              CmcGroupLookup(old(cmcGroups), old(potentialCmcGroups), nIds, rCid, sk, firstPacket, nodeIds)
    {
      var g := Get3(cmcGroups, rCid, 0, sk);
      if g.Some? && |g.value| > 0 {
        return false, g.value;
      }
      if !firstPacket || |nodeIds| > 0 {
        return false, nodeIds;
      }
      var pot := potentialCmcGroups;
      if rCid !in pot || 0 !in pot[rCid] {
        return false, [];
      }
      bufferPacket, ids := MoveNids(rCid, sk);
    }

    /** The part of _getCmcGroup that moves the movable NIDs of an existing
        potential group into a new CMC group. */
    method MoveNids(rCid: uint32, sk: uint16) returns (bufferPacket: bool, ids: seq<uint32>)
      requires Valid() && rCid in potentialCmcGroups && 0 in potentialCmcGroups[rCid]
      modifies this`cmcGroups, this`potentialCmcGroups
      ensures Valid()
      ensures Lookup(bufferPacket, ids, cmcGroups, potentialCmcGroups) ==
              MovedLookup(old(cmcGroups), old(potentialCmcGroups), nIds, rCid, sk)
    {
      var pot := potentialCmcGroups;
      var pm := pot[rCid][0];
      var waiting;
      ids, waiting := SelectNids(pm, nIds);
      ghost var moved := Ascending(Movable(pm, nIds));
      AscendingUnique(ids, moved);
      if |ids| == 0 {
        return true, [];
      }
      ghost var cmc := cmcGroups;
      CreateCmcGroup(rCid, sk, ids);
      var rest := EraseNids(pm, ids);
      EraseMovable(pm, nIds, ids, rest);
      var inner := PruneAt<uint32, uint32, bool>(pot[rCid], 0, rest);
      SetPotential(PruneAt<uint32, uint32, map<uint32, bool>>(pot, rCid, inner));
      bufferPacket := waiting;
      MovedLookupMoves(cmc, pot, nIds, rCid, sk, pm, moved, rest, waiting);
    }
  }
}
