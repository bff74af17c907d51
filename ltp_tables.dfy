// The lightweight transport's nested std::map tables as values: the ICN
// packet buffer (rCID > ripd > NID > SK > sequence), the buffers of sent
// packets (rCID > ripd > SK > sequence) and the NACK groups
// (rCID > ripd > SK). Each std::map becomes a Dafny map, and a missing
// level is created on insertion and pruned on deletion.

module LtpTables {
  import opened Wrappers
  import opened Bytes
  import LtpFragments

  /** Three levels keyed rCID > ripd > session key. */
  type Table3<V> = map<uint32, map<uint32, map<uint16, V>>>

  /** An inner level, or an empty one when the key is absent. */
  function Child<K, K2, V>(m: map<K, map<K2, V>>, k: K): (c: map<K2, V>)
    ensures k in m ==> c == m[k]
    ensures k !in m ==> c == map[]
  {
    if k in m then m[k] else map[]
  }

  /** The value stored under r > p > k, if all three levels exist. */
  function Get3<V>(t: Table3<V>, r: uint32, p: uint32, k: uint16): Option<V>
  {
    if r in t && p in t[r] && k in t[r][p] then Some(t[r][p][k]) else None
  }

  /** Store v under r > p > k, creating the levels that are missing. */
  function Put3<V>(t: Table3<V>, r: uint32, p: uint32, k: uint16, v: V): (u: Table3<V>)
    ensures Get3(u, r, p, k) == Some(v)
    ensures forall r2: uint32, p2: uint32, k2: uint16 :: (r2 != r || p2 != p || k2 != k) ==> Get3(u, r2, p2, k2) == Get3(t, r2, p2, k2)
    ensures forall r2: uint32 :: r2 in u <==> r2 in t || r2 == r
  {
    var pm := Child(t, r);
    var km := Child(pm, p);
    t[r := pm[p := km[k := v]]]
  }

  /** Storing under a path that already holds the value changes nothing. */
  lemma Put3Same<V>(t: Table3<V>, r: uint32, p: uint32, k: uint16, v: V)
    requires Get3(t, r, p, k) == Some(v)
    ensures Put3(t, r, p, k, v) == t
  {
    assert t[r][p][k := v] == t[r][p];
    assert t[r][p := t[r][p]] == t[r];
  }

  /** The levels under rCID r, if any, are non-empty maps. */
  ghost predicate Level3<V>(t: Table3<V>, r: uint32)
  {
    r in t ==> |t[r]| > 0 && forall p: uint32 :: p in t[r] ==> |t[r][p]| > 0
  }

  /** No level of the table is an empty map. */
  ghost predicate NoEmpty3<V>(t: Table3<V>)
  {
    forall r: uint32 :: Level3(t, r)
  }

  /** Storing keeps every level non-empty. */
  lemma Put3NoEmpty<V>(t: Table3<V>, r: uint32, p: uint32, k: uint16, v: V)
    requires NoEmpty3(t)
    ensures NoEmpty3(Put3(t, r, p, k, v))
  {
    var u := Put3(t, r, p, k, v);
    forall r2: uint32 ensures Level3(u, r2) {
      assert Level3(t, r2);
      if r2 == r {
        assert k in u[r][p];
      }
    }
  }

  /** Put a changed inner level back under k, or drop k when the inner
      level became empty. */
  function PruneAt<K(!new), K2, V>(m: map<K, map<K2, V>>, k: K, inner: map<K2, V>): (u: map<K, map<K2, V>>)
    ensures k in u <==> |inner| > 0
    ensures k in u ==> u[k] == inner
    ensures forall k2 :: k2 != k ==> (k2 in u <==> k2 in m) && (k2 in u ==> u[k2] == m[k2])
  {
    if |inner| > 0 then m[k := inner] else m - {k}
  }

  /** Erase r > p > k, then its ripd level if that became empty, then its
      rCID level if that became empty; nothing changes when the entry is
      absent. */
  function Erase3<V>(t: Table3<V>, r: uint32, p: uint32, k: uint16): (u: Table3<V>)
    ensures Get3(u, r, p, k) == None
    ensures Get3(t, r, p, k) == None ==> u == t
  {
    if Get3(t, r, p, k) == None then t
    else PruneAt(t, r, PruneAt(t[r], p, t[r][p] - {k}))
  }

  /** Erasing an entry just stored under a path that was free gives the
      table back, levels and all. */
  lemma ErasePut3<V>(t: Table3<V>, r: uint32, p: uint32, k: uint16, v: V)
    requires NoEmpty3(t) && Get3(t, r, p, k).None?
    ensures Erase3(Put3(t, r, p, k, v), r, p, k) == t
  {
    var pm: map<uint32, map<uint16, V>> := Child(t, r);
    var km: map<uint16, V> := Child(pm, p);
    var u: Table3<V> := t[r := pm[p := km[k := v]]];
    assert Put3(t, r, p, k, v) == u;
    assert k !in km;
    UpdateDrop(km, k, v);
    var cut: map<uint16, V> := u[r][p] - {k};
    assert cut == km;
    assert Level3(t, r);
    if r in t && p in t[r] {
      assert |km| > 0;
      assert PruneAt(u[r], p, cut) == pm[p := km[k := v]][p := km];
      UpdateBack(pm, p, km[k := v], km);
      assert |pm| > 0;
      UpdateBack(t, r, pm[p := km[k := v]], pm);
    } else if r in t {
      assert |km| == 0;
      UpdateDrop(pm, p, km[k := v]);
      assert PruneAt(u[r], p, cut) == pm;
      assert |pm| > 0;
      UpdateBack(t, r, pm[p := km[k := v]], pm);
    } else {
      assert |km| == 0 && |pm| == 0;
      var one: map<uint32, map<uint16, V>> := map[p := km[k := v]];
      UpdateDrop(pm, p, km[k := v]);
      assert PruneAt(u[r], p, cut) == pm;
      UpdateDrop(t, r, one);
    }
  }

  /** Overwriting an entry and then restoring it gives the map back. */
  lemma UpdateBack<K, W>(m: map<K, W>, k: K, w: W, w0: W)
    requires k in m && m[k] == w0
    ensures m[k := w][k := w0] == m
  {
  }

  /** Adding a fresh entry and then removing it gives the map back. */
  lemma UpdateDrop<K, W>(m: map<K, W>, k: K, w: W)
    requires k !in m
    ensures m[k := w] - {k} == m
  {
  }

  /** Erasing one entry leaves every other entry as it was. */
  lemma Erase3At<V>(t: Table3<V>, r: uint32, p: uint32, k: uint16, r2: uint32, p2: uint32, k2: uint16)
    requires r2 != r || p2 != p || k2 != k
    ensures Get3(Erase3(t, r, p, k), r2, p2, k2) == Get3(t, r2, p2, k2)
  {
    if Get3(t, r, p, k) != None && r2 == r && p2 == p {
      assert k2 != k;
    }
  }

  lemma Erase3Others<V>(t: Table3<V>, r: uint32, p: uint32, k: uint16)
    ensures forall r2: uint32, p2: uint32, k2: uint16 :: (r2 != r || p2 != p || k2 != k) ==>
              Get3(Erase3(t, r, p, k), r2, p2, k2) == Get3(t, r2, p2, k2)
  {
    forall r2: uint32, p2: uint32, k2: uint16 | r2 != r || p2 != p || k2 != k
      ensures Get3(Erase3(t, r, p, k), r2, p2, k2) == Get3(t, r2, p2, k2)
    {
      Erase3At(t, r, p, k, r2, p2, k2);
    }
  }

  /** Erasing keeps every level non-empty. */
  lemma Erase3NoEmpty<V>(t: Table3<V>, r: uint32, p: uint32, k: uint16)
    requires NoEmpty3(t)
    ensures NoEmpty3(Erase3(t, r, p, k))
  {
    if Get3(t, r, p, k) != None {
      var km: map<uint16, V> := t[r][p] - {k};
      var inner: map<uint32, map<uint16, V>> := PruneAt(t[r], p, km);
      var u: Table3<V> := PruneAt(t, r, inner);
      assert Level3(t, r);
      forall p2 | p2 in inner ensures |inner[p2]| > 0 {
        if p2 != p {
          assert inner[p2] == t[r][p2];
        }
      }
      forall r2: uint32 ensures Level3(u, r2) {
        if r2 != r && r2 in u {
          assert Level3(t, r2);
          assert u[r2] == t[r2];
        }
      }
    }
  }

  // ---------------------------------------------------------------------
  // Buffers of packets

  /** A buffered packet: the bytes the pair<uint8_t*, uint16_t> points at,
      as many as its length says. */
  type Packet = seq<uint8>

  /** sequence number > packet */
  type SequenceMap = map<uint16, Packet>

  /** The sent-packet buffers: rCID > ripd > SK > sequence > packet. */
  type SentBuffer = Table3<SequenceMap>

  /** The session's packets, none when it is not buffered. */
  function Session(b: SentBuffer, r: uint32, p: uint32, sk: uint16): SequenceMap
  {
    if Get3(b, r, p, sk).Some? then Get3(b, r, p, sk).value else map[]
  }

  /** _bufferLtpPacket and _bufferProxyPacket: store the packet under
      rCID > ripd > SK > sequence, creating missing levels; a sequence
      number that is already buffered keeps its first packet. */
  function BufferSent(b: SentBuffer, r: uint32, p: uint32, sk: uint16, seqNo: uint16, packet: Packet): (u: SentBuffer)
    ensures Get3(u, r, p, sk).Some? && seqNo in Get3(u, r, p, sk).value
    ensures seqNo in Session(b, r, p, sk) ==> u == b
    ensures seqNo !in Session(b, r, p, sk) ==> Get3(u, r, p, sk).value[seqNo] == packet
  {
    var s := Session(b, r, p, sk);
    if seqNo in s then b else Put3(b, r, p, sk, s[seqNo := packet])
  }

  /** After buffering, the session holds the sequence number, with the
      packet first buffered under it, besides the sequence numbers it held;
      every other session is unchanged. */
  lemma BufferSentStores(b: SentBuffer, r: uint32, p: uint32, sk: uint16, seqNo: uint16, packet: Packet)
    ensures var u := BufferSent(b, r, p, sk, seqNo, packet);
      var s0 := Session(b, r, p, sk);
      Get3(u, r, p, sk) == Some(if seqNo in s0 then s0 else s0[seqNo := packet]) &&
      (forall r2: uint32, p2: uint32, k2: uint16 :: (r2 != r || p2 != p || k2 != sk) ==>
         Get3(u, r2, p2, k2) == Get3(b, r2, p2, k2))
  {
  }

  /** A second packet under a buffered sequence number changes nothing, so
      buffering the same packet twice is buffering it once. */
  lemma BufferSentIdempotent(b: SentBuffer, r: uint32, p: uint32, sk: uint16, seqNo: uint16, packet: Packet, other: Packet)
    ensures var u := BufferSent(b, r, p, sk, seqNo, packet);
      BufferSent(u, r, p, sk, seqNo, other) == u
  {
  }

  /** Every level of a sent buffer, sequence maps included, is non-empty. */
  ghost predicate NoEmptySent(b: SentBuffer)
  {
    NoEmpty3(b) && forall r: uint32, p: uint32, k: uint16 :: Get3(b, r, p, k).Some? ==> |Get3(b, r, p, k).value| > 0
  }

  /** Storing a non-empty sequence map keeps a sent buffer without empty
      levels. */
  lemma Put3NoEmptySent(b: SentBuffer, r: uint32, p: uint32, sk: uint16, s: SequenceMap)
    requires NoEmptySent(b) && |s| > 0
    ensures NoEmptySent(Put3(b, r, p, sk, s))
  {
    Put3NoEmpty(b, r, p, sk, s);
  }

  lemma BufferSentNoEmpty(b: SentBuffer, r: uint32, p: uint32, sk: uint16, seqNo: uint16, packet: Packet)
    requires NoEmptySent(b)
    ensures NoEmptySent(BufferSent(b, r, p, sk, seqNo, packet))
  {
    var s := Session(b, r, p, sk);
    if seqNo !in s {
      assert seqNo in s[seqNo := packet];
      Put3NoEmptySent(b, r, p, sk, s[seqNo := packet]);
    }
  }

  /** Deleting a session keeps a sent buffer without empty levels. */
  lemma EraseSentNoEmpty(b: SentBuffer, r: uint32, p: uint32, sk: uint16)
    requires NoEmptySent(b)
    ensures NoEmptySent(Erase3(b, r, p, sk))
  {
    Erase3NoEmpty(b, r, p, sk);
    Erase3Others(b, r, p, sk);
  }

  // ---------------------------------------------------------------------
  // The ICN packet buffer

  /** rCID > ripd > NID > SK > sequence > payload. Below the rCID the
      levels have the shape of a sent buffer keyed ripd > NID > SK. */
  type IcnBuffer = map<uint32, SentBuffer>

  function Get4(b: IcnBuffer, r: uint32, p: uint32, n: uint32, sk: uint16): Option<SequenceMap>
  {
    if r in b then Get3(b[r], p, n, sk) else None
  }

  /** The session's payloads, none when it is not buffered. */
  function IcnSession(b: IcnBuffer, r: uint32, p: uint32, n: uint32, sk: uint16): SequenceMap
  {
    if Get4(b, r, p, n, sk).Some? then Get4(b, r, p, n, sk).value else map[]
  }

  function Put4(b: IcnBuffer, r: uint32, p: uint32, n: uint32, sk: uint16, s: SequenceMap): (u: IcnBuffer)
    ensures Get4(u, r, p, n, sk) == Some(s)
  {
    b[r := Put3(Child(b, r), p, n, sk, s)]
  }

  /** Storing one session leaves every other session as it was. */
  lemma Put4Others(b: IcnBuffer, r: uint32, p: uint32, n: uint32, sk: uint16, s: SequenceMap)
    ensures forall r2: uint32, p2: uint32, n2: uint32, k2: uint16 :: (r2 != r || p2 != p || n2 != n || k2 != sk) ==>
              Get4(Put4(b, r, p, n, sk, s), r2, p2, n2, k2) == Get4(b, r2, p2, n2, k2)
  {
  }

  /** The sent buffer under rCID r, if any, has no empty level. */
  ghost predicate IcnLevel(b: IcnBuffer, r: uint32)
  {
    r in b ==> |b[r]| > 0 && NoEmptySent(b[r])
  }

  /** No level of the ICN buffer is an empty map. */
  ghost predicate NoEmptyIcn(b: IcnBuffer)
  {
    forall r: uint32 :: IcnLevel(b, r)
  }

  /** Putting a sent buffer without empty levels under an rCID, or dropping
      the rCID when that buffer is empty, keeps the ICN buffer without empty
      levels. */
  lemma PruneNoEmptyIcn(b: IcnBuffer, r: uint32, t: SentBuffer)
    requires NoEmptyIcn(b) && NoEmptySent(t)
    ensures NoEmptyIcn(PruneAt(b, r, t))
  {
    var u := PruneAt(b, r, t);
    forall r2: uint32 ensures IcnLevel(u, r2) {
      if r2 != r && r2 in u {
        assert IcnLevel(b, r2);
        assert u[r2] == b[r2];
      }
    }
  }

  lemma Put4NoEmpty(b: IcnBuffer, r: uint32, p: uint32, n: uint32, sk: uint16, s: SequenceMap)
    requires NoEmptyIcn(b) && |s| > 0
    ensures NoEmptyIcn(Put4(b, r, p, n, sk, s))
  {
    var t := Child(b, r);
    assert IcnLevel(b, r);
    Put3NoEmptySent(t, p, n, sk, s);
    var t2 := Put3(t, p, n, sk, s);
    assert p in t2;
    PruneNoEmptyIcn(b, r, t2);
  }

  /** _bufferIcnPacket as written: a sequence number already buffered
      with the same length is left alone; with a different length the old
      payload is freed, yet std::map::insert does not replace an existing
      key, so the entry still points at the freed payload and the new one
      is dropped. The flag says that the entry now points at freed memory. */
  function BufferIcnAsWritten(b: IcnBuffer, r: uint32, p: uint32, n: uint32, sk: uint16, seqNo: uint16, payload: Packet): (res: (IcnBuffer, bool))
    ensures res.1 <==> seqNo in IcnSession(b, r, p, n, sk) && |IcnSession(b, r, p, n, sk)[seqNo]| != |payload|
    ensures seqNo in IcnSession(b, r, p, n, sk) ==> res.0 == b
    ensures seqNo !in IcnSession(b, r, p, n, sk) ==> IcnSession(res.0, r, p, n, sk) == IcnSession(b, r, p, n, sk)[seqNo := payload]
  {
    var s := IcnSession(b, r, p, n, sk);
    if seqNo in s then (b, |s[seqNo]| != |payload|)
    else (Put4(b, r, p, n, sk, s[seqNo := payload]), false)
  }

  /** _bufferIcnPacket as its log message describes it: a repeated
      sequence number with the same length is left alone, one with a
      different length overwrites the old payload. */
  function BufferIcn(b: IcnBuffer, r: uint32, p: uint32, n: uint32, sk: uint16, seqNo: uint16, payload: Packet): (u: IcnBuffer)
    ensures seqNo in IcnSession(u, r, p, n, sk) && |IcnSession(u, r, p, n, sk)[seqNo]| == |payload|
    ensures seqNo in IcnSession(b, r, p, n, sk) && |IcnSession(b, r, p, n, sk)[seqNo]| == |payload| ==> u == b
    ensures !(seqNo in IcnSession(b, r, p, n, sk) && |IcnSession(b, r, p, n, sk)[seqNo]| == |payload|) ==>
      IcnSession(u, r, p, n, sk) == IcnSession(b, r, p, n, sk)[seqNo := payload]
  {
    var s := IcnSession(b, r, p, n, sk);
    if seqNo in s && |s[seqNo]| == |payload| then b
    else Put4(b, r, p, n, sk, s[seqNo := payload])
  }

  /** After buffering, the session holds the payload under its sequence
      number unless a payload of the same length was there already, and
      keeps its other sequence numbers; the other sessions are unchanged. */
  lemma BufferIcnStores(b: IcnBuffer, r: uint32, p: uint32, n: uint32, sk: uint16, seqNo: uint16, payload: Packet)
    ensures var u := BufferIcn(b, r, p, n, sk, seqNo, payload);
      var s0 := IcnSession(b, r, p, n, sk);
      Get4(u, r, p, n, sk) == Some(if seqNo in s0 && |s0[seqNo]| == |payload| then s0 else s0[seqNo := payload]) &&
      (forall r2: uint32, p2: uint32, n2: uint32, k2: uint16 :: (r2 != r || p2 != p || n2 != n || k2 != sk) ==>
         Get4(u, r2, p2, n2, k2) == Get4(b, r2, p2, n2, k2))
  {
    var s0 := IcnSession(b, r, p, n, sk);
    Put4Others(b, r, p, n, sk, s0[seqNo := payload]);
  }

  /** Buffering the same payload twice is buffering it once. */
  lemma BufferIcnIdempotent(b: IcnBuffer, r: uint32, p: uint32, n: uint32, sk: uint16, seqNo: uint16, payload: Packet)
    ensures var u := BufferIcn(b, r, p, n, sk, seqNo, payload);
      BufferIcn(u, r, p, n, sk, seqNo, payload) == u
  {
  }

  /** Buffering keeps every level of the ICN buffer non-empty. */
  lemma BufferIcnNoEmpty(b: IcnBuffer, r: uint32, p: uint32, n: uint32, sk: uint16, seqNo: uint16, payload: Packet)
    requires NoEmptyIcn(b)
    ensures NoEmptyIcn(BufferIcn(b, r, p, n, sk, seqNo, payload))
  {
    var s := IcnSession(b, r, p, n, sk);
    if !(seqNo in s && |s[seqNo]| == |payload|) {
      assert seqNo in s[seqNo := payload];
      Put4NoEmpty(b, r, p, n, sk, s[seqNo := payload]);
    }
  }

  /** A payload of a new length sent again under a known sequence number
      is dropped by the source, while the old payload, already freed,
      stays in the buffer; the corrected buffer holds the new payload. */
  lemma BufferIcnAsWrittenDangles(b: IcnBuffer, r: uint32, p: uint32, n: uint32, sk: uint16, seqNo: uint16, payload: Packet)
    requires seqNo in IcnSession(b, r, p, n, sk) && |IcnSession(b, r, p, n, sk)[seqNo]| != |payload|
    ensures BufferIcnAsWritten(b, r, p, n, sk, seqNo, payload) == (b, true)
    ensures IcnSession(BufferIcn(b, r, p, n, sk, seqNo, payload), r, p, n, sk)[seqNo] == payload
  {
  }

  /** Where the source's buffer is not left dangling, it agrees with the
      corrected one. */
  lemma BufferIcnAsWrittenAgrees(b: IcnBuffer, r: uint32, p: uint32, n: uint32, sk: uint16, seqNo: uint16, payload: Packet)
    requires !BufferIcnAsWritten(b, r, p, n, sk, seqNo, payload).1
    ensures BufferIcnAsWritten(b, r, p, n, sk, seqNo, payload).0 == BufferIcn(b, r, p, n, sk, seqNo, payload)
  {
  }

  /** retrievePacket's clean-up as written: erase the session; when the
      NID became empty erase it, then erase the ripd level if it is NOT
      empty, then the rCID if it is empty. */
  function EraseIcnAsWritten(b: IcnBuffer, r: uint32, n: uint32, sk: uint16): (u: IcnBuffer)
    requires Get4(b, r, 0, n, sk).Some?
    ensures Get4(u, r, 0, n, sk) == None
    ensures |b[r][0][n] - {sk}| == 0 && |b[r][0] - {n}| > 0 ==>
      forall n2: uint32, k2: uint16 :: Get4(u, r, 0, n2, k2) == None
  {
    var nm: map<uint16, SequenceMap> := b[r][0][n] - {sk};
    if |nm| > 0 then
      var pm: map<uint32, map<uint16, SequenceMap>> := b[r][0][n := nm];
      var rm: SentBuffer := b[r][0 := pm];
      b[r := rm]
    else
      var pm: map<uint32, map<uint16, SequenceMap>> := b[r][0] - {n};
      var rm: SentBuffer := if |pm| > 0 then b[r] - {0} else b[r][0 := pm];
      if |rm| == 0 then b - {r} else b[r := rm]
  }

  /** retrievePacket's clean-up, corrected: erase the session, then each
      level that became empty. */
  function EraseIcn(b: IcnBuffer, r: uint32, n: uint32, sk: uint16): (u: IcnBuffer)
    ensures Get4(u, r, 0, n, sk) == None
  {
    if r !in b then b else PruneAt(b, r, Erase3(b[r], 0, n, sk))
  }

  /** The corrected clean-up leaves every other session alone and no level
      empty. */
  lemma EraseIcnKeeps(b: IcnBuffer, r: uint32, n: uint32, sk: uint16)
    ensures var u := EraseIcn(b, r, n, sk);
      (forall r2: uint32, p2: uint32, n2: uint32, k2: uint16 :: (r2 != r || p2 != 0 || n2 != n || k2 != sk) ==>
         Get4(u, r2, p2, n2, k2) == Get4(b, r2, p2, n2, k2)) &&
      (NoEmptyIcn(b) ==> NoEmptyIcn(u))
  {
    if r in b {
      var t := Erase3(b[r], 0, n, sk);
      var u := PruneAt(b, r, t);
      Erase3Others(b[r], 0, n, sk);
      forall r2: uint32, p2: uint32, n2: uint32, k2: uint16 | r2 != r || p2 != 0 || n2 != n || k2 != sk
        ensures Get4(u, r2, p2, n2, k2) == Get4(b, r2, p2, n2, k2)
      {
        if r2 == r {
          assert Get3(t, p2, n2, k2) == Get3(b[r], p2, n2, k2);
        }
      }
      if NoEmptyIcn(b) {
        assert IcnLevel(b, r);
        EraseSentNoEmpty(b[r], 0, n, sk);
        PruneNoEmptyIcn(b, r, t);
      }
    }
  }

  /** The outcome of retrievePacket: the packet, its length as the
      uint16_t packetSize, and the buffer left behind. */
  datatype Retrieved = Retrieved(packet: Packet, packetSize: uint16, rest: IcnBuffer)

  /** retrievePacket(rCID, NID, SK) under ripd 0: nothing when a level is
      missing; otherwise the session's payloads concatenated in ascending
      sequence order, their total length truncated to 16 bits, and the
      buffer without the session. */
  function Retrieve(b: IcnBuffer, r: uint32, n: uint32, sk: uint16): (res: Option<Retrieved>)
    ensures res.None? <==> Get4(b, r, 0, n, sk).None?
    ensures res.Some? ==> res.value.packet == LtpFragments.Reassembled(Get4(b, r, 0, n, sk).value)
    ensures res.Some? ==> res.value.packetSize == |res.value.packet| % 0x1_0000
    ensures res.Some? ==> Get4(res.value.rest, r, 0, n, sk).None? && res.value.rest == EraseIcn(b, r, n, sk)
  {
    match Get4(b, r, 0, n, sk)
    case None => None
    case Some(s) =>
      var packet := LtpFragments.Reassembled(s);
      Some(Retrieved(packet, ToUint16(|packet|), EraseIcn(b, r, n, sk)))
  }

  /** Two nodes' sessions under one rCID: retrieving the only session of
      the first node erases, in the source, the whole ripd level and with
      it the second node's buffered fragments; the corrected clean-up keeps
      them. */
  lemma EraseIcnAsWrittenLosesSessions(b: IcnBuffer, r: uint32, n: uint32, sk: uint16, n2: uint32, sk2: uint16)
    requires Get4(b, r, 0, n, sk).Some? && b[r][0][n].Keys == {sk}
    requires n2 != n && Get4(b, r, 0, n2, sk2).Some?
    ensures Get4(EraseIcnAsWritten(b, r, n, sk), r, 0, n2, sk2).None?
    ensures Get4(EraseIcn(b, r, n, sk), r, 0, n2, sk2) == Get4(b, r, 0, n2, sk2)
  {
    var pm := b[r][0] - {n};
    assert n2 in pm;
    assert |b[r][0][n] - {sk}| == 0;
    EraseIcnKeeps(b, r, n, sk);
  }

  /** When the node still has other sessions, the source's clean-up and the
      corrected one agree. */
  lemma EraseIcnAsWrittenAgrees(b: IcnBuffer, r: uint32, n: uint32, sk: uint16)
    requires Get4(b, r, 0, n, sk).Some? && |b[r][0][n]| > 1
    ensures EraseIcnAsWritten(b, r, n, sk) == EraseIcn(b, r, n, sk)
  {
    var nm := b[r][0][n] - {sk};
    assert |nm| == |b[r][0][n]| - 1;
  }

  // ---------------------------------------------------------------------
  // NACK groups

  /** nack_group_t: the nodes that asked for a range, and the range. */
  datatype NackGroup = NackGroup(nodeIds: seq<uint32>, startSequence: uint16, endSequence: uint16)

  /** ltp_hdr_ctrl_nack_t's fields the table uses. */
  datatype Nack = Nack(ripd: uint32, sessionKey: uint16, start: uint16, end: uint16)

  type NackGroups = Table3<NackGroup>

  /** How _addNackNodeId creates a group under a known rCID and ripd: the
      node and the start sequence are set, the end sequence is left
      uninitialised (None here). */
  datatype GroupAsWritten = GroupAsWritten(nodeIds: seq<uint32>, startSequence: uint16, endSequence: Option<uint16>)

  function NewGroupForKnownRipdAsWritten(nack: Nack, nid: uint32): (g: GroupAsWritten)
    ensures g.endSequence.None?
  {
    GroupAsWritten([nid], nack.start, None)
  }

  /** A new group: the node and the NACK's range. */
  function NewGroup(nack: Nack, nid: uint32): (g: NackGroup)
    ensures g.nodeIds == [nid] && g.startSequence == nack.start && g.endSequence == nack.end
  {
    NackGroup([nid], nack.start, nack.end)
  }

  /** The node ids of a list without repetitions. */
  predicate Distinct(s: seq<uint32>)
  {
    forall i, j :: 0 <= i < j < |s| ==> s[i] != s[j]
  }

  /** Merging a NACK into an existing group: the node is appended unless it
      is already there, the range widens to cover the NACK's. */
  function Merge(g: NackGroup, nack: Nack, nid: uint32): (h: NackGroup)
    ensures nid in h.nodeIds && forall x :: x in g.nodeIds ==> x in h.nodeIds
    ensures h.startSequence <= g.startSequence && h.startSequence <= nack.start
    ensures h.endSequence >= g.endSequence && h.endSequence >= nack.end
  {
    NackGroup(if nid in g.nodeIds then g.nodeIds else g.nodeIds + [nid],
              if nack.start < g.startSequence then nack.start else g.startSequence,
              if nack.end > g.endSequence then nack.end else g.endSequence)
  }

  /** The merged group lists each node once, holds exactly the old nodes and
      the new one, and its range is the smallest one covering both. */
  lemma MergeGroup(g: NackGroup, nack: Nack, nid: uint32)
    requires Distinct(g.nodeIds)
    ensures var h := Merge(g, nack, nid);
      Distinct(h.nodeIds) &&
      (forall x :: x in h.nodeIds <==> x in g.nodeIds || x == nid) &&
      h.startSequence <= g.startSequence && h.startSequence <= nack.start &&
      (h.startSequence == g.startSequence || h.startSequence == nack.start) &&
      h.endSequence >= g.endSequence && h.endSequence >= nack.end &&
      (h.endSequence == g.endSequence || h.endSequence == nack.end)
  {
  }

  /** _addNackNodeId(rCID, nack, NID), with a new group's range taken from
      the NACK. */
  function AddNack(t: NackGroups, r: uint32, nack: Nack, nid: uint32): (u: NackGroups)
    ensures Get3(u, r, nack.ripd, nack.sessionKey).Some? && nid in Get3(u, r, nack.ripd, nack.sessionKey).value.nodeIds
    ensures Get3(t, r, nack.ripd, nack.sessionKey).Some? ==>
      forall x :: x in Get3(t, r, nack.ripd, nack.sessionKey).value.nodeIds ==> x in Get3(u, r, nack.ripd, nack.sessionKey).value.nodeIds
  {
    match Get3(t, r, nack.ripd, nack.sessionKey)
    case None => Put3(t, r, nack.ripd, nack.sessionKey, NewGroup(nack, nid))
    case Some(g) => Put3(t, r, nack.ripd, nack.sessionKey, Merge(g, nack, nid))
  }

  /** Every group lists each of its nodes once. */
  ghost predicate GroupsValid(t: NackGroups)
  {
    forall r: uint32, p: uint32, k: uint16 :: Get3(t, r, p, k).Some? ==> Distinct(Get3(t, r, p, k).value.nodeIds)
  }

  /** Adding a NACK keeps the groups duplicate-free, puts the node into its
      session's group and leaves the other groups alone. */
  lemma AddNackKeeps(t: NackGroups, r: uint32, nack: Nack, nid: uint32)
    requires GroupsValid(t)
    ensures var u := AddNack(t, r, nack, nid);
      GroupsValid(u) &&
      Get3(u, r, nack.ripd, nack.sessionKey).Some? &&
      nid in Get3(u, r, nack.ripd, nack.sessionKey).value.nodeIds &&
      (forall r2: uint32, p2: uint32, k2: uint16 :: (r2 != r || p2 != nack.ripd || k2 != nack.sessionKey) ==> Get3(u, r2, p2, k2) == Get3(t, r2, p2, k2))
  {
    var u := AddNack(t, r, nack, nid);
    match Get3(t, r, nack.ripd, nack.sessionKey)
    case None =>
    case Some(g) => MergeGroup(g, nack, nid);
  }

  /** Adding a NACK keeps every level of the groups non-empty. */
  lemma AddNackNoEmpty(t: NackGroups, r: uint32, nack: Nack, nid: uint32)
    requires NoEmpty3(t)
    ensures NoEmpty3(AddNack(t, r, nack, nid))
  {
    match Get3(t, r, nack.ripd, nack.sessionKey)
    case None => Put3NoEmpty(t, r, nack.ripd, nack.sessionKey, NewGroup(nack, nid));
    case Some(g) => Put3NoEmpty(t, r, nack.ripd, nack.sessionKey, Merge(g, nack, nid));
  }

  /** Deleting a group keeps the others duplicate-free. */
  lemma EraseGroupsValid(t: NackGroups, r: uint32, p: uint32, k: uint16)
    requires GroupsValid(t)
    ensures GroupsValid(Erase3(t, r, p, k))
  {
    Erase3Others(t, r, p, k);
  }

  /** The same node sending the same NACK again changes nothing. */
  lemma AddNackIdempotent(t: NackGroups, r: uint32, nack: Nack, nid: uint32)
    ensures var u := AddNack(t, r, nack, nid);
      AddNack(u, r, nack, nid) == u
  {
    var u := AddNack(t, r, nack, nid);
    var g := Get3(u, r, nack.ripd, nack.sessionKey).value;
    assert Merge(g, nack, nid) == g;
    Put3Same(u, r, nack.ripd, nack.sessionKey, g);
  }

  /** The source's new group under a known rCID and ripd carries no end
      sequence, while the corrected group ends where the NACK ends. */
  lemma NewGroupAsWrittenLacksEnd(nack: Nack, nid: uint32)
    ensures NewGroupForKnownRipdAsWritten(nack, nid).endSequence.None?
    ensures NewGroup(nack, nid).endSequence == nack.end
    ensures NewGroupForKnownRipdAsWritten(nack, nid).nodeIds == NewGroup(nack, nid).nodeIds
  {
  }
}
