// BAMPERS' Namespace helper (lib/bampers/namespace.cc): scope paths made of
// 16-character zero-padded decimal levels, the table of published scope
// paths with their subscriber flag, and the buffer of data waiting for a
// subscriber. Calls into the ICN core are recorded as IcnCall values.

module BampersNamespace {
  import opened Bytes
  import opened Text

  const ID_LEN: nat := 16

  const TOPOLOGY_NODES: int := 0
  const TOPOLOGY_LINKS: int := 1

  const II_UNKNOWN: uint16 := 0
  const II_CMC_GROUP_SIZE: uint16 := 1
  const II_FQDN: uint16 := 2
  const II_HTTP_REQUESTS_PER_FQDN: uint16 := 3
  const II_NAME: uint16 := 4
  const II_NETWORK_LATENCY_PER_FQDN: uint16 := 5
  const II_NODE_ID: uint16 := 6
  const II_NUMBER_OF_STATES: uint16 := 7
  const II_PREFIX: uint16 := 8
  const II_ROLE: uint16 := 9
  const II_SOURCE_NODE_ID: uint16 := 10
  const II_STATE: uint16 := 11
  const II_TRANSMITTED_BYTES: uint16 := 12

  /** One scope level: `setw(ID_LEN) << setfill('0') << x`. */
  function Field(x: int): (f: string)
    ensures |f| >= ID_LEN
  {
    PadLeft(IntToString(x), ID_LEN, '0')
  }

  /** Values of fewer than eleven characters fill exactly one level. */
  lemma FieldLength(x: int)
    requires -0x1_0000_0000 < x < 0x1_0000_0000
    ensures |Field(x)| == ID_LEN
  {
    var m: nat := if x < 0 then -x else x;
    assert Pow10(10) == 10_000_000_000;
    DecimalDigitsBound(m, 10);
  }

  /** atoi reads a level back as the value it was written from. */
  lemma FieldValue(x: int)
    requires 0 <= x < 0x8000_0000
    ensures Atoi(Field(x)) == x
  {
    var n: nat := x;
    assert Field(x) == PadLeft(Decimal(n), ID_LEN, '0');
    StrtolPaddedDecimal(n, ID_LEN);
    ToInt32OfUint32(n);
  }

  /** A negative value is filled in front of its minus sign, so atoi stops
      at the sign and reads the level as zero. */
  lemma FieldNegative(x: int)
    requires -0x8000_0000 <= x < 0
    ensures Atoi(Field(x)) == 0
  {
    var n: nat := -x;
    var d := Decimal(n);
    assert Pow10(10) == 10_000_000_000;
    DecimalDigitsBound(n, 10);
    var t := IntToString(x);
    assert t == "-" + d;
    PadLeftZeros(t, ID_LEN);
    var k := ID_LEN - |t|;
    assert Field(x) == Zeros(k) + t;
    assert Zeros(k) + t == Zeros(k) + "-" + d;
    StrtolZerosThenMinus(k, d);
  }

  /** Where the levels of a concatenation of whole levels sit. */
  lemma Levels5(a: string, b: string, c: string, d: string, e: string)
    requires |a| == ID_LEN && |b| == ID_LEN && |c| == ID_LEN && |d| == ID_LEN && |e| == ID_LEN
    ensures var p := a + b + c + d + e;
      |p| == 5 * ID_LEN && p[..16] == a && p[16..32] == b && p[32..48] == c && p[48..64] == d && p[64..80] == e
  {
  }

  lemma Levels6(a: string, b: string, c: string, d: string, e: string, f: string)
    requires |a| == ID_LEN && |b| == ID_LEN && |c| == ID_LEN && |d| == ID_LEN && |e| == ID_LEN && |f| == ID_LEN
    ensures var p := a + b + c + d + e + f;
      |p| == 6 * ID_LEN && p[..16] == a && p[16..32] == b && p[32..48] == c && p[48..64] == d
      && p[64..80] == e && p[80..96] == f
  {
    var q := a + b + c + d + e;
    Levels5(a, b, c, d, e);
    var p := q + f;
    assert p[..80] == q;
    assert p[..16] == q[..16] && p[16..32] == q[16..32] && p[32..48] == q[32..48];
    assert p[48..64] == q[48..64] && p[64..80] == q[64..80];
  }

  /** getScopePath(nodeType, nodeId, infoItem); the one-argument-less
      overload passes the helper's own node id. */
  function NodeScopePath(root: int, nodeType: uint8, nodeId: uint32, infoItem: uint16): string
  {
    Field(root) + Field(TOPOLOGY_NODES) + Field(nodeType) + Field(ToInt32(nodeId)) + Field(infoItem)
  }

  /** getScopePath(linkId, destinationNodeId, linkType, infoItem): the link
      id is written unsigned, the destination as an int. */
  function LinkScopePath(root: int, linkId: uint32, destination: uint32, linkType: uint8, infoItem: uint16): string
  {
    Field(root) + Field(TOPOLOGY_LINKS) + Field(linkId) + Field(ToInt32(destination))
      + Field(linkType) + Field(infoItem)
  }

  /** Node paths have five levels, link paths six; level k sits at
      [16k, 16k + 16). */
  lemma NodeScopePathLevels(root: int, nodeType: uint8, nodeId: uint32, infoItem: uint16)
    requires 0 <= root < 0x8000_0000
    ensures var p := NodeScopePath(root, nodeType, nodeId, infoItem);
      |p| == 5 * ID_LEN
      && p[..16] == Field(root) && p[16..32] == Field(TOPOLOGY_NODES) && p[32..48] == Field(nodeType)
      && p[48..64] == Field(ToInt32(nodeId)) && p[64..80] == Field(infoItem)
  {
    FieldLength(root);
    FieldLength(TOPOLOGY_NODES);
    FieldLength(nodeType);
    FieldLength(ToInt32(nodeId));
    FieldLength(infoItem);
    Levels5(Field(root), Field(TOPOLOGY_NODES), Field(nodeType), Field(ToInt32(nodeId)), Field(infoItem));
  }

  lemma LinkScopePathLevels(root: int, linkId: uint32, destination: uint32, linkType: uint8, infoItem: uint16)
    requires 0 <= root < 0x8000_0000
    ensures var p := LinkScopePath(root, linkId, destination, linkType, infoItem);
      |p| == 6 * ID_LEN
      && p[..16] == Field(root) && p[16..32] == Field(TOPOLOGY_LINKS) && p[32..48] == Field(linkId)
      && p[48..64] == Field(ToInt32(destination)) && p[64..80] == Field(linkType)
      && p[80..96] == Field(infoItem)
  {
    FieldLength(root);
    FieldLength(TOPOLOGY_LINKS);
    FieldLength(linkId);
    FieldLength(ToInt32(destination));
    FieldLength(linkType);
    FieldLength(infoItem);
    Levels6(Field(root), Field(TOPOLOGY_LINKS), Field(linkId), Field(ToInt32(destination)), Field(linkType), Field(infoItem));
  }

  datatype IcnCall =
    | PublishScope(id: string, prefix: string)
    | PublishInfo(id: string, prefix: string)
    | PublishData(path: string, data: seq<uint8>)

  /** The call _publishScopePath makes for level j: the level's 16
      characters under the concatenation of the levels before it, as an
      information item when it is the last level. */
  function LevelCall(path: string, j: nat): IcnCall
    requires ID_LEN * (j + 1) <= |path|
  {
    var id := path[ID_LEN * j..ID_LEN * j + ID_LEN];
    var prefix := path[..ID_LEN * j];
    if ID_LEN * j + ID_LEN == |path| then PublishInfo(id, prefix) else PublishScope(id, prefix)
  }

  function LevelCalls(path: string, k: nat): (r: seq<IcnCall>)
    requires ID_LEN * k <= |path|
    ensures |r| == k
  {
    if k == 0 then [] else LevelCalls(path, k - 1) + [LevelCall(path, k - 1)]
  }

  lemma {:induction false} LevelCallsAt(path: string, k: nat, j: nat)
    requires ID_LEN * k <= |path| && j < k
    ensures LevelCalls(path, k)[j] == LevelCall(path, j)
  {
    if j < k - 1 {
      LevelCallsAt(path, k - 1, j);
    }
  }

  lemma {:induction false} LevelCallsNoData(path: string, k: nat)
    requires ID_LEN * k <= |path|
    ensures forall c :: c in LevelCalls(path, k) ==> !c.PublishData?
  {
    if k > 0 {
      LevelCallsNoData(path, k - 1);
    }
  }

  /** Publishing a path of n levels makes n calls; call j carries level j
      under the levels before it, and only the last one is an information
      item. */
  lemma PublishedLevels(path: string, j: nat)
    requires |path| % ID_LEN == 0 && j < |path| / ID_LEN
    ensures var c := LevelCalls(path, |path| / ID_LEN)[j];
      !c.PublishData? && c.id == path[ID_LEN * j..ID_LEN * j + ID_LEN] && c.prefix == path[..ID_LEN * j]
      && (c.PublishInfo? <==> j == |path| / ID_LEN - 1)
  {
    LevelCallsAt(path, |path| / ID_LEN, j);
  }

  /** insert() of (path, false): an existing flag is kept. */
  function Recorded(published: map<string, bool>, path: string): (r: map<string, bool>)
    ensures path in r && r.Keys == published.Keys + {path}
    ensures path in published ==> r == published
    ensures path !in published ==> !r[path] && forall q :: q in published ==> q in r && r[q] == published[q]
  {
    if path in published then published else published[path := false]
  }

  /** The helper's tables, as one value. */
  datatype NsState = NsState(published: map<string, bool>, buffer: map<string, seq<uint8>>, calls: seq<IcnCall>)

  /** The call for the level at it, and the level calls one level further. */
  lemma NextLevel(path: string, it: nat, id: string, prefix: string)
    requires it % ID_LEN == 0 && it + ID_LEN <= |path|
    requires id == path[it..it + ID_LEN] && prefix == path[..it]
    ensures LevelCall(path, it / ID_LEN) == if it + ID_LEN == |path| then PublishInfo(id, prefix) else PublishScope(id, prefix)
    ensures LevelCalls(path, (it + ID_LEN) / ID_LEN) == LevelCalls(path, it / ID_LEN) + [LevelCall(path, it / ID_LEN)]
    ensures prefix + id == path[..it + ID_LEN] && (it + ID_LEN) % ID_LEN == 0
  {
    assert ID_LEN * (it / ID_LEN) == it;
    assert (it + ID_LEN) / ID_LEN == it / ID_LEN + 1;
  }

  /** _publishScopePath: nothing for a path that is not a whole number of
      levels; otherwise one call per level, then the path is recorded. */
  function PublishScopePathSpec(s: NsState, path: string): (r: NsState)
    ensures |path| % ID_LEN != 0 ==> r == s
    ensures |path| % ID_LEN == 0 ==>
      r.buffer == s.buffer && path in r.published && |r.calls| == |s.calls| + |path| / ID_LEN && r.calls[..|s.calls|] == s.calls
  {
    if |path| % ID_LEN != 0 then s
    else s.(published := Recorded(s.published, path), calls := s.calls + LevelCalls(path, |path| / ID_LEN))
  }

  /** prepareDataToBePublished: an unrecorded path buffers the data and
      publishes its levels; a recorded one without a subscriber buffers and
      advertises its information item (which throws for a path shorter than
      one level); only a recorded path with a subscriber publishes the data. */
  function PrepareSpec(s: NsState, path: string, data: seq<uint8>): (r: (NsState, bool))
    ensures r.0.published.Keys >= s.published.Keys
    ensures (path in s.published && s.published[path]) <==> r.0.calls == s.calls + [PublishData(path, data)]
    ensures path in s.published && s.published[path] ==> r.0.buffer == s.buffer && r.0.published == s.published
    ensures !(path in s.published && s.published[path]) ==> r.0.buffer == s.buffer[path := data]
    ensures r.1 <==> path in s.published && !s.published[path] && |path| < ID_LEN
  {
    if path !in s.published then
      var r := PublishScopePathSpec(s.(buffer := s.buffer[path := data]), path);
      LevelCallsNoData(path, |path| / ID_LEN);
      assert |r.calls| == |s.calls| + 1 ==> r.calls[|s.calls|] == LevelCalls(path, |path| / ID_LEN)[0];
      (r, false)
    else if !s.published[path] then
      var b := s.buffer[path := data];
      if |path| < ID_LEN then (s.(buffer := b), true)
      else
        var c := s.calls + [PublishInfo(path[|path| - ID_LEN..], path[..|path| - ID_LEN])];
        assert c[|s.calls|].PublishInfo?;
        (s.(buffer := b, calls := c), false)
    else (s.(calls := s.calls + [PublishData(path, data)]), false)
  }

  /** What realloc did with a buffered entry's block. */
  datatype Realloc = InPlace | Moved | Failed

  /** A buffered entry as the C++ code leaves it: its bytes, or a pointer
      to a block realloc has freed. */
  datatype Stored = Stored(bytes: seq<uint8>) | Dangling

  /** Each buffered entry as a live block. */
  function Live(b: map<string, seq<uint8>>): (r: map<string, Stored>)
    ensures r.Keys == b.Keys && forall p :: p in b ==> r[p] == Stored(b[p])
  {
    map p | p in b :: Stored(b[p])
  }

  /** _addDataToBuffer as written: a new path gets a fresh block; for a
      buffered one realloc's answer is dropped, so when it moved the block
      the entry keeps the freed pointer and the copy goes to freed memory;
      only a failed realloc is followed by a fresh malloc. */
  function AddDataAsWritten(b: map<string, seq<uint8>>, path: string, data: seq<uint8>, realloc: Realloc)
    : (r: map<string, Stored>)
    ensures r.Keys == b.Keys + {path}
    ensures forall p :: p in b && p != path ==> r[p] == Stored(b[p])
    ensures r[path] == Dangling <==> path in b && realloc == Moved
  {
    Live(b)[path := if path in b && realloc == Moved then Dangling else Stored(data)]
  }

  /** A second datum for a buffered path that makes realloc move the block
      leaves the entry dangling, where it was meant to hold the new data;
      whenever realloc keeps the block in place or fails, the code as
      written stores what the corrected AddDataToBuffer stores. */
  lemma AddDataAsWrittenDangles(b: map<string, seq<uint8>>, path: string, data: seq<uint8>, realloc: Realloc)
    ensures path in b ==> AddDataAsWritten(b, path, data, Moved)[path] == Dangling
    ensures realloc != Moved ==> AddDataAsWritten(b, path, data, realloc) == Live(b[path := data])
  {
    if realloc != Moved {
      var l := AddDataAsWritten(b, path, data, realloc);
      assert forall p :: p in l ==> l[p] == Live(b[path := data])[p];
    }
  }

  class Namespace {
    const root: int
    var nodeId: uint32
    var published: map<string, bool>
    var buffer: map<string, seq<uint8>>
    var calls: seq<IcnCall>

    function St(): NsState
      reads this
    {
      NsState(published, buffer, calls)
    }

    /** Namespace(blackadder); root stands for NAMESPACE_MONITORING. */
    constructor (root: int)
      ensures this.root == root && nodeId == 0
      ensures St() == NsState(map[], map[], [])
    {
      this.root := root;
      nodeId := 0;
      published, buffer, calls := map[], map[], [];
    }

    /** getScopePath(nodeType, infoItem). */
    function OwnScopePath(nodeType: uint8, infoItem: uint16): string
      reads this
    {
      NodeScopePath(root, nodeType, nodeId, infoItem)
    }

    method SetNodeId(n: uint32)
      modifies this`nodeId
      ensures nodeId == n
    {
      nodeId := n;
    }

    predicate PublishedScopePath(path: string)
      reads this
    {
      path in published
    }

    /** subscriberAvailable: false for unrecorded paths. */
    predicate SubscriberAvailable(path: string)
      reads this
    {
      path in published && published[path]
    }

    method AddPublishedScopePath(path: string)
      modifies this`published
      ensures published == Recorded(old(published), path)
    {
      if path !in published {
        published := published[path := false];
      }
    }

    method RemovePublishedScopePath(path: string)
      modifies this`published
      ensures published == old(published) - {path}
    {
      if path in published {
        published := published - {path};
      }
    }

    /** setSubscriberAvailability: a no-op for unrecorded paths. */
    method SetSubscriberAvailability(path: string, state: bool)
      modifies this`published
      ensures path in old(published) ==> published == old(published)[path := state]
      ensures path !in old(published) ==> published == old(published)
    {
      if path !in published {
        return;
      }
      published := published[path := state];
    }

    /** _addDataToBuffer, corrected: one entry per path, a later call
        replaces its data. */
    method AddDataToBuffer(path: string, data: seq<uint8>)
      modifies this`buffer
      ensures buffer == old(buffer)[path := data]
    {
      buffer := buffer[path := data];
    }

    /** getDataFromBuffer: false when nothing is buffered; otherwise the data
        is handed out and the entry erased. */
    method GetDataFromBuffer(path: string) returns (found: bool, data: seq<uint8>)
      modifies this`buffer
      ensures found <==> path in old(buffer)
      ensures found ==> data == old(buffer)[path] && buffer == old(buffer) - {path}
      ensures !found ==> buffer == old(buffer)
    {
      if path !in buffer {
        return false, [];
      }
      data := buffer[path];
      buffer := buffer - {path};
      found := true;
    }

    /** advertiseInformationItem: the last level under the rest. */
    method AdvertiseInformationItem(path: string) returns (threw: bool)
      modifies this`calls
      ensures threw <==> |path| < ID_LEN
      ensures !threw ==> calls == old(calls) + [PublishInfo(path[|path| - ID_LEN..], path[..|path| - ID_LEN])]
      ensures threw ==> calls == old(calls)
    {
      if |path| < ID_LEN {
        return true;
      }
      var id := path[|path| - ID_LEN..];
      var prefix := path[..|path| - ID_LEN];
      calls := calls + [PublishInfo(id, prefix)];
      threw := false;
    }

    /** The character-by-character copy of one level's identifier. */
    method CopyLevel(path: string, it: nat) returns (id: string)
      requires it + ID_LEN <= |path|
      ensures id == path[it..it + ID_LEN]
    {
      id := "";
      var i := it;
      while i < it + ID_LEN
        invariant it <= i <= it + ID_LEN
        invariant id == path[it..i]
      {
        id := id + [path[i]];
        i := i + 1;
      }
    }

    /** One pass of publishScopePath's loop: the level at it is published
        as a scope, or as an information item when it is the last. */
    method PublishLevel(path: string, it: nat, prefix: string) returns (id: string)
      requires it % ID_LEN == 0 && it + ID_LEN <= |path| && prefix == path[..it]
      modifies this`calls
      ensures id == path[it..it + ID_LEN]
      ensures calls == old(calls) + [LevelCall(path, it / ID_LEN)]
    {
      id := CopyLevel(path, it);
      if it + ID_LEN == |path| {
        calls := calls + [PublishInfo(id, prefix)];
      } else {
        calls := calls + [PublishScope(id, prefix)];
      }
      NextLevel(path, it, id, prefix);
    }

    method PublishScopePath(path: string)
      modifies this`calls, this`published
      ensures St() == PublishScopePathSpec(old(St()), path)
    {
      if |path| % ID_LEN != 0 {
        return;
      }
      var it := 0;
      var prefix := "";
      while it < |path|
        invariant it % ID_LEN == 0 && it <= |path|
        invariant prefix == path[..it]
        invariant calls == old(calls) + LevelCalls(path, it / ID_LEN)
        invariant published == old(published)
      {
        var id := PublishLevel(path, it, prefix);
        NextLevel(path, it, id, prefix);
        prefix := prefix + id;
        it := it + ID_LEN;
      }
      assert calls == old(calls) + LevelCalls(path, |path| / ID_LEN);
      AddPublishedScopePath(path);
    }

    method PrepareDataToBePublished(path: string, data: seq<uint8>) returns (threw: bool)
      modifies this`calls, this`published, this`buffer
      ensures (St(), threw) == PrepareSpec(old(St()), path, data)
    {
      if !PublishedScopePath(path) {
        AddDataToBuffer(path, data);
        PublishScopePath(path);
        return false;
      }
      if !SubscriberAvailable(path) {
        AddDataToBuffer(path, data);
        threw := AdvertiseInformationItem(path);
        return;
      }
      calls := calls + [PublishData(path, data)];
      threw := false;
    }
  }
}
