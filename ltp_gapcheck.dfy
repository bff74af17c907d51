// The LTP receiver's answer to a CTRL-WE (window ended) message: walk the
// sequence numbers buffered for the session in ascending order, find the
// range of missing fragments, and ask for it again with a NACK, or confirm
// the window with a CTRL-WED when nothing is missing.

module LtpGapCheck {
  import opened Bytes

  /** The walk's variables: allFragmentsReceived, firstMissingSequence,
      lastMissingSequence and previousSequence. */
  datatype GapState = GapState(all: bool, first: uint16, last: uint16, prev: uint16)

  const Start := GapState(true, 0, 0, 0)

  /** The sequence numbers below n that s holds, in ascending order: how the
      keys of a std::map<uint16_t, ...> are visited. */
  function Below(s: set<uint16>, n: nat): (keys: seq<uint16>)
    requires n <= 0x1_0000
    ensures forall i :: 0 <= i < |keys| ==> keys[i] < n
  {
    if n == 0 then []
    else Below(s, n - 1) + (if (n - 1) as uint16 in s then [(n - 1) as uint16] else [])
  }

  predicate Ascending(keys: seq<uint16>)
  {
    forall i, j :: 0 <= i < j < |keys| ==> keys[i] < keys[j]
  }

  /** All of a set's sequence numbers in ascending order, each once: the
      list is empty exactly when the set is. */
  function SortedKeys(s: set<uint16>): (keys: seq<uint16>)
    ensures Ascending(keys)
    ensures forall k: uint16 :: k in keys <==> k in s
    ensures |keys| > 0 <==> |s| > 0
  {
    BelowExact(s, 0x1_0000);
    SortedKeysEmpty(s, Below(s, 0x1_0000));
    Below(s, 0x1_0000)
  }

  lemma SortedKeysEmpty(s: set<uint16>, keys: seq<uint16>)
    requires forall k: uint16 :: k in keys <==> k in s
    ensures |keys| > 0 <==> |s| > 0
  {
    if |s| > 0 {
      var k :| k in s;
      assert k in keys;
    }
    if |keys| > 0 {
      assert keys[0] in s;
    }
  }

  /** Below lists exactly the members of s under n, in ascending order. */
  lemma {:induction false} BelowExact(s: set<uint16>, n: nat)
    requires n <= 0x1_0000
    ensures Ascending(Below(s, n))
    ensures forall k: uint16 :: k in Below(s, n) <==> k in s && k < n
  {
    if n > 0 {
      BelowExact(s, n - 1);
    }
  }

  /** The source's loop body, as written: a first key other than 1 marks
      fragment 1, and only fragment 1, as missing; a later gap extends the
      range to the key before it. */
  function StepAsWritten(g: GapState, k: uint16): (r: GapState)
    ensures r.prev == k
    ensures g.prev == 0 && k != 1 ==> !r.all && r.first == 1 && r.last == 1
    ensures g.prev != 0 || k == 1 ==> r == Step(g, k)
  {
    if g.prev == 0 && k != 1 then GapState(false, 1, 1, k)
    else if g.prev as int + 1 < k as int then
      GapState(false, if g.first == 0 then g.prev + 1 else g.first, k - 1, k)
    else g.(prev := k)
  }

  /** The loop body without the first-key branch: a gap, the one before
      the first key included, marks every number in it as missing. */
  function Step(g: GapState, k: uint16): (r: GapState)
    ensures r.prev == k
    ensures r.all ==> g.all && k as int <= g.prev as int + 1
    ensures g.first != 0 ==> r.first == g.first
    ensures g.prev as int + 1 < k as int ==> !r.all && r.last as int == k as int - 1
  {
    if g.prev as int + 1 < k as int then
      GapState(false, if g.first == 0 then g.prev + 1 else g.first, k - 1, k)
    else g.(prev := k)
  }

  function ScanAsWritten(keys: seq<uint16>): (r: GapState)
    ensures keys != [] ==> r.prev == keys[|keys| - 1]
    ensures (r.all <==> r.first == 0) && (r.all ==> r.last == 0)
  {
    if keys == [] then Start else StepAsWritten(ScanAsWritten(keys[..|keys| - 1]), keys[|keys| - 1])
  }

  function Scan(keys: seq<uint16>): (r: GapState)
    ensures keys != [] ==> r.prev == keys[|keys| - 1]
    ensures (r.all <==> r.first == 0) && (r.all ==> r.last == 0)
  {
    if keys == [] then Start else Step(Scan(keys[..|keys| - 1]), keys[|keys| - 1])
  }

  /** After the walk, as written: when the highest buffered number is
      below the one the CTRL-WE announced, the range is extended up to it,
      and starts at the announced number when nothing was missing before. */
  function FinishAsWritten(g: GapState, maxKey: uint16, we: uint16): (r: GapState)
    ensures we <= maxKey ==> r == g
    ensures maxKey < we ==> !r.all && r.last == we && r.prev == g.prev
    ensures maxKey < we && g.first == 0 ==> r.first == we
    ensures g.first != 0 ==> r.first == g.first
  {
    if maxKey < we then GapState(false, if g.first == 0 then we else g.first, we, g.prev)
    else g
  }

  /** After the walk, corrected: the range starts after the highest
      buffered number when nothing was missing before. */
  function Finish(g: GapState, maxKey: uint16, we: uint16): (r: GapState)
    ensures we <= maxKey ==> r == g
    ensures maxKey < we ==> !r.all && r.last == we && r.prev == g.prev
    ensures maxKey < we && g.first == 0 ==> r.first as int == maxKey as int + 1
    ensures g.first != 0 ==> r.first == g.first
  {
    if maxKey < we then GapState(false, if g.first == 0 then maxKey + 1 else g.first, we, g.prev)
    else g
  }

  function WindowAsWritten(keys: seq<uint16>, we: uint16): (r: GapState)
    requires |keys| > 0
    ensures r.all <==> r.first == 0
    ensures keys[|keys| - 1] < we ==> !r.all && r.last == we
  {
    FinishAsWritten(ScanAsWritten(keys), keys[|keys| - 1], we)
  }

  function Window(keys: seq<uint16>, we: uint16): (r: GapState)
    requires |keys| > 0
    ensures r.all <==> r.first == 0
    ensures keys[|keys| - 1] < we ==> !r.all && r.last == we
  {
    Finish(Scan(keys), keys[|keys| - 1], we)
  }

  /** The highest number the window must cover. */
  function Top(keys: seq<uint16>, we: uint16): nat
    requires |keys| > 0
  {
    if keys[|keys| - 1] < we then we else keys[|keys| - 1]
  }

  /** m is a fragment the receiver has not buffered although the window
      reaches it. */
  predicate Missing(keys: seq<uint16>, top: int, m: int)
  {
    1 <= m <= top && m !in keys
  }

  /** What the walk knows after a prefix of the keys. */
  ghost predicate Summary(g: GapState, keys: seq<uint16>, p: int)
  {
    g.prev as int == p &&
    (g.all <==> g.first == 0) &&
    (g.all ==> g.last == 0 && forall m :: !Missing(keys, p, m)) &&
    (!g.all ==>
       1 <= g.first <= g.last < p &&
       Missing(keys, p, g.first as int) && Missing(keys, p, g.last as int) &&
       forall m :: Missing(keys, p, m) ==> g.first <= m <= g.last)
  }

  /** One key further: the number after the previous key up to the one
      before the new key become missing, nothing else changes. */
  lemma StepSummary(g: GapState, init: seq<uint16>, p: int, k: uint16)
    requires Summary(g, init, p) && 0 <= p < k
    requires forall x :: x in init ==> x as int <= p
    ensures Summary(Step(g, k), init + [k], k as int)
  {
    var keys := init + [k];
    var h := Step(g, k);
    forall m | p < m < k as int ensures Missing(keys, k, m) {
      assert m !in init;
    }
    forall m | Missing(keys, k, m) && m <= p ensures Missing(init, p, m) {
      assert m in keys <== m in init;
    }
    forall m | Missing(init, p, m) ensures Missing(keys, k, m) {
    }
    if p + 1 < k as int {
      forall m | Missing(keys, k, m) ensures h.first as int <= m <= h.last as int {
        if m <= p {
          assert Missing(init, p, m);
        }
      }
    }
  }

  /** The keys a prefix holds stay at or below its last key. */
  lemma AscendingBound(keys: seq<uint16>)
    requires |keys| > 0 && Ascending(keys)
    ensures forall x :: x in keys ==> x <= keys[|keys| - 1]
  {
    forall x | x in keys ensures x <= keys[|keys| - 1] {
      var i :| 0 <= i < |keys| && keys[i] == x;
    }
  }

  lemma {:induction false} ScanSummary(keys: seq<uint16>)
    requires Ascending(keys) && (|keys| > 0 ==> keys[0] >= 1)
    ensures Summary(Scan(keys), keys, if keys == [] then 0 else keys[|keys| - 1] as int)
  {
    if keys != [] {
      var init := keys[..|keys| - 1];
      var k := keys[|keys| - 1];
      var p := if init == [] then 0 else init[|init| - 1] as int;
      assert Ascending(init);
      ScanSummary(init);
      assert keys == init + [k];
      if init != [] {
        AscendingBound(init);
        assert init[|init| - 1] == keys[|keys| - 2];
      }
      StepSummary(Scan(init), init, p, k);
    }
  }

  /** Past the last key: the numbers after it up to the announced one are
      missing as well. */
  lemma FinishSummary(g: GapState, keys: seq<uint16>, maxKey: int, we: uint16)
    requires Summary(g, keys, maxKey) && 0 <= maxKey < we as int
    requires forall x :: x in keys ==> x as int <= maxKey
    ensures var h := Finish(g, maxKey as uint16, we);
      !h.all && 1 <= h.first <= h.last == we &&
      Missing(keys, we as int, h.first as int) && Missing(keys, we as int, h.last as int) &&
      forall m :: Missing(keys, we, m) ==> h.first <= m <= h.last
  {
    var h := Finish(g, maxKey as uint16, we);
    forall m | Missing(keys, we, m) ensures h.first as int <= m <= h.last as int {
      if m <= maxKey {
        assert Missing(keys, maxKey, m);
      }
    }
  }

  /** On an ascending list of buffered numbers that does not hold 0, the
      answer is right: everything arrived exactly when no number from 1 to
      the top is missing, and otherwise the NACK range runs from the lowest
      missing number to the highest, so that it asks for every fragment
      that is missing. */
  lemma WindowComplete(keys: seq<uint16>, we: uint16)
    requires |keys| > 0 && Ascending(keys) && keys[0] >= 1
    ensures var g := Window(keys, we); var top := Top(keys, we);
      (g.all <==> forall m :: !Missing(keys, top, m)) &&
      (Missing(keys, top, 1) ==> g.first == 1) &&
      (!g.all ==>
         1 <= g.first <= g.last <= top &&
         Missing(keys, top, g.first as int) && Missing(keys, top, g.last as int) &&
         forall m :: Missing(keys, top, m) ==> g.first <= m <= g.last)
  {
    ScanSummary(keys);
    var maxKey := keys[|keys| - 1];
    assert maxKey in keys;
    if maxKey < we {
      AscendingBound(keys);
      FinishSummary(Scan(keys), keys, maxKey as int, we);
      assert Top(keys, we) == we as int;
      assert Missing(keys, we, we as int);
    }
  }

  /** When fragment 1 arrived and at most the announced fragment is
      missing after the highest buffered one, the source's walk and the
      corrected one agree. */
  lemma {:induction false} ScanAsWrittenFromOne(keys: seq<uint16>)
    requires |keys| > 0 && Ascending(keys) && keys[0] == 1
    ensures ScanAsWritten(keys) == Scan(keys) && Scan(keys).prev >= 1
  {
    if |keys| > 1 {
      var init := keys[..|keys| - 1];
      ScanAsWrittenFromOne(init);
      assert init[0] == keys[0];
    }
  }

  lemma WindowAsWrittenFromOne(keys: seq<uint16>, we: uint16)
    requires |keys| > 0 && Ascending(keys) && keys[0] == 1 && we as int <= keys[|keys| - 1] as int + 1
    ensures WindowAsWritten(keys, we) == Window(keys, we)
  {
    ScanAsWrittenFromOne(keys);
  }

  /** Fragments 1 and 2 lost, fragment 3 received and announced as the last
      one: the source asks for fragment 1 only, so fragment 2 is never sent
      again; the corrected walk asks for 1 to 2. */
  lemma WindowAsWrittenLosesFragment()
    ensures Missing([3], 3, 2)
    ensures WindowAsWritten([3], 3) == GapState(false, 1, 1, 3)
    ensures Window([3], 3) == GapState(false, 1, 2, 3)
  {
    assert [3][..0] == [];
  }

  /** Fragment 1 received, fragments 2 and 3 lost, fragment 3 announced:
      the source asks for fragment 3 only; the corrected walk asks for 2
      to 3. */
  lemma WindowAsWrittenLosesTail()
    ensures Missing([1], 3, 2)
    ensures WindowAsWritten([1], 3) == GapState(false, 3, 3, 1)
    ensures Window([1], 3) == GapState(false, 2, 3, 1)
  {
    assert [1][..0] == [];
  }

  /** The CTRL-WE handler's walk over the session's buffered numbers,
      corrected: the range of fragments to ask for again, or that all
      arrived. */
  method CheckWindow(keys: seq<uint16>, we: uint16) returns (all: bool, first: uint16, last: uint16)
    requires |keys| > 0
    ensures (all, first, last) == (Window(keys, we).all, Window(keys, we).first, Window(keys, we).last)
  {
    all := true;
    first := 0;
    last := 0;
    var previous: uint16 := 0;
    var i := 0;
    while i < |keys|
      invariant 0 <= i <= |keys|
      invariant GapState(all, first, last, previous) == Scan(keys[..i])
    {
      var k := keys[i];
      if previous as int + 1 < k as int {
        if first == 0 {
          first := previous + 1;
        }
        last := k - 1;
        all := false;
      }
      previous := k;
      assert keys[..i + 1][..i] == keys[..i];
      i := i + 1;
    }
    assert keys[..i] == keys;
    if keys[|keys| - 1] < we {
      if first == 0 {
        first := keys[|keys| - 1] + 1;
      }
      last := we;
      all := false;
    }
  }
}
