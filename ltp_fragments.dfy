// The NAP's lightweight transport (LTP), data path: an HTTP message is cut
// into numbered fragments whose payload is a multiple of 8 bytes, and the
// receiver puts the buffered fragments back together in sequence order.

module LtpFragments {
  import opened Bytes

  /** One LTP data packet as far as the model follows it: the sequence
      number and payload length of its header, and the bytes it carries
      (the payload and, in the last fragment, the padding behind it). The
      header's byte layout depends on enum sizes from a header that is not
      part of this model. */
  datatype DataFragment = DataFragment(sequenceNumber: uint16, payloadLength: uint16, payload: seq<uint8>)

  /** The bytes a fragment of r payload bytes is padded with. */
  function Pad(r: nat): (p: nat)
    ensures p < 8 && (r + p) % 8 == 0
  {
    if r % 8 == 0 then 0 else 8 - r % 8
  }

  /** The message bytes and, behind them, the bytes the last fragment's
      padding is taken from. */
  predicate Source(data: seq<uint8>, dataSize: nat, padding: seq<uint8>)
  {
    dataSize <= |data| && Pad(dataSize) <= |padding|
  }

  /** The padding _publishData is meant to send: zeros. */
  const ZeroPadding: seq<uint8> := seq(7, i => 0)

  /** The state _publishData's loop is in before a fragment: mtu is a
      positive multiple of 8, sent bytes have gone out in seqNo fragments
      of at least 8 bytes each, and sent is a multiple of 8. */
  predicate Pending(dataSize: nat, mtu: nat, sent: nat, seqNo: nat)
  {
    8 <= mtu && mtu % 8 == 0 && dataSize < 0x1_0000 &&
    sent % 8 == 0 && 8 * seqNo <= sent <= dataSize
  }

  /** A full fragment keeps the loop in a pending state. */
  lemma PendingNext(dataSize: nat, mtu: nat, sent: nat, seqNo: nat)
    requires Pending(dataSize, mtu, sent, seqNo) && dataSize - sent > mtu
    ensures Pending(dataSize, mtu, sent + mtu, seqNo + 1)
  {
  }

  /** The last fragment is padded as the whole message is, and its
      sequence number fits 16 bits. */
  lemma PendingLast(dataSize: nat, mtu: nat, sent: nat, seqNo: nat)
    requires Pending(dataSize, mtu, sent, seqNo) && sent < dataSize
    ensures Pad(dataSize - sent) == Pad(dataSize)
    ensures seqNo + 1 < 0x1_0000
  {
    assert (dataSize - sent) % 8 == dataSize % 8;
  }

  /** The fragments _publishData sends for data[sent..dataSize] once
      seqNo fragments have gone: full fragments of mtu bytes while more
      than mtu bytes remain, then one fragment with the remainder as its
      payload length, its bytes made up to the next multiple of 8 from
      padding. */
  function Fragments(data: seq<uint8>, dataSize: nat, padding: seq<uint8>, mtu: nat, sent: nat, seqNo: nat): (r: seq<DataFragment>)
    requires Pending(dataSize, mtu, sent, seqNo) && Source(data, dataSize, padding)
    ensures |r| == 0 <==> sent == dataSize
    ensures |r| > 0 ==> r[0].sequenceNumber as int == seqNo + 1
    decreases dataSize - sent
  {
    if sent == dataSize then []
    else
      PendingLast(dataSize, mtu, sent, seqNo);
      if dataSize - sent > mtu then
        PendingNext(dataSize, mtu, sent, seqNo);
        [DataFragment(seqNo + 1, mtu, data[sent..sent + mtu])] + Fragments(data, dataSize, padding, mtu, sent + mtu, seqNo + 1)
      else
        [DataFragment(seqNo + 1, dataSize - sent, data[sent..dataSize] + padding[..Pad(dataSize - sent)])]
  }

  /** One full fragment, then the rest. */
  lemma FragmentsFull(data: seq<uint8>, dataSize: nat, padding: seq<uint8>, mtu: nat, sent: nat, seqNo: nat)
    requires Pending(dataSize, mtu, sent, seqNo) && Source(data, dataSize, padding) && dataSize - sent > mtu
    ensures Pending(dataSize, mtu, sent + mtu, seqNo + 1) && seqNo + 1 < 0x1_0000
    ensures Fragments(data, dataSize, padding, mtu, sent, seqNo) ==
            [DataFragment(seqNo + 1, mtu, data[sent..sent + mtu])] + Fragments(data, dataSize, padding, mtu, sent + mtu, seqNo + 1)
  {
    PendingLast(dataSize, mtu, sent, seqNo);
  }

  /** The last fragment: the remainder, padded. */
  lemma FragmentsLast(data: seq<uint8>, dataSize: nat, padding: seq<uint8>, mtu: nat, sent: nat, seqNo: nat)
    requires Pending(dataSize, mtu, sent, seqNo) && Source(data, dataSize, padding) && 0 < dataSize - sent <= mtu
    ensures seqNo + 1 < 0x1_0000 && Pad(dataSize - sent) == Pad(dataSize)
    ensures Fragments(data, dataSize, padding, mtu, sent, seqNo) ==
            [DataFragment(seqNo + 1, dataSize - sent, data[sent..dataSize] + padding[..Pad(dataSize - sent)])]
  {
    PendingLast(dataSize, mtu, sent, seqNo);
  }

  /** The payloads of a list of fragments, padding dropped, in list order. */
  function Payloads(fs: seq<DataFragment>): seq<uint8>
  {
    if fs == [] then []
    else Clip(fs[0]) + Payloads(fs[1..])
  }

  /** A fragment's payload without its padding. */
  function Clip(f: DataFragment): seq<uint8>
  {
    if f.payloadLength <= |f.payload| then f.payload[..f.payloadLength] else f.payload
  }

  /** The payload capacity of one fragment: the configured room rounded
      down to a multiple of 8. */
  function Capacity(room: nat): (mtu: nat)
    ensures mtu % 8 == 0 && mtu <= room && room - mtu < 8
  {
    room - room % 8
  }

  /** How far one pass of _publishData's loop moves sentBytes, as
      written: mtu bytes when more remain, otherwise the rest. */
  function StepAsWritten(dataSize: nat, mtu: nat, sent: nat): (next: nat)
    requires sent < dataSize
    ensures next > sent <==> mtu > 0
    ensures next <= dataSize
  {
    if dataSize - sent > mtu then sent + mtu else dataSize
  }

  /** With less than 8 bytes of room the capacity is 0, a pass sends an
      empty fragment without moving on and the loop never ends; with 8 or
      more every pass makes progress. */
  lemma StepAsWrittenStalls(dataSize: nat, room: nat, sent: nat)
    requires sent < dataSize
    ensures room < 8 ==> StepAsWritten(dataSize, Capacity(room), sent) == sent
    ensures room >= 8 ==> StepAsWritten(dataSize, Capacity(room), sent) > sent
    ensures StepAsWritten(1, Capacity(7), 0) == 0
  {
  }

  /** The last fragment of a 5-byte message in 8-byte fragments carries
      three bytes read from behind the message, where zeros are meant. */
  lemma PaddingAsWrittenReadsBeyond(data: seq<uint8>, beyond: seq<uint8>)
    requires |data| == 5 && |beyond| == 7
    ensures Fragments(data, 5, beyond, 8, 0, 0) == [DataFragment(1, 5, data + beyond[..3])]
    ensures Fragments(data, 5, ZeroPadding, 8, 0, 0) == [DataFragment(1, 5, data + [0, 0, 0])]
  {
    assert data[0..5] == data;
    assert ZeroPadding[..3] == [0, 0, 0];
  }

  /** _publishData's loop, corrected: number the fragments from 1, send
      mtu bytes while more remain, then the remainder padded with zeros;
      the last sequence number is returned. With no room for 8 bytes it
      sends nothing and reports that it is stalled, where the C++ loop
      spins forever. */
  method PublishData(data: seq<uint8>, dataSize: uint16, room: uint32)
    returns (stalled: bool, frames: seq<DataFragment>, last: uint16)
    requires dataSize as int <= |data|
    ensures stalled <==> dataSize > 0 && Capacity(room) == 0
    ensures stalled || dataSize == 0 ==> frames == [] && last == 0
    ensures !stalled && dataSize > 0 ==> frames == Fragments(data, dataSize, ZeroPadding, Capacity(room), 0, 0)
    ensures last as int == |frames|
  {
    var mtu: nat := room - room % 8;
    if mtu == 0 && dataSize > 0 {
      return true, [], 0;
    }
    stalled := false;
    frames := [];
    if dataSize == 0 {
      last := 0;
      return;
    }
    ghost var padding := ZeroPadding;
    ghost var all := Fragments(data, dataSize, padding, mtu, 0, 0);
    var sequenceNumber: nat := 0;
    var sentBytes: nat := 0;
    while sentBytes < dataSize
      invariant sentBytes <= dataSize && sequenceNumber < 0x1_0000
      invariant sentBytes < dataSize ==> Pending(dataSize, mtu, sentBytes, sequenceNumber)
      invariant sequenceNumber == |frames|
      invariant sentBytes < dataSize ==>
                  frames + Fragments(data, dataSize, padding, mtu, sentBytes, sequenceNumber) == all
      invariant sentBytes == dataSize ==> frames == all
      decreases dataSize - sentBytes
    {
      PendingLast(dataSize, mtu, sentBytes, sequenceNumber);
      var frame, next := NextFragment(data, dataSize, mtu, sentBytes, sequenceNumber);
      AppendStep(data, dataSize, mtu, sentBytes, sequenceNumber, frames, all, frame, next);
      sequenceNumber := sequenceNumber + 1;
      frames := frames + [frame];
      sentBytes := next;
    }
    last := sequenceNumber;
  }

  /** One pass of _publishData's loop: mtu bytes while more remain,
      otherwise the remainder padded with zeros to a multiple of 8. */
  method NextFragment(data: seq<uint8>, dataSize: nat, mtu: nat, sentBytes: nat, sequenceNumber: nat)
    returns (frame: DataFragment, next: nat)
    requires sentBytes < dataSize <= |data| && dataSize < 0x1_0000 && sequenceNumber + 1 < 0x1_0000
    ensures dataSize - sentBytes > mtu ==>
              frame == DataFragment(sequenceNumber + 1, mtu, data[sentBytes..sentBytes + mtu]) && next == sentBytes + mtu
    ensures dataSize - sentBytes <= mtu ==>
              frame == DataFragment(sequenceNumber + 1, dataSize - sentBytes,
                                    data[sentBytes..dataSize] + ZeroPadding[..Pad(dataSize - sentBytes)]) &&
              next == dataSize
  {
    var fragmentSize: nat;
    var payloadLength: nat;
    var pad: nat := 0;
    var bytes: seq<uint8>;
    if dataSize - sentBytes > mtu {
      fragmentSize := mtu;
      payloadLength := fragmentSize;
      bytes := data[sentBytes..sentBytes + fragmentSize];
    } else {
      fragmentSize := dataSize - sentBytes;
      payloadLength := fragmentSize;
      pad := fragmentSize % 8;
      if pad != 0 {
        pad := 8 - fragmentSize % 8;
        fragmentSize := fragmentSize + pad;
      }
      bytes := data[sentBytes..dataSize] + ZeroPadding[..pad];
    }
    frame := DataFragment(sequenceNumber + 1, payloadLength, bytes);
    next := sentBytes + (fragmentSize - pad);
  }

  /** The fragment one pass of the loop sends keeps its invariant. */
  lemma AppendStep(data: seq<uint8>, dataSize: nat, mtu: nat, sent: nat, seqNo: nat,
                   before: seq<DataFragment>, all: seq<DataFragment>, frame: DataFragment, next: nat)
    requires Pending(dataSize, mtu, sent, seqNo) && Source(data, dataSize, ZeroPadding) && sent < dataSize
    requires before + Fragments(data, dataSize, ZeroPadding, mtu, sent, seqNo) == all
    requires dataSize - sent > mtu ==>
               frame == DataFragment(seqNo + 1, mtu, data[sent..sent + mtu]) && next == sent + mtu
    requires dataSize - sent <= mtu ==>
               frame == DataFragment(seqNo + 1, dataSize - sent, data[sent..dataSize] + ZeroPadding[..Pad(dataSize - sent)]) &&
               next == dataSize
    ensures sent < next <= dataSize && seqNo + 1 < 0x1_0000
    ensures next < dataSize ==> Pending(dataSize, mtu, next, seqNo + 1)
    ensures next < dataSize ==> (before + [frame]) + Fragments(data, dataSize, ZeroPadding, mtu, next, seqNo + 1) == all
    ensures next == dataSize ==> before + [frame] == all
  {
    if dataSize - sent > mtu {
      AppendFull(data, dataSize, ZeroPadding, mtu, sent, seqNo, before, all);
    } else {
      AppendLast(data, dataSize, ZeroPadding, mtu, sent, seqNo, before, all);
    }
  }

  /** A full fragment sent by the loop keeps its invariant. */
  lemma AppendFull(data: seq<uint8>, dataSize: nat, padding: seq<uint8>, mtu: nat, sent: nat, seqNo: nat,
                   before: seq<DataFragment>, all: seq<DataFragment>)
    requires Pending(dataSize, mtu, sent, seqNo) && Source(data, dataSize, padding) && dataSize - sent > mtu
    requires before + Fragments(data, dataSize, padding, mtu, sent, seqNo) == all
    ensures Pending(dataSize, mtu, sent + mtu, seqNo + 1) && seqNo + 1 < 0x1_0000
    ensures before + [DataFragment(seqNo + 1, mtu, data[sent..sent + mtu])]
            + Fragments(data, dataSize, padding, mtu, sent + mtu, seqNo + 1) == all
  {
    FragmentsFull(data, dataSize, padding, mtu, sent, seqNo);
    var f := DataFragment(seqNo + 1, mtu, data[sent..sent + mtu]);
    var rest := Fragments(data, dataSize, padding, mtu, sent + mtu, seqNo + 1);
    assert before + [f] + rest == before + ([f] + rest);
  }

  /** The last fragment sent by the loop completes the list. */
  lemma AppendLast(data: seq<uint8>, dataSize: nat, padding: seq<uint8>, mtu: nat, sent: nat, seqNo: nat,
                   before: seq<DataFragment>, all: seq<DataFragment>)
    requires Pending(dataSize, mtu, sent, seqNo) && Source(data, dataSize, padding) && 0 < dataSize - sent <= mtu
    requires before + Fragments(data, dataSize, padding, mtu, sent, seqNo) == all
    ensures seqNo + 1 < 0x1_0000
    ensures before + [DataFragment(seqNo + 1, dataSize - sent, data[sent..dataSize] + padding[..Pad(dataSize - sent)])] == all
  {
    FragmentsLast(data, dataSize, padding, mtu, sent, seqNo);
  }

  /** The fragments are numbered seqNo + 1, seqNo + 2, ... in order. */
  lemma {:induction false} FragmentsNumbered(data: seq<uint8>, dataSize: nat, padding: seq<uint8>, mtu: nat, sent: nat, seqNo: nat)
    requires Pending(dataSize, mtu, sent, seqNo) && Source(data, dataSize, padding)
    ensures var fs := Fragments(data, dataSize, padding, mtu, sent, seqNo);
      forall i :: 0 <= i < |fs| ==> fs[i].sequenceNumber == seqNo + i + 1
    decreases dataSize - sent
  {
    if sent == dataSize {
    } else if dataSize - sent > mtu {
      FragmentsFull(data, dataSize, padding, mtu, sent, seqNo);
      FragmentsNumbered(data, dataSize, padding, mtu, sent + mtu, seqNo + 1);
    } else {
      FragmentsLast(data, dataSize, padding, mtu, sent, seqNo);
    }
  }

  /** Every fragment but the last carries exactly mtu bytes; the last one
      carries what is left, which is at most mtu bytes, and its bytes are
      padded to a multiple of 8 with fewer than 8 bytes of padding. There
      is a fragment to go exactly while bytes remain unsent. */
  lemma {:induction false} FragmentsSized(data: seq<uint8>, dataSize: nat, padding: seq<uint8>, mtu: nat, sent: nat, seqNo: nat)
    requires Pending(dataSize, mtu, sent, seqNo) && Source(data, dataSize, padding)
    ensures var fs := Fragments(data, dataSize, padding, mtu, sent, seqNo);
      (|fs| == 0 <==> sent == dataSize) &&
      (forall i :: 0 <= i < |fs| - 1 ==> fs[i].payloadLength == mtu && |fs[i].payload| == mtu) &&
      (|fs| > 0 ==>
         var l := fs[|fs| - 1];
         1 <= l.payloadLength <= mtu && |l.payload| % 8 == 0 &&
         l.payloadLength <= |l.payload| < l.payloadLength + 8)
    decreases dataSize - sent
  {
    if sent == dataSize {
    } else if dataSize - sent > mtu {
      FragmentsFull(data, dataSize, padding, mtu, sent, seqNo);
      FragmentsSized(data, dataSize, padding, mtu, sent + mtu, seqNo + 1);
      var f := DataFragment(seqNo + 1, mtu, data[sent..sent + mtu]);
      var rest := Fragments(data, dataSize, padding, mtu, sent + mtu, seqNo + 1);
      var fs := [f] + rest;
      assert fs[|fs| - 1] == rest[|rest| - 1];
      forall i | 0 <= i < |fs| - 1 ensures fs[i].payloadLength == mtu && |fs[i].payload| == mtu {
        if i > 0 {
          assert fs[i] == rest[i - 1];
        }
      }
    } else {
      FragmentsLast(data, dataSize, padding, mtu, sent, seqNo);
    }
  }

  /** There are at most (dataSize - sent) / 8 + 1 fragments to go. */
  lemma {:induction false} FragmentCount(data: seq<uint8>, dataSize: nat, padding: seq<uint8>, mtu: nat, sent: nat, seqNo: nat)
    requires Pending(dataSize, mtu, sent, seqNo) && Source(data, dataSize, padding)
    ensures 8 * (|Fragments(data, dataSize, padding, mtu, sent, seqNo)| - 1) <= dataSize - sent
    decreases dataSize - sent
  {
    if sent == dataSize {
    } else if dataSize - sent > mtu {
      FragmentsFull(data, dataSize, padding, mtu, sent, seqNo);
      FragmentCount(data, dataSize, padding, mtu, sent + mtu, seqNo + 1);
    } else {
      FragmentsLast(data, dataSize, padding, mtu, sent, seqNo);
    }
  }

  /** The payloads, padding dropped, put back together in sequence order
      are exactly the message. */
  lemma {:induction false} FragmentsRoundTrip(data: seq<uint8>, dataSize: nat, padding: seq<uint8>, mtu: nat, sent: nat, seqNo: nat)
    requires Pending(dataSize, mtu, sent, seqNo) && Source(data, dataSize, padding)
    ensures Payloads(Fragments(data, dataSize, padding, mtu, sent, seqNo)) == data[sent..dataSize]
    decreases dataSize - sent
  {
    if sent == dataSize {
    } else if dataSize - sent > mtu {
      PendingNext(dataSize, mtu, sent, seqNo);
      FragmentsRoundTrip(data, dataSize, padding, mtu, sent + mtu, seqNo + 1);
      RoundTripFull(data, dataSize, padding, mtu, sent, seqNo);
    } else {
      RoundTripLast(data, dataSize, padding, mtu, sent, seqNo);
    }
  }

  /** A full fragment contributes its mtu bytes ahead of the rest. */
  lemma RoundTripFull(data: seq<uint8>, dataSize: nat, padding: seq<uint8>, mtu: nat, sent: nat, seqNo: nat)
    requires Pending(dataSize, mtu, sent, seqNo) && Source(data, dataSize, padding) && dataSize - sent > mtu
    requires Pending(dataSize, mtu, sent + mtu, seqNo + 1)
    requires Payloads(Fragments(data, dataSize, padding, mtu, sent + mtu, seqNo + 1)) == data[sent + mtu..dataSize]
    ensures Payloads(Fragments(data, dataSize, padding, mtu, sent, seqNo)) == data[sent..dataSize]
  {
    FragmentsFull(data, dataSize, padding, mtu, sent, seqNo);
    var head := data[sent..sent + mtu];
    var rest := Fragments(data, dataSize, padding, mtu, sent + mtu, seqNo + 1);
    PayloadsCons(DataFragment(seqNo + 1, mtu, head), rest);
    assert Clip(DataFragment(seqNo + 1, mtu, head)) == head;
    assert data[sent..dataSize] == head + data[sent + mtu..dataSize];
  }

  /** The last fragment contributes the remaining bytes without padding. */
  lemma RoundTripLast(data: seq<uint8>, dataSize: nat, padding: seq<uint8>, mtu: nat, sent: nat, seqNo: nat)
    requires Pending(dataSize, mtu, sent, seqNo) && Source(data, dataSize, padding) && 0 < dataSize - sent <= mtu
    ensures Payloads(Fragments(data, dataSize, padding, mtu, sent, seqNo)) == data[sent..dataSize]
  {
    FragmentsLast(data, dataSize, padding, mtu, sent, seqNo);
    var f := DataFragment(seqNo + 1, dataSize - sent, data[sent..dataSize] + padding[..Pad(dataSize - sent)]);
    PayloadsCons(f, []);
    assert Clip(f) == data[sent..dataSize];
    assert [f] + [] == [f];
  }

  lemma PayloadsCons(f: DataFragment, rest: seq<DataFragment>)
    ensures Payloads([f] + rest) == Clip(f) + Payloads(rest)
  {
    assert ([f] + rest)[1..] == rest;
  }

  /** The receiver's view of a session: sequence number to payload. */
  type Reassembly = map<uint16, seq<uint8>>

  /** retrievePacket's concatenation: the buffered payloads of the
      sequence numbers below n, in ascending order (how a std::map is
      iterated). */
  function Upto(m: Reassembly, n: nat): seq<uint8>
    requires n <= 0x1_0000
  {
    if n == 0 then []
    else Upto(m, n - 1) + (if (n - 1) as uint16 in m then m[(n - 1) as uint16] else [])
  }

  /** The whole buffered packet. */
  function Reassembled(m: Reassembly): seq<uint8>
  {
    Upto(m, 0x1_0000)
  }

  /** The receiving buffer once the fragments have arrived in list order:
      each fragment's payload, padding dropped, under its sequence number;
      a sequence number already buffered is ignored, as _bufferProxyPacket
      ignores it. */
  function Received(fs: seq<DataFragment>): Reassembly
  {
    if fs == [] then map[]
    else
      var m := Received(fs[..|fs| - 1]);
      var f := fs[|fs| - 1];
      if f.sequenceNumber in m then m else m[f.sequenceNumber := Clip(f)]
  }

  /** Fragments numbered 1, 2, ... are each found under their number. */
  lemma {:induction false} ReceivedNumbered(fs: seq<DataFragment>)
    requires forall i :: 0 <= i < |fs| ==> fs[i].sequenceNumber == i + 1
    ensures forall k :: k in Received(fs) <==> 1 <= k <= |fs|
    ensures forall i :: 0 <= i < |fs| ==> Received(fs)[fs[i].sequenceNumber] == Clip(fs[i])
  {
    if fs != [] {
      var init := fs[..|fs| - 1];
      ReceivedNumbered(init);
      assert forall i :: 0 <= i < |init| ==> init[i] == fs[i];
    }
  }

  /** Below the first missing number, Upto collects the payloads in order. */
  lemma {:induction false} UptoNumbered(fs: seq<DataFragment>, n: nat)
    requires |fs| < 0x1_0000 && n <= |fs|
    requires forall i :: 0 <= i < |fs| ==> fs[i].sequenceNumber == i + 1
    ensures Upto(Received(fs), n + 1) == Payloads(fs[..n])
  {
    var m := Received(fs);
    ReceivedNumbered(fs);
    if n == 0 {
      assert 0 as uint16 !in m;
    } else {
      UptoNumbered(fs, n - 1);
      var k := n as uint16;
      assert fs[n - 1].sequenceNumber == k;
      assert m[k] == Clip(fs[n - 1]);
      PayloadsSnoc(fs[..n - 1], fs[n - 1]);
      assert fs[..n] == fs[..n - 1] + [fs[n - 1]];
    }
  }

  /** Above the last number nothing more is collected. */
  lemma {:induction false} UptoBeyond(fs: seq<DataFragment>, n: nat)
    requires |fs| + 1 <= n <= 0x1_0000
    requires forall i :: 0 <= i < |fs| ==> fs[i].sequenceNumber == i + 1
    ensures Upto(Received(fs), n) == Upto(Received(fs), |fs| + 1)
  {
    ReceivedNumbered(fs);
    if n > |fs| + 1 {
      UptoBeyond(fs, n - 1);
      assert (n - 1) as uint16 !in Received(fs);
    }
  }

  lemma {:induction false} PayloadsSnoc(fs: seq<DataFragment>, f: DataFragment)
    ensures Payloads(fs + [f]) == Payloads(fs) + Clip(f)
    decreases |fs|
  {
    if fs == [] {
      assert [f][1..] == [];
    } else {
      assert (fs + [f])[1..] == fs[1..] + [f];
      PayloadsSnoc(fs[1..], f);
    }
  }

  /** Fragmenting a message, buffering every fragment under its sequence
      number and retrieving the packet gives back the message. */
  lemma PublishRetrieveRoundTrip(data: seq<uint8>, dataSize: nat, padding: seq<uint8>, room: nat)
    requires room >= 8 && dataSize < 0x1_0000 && Source(data, dataSize, padding)
    ensures Reassembled(Received(Fragments(data, dataSize, padding, Capacity(room), 0, 0))) == data[..dataSize]
  {
    var fs := Fragments(data, dataSize, padding, Capacity(room), 0, 0);
    FragmentsNumbered(data, dataSize, padding, Capacity(room), 0, 0);
    FragmentsSized(data, dataSize, padding, Capacity(room), 0, 0);
    FragmentCount(data, dataSize, padding, Capacity(room), 0, 0);
    UptoBeyond(fs, 0x1_0000);
    UptoNumbered(fs, |fs|);
    assert fs[..|fs|] == fs;
    FragmentsRoundTrip(data, dataSize, padding, Capacity(room), 0, 0);
  }
}
