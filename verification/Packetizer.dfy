/** Cutting an encoded frame into fragments, and putting fragments back together. */
module Packetizer {
  import opened Wrappers
  import opened Wire
  import opened Protocol

  const MAX_UINT16: nat := 0xFFFF

  /** The fragment count as computed, which is not the size divided by the limit and rounded up. */
  function FragCnt(size: nat, limit: nat): (c: nat)
    ensures c > 0
  {
    size / (limit + 1) + 1
  }

  /** What is left for the last fragment after all others took the limit. */
  function LastSize(size: nat, limit: nat): nat {
    size / (limit + 1) + size % (limit + 1)
  }

  lemma CutPoints(size: nat, limit: nat)
    ensures (FragCnt(size, limit) - 1) * limit + LastSize(size, limit) == size
    ensures size > 0 ==> LastSize(size, limit) >= 1
  {
    var q, r := size / (limit + 1), size % (limit + 1);
    assert size == q * (limit + 1) + r == q * limit + q + r;
  }

  lemma CutOrder(limit: nat, i: nat, j: nat)
    requires i <= j
    ensures i * limit <= j * limit
    ensures (i + 1) * limit == i * limit + limit
  {
  }

  function FragmentAt(bytes: seq<byte>, limit: nat, i: nat): (p: seq<byte>)
    requires i < FragCnt(|bytes|, limit)
    ensures |p| == if i < FragCnt(|bytes|, limit) - 1 then limit else LastSize(|bytes|, limit)
  {
    var last := FragCnt(|bytes|, limit) - 1;
    CutPoints(|bytes|, limit);
    CutOrder(limit, i, last);
    if i < last then
      CutOrder(limit, i + 1, last);
      bytes[i * limit..(i + 1) * limit]
    else
      bytes[last * limit..]
  }

  /** Where fragment i starts; the end of the frame when there is no such fragment. */
  ghost function Cut(size: nat, limit: nat, i: nat): nat {
    if i < FragCnt(size, limit) then i * limit else size
  }

  /** Consecutive cuts delimit the fragments. */
  lemma CutStep(bytes: seq<byte>, limit: nat, i: nat)
    requires i < FragCnt(|bytes|, limit)
    ensures var from, to := Cut(|bytes|, limit, i), Cut(|bytes|, limit, i + 1);
            && from <= to <= |bytes|
            && to - from == (if i < FragCnt(|bytes|, limit) - 1 then limit else |bytes| - from)
            && FragmentAt(bytes, limit, i) == bytes[from..to]
  {
    CutPoints(|bytes|, limit);
    CutOrder(limit, i, FragCnt(|bytes|, limit) - 1);
    if i < FragCnt(|bytes|, limit) - 1 {
      CutOrder(limit, i + 1, FragCnt(|bytes|, limit) - 1);
    }
  }

  function Fragments(bytes: seq<byte>, limit: nat): (ps: seq<seq<byte>>)
    ensures |ps| == FragCnt(|bytes|, limit) == |bytes| / (limit + 1) + 1
    ensures forall i :: 0 <= i < |ps| ==> ps[i] == FragmentAt(bytes, limit, i)
  {
    seq(FragCnt(|bytes|, limit), i requires 0 <= i < FragCnt(|bytes|, limit) => FragmentAt(bytes, limit, i))
  }

  function Concat(ps: seq<seq<byte>>): (b: seq<byte>)
  {
    if ps == [] then [] else Concat(ps[..|ps| - 1]) + ps[|ps| - 1]
  }

  lemma {:induction false} PrefixConcat(bytes: seq<byte>, limit: nat, i: nat)
    requires i < FragCnt(|bytes|, limit)
    ensures 0 <= i * limit <= |bytes|
    ensures Concat(Fragments(bytes, limit)[..i]) == bytes[..i * limit]
  {
    var ps := Fragments(bytes, limit);
    CutPoints(|bytes|, limit);
    CutOrder(limit, i, |ps| - 1);
    if i > 0 {
      PrefixConcat(bytes, limit, i - 1);
      CutOrder(limit, i - 1, i);
      assert ps[..i][..i - 1] == ps[..i - 1];
      assert bytes[..i * limit] == bytes[..(i - 1) * limit] + bytes[(i - 1) * limit..i * limit];
    }
  }

  /** Putting the fragments of any frame together gives the frame back, for every limit. */
  lemma ReassembleFragments(bytes: seq<byte>, limit: nat)
    ensures Concat(Fragments(bytes, limit)) == bytes
  {
    var ps := Fragments(bytes, limit);
    var last := |ps| - 1;
    PrefixConcat(bytes, limit, last);
    assert ps[..last + 1] == ps;
    assert bytes == bytes[..last * limit] + bytes[last * limit..];
  }

  ghost predicate AllFit(ps: seq<seq<byte>>, limit: nat) {
    forall i :: 0 <= i < |ps| ==> |ps[i]| <= limit
  }

  /** No fragment of a frame is empty when the limit is positive, and the last one never is. */
  lemma FragmentSizes(bytes: seq<byte>, limit: nat)
    requires bytes != []
    ensures var ps := Fragments(bytes, limit);
            && (forall i :: 0 <= i < |ps| - 1 ==> |ps[i]| == limit)
            && |ps| == |bytes| / (limit + 1) + 1
            && |ps[|ps| - 1]| == LastSize(|bytes|, limit) == |bytes| / (limit + 1) + |bytes| % (limit + 1) >= 1
  {
    CutPoints(|bytes|, limit);
  }

  /** The size law: fragments respect the limit just when the count leaves room for all bytes. */
  lemma FitCondition(bytes: seq<byte>, limit: nat)
    ensures AllFit(Fragments(bytes, limit), limit) <==> |bytes| <= FragCnt(|bytes|, limit) * limit
  {
    var ps := Fragments(bytes, limit);
    var c := |ps|;
    CutPoints(|bytes|, limit);
    CutOrder(limit, c - 1, c);
    assert |bytes| <= c * limit <==> LastSize(|bytes|, limit) <= limit;
    assert |ps[c - 1]| == LastSize(|bytes|, limit);
  }

  lemma SmallSizes(size: nat, limit: nat)
    requires size <= 2 * limit + 1
    ensures FragCnt(size, limit) == if size <= limit then 1 else 2
  {
    var q, n := size / (limit + 1), limit + 1;
    assert size == q * n + size % n;
    assert q < 2 by {
      if q >= 2 {
        CutOrder(n, 2, q);
      }
    }
  }

  /** Frames of at most twice the limit always fit; one byte more never does. */
  lemma FitThreshold(bytes: seq<byte>, limit: nat)
    ensures |bytes| <= 2 * limit ==> AllFit(Fragments(bytes, limit), limit)
    ensures |bytes| == 2 * limit + 1 ==>
              |Fragments(bytes, limit)| == 2 && |Fragments(bytes, limit)[1]| == limit + 1
  {
    if |bytes| <= 2 * limit + 1 {
      SmallSizes(|bytes|, limit);
      CutPoints(|bytes|, limit);
      FitCondition(bytes, limit);
    }
  }

  ghost function PayloadsOf(ds: seq<Datagram>): seq<seq<byte>> {
    seq(|ds|, i requires 0 <= i < |ds| => ds[i].payload)
  }

  /** All datagrams of a frame, numbered in order, or the exception raised when the count needs more
      than 16 bits. */
  function Packets(frameId: uint32, frameType: uint8, bytes: seq<byte>, limit: nat): (r: Result<seq<Datagram>>)
    ensures r.Throw? ==> r.error == PrecisionLost
    ensures r.Ok? <==> |bytes| / (limit + 1) + 1 <= 65535
    ensures r.Ok? ==> |r.value| == FragCnt(|bytes|, limit) == |bytes| / (limit + 1) + 1
    ensures r.Ok? ==> forall i :: 0 <= i < |r.value| ==>
              var d := r.value[i];
              && d.Num() == SeqNum(frameId, i) && d.fragCnt == |r.value| && d.frameType == frameType
              && d.payload == FragmentAt(bytes, limit, i)
              && d.sendTs == d.lastSendTs == 0 && d.numRtx == 0
  {
    var c := FragCnt(|bytes|, limit);
    if c > MAX_UINT16 then Throw(PrecisionLost)
    else
      Ok(seq(c, i requires 0 <= i < c =>
               Datagram(frameId, frameType, i, c, 0, FragmentAt(bytes, limit, i), 0, 0)))
  }

  /** Each datagram carries what lies between two consecutive cuts. */
  lemma PacketStep(frameId: uint32, frameType: uint8, bytes: seq<byte>, limit: nat, i: nat)
    requires Packets(frameId, frameType, bytes, limit).Ok? && i < FragCnt(|bytes|, limit)
    ensures var from, to := Cut(|bytes|, limit, i), Cut(|bytes|, limit, i + 1);
            && from <= to <= |bytes|
            && to - from == (if i < FragCnt(|bytes|, limit) - 1 then limit else |bytes| - from)
            && Packets(frameId, frameType, bytes, limit).value[i] ==
               Datagram(frameId, frameType, i, FragCnt(|bytes|, limit), 0, bytes[from..to], 0, 0)
  {
    CutStep(bytes, limit, i);
  }

  /** The datagrams of a frame carry exactly its bytes. */
  lemma PacketsCarryFrame(frameId: uint32, frameType: uint8, bytes: seq<byte>, limit: nat)
    requires Packets(frameId, frameType, bytes, limit).Ok?
    ensures Concat(PayloadsOf(Packets(frameId, frameType, bytes, limit).value)) == bytes
  {
    ReassembleFragments(bytes, limit);
    assert PayloadsOf(Packets(frameId, frameType, bytes, limit).value) == Fragments(bytes, limit);
  }

  /** Whether every packet of a frame stays within the MTU, decided from the frame size alone. */
  lemma FrameFitsMtu(mtu: nat, frameId: uint32, frameType: uint8, bytes: seq<byte>)
    requires PayloadLimit(mtu).Ok?
    requires Packets(frameId, frameType, bytes, PayloadLimit(mtu).value).Ok?
    ensures var limit := PayloadLimit(mtu).value;
            var ds := Packets(frameId, frameType, bytes, limit).value;
            (forall i :: 0 <= i < |ds| ==> IP_UDP_HEADERS + |SerializeDatagram(ds[i])| <= mtu) <==>
            |bytes| <= FragCnt(|bytes|, limit) * limit
  {
    var limit := PayloadLimit(mtu).value;
    var ds := Packets(frameId, frameType, bytes, limit).value;
    var ps := Fragments(bytes, limit);
    FitCondition(bytes, limit);
    forall i | 0 <= i < |ds|
      ensures IP_UDP_HEADERS + |SerializeDatagram(ds[i])| <= mtu <==> |ps[i]| <= limit
    {
      PacketFitsMtu(mtu, ds[i]);
    }
  }

  /** The documented maximum payload is exceeded at the default MTU: 2911 bytes are cut in two, and
      the second packet is one byte too long. */
  lemma OverlongPacket(frameId: uint32, frameType: uint8, bytes: seq<byte>)
    requires |bytes| == 2911
    ensures PayloadLimit(1500) == Ok(1455)
    ensures var ds := Packets(frameId, frameType, bytes, 1455);
            ds.Ok? && |ds.value| == 2 && IP_UDP_HEADERS + |SerializeDatagram(ds.value[1])| == 1501
  {
    FitThreshold(bytes, 1455);
  }

  // ---------- copying a complete frame into the decoding buffer ----------

  const MAX_DECODING_BUF: nat := 1_000_000

  function TotalSize(ps: seq<seq<byte>>): nat {
    |Concat(ps)|
  }

  lemma {:induction false} PrefixSize(ps: seq<seq<byte>>, i: nat)
    requires i <= |ps|
    ensures TotalSize(ps[..i]) <= TotalSize(ps)
    decreases |ps|
  {
    if i < |ps| {
      PrefixSize(ps[..|ps| - 1], i);
      assert ps[..|ps| - 1][..i] == ps[..i];
    } else {
      assert ps[..i] == ps;
    }
  }

  /** Copies payloads one after another; the bounds test refuses to fill the last byte. */
  method CopyPayloads(ps: seq<seq<byte>>, decodeBuf: array<byte>) returns (r: Result<nat>)
    requires decodeBuf.Length == MAX_DECODING_BUF
    modifies decodeBuf
    ensures r.Throw? <==> ps != [] && |Concat(ps)| >= 1_000_000
    ensures r.Throw? ==> r.error == DecodeBufferFull
    ensures r.Ok? ==> r.value <= decodeBuf.Length && decodeBuf[..r.value] == Concat(ps)
  {
    var bufPtr := 0;
    for i := 0 to |ps|
      invariant bufPtr == TotalSize(ps[..i])
      invariant i > 0 ==> bufPtr < MAX_DECODING_BUF
      invariant bufPtr <= MAX_DECODING_BUF
      invariant decodeBuf[..bufPtr] == Concat(ps[..i])
    {
      assert ps[..i + 1][..i] == ps[..i];
      PrefixSize(ps, i + 1);
      if bufPtr + |ps[i]| >= decodeBuf.Length {
        return Throw(DecodeBufferFull);
      }
      forall k | 0 <= k < |ps[i]| {
        decodeBuf[bufPtr + k] := ps[i][k];
      }
      assert decodeBuf[..bufPtr + |ps[i]|] == decodeBuf[..bufPtr] + ps[i];
      bufPtr := bufPtr + |ps[i]|;
    }
    assert ps[..|ps|] == ps;
    r := Ok(bufPtr);
  }
}
