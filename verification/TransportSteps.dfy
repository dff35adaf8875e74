/** Each kind of step keeps each part of the invariant. */
module TransportSteps {
  import opened Wrappers
  import opened Wire
  import opened Protocol
  import opened Packetizer
  import opened Decoding
  import opened Confluence
  import opened Rtt
  import opened Encoding
  import opened Transport

  // ---------- sets of numbers ----------

  lemma FreshConcat(ds: seq<Datagram>, es: seq<Datagram>)
    ensures FreshNums(ds + es) == FreshNums(ds) + FreshNums(es)
  {
    forall n | n in FreshNums(ds) + FreshNums(es)
      ensures n in FreshNums(ds + es)
    {
      var d :| (d in ds || d in es) && d.numRtx == 0 && d.Num() == n;
      assert d in ds + es;
    }
  }

  lemma FreshCons(d: Datagram, ds: seq<Datagram>)
    ensures FreshNums([d] + ds) == (if d.numRtx == 0 then {d.Num()} else {}) + FreshNums(ds)
  {
    FreshConcat([d], ds);
    assert d in [d];
  }

  lemma NoneFresh(ds: seq<Datagram>)
    requires forall i :: 0 <= i < |ds| ==> ds[i].numRtx > 0
    ensures FreshNums(ds) == {}
  {
  }

  lemma AllFresh(ds: seq<Datagram>)
    requires forall i :: 0 <= i < |ds| ==> ds[i].numRtx == 0
    ensures FreshNums(ds) == Nums(ds)
  {
  }

  lemma FreshMember(ds: seq<Datagram>, n: SeqNum) returns (i: nat)
    requires n in FreshNums(ds)
    ensures i < |ds| && ds[i].numRtx == 0 && ds[i].Num() == n
  {
    var d :| d in ds && d.numRtx == 0 && d.Num() == n;
    i :| 0 <= i < |ds| && ds[i] == d;
  }

  // ---------- a growing catalog ----------

  lemma AgreesGrows(cat: Catalog, info: FrameInfo, d: Datagram)
    requires Agrees(cat, d)
    ensures Agrees(cat + [info], d)
  {
  }

  lemma KeyAfterGrows(cat: Catalog, info: FrameInfo, f: nat)
    requires KeyAfter(cat, f)
    ensures KeyAfter(cat + [info], f)
  {
    var k: nat :| f < k && KeyIn(cat, k);
    assert KeyIn(cat + [info], k);
  }

  lemma CompleteGrows(cat: Catalog, info: FrameInfo, got: set<SeqNum>, f: nat)
    requires 0 < |info.payloads| && forall n :: n in got ==> IsCreated(cat, n)
    ensures CompleteIn(cat + [info], got, f) <==> CompleteIn(cat, got, f)
  {
    if f == |cat| {
      assert !IsCreated(cat, SeqNum(f, 0));
      assert (cat + [info])[f] == info;
    }
  }

  lemma {:induction false} ChainSurvives(cat: Catalog, info: FrameInfo, got: set<SeqNum>, n: nat)
    requires 0 < |info.payloads| && forall m :: m in got ==> IsCreated(cat, m)
    requires Chain(cat, got, n)
    ensures Chain(cat + [info], got, n)
  {
    if n > 0 {
      CompleteGrows(cat, info, got, n - 1);
      if Chain(cat, got, n - 1) {
        ChainSurvives(cat, info, got, n - 1);
      }
    }
  }

  lemma FrontierSurvives(cat: Catalog, info: FrameInfo, got: set<SeqNum>)
    requires 0 < |info.payloads| && forall n :: n in got ==> IsCreated(cat, n)
    ensures Frontier(cat + [info], got) == Frontier(cat, got)
  {
    var n := Frontier(cat, got);
    SettledIsFrontier(cat, got, n);
    ChainSurvives(cat, info, got, n);
    CompleteGrows(cat, info, got, n);
    forall k: nat | KeyIn(cat + [info], k) && CompleteIn(cat + [info], got, k)
      ensures k < n
    {
      CompleteGrows(cat, info, got, k);
    }
    SettledIsFrontier(cat + [info], got, n);
  }

  /** Producing another frame, of which nothing was received yet, changes nothing at the receiver. */
  lemma ReceiverSurvives(cat: Catalog, info: FrameInfo, got: set<SeqNum>, rx: DecoderState)
    requires 0 < |info.payloads| && forall n :: n in got ==> IsCreated(cat, n)
    requires ReceiverInv(cat, got, rx)
    ensures ReceiverInv(cat + [info], got, rx)
  {
    ChainSurvives(cat, info, got, rx.next);
    FrontierSurvives(cat, info, got);
    forall f: nat | f in rx.buf
      ensures FrameMatches(cat + [info], got, f, rx.buf[f])
    {
      assert FrameMatches(cat, got, f, rx.buf[f]);
    }
    forall i | 0 <= i < |rx.queue|
      ensures DispatchOk(cat + [info], rx.queue, i)
    {
      assert DispatchOk(cat, rx.queue, i);
    }
  }

  // ---------- producing a frame ----------

  ghost function NewFrame(isKey: bool, bytes: seq<byte>, limit: nat): FrameInfo {
    FrameInfo(TypeOf(isKey), bytes, Fragments(bytes, limit))
  }

  lemma PacketsAgree(cat: Catalog, isKey: bool, bytes: seq<byte>, limit: nat)
    requires CatalogOk(cat) && |cat| < 0xFFFF_FFFF
    requires Packets(|cat|, TypeOf(isKey), bytes, limit).Ok?
    ensures var more := cat + [NewFrame(isKey, bytes, limit)];
            var ds := Packets(|cat|, TypeOf(isKey), bytes, limit).value;
            && CatalogOk(more) && AllAgree(more, ds)
            && |ds| == |Fragments(bytes, limit)|
            && forall i :: 0 <= i < |ds| ==> ds[i].numRtx == 0 && ds[i].Num() == SeqNum(|cat|, i)
  {
    ReassembleFragments(bytes, limit);
  }

  lemma TickKeepsCatalog(s: System, now: uint64, bytes: seq<byte>, isKey: bool, limit: nat)
    requires CatalogInv(s) && Enabled(s, Tick(now, bytes, isKey)) && AfterTick(s, now, bytes, isKey, limit).Ok?
    ensures CatalogInv(AfterTick(s, now, bytes, isKey, limit).value)
  {
    var t := AfterTick(s, now, bytes, isKey, limit).value;
    var info := NewFrame(isKey, bytes, limit);
    PacketsAgree(s.produced, isKey, bytes, limit);
    forall d | Agrees(s.produced, d)
      ensures Agrees(t.produced, d)
    {
      AgreesGrows(s.produced, info, d);
    }
  }

  lemma QueueAppend(ns: seq<SeqNum>, buf: seq<Datagram>, ds: seq<Datagram>, frameId: nat)
    requires FreshLast(buf) && SentBefore(ns, buf)
    requires forall i :: 0 <= i < |buf| ==> buf[i].frameId < frameId
    requires forall i :: 0 <= i < |ns| ==> ns[i].frameId < frameId
    requires forall i :: 0 <= i < |ds| ==> ds[i].numRtx == 0 && ds[i].Num() == SeqNum(frameId, i)
    ensures FreshLast(buf + ds) && SentBefore(ns, buf + ds)
  {
  }

  lemma TickKeepsOrder(s: System, now: uint64, bytes: seq<byte>, isKey: bool, limit: nat)
    requires CatalogInv(s) && OrderInv(s) && Enabled(s, Tick(now, bytes, isKey))
    requires AfterTick(s, now, bytes, isKey, limit).Ok?
    ensures OrderInv(AfterTick(s, now, bytes, isKey, limit).value)
  {
    var buf := Prepared(s.tx, now).sendBuf;
    PacketsAgree(s.produced, isKey, bytes, limit);
    forall i | 0 <= i < |buf|
      ensures buf[i].frameId < s.tx.frameId
    {
      assert Agrees(s.produced, s.tx.sendBuf[i]);
    }
    QueueAppend(s.firstSends, buf, Packets(s.tx.frameId, TypeOf(isKey), bytes, limit).value, s.tx.frameId);
  }

  lemma PacketNums(cat: Catalog, isKey: bool, bytes: seq<byte>, limit: nat)
    requires CatalogOk(cat) && |cat| < 0xFFFF_FFFF
    requires Packets(|cat|, TypeOf(isKey), bytes, limit).Ok?
    ensures var more := cat + [NewFrame(isKey, bytes, limit)];
            var ds := Packets(|cat|, TypeOf(isKey), bytes, limit).value;
            && FreshNums(ds) == Nums(ds)
            && (forall n :: IsCreated(more, n) <==> IsCreated(cat, n) || n in Nums(ds))
            && (forall n :: n in Nums(ds) ==> n.frameId == |cat|)
  {
    var more := cat + [NewFrame(isKey, bytes, limit)];
    var ds := Packets(|cat|, TypeOf(isKey), bytes, limit).value;
    PacketsAgree(cat, isKey, bytes, limit);
    AllFresh(ds);
    forall n
      ensures IsCreated(more, n) <==> IsCreated(cat, n) || n in Nums(ds)
    {
      if n.frameId == |cat| && n.fragId < |ds| {
        NumsAt(ds, n.fragId);
      }
      if n in Nums(ds) {
        var i := NumsMember(ds, n);
      }
    }
  }

  lemma PartitionGrows(cat: Catalog, more: Catalog, added: set<SeqNum>,
                       a: set<SeqNum>, b: set<SeqNum>, c: set<SeqNum>, d: set<SeqNum>)
    requires Partition(cat, a, b, c, d)
    requires forall n :: IsCreated(more, n) <==> IsCreated(cat, n) || n in added
    requires forall n :: n in added ==> !IsCreated(cat, n)
    ensures Partition(more, a + added, b, c, d)
    ensures Partition(more, added, {}, c, d + a + b)
  {
  }

  lemma TickKeepsConservation(s: System, now: uint64, bytes: seq<byte>, isKey: bool, limit: nat)
    requires CatalogInv(s) && ConservationInv(s) && Enabled(s, Tick(now, bytes, isKey))
    requires AfterTick(s, now, bytes, isKey, limit).Ok?
    ensures ConservationInv(AfterTick(s, now, bytes, isKey, limit).value)
  {
    var ds := Packets(s.tx.frameId, TypeOf(isKey), bytes, limit).value;
    PacketNums(s.produced, isKey, bytes, limit);
    FreshConcat(s.tx.sendBuf, ds);
    PartitionGrows(s.produced, s.produced + [NewFrame(isKey, bytes, limit)], Nums(ds),
                   FreshNums(s.tx.sendBuf), Nums(s.tx.unacked), s.acked, s.abandoned);
    assert [] + ds == ds;
    assert Nums([]) == {};
  }

  lemma TickKeepsLoss(s: System, now: uint64, bytes: seq<byte>, isKey: bool, limit: nat)
    requires CatalogInv(s) && ConservationInv(s) && LossInv(s) && Enabled(s, Tick(now, bytes, isKey))
    requires AfterTick(s, now, bytes, isKey, limit).Ok?
    ensures LossInv(AfterTick(s, now, bytes, isKey, limit).value)
  {
    var t := AfterTick(s, now, bytes, isKey, limit).value;
    var info := NewFrame(isKey, bytes, limit);
    forall n | n in t.abandoned
      ensures KeyAfter(t.produced, n.frameId)
    {
      if n in s.abandoned {
        KeyAfterGrows(s.produced, info, n.frameId);
      } else {
        assert IsCreated(s.produced, n) && KeyIn(t.produced, |s.produced|);
      }
    }
  }

  lemma TickKeepsRtx(s: System, now: uint64, bytes: seq<byte>, isKey: bool, limit: nat)
    requires RtxInv(s) && AfterTick(s, now, bytes, isKey, limit).Ok?
    ensures RtxInv(AfterTick(s, now, bytes, isKey, limit).value)
  {
  }

  lemma TickKeepsInv(s: System, now: uint64, bytes: seq<byte>, isKey: bool, limit: nat)
    requires Inv(s) && Enabled(s, Tick(now, bytes, isKey)) && AfterTick(s, now, bytes, isKey, limit).Ok?
    ensures Inv(AfterTick(s, now, bytes, isKey, limit).value)
  {
    TickKeepsCatalog(s, now, bytes, isKey, limit);
    TickKeepsOrder(s, now, bytes, isKey, limit);
    TickKeepsConservation(s, now, bytes, isKey, limit);
    TickKeepsLoss(s, now, bytes, isKey, limit);
    TickKeepsRtx(s, now, bytes, isKey, limit);
    ReceiverSurvives(s.produced, NewFrame(isKey, bytes, limit), s.got, s.rx);
  }

  // ---------- sending ----------

  /** A first transmission goes behind all entries of the map, so it never meets its own number. */
  lemma StoredAtEnd(ds: seq<Datagram>, d: Datagram)
    requires forall i :: 0 <= i < |ds| ==> Less(ds[i].Num(), d.Num())
    ensures Stored(ds, d) == Ok(ds + [d.(lastSendTs := d.sendTs)])
  {
    assert Place(ds, d.Num()) == |ds|;
    var stored := d.(lastSendTs := d.sendTs);
    assert ds[..|ds|] + [stored] + ds[|ds|..] == ds + [stored];
  }

  lemma FirstSend(s: System, now: uint64)
    requires OrderInv(s) && s.tx.sendBuf != [] && s.tx.sendBuf[0].numRtx == 0
    ensures AfterSend(s, now, true).Ok?
    ensures var d := s.tx.sendBuf[0].(sendTs := now, lastSendTs := now);
            AfterSend(s, now, true).value ==
            s.(clock := now,
               tx := s.tx.(sendBuf := s.tx.sendBuf[1..], unacked := s.tx.unacked + [d]),
               net := s.net + {d.(lastSendTs := 0)},
               firstSends := s.firstSends + [d.Num()])
  {
    var d := s.tx.sendBuf[0].(sendTs := now);
    forall i | 0 <= i < |s.tx.unacked|
      ensures Less(s.tx.unacked[i].Num(), d.Num())
    {
      var n := s.tx.unacked[i].Num();
      assert n in s.firstSends;
      var j :| 0 <= j < |s.firstSends| && s.firstSends[j] == n;
    }
    StoredAtEnd(s.tx.unacked, d);
  }

  /** Sending one more for the first time: everything tracked was sent, and lies below what is sent now. */
  lemma TrackedAreSent(unacked: seq<Datagram>, ns: seq<SeqNum>, d: Datagram)
    requires forall i :: 0 <= i < |unacked| ==> unacked[i].Num() in ns
    requires forall j :: 0 <= j < |ns| ==> Less(ns[j], d.Num())
    requires Ordered(unacked)
    ensures forall i :: 0 <= i < |unacked + [d]| ==> (unacked + [d])[i].Num() in ns + [d.Num()]
    ensures Ordered(unacked + [d])
  {
    forall i | 0 <= i < |unacked|
      ensures unacked[i].Num() in ns + [d.Num()] && Less(unacked[i].Num(), d.Num())
    {
      var n := unacked[i].Num();
      assert n in ns;
      var j :| 0 <= j < |ns| && ns[j] == n;
      assert (ns + [d.Num()])[j] == n;
    }
    assert (ns + [d.Num()])[|ns|] == d.Num();
  }

  lemma FirstSendKeepsOrder(s: System, now: uint64)
    requires CatalogInv(s) && OrderInv(s) && s.tx.sendBuf != [] && s.tx.sendBuf[0].numRtx == 0
    ensures AfterSend(s, now, true).Ok? && OrderInv(AfterSend(s, now, true).value)
  {
    FirstSend(s, now);
    assert Agrees(s.produced, s.tx.sendBuf[0]);
    TrackedAreSent(s.tx.unacked, s.firstSends, s.tx.sendBuf[0].(sendTs := now, lastSendTs := now));
  }

  lemma FirstSendKeepsTime(s: System, now: uint64)
    requires OrderInv(s) && TimeInv(s) && now >= s.clock && s.tx.sendBuf != [] && s.tx.sendBuf[0].numRtx == 0
    ensures AfterSend(s, now, true).Ok? && TimeInv(AfterSend(s, now, true).value)
  {
    FirstSend(s, now);
  }

  lemma PartitionMoves(cat: Catalog, n: SeqNum, a: set<SeqNum>, b: set<SeqNum>, c: set<SeqNum>, d: set<SeqNum>)
    requires Partition(cat, a, b, c, d)
    ensures n in a ==> Partition(cat, a - {n}, b + {n}, c, d)
    ensures n in b ==> Partition(cat, a, b - {n}, c + {n}, d)
  {
  }

  lemma FreshTail(buf: seq<Datagram>)
    requires FreshLast(buf) && buf != [] && buf[0].numRtx == 0
    ensures FreshNums(buf[1..]) == FreshNums(buf) - {buf[0].Num()} && buf[0].Num() in FreshNums(buf)
  {
    assert buf == [buf[0]] + buf[1..];
    FreshCons(buf[0], buf[1..]);
    forall n | n in FreshNums(buf[1..])
      ensures n != buf[0].Num()
    {
      var i := FreshMember(buf[1..], n);
      assert Less(buf[0].Num(), buf[i + 1].Num());
    }
  }

  lemma FirstSendKeepsConservation(s: System, now: uint64)
    requires OrderInv(s) && ConservationInv(s) && s.tx.sendBuf != [] && s.tx.sendBuf[0].numRtx == 0
    ensures AfterSend(s, now, true).Ok? && ConservationInv(AfterSend(s, now, true).value)
  {
    FirstSend(s, now);
    var stored := s.tx.sendBuf[0].(sendTs := now, lastSendTs := now);
    FreshTail(s.tx.sendBuf);
    NumsConcat(s.tx.unacked, [stored]);
    NumsOne(stored);
    PartitionMoves(s.produced, stored.Num(), FreshNums(s.tx.sendBuf), Nums(s.tx.unacked), s.acked, s.abandoned);
  }

  lemma {:induction false} CountPositive(log: seq<RtxEvent>, j: nat)
    requires j < |log|
    ensures Count(log, log[j].num) > 0
  {
    if j < |log| - 1 {
      CountPositive(log[..|log| - 1], j);
    }
  }

  lemma FirstSendKeepsRtx(s: System, now: uint64)
    requires ConservationInv(s) && OrderInv(s) && RtxInv(s)
    requires s.tx.sendBuf != [] && s.tx.sendBuf[0].numRtx == 0
    ensures AfterSend(s, now, true).Ok? && RtxInv(AfterSend(s, now, true).value)
  {
    FirstSend(s, now);
    var d := s.tx.sendBuf[0];
    NumsConcat(s.tx.unacked, [d.(sendTs := now, lastSendTs := now)]);
    FreshTail(s.tx.sendBuf);
    assert Count(s.rtxLog, d.Num()) == 0;
    forall j | 0 <= j < |s.rtxLog|
      ensures s.rtxLog[j].num != d.Num()
    {
      CountPositive(s.rtxLog, j);
    }
  }

  lemma FirstSendKeepsCatalog(s: System, now: uint64)
    requires CatalogInv(s) && OrderInv(s) && s.tx.sendBuf != [] && s.tx.sendBuf[0].numRtx == 0
    ensures AfterSend(s, now, true).Ok? && CatalogInv(AfterSend(s, now, true).value)
  {
    FirstSend(s, now);
    assert Agrees(s.produced, s.tx.sendBuf[0]);
  }

  lemma FirstSendKeepsInv(s: System, now: uint64)
    requires Inv(s) && now >= s.clock && s.tx.sendBuf != [] && s.tx.sendBuf[0].numRtx == 0
    ensures AfterSend(s, now, true).Ok? && Inv(AfterSend(s, now, true).value)
  {
    FirstSend(s, now);
    FirstSendKeepsCatalog(s, now);
    FirstSendKeepsOrder(s, now);
    FirstSendKeepsTime(s, now);
    FirstSendKeepsConservation(s, now);
    FirstSendKeepsRtx(s, now);
  }

  /** Popping a retransmission, or touching the timestamp of a datagram the socket did not take. */
  lemma OtherSend(s: System, now: uint64, sent: bool)
    requires s.tx.sendBuf != [] && (!sent || s.tx.sendBuf[0].numRtx > 0)
    ensures AfterSend(s, now, sent).Ok?
    ensures var d := s.tx.sendBuf[0];
            var rest := if sent then s.tx.sendBuf[1..] else [d.(sendTs := 0)] + s.tx.sendBuf[1..];
            && AfterSend(s, now, sent).value ==
               s.(clock := now, tx := s.tx.(sendBuf := rest),
                  net := if sent then s.net + {d.(sendTs := now, numRtx := 0, lastSendTs := 0)} else s.net)
            && FreshNums(rest) == FreshNums(s.tx.sendBuf)
  {
    var d := s.tx.sendBuf[0];
    assert s.tx.sendBuf == [d] + s.tx.sendBuf[1..];
    FreshCons(d, s.tx.sendBuf[1..]);
    FreshCons(d.(sendTs := 0), s.tx.sendBuf[1..]);
  }

  lemma QueueTail(cat: Catalog, ns: seq<SeqNum>, buf: seq<Datagram>)
    requires AllAgree(cat, buf) && FreshLast(buf) && SentBefore(ns, buf) && buf != []
    ensures AllAgree(cat, buf[1..]) && FreshLast(buf[1..]) && SentBefore(ns, buf[1..])
  {
  }

  lemma QueueTouched(cat: Catalog, ns: seq<SeqNum>, buf: seq<Datagram>)
    requires AllAgree(cat, buf) && FreshLast(buf) && SentBefore(ns, buf) && buf != []
    ensures var rest := [buf[0].(sendTs := 0)] + buf[1..];
            AllAgree(cat, rest) && FreshLast(rest) && SentBefore(ns, rest)
  {
    var rest := [buf[0].(sendTs := 0)] + buf[1..];
    assert forall i :: 0 <= i < |buf| ==> rest[i].Num() == buf[i].Num() && rest[i].numRtx == buf[i].numRtx;
  }

  lemma OtherSendKeepsQueue(s: System, now: uint64, sent: bool)
    requires CatalogInv(s) && OrderInv(s) && s.tx.sendBuf != [] && (!sent || s.tx.sendBuf[0].numRtx > 0)
    ensures AfterSend(s, now, sent).Ok?
    ensures CatalogInv(AfterSend(s, now, sent).value) && OrderInv(AfterSend(s, now, sent).value)
  {
    OtherSend(s, now, sent);
    assert Agrees(s.produced, s.tx.sendBuf[0]);
    if sent {
      QueueTail(s.produced, s.firstSends, s.tx.sendBuf);
    } else {
      QueueTouched(s.produced, s.firstSends, s.tx.sendBuf);
    }
  }

  lemma OtherSendKeepsRest(s: System, now: uint64, sent: bool)
    requires TimeInv(s) && ConservationInv(s) && LossInv(s) && RtxInv(s)
    requires now >= s.clock && s.tx.sendBuf != [] && (!sent || s.tx.sendBuf[0].numRtx > 0)
    ensures AfterSend(s, now, sent).Ok?
    ensures var t := AfterSend(s, now, sent).value;
            TimeInv(t) && ConservationInv(t) && LossInv(t) && RtxInv(t)
  {
    OtherSend(s, now, sent);
  }

  lemma SendKeepsInv(s: System, now: uint64, sent: bool)
    requires Inv(s) && Enabled(s, Send(now, sent))
    ensures AfterSend(s, now, sent).Ok? && Inv(AfterSend(s, now, sent).value)
  {
    if sent && s.tx.sendBuf[0].numRtx == 0 {
      FirstSendKeepsInv(s, now);
    } else {
      OtherSend(s, now, sent);
      OtherSendKeepsQueue(s, now, sent);
      OtherSendKeepsRest(s, now, sent);
    }
  }

  // ---------- handling an acknowledgement ----------

  ghost predicate AcksHeld(s: System, ack: AckMsg) {
    Holds(s.tx.unacked, SeqNum(ack.frameId, ack.fragId))
  }

  /** Where each datagram is after a held number was acknowledged. */
  lemma AckShape(s: System, now: uint64, ack: AckMsg)
    requires AcksHeld(s, ack)
    ensures var p := Place(s.tx.unacked, SeqNum(ack.frameId, ack.fragId));
            var t := AfterAck(s, now, ack);
            var gate := t.tx.rtt.ewmaUs.value;
            var resent := Resent(s.tx.unacked[..p], now, gate);
            && p < |s.tx.unacked| && s.tx.unacked[p].Num() == SeqNum(ack.frameId, ack.fragId)
            && t.tx.frameId == s.tx.frameId
            && t.tx.sendBuf == resent + s.tx.sendBuf
            && t.rtxLog == s.rtxLog + EventsOf(resent, now, gate)
            && |t.tx.unacked| + 1 == |s.tx.unacked|
            && (forall i :: 0 <= i < |t.tx.unacked| ==>
                  t.tx.unacked[i] == if i < p then Mark(s.tx.unacked[i], now, gate) else s.tx.unacked[i + 1])
  {
  }

  lemma ResentProperties(cat: Catalog, ds: seq<Datagram>, now: uint64, gate: real)
    requires AllAgree(cat, ds)
    ensures AllAgree(cat, Resent(ds, now, gate))
    ensures forall i :: 0 <= i < |Resent(ds, now, gate)| ==> Resent(ds, now, gate)[i].numRtx > 0
  {
    var r := Resent(ds, now, gate);
    forall i | 0 <= i < |r|
      ensures Agrees(cat, r[i]) && r[i].numRtx > 0
    {
      ResentComes(ds, now, gate, r[i]);
    }
  }

  lemma QueuePrepend(ns: seq<SeqNum>, resent: seq<Datagram>, buf: seq<Datagram>)
    requires forall i :: 0 <= i < |resent| ==> resent[i].numRtx > 0
    requires FreshLast(buf) && SentBefore(ns, buf)
    ensures FreshLast(resent + buf) && SentBefore(ns, resent + buf)
    ensures FreshNums(resent + buf) == FreshNums(buf)
  {
    FreshConcat(resent, buf);
    NoneFresh(resent);
  }

  lemma AckKeepsQueue(s: System, now: uint64, ack: AckMsg)
    requires AcksHeld(s, ack) && CatalogInv(s) && OrderInv(s)
    ensures CatalogInv(AfterAck(s, now, ack)) && OrderInv(AfterAck(s, now, ack))
    ensures FreshNums(AfterAck(s, now, ack).tx.sendBuf) == FreshNums(s.tx.sendBuf)
  {
    AckShape(s, now, ack);
    AckedNums(s.tx, ack, now);
    var p := Place(s.tx.unacked, SeqNum(ack.frameId, ack.fragId));
    var t := AfterAck(s, now, ack);
    var gate := t.tx.rtt.ewmaUs.value;
    ResentProperties(s.produced, s.tx.unacked[..p], now, gate);
    QueuePrepend(s.firstSends, Resent(s.tx.unacked[..p], now, gate), s.tx.sendBuf);
    forall i | 0 <= i < |t.tx.unacked|
      ensures Agrees(s.produced, t.tx.unacked[i]) && t.tx.unacked[i].Num() in s.firstSends
    {
      var d := s.tx.unacked[if i < p then i else i + 1];
      assert Agrees(s.produced, d) && d.Num() in s.firstSends;
    }
  }

  lemma TimesAfterAck(ds: seq<Datagram>, es: seq<Datagram>, p: nat, clock: uint64, now: uint64, gate: real)
    requires TimesOk(ds, clock) && clock <= now && p < |ds| == |es| + 1
    requires forall i :: 0 <= i < p ==> es[i] == Mark(ds[i], now, gate)
    requires forall i {:trigger es[i]} :: p <= i < |es| ==> es[i] == ds[i + 1]
    ensures TimesOk(es, now)
  {
    forall i | 0 <= i < |es|
      ensures es[i].sendTs == ds[if i < p then i else i + 1].sendTs
      ensures es[i].sendTs <= es[i].lastSendTs <= now
    {
      if i < p {
        assert ds[i].sendTs <= ds[i].lastSendTs <= clock;
      } else {
        assert ds[i + 1].sendTs <= ds[i + 1].lastSendTs <= clock;
      }
    }
    forall i, j | 0 <= i < j < |es|
      ensures es[i].sendTs <= es[j].sendTs
    {
      assert es[i].sendTs == ds[if i < p then i else i + 1].sendTs;
      assert es[j].sendTs == ds[if j < p then j else j + 1].sendTs;
    }
  }

  lemma AckKeepsTime(s: System, now: uint64, ack: AckMsg)
    requires AcksHeld(s, ack) && TimeInv(s) && now >= s.clock
    ensures TimeInv(AfterAck(s, now, ack))
  {
    AckShape(s, now, ack);
    var t := AfterAck(s, now, ack);
    TimesAfterAck(s.tx.unacked, t.tx.unacked, Place(s.tx.unacked, SeqNum(ack.frameId, ack.fragId)),
                  s.clock, now, t.tx.rtt.ewmaUs.value);
  }

  lemma AckKeepsConservation(s: System, now: uint64, ack: AckMsg)
    requires AcksHeld(s, ack) && CatalogInv(s) && OrderInv(s) && ConservationInv(s)
    ensures ConservationInv(AfterAck(s, now, ack))
    ensures AfterAck(s, now, ack).acked == s.acked + {SeqNum(ack.frameId, ack.fragId)}
  {
    var n := SeqNum(ack.frameId, ack.fragId);
    AckKeepsQueue(s, now, ack);
    AckedNums(s.tx, ack, now);
    HoldsMeansMember(s.tx.unacked, n);
    assert Nums(s.tx.unacked) - (Nums(s.tx.unacked) - {n}) == {n};
    PartitionMoves(s.produced, n, FreshNums(s.tx.sendBuf), Nums(s.tx.unacked), s.acked, s.abandoned);
  }

  // ---------- counting retransmissions ----------

  lemma {:induction false} CountConcat(log: seq<RtxEvent>, es: seq<RtxEvent>, n: SeqNum)
    ensures Count(log + es, n) == Count(log, n) + Count(es, n)
  {
    if es == [] {
      assert log + es == log;
    } else {
      CountConcat(log, es[..|es| - 1], n);
      assert (log + es)[..|log + es| - 1] == log + es[..|es| - 1];
    }
  }

  lemma {:induction false} CountEvents(resent: seq<Datagram>, now: uint64, gate: real, n: SeqNum)
    requires Ordered(resent)
    ensures Count(EventsOf(resent, now, gate), n) == if n in Nums(resent) then 1 else 0
  {
    if resent != [] {
      var front, last := resent[..|resent| - 1], resent[|resent| - 1];
      CountEvents(front, now, gate, n);
      assert EventsOf(resent, now, gate)[..|front|] == EventsOf(front, now, gate);
      assert resent == front + [last];
      NumsConcat(front, [last]);
      NumsOne(last);
      forall m | m in Nums(front)
        ensures m != last.Num()
      {
        var i := NumsMember(front, m);
        assert Less(resent[i].Num(), resent[|resent| - 1].Num());
      }
    }
  }

  lemma NotResent(ds: seq<Datagram>, p: nat, now: uint64, gate: real, k: nat)
    requires Ordered(ds) && p <= k < |ds|
    ensures ds[k].Num() !in Nums(Resent(ds[..p], now, gate))
  {
    forall n | n in Nums(Resent(ds[..p], now, gate))
      ensures n != ds[k].Num()
    {
      var j := ResentFrom(ds[..p], now, gate, n);
      assert Less(ds[j].Num(), ds[k].Num());
    }
  }

  /** The count of every number after acknowledging: one more for the eligible, else unchanged. */
  lemma CountAfterAck(s: System, now: uint64, ack: AckMsg, n: SeqNum)
    requires AcksHeld(s, ack) && OrderInv(s)
    ensures var t := AfterAck(s, now, ack);
            var below := s.tx.unacked[..Place(s.tx.unacked, SeqNum(ack.frameId, ack.fragId))];
            Count(t.rtxLog, n) ==
            Count(s.rtxLog, n) + if n in Nums(Resent(below, now, t.tx.rtt.ewmaUs.value)) then 1 else 0
  {
    AckShape(s, now, ack);
    var gate := AfterAck(s, now, ack).tx.rtt.ewmaUs.value;
    var below := s.tx.unacked[..Place(s.tx.unacked, SeqNum(ack.frameId, ack.fragId))];
    var resent := Resent(below, now, gate);
    ResentOrdered(below, now, gate);
    CountConcat(s.rtxLog, EventsOf(resent, now, gate), n);
    CountEvents(resent, now, gate, n);
  }

  /** Every entry that stays carries its own count and cap. */
  lemma AckKeepsEntryCounts(s: System, now: uint64, ack: AckMsg, i: nat)
    requires AcksHeld(s, ack) && OrderInv(s) && RtxInv(s)
    requires i < |AfterAck(s, now, ack).tx.unacked|
    ensures var t := AfterAck(s, now, ack);
            Count(t.rtxLog, t.tx.unacked[i].Num()) == t.tx.unacked[i].numRtx <= MAX_NUM_RTX
  {
    AckShape(s, now, ack);
    var t := AfterAck(s, now, ack);
    var gate := t.tx.rtt.ewmaUs.value;
    var p := Place(s.tx.unacked, SeqNum(ack.frameId, ack.fragId));
    var below := s.tx.unacked[..p];
    CountAfterAck(s, now, ack, t.tx.unacked[i].Num());
    if i < p {
      ResentNums(below, now, gate, i);
    } else {
      NotResent(s.tx.unacked, p, now, gate, i + 1);
    }
  }

  lemma AckKeepsCounts(s: System, now: uint64, ack: AckMsg, n: SeqNum)
    requires AcksHeld(s, ack) && CatalogInv(s) && OrderInv(s) && ConservationInv(s) && RtxInv(s)
    ensures var t := AfterAck(s, now, ack);
            && Count(t.rtxLog, n) <= MAX_NUM_RTX
            && (Count(t.rtxLog, n) > 0 ==> n in Nums(t.tx.unacked) + t.acked + t.abandoned)
  {
    var t := AfterAck(s, now, ack);
    var gate := t.tx.rtt.ewmaUs.value;
    var below := s.tx.unacked[..Place(s.tx.unacked, SeqNum(ack.frameId, ack.fragId))];
    CountAfterAck(s, now, ack, n);
    AckedNums(s.tx, ack, now);
    AckKeepsConservation(s, now, ack);
    if n in Nums(Resent(below, now, gate)) {
      var i := ResentFrom(below, now, gate, n);
      assert s.tx.unacked[i].numRtx == Count(s.rtxLog, n);
      NumsAt(s.tx.unacked, i);
    }
  }

  lemma SinceIsDifference(now: uint64, ts: uint64)
    requires ts <= now
    ensures Since(now, ts) == now - ts
  {
  }

  /** An entry that is retransmitted again had all its events more than the RTT estimate ago. */
  lemma EligibleIsSpaced(s: System, now: uint64, gate: real, k: nat, i: nat)
    requires TimeInv(s) && RtxInv(s) && now >= s.clock && k < |s.tx.unacked| && i < |s.rtxLog|
    requires Eligible(s.tx.unacked[k], now, gate) && s.rtxLog[i].num == s.tx.unacked[k].Num()
    ensures s.rtxLog[i].ts <= now && (now - s.rtxLog[i].ts) as real > gate
  {
    var d := s.tx.unacked[k];
    CountPositive(s.rtxLog, i);
    assert d.numRtx > 0 && s.rtxLog[i].ts <= d.lastSendTs <= s.clock;
    SinceIsDifference(now, d.lastSendTs);
  }

  lemma SpacedAppend(log: seq<RtxEvent>, resent: seq<Datagram>, now: uint64, gate: real)
    requires Spaced(log) && Ordered(resent)
    requires forall i, j :: 0 <= i < |log| && 0 <= j < |resent| && log[i].num == resent[j].Num() ==>
               (now - log[i].ts) as real > gate
    ensures Spaced(log + EventsOf(resent, now, gate))
  {
    var more := log + EventsOf(resent, now, gate);
    forall i, j | 0 <= i < j < |more|
      ensures more[i].num == more[j].num ==> (more[j].ts - more[i].ts) as real > more[j].gate
    {
      if |log| <= i {
        assert Less(resent[i - |log|].Num(), resent[j - |log|].Num());
      }
    }
  }

  lemma AckKeepsSpacing(s: System, now: uint64, ack: AckMsg)
    requires AcksHeld(s, ack) && OrderInv(s) && TimeInv(s) && RtxInv(s) && now >= s.clock
    ensures Spaced(AfterAck(s, now, ack).rtxLog)
  {
    AckShape(s, now, ack);
    var gate := AfterAck(s, now, ack).tx.rtt.ewmaUs.value;
    var below := s.tx.unacked[..Place(s.tx.unacked, SeqNum(ack.frameId, ack.fragId))];
    var resent := Resent(below, now, gate);
    ResentOrdered(below, now, gate);
    forall i, j | 0 <= i < |s.rtxLog| && 0 <= j < |resent| && s.rtxLog[i].num == resent[j].Num()
      ensures (now - s.rtxLog[i].ts) as real > gate
    {
      NumsAt(resent, j);
      var k := ResentFrom(below, now, gate, resent[j].Num());
      EligibleIsSpaced(s, now, gate, k, i);
    }
    SpacedAppend(s.rtxLog, resent, now, gate);
  }

  /** An entry that a new event names was marked at that time. */
  lemma NewEventMarks(ds: seq<Datagram>, p: nat, now: uint64, gate: real, k: nat)
    requires Ordered(ds) && p < |ds| && k < |ds| && k != p
    requires ds[k].Num() in Nums(Resent(ds[..p], now, gate))
    ensures k < p && Mark(ds[k], now, gate).lastSendTs == now
  {
    if k < p {
      ResentNums(ds[..p], now, gate, k);
    } else {
      NotResent(ds, p, now, gate, k);
    }
  }

  /** The latest event of an entry is not after its last send time. */
  lemma AckKeepsLastSend(s: System, now: uint64, ack: AckMsg, i: nat, j: nat)
    requires AcksHeld(s, ack) && OrderInv(s) && TimeInv(s) && RtxInv(s) && now >= s.clock
    requires i < |AfterAck(s, now, ack).tx.unacked| && j < |AfterAck(s, now, ack).rtxLog|
    requires AfterAck(s, now, ack).rtxLog[j].num == AfterAck(s, now, ack).tx.unacked[i].Num()
    ensures AfterAck(s, now, ack).rtxLog[j].ts <= AfterAck(s, now, ack).tx.unacked[i].lastSendTs
  {
    AckShape(s, now, ack);
    var gate := AfterAck(s, now, ack).tx.rtt.ewmaUs.value;
    var p := Place(s.tx.unacked, SeqNum(ack.frameId, ack.fragId));
    var k := if i < p then i else i + 1;
    if j < |s.rtxLog| {
      assert s.rtxLog[j].ts <= s.tx.unacked[k].lastSendTs <= now;
    } else {
      NumsAt(Resent(s.tx.unacked[..p], now, gate), j - |s.rtxLog|);
      NewEventMarks(s.tx.unacked, p, now, gate, k);
    }
  }

  lemma AckKeepsRtx(s: System, now: uint64, ack: AckMsg)
    requires AcksHeld(s, ack) && CatalogInv(s) && OrderInv(s) && TimeInv(s)
    requires ConservationInv(s) && RtxInv(s) && now >= s.clock
    ensures RtxInv(AfterAck(s, now, ack))
  {
    var t := AfterAck(s, now, ack);
    forall i | 0 <= i < |t.tx.unacked|
      ensures Count(t.rtxLog, t.tx.unacked[i].Num()) == t.tx.unacked[i].numRtx <= MAX_NUM_RTX
    {
      AckKeepsEntryCounts(s, now, ack, i);
    }
    forall i, j | 0 <= i < |t.tx.unacked| && 0 <= j < |t.rtxLog| && t.rtxLog[j].num == t.tx.unacked[i].Num()
      ensures t.rtxLog[j].ts <= t.tx.unacked[i].lastSendTs
    {
      AckKeepsLastSend(s, now, ack, i, j);
    }
    forall n
      ensures Count(t.rtxLog, n) <= MAX_NUM_RTX
      ensures Count(t.rtxLog, n) > 0 ==> n in Nums(t.tx.unacked) + t.acked + t.abandoned
    {
      AckKeepsCounts(s, now, ack, n);
    }
    AckKeepsSpacing(s, now, ack);
  }

  /** Every new event names an entry below the acknowledged one. */
  lemma NewEvent(s: System, now: uint64, ack: AckMsg, j: nat)
    requires |s.rtxLog| <= j < |AfterAck(s, now, ack).rtxLog|
    ensures var n := AfterAck(s, now, ack).rtxLog[j].num;
            n in Nums(s.tx.unacked) && Less(n, SeqNum(ack.frameId, ack.fragId))
  {
    var p := Place(s.tx.unacked, SeqNum(ack.frameId, ack.fragId));
    var gate := AfterAck(s, now, ack).tx.rtt.ewmaUs.value;
    var resent := Resent(s.tx.unacked[..p], now, gate);
    NumsAt(resent, j - |s.rtxLog|);
    var i := ResentFrom(s.tx.unacked[..p], now, gate, resent[j - |s.rtxLog|].Num());
    NumsAt(s.tx.unacked, i);
  }

  lemma UnknownAck(s: System, now: uint64, ack: AckMsg)
    requires !AcksHeld(s, ack)
    ensures var t := AfterAck(s, now, ack);
            t == s.(clock := now, tx := s.tx.(rtt := t.tx.rtt), samples := t.samples)
  {
    assert AfterAck(s, now, ack).rtxLog == s.rtxLog;
    assert AfterAck(s, now, ack).acked == s.acked;
  }

  lemma UnknownAckKeepsQueue(s: System, now: uint64, ack: AckMsg)
    requires CatalogInv(s) && OrderInv(s) && TimeInv(s) && now >= s.clock && !AcksHeld(s, ack)
    ensures var t := AfterAck(s, now, ack);
            CatalogInv(t) && OrderInv(t) && TimeInv(t)
  {
    UnknownAck(s, now, ack);
  }

  lemma UnknownAckKeepsHistory(s: System, now: uint64, ack: AckMsg)
    requires ConservationInv(s) && LossInv(s) && RtxInv(s) && !AcksHeld(s, ack)
    ensures var t := AfterAck(s, now, ack);
            ConservationInv(t) && LossInv(t) && RtxInv(t)
  {
    UnknownAck(s, now, ack);
  }

  lemma AckKeepsEstimate(s: System, now: uint64, ack: AckMsg)
    requires s.tx.rtt == Estimate(s.samples)
    ensures var t := AfterAck(s, now, ack);
            t.tx.rtt == Estimate(t.samples)
  {
    assert AfterAck(s, now, ack).samples[..|s.samples|] == s.samples;
  }

  lemma AckKeepsInv(s: System, now: uint64, ack: AckMsg)
    requires Inv(s) && Enabled(s, HandleAck(now, ack))
    ensures Inv(AfterAck(s, now, ack))
  {
    if AcksHeld(s, ack) {
      AckKeepsQueue(s, now, ack);
      AckKeepsTime(s, now, ack);
      AckKeepsConservation(s, now, ack);
      AckKeepsRtx(s, now, ack);
    } else {
      UnknownAck(s, now, ack);
      UnknownAckKeepsQueue(s, now, ack);
      UnknownAckKeepsHistory(s, now, ack);
    }
    AckKeepsEstimate(s, now, ack);
  }

  // ---------- delivering a datagram ----------

  lemma DeliveryKeepsRest(s: System, d: Datagram)
    requires CatalogInv(s) && TimeInv(s) && LossInv(s) && DecoderOk(s.rx) && d in s.net
    requires AfterDelivery(s, d).Ok?
    ensures var t := AfterDelivery(s, d).value;
            TimeInv(t) && LossInv(t)
  {
  }

  lemma DeliveryKeepsInv(s: System, d: Datagram)
    requires Inv(s) && d in s.net
    ensures AfterDelivery(s, d).Ok? && Inv(AfterDelivery(s, d).value)
  {
    ReceiveKeepsInv(s.produced, s.got, s.rx, d);
    DeliveryKeepsRest(s, d);
  }
}
