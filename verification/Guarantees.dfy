/** What the transport guarantees over whole runs. */
module Guarantees {
  import opened Wrappers
  import opened Wire
  import opened Protocol
  import opened Packetizer
  import opened Frames
  import opened Decoding
  import opened Confluence
  import opened Rtt
  import opened Encoding
  import opened Transport
  import opened TransportSteps

  ghost predicate Oversize(a: Action, limit: nat) {
    a.Tick? && |a.bytes| / (limit + 1) + 1 > 65535
  }

  lemma StartRtxInv()
    ensures RtxInv(START)
  {
  }

  lemma StartInv()
    ensures Inv(START)
  {
    StartRtxInv();
    InitialInv([]);
  }

  /** Every step keeps the invariant, and the only exception any step raises is the one for a frame
      of too many fragments. */
  lemma StepKeepsInv(s: System, a: Action, limit: nat)
    requires Inv(s) && Enabled(s, a)
    ensures After(s, a, limit).Throw? <==> Oversize(a, limit)
    ensures After(s, a, limit).Ok? ==> Inv(After(s, a, limit).value)
  {
    match a {
      case Tick(now, bytes, isKey) =>
        if After(s, a, limit).Ok? {
          TickKeepsInv(s, now, bytes, isKey, limit);
        }
      case Send(now, sent) => SendKeepsInv(s, now, sent);
      case HandleAck(now, ack) => AckKeepsInv(s, now, ack);
      case Deliver(d) => DeliveryKeepsInv(s, d);
    }
  }

  // ---------- one step at a time ----------

  lemma TickStep(s: System, now: uint64, bytes: seq<byte>, isKey: bool, limit: nat) returns (t: System)
    requires Inv(s) && Enabled(s, Tick(now, bytes, isKey)) && !Oversize(Tick(now, bytes, isKey), limit)
    ensures After(s, Tick(now, bytes, isKey), limit) == Ok(t) && Inv(t)
    ensures t.clock == now && t.rx == s.rx && t.got == s.got && t.net == s.net && t.acks == s.acks
    ensures t.produced == s.produced + [NewFrame(isKey, bytes, limit)]
    ensures Packets(s.tx.frameId, TypeOf(isKey), bytes, limit).Ok?
    ensures t.tx.sendBuf == Prepared(s.tx, now).sendBuf + Packets(s.tx.frameId, TypeOf(isKey), bytes, limit).value
  {
    t := AfterTick(s, now, bytes, isKey, limit).value;
    TickKeepsInv(s, now, bytes, isKey, limit);
  }

  lemma SendShape(s: System, now: uint64, sent: bool)
    requires s.tx.sendBuf != [] && AfterSend(s, now, sent).Ok?
    ensures var t := AfterSend(s, now, sent).value;
            && Sent(s.tx, now, sent) == Ok(t.tx)
            && t.clock == now && t.rx == s.rx && t.produced == s.produced && t.got == s.got && t.acks == s.acks
            && t.net == s.net + (if sent then {Transmitted(s.tx.sendBuf[0].(sendTs := now))} else {})
            && t.tx.sendBuf == (if sent then [] else [s.tx.sendBuf[0].(sendTs := 0)]) + s.tx.sendBuf[1..]
  {
  }

  lemma SendStep(s: System, now: uint64, sent: bool, limit: nat) returns (t: System)
    requires Inv(s) && Enabled(s, Send(now, sent))
    ensures After(s, Send(now, sent), limit) == Ok(t) && Inv(t)
    ensures Sent(s.tx, now, sent) == Ok(t.tx)
    ensures t.clock == now && t.rx == s.rx && t.produced == s.produced && t.got == s.got && t.acks == s.acks
    ensures t.net == s.net + (if sent then {Transmitted(s.tx.sendBuf[0].(sendTs := now))} else {})
    ensures sent ==> t.tx.sendBuf == s.tx.sendBuf[1..]
  {
    SendKeepsInv(s, now, sent);
    t := AfterSend(s, now, sent).value;
    SendShape(s, now, sent);
  }

  lemma AckStep(s: System, now: uint64, ack: AckMsg, limit: nat) returns (t: System)
    requires Inv(s) && Enabled(s, HandleAck(now, ack))
    ensures After(s, HandleAck(now, ack), limit) == Ok(t) && Inv(t)
    ensures t.clock == now && t.net == s.net && t.acks == s.acks && t.rx == s.rx && t.tx == Acked(s.tx, ack, now)
  {
    AckKeepsInv(s, now, ack);
    t := AfterAck(s, now, ack);
  }

  lemma DeliverStep(s: System, d: Datagram, limit: nat) returns (t: System)
    requires Inv(s) && d in s.net
    ensures After(s, Deliver(d), limit) == Ok(t) && Inv(t)
    ensures t.tx == s.tx && t.net == s.net && t.produced == s.produced && t.got == s.got + {d.Num()}
    ensures Received(s.rx, d) == Ok(t.rx) && t.acks == s.acks + {AckOf(d)}
  {
    DeliveryKeepsInv(s, d);
    t := AfterDelivery(s, d).value;
  }

  // ---------- runs ----------

  ghost predicate NoOversize(actions: seq<Action>, limit: nat) {
    forall i :: 0 <= i < |actions| ==> !Oversize(actions[i], limit)
  }

  lemma NoOversizeFrom(actions: seq<Action>, limit: nat)
    requires actions != []
    ensures NoOversize(actions, limit) <==> !Oversize(actions[0], limit) && NoOversize(actions[1..], limit)
  {
    assert forall i :: 1 <= i < |actions| ==> actions[i] == actions[1..][i - 1];
  }

  lemma {:induction false} RunKeepsInv(s: System, actions: seq<Action>, limit: nat)
    requires Inv(s) && Allowed(s, actions, limit)
    ensures RunFrom(s, actions, limit).Ok? <==> NoOversize(actions, limit)
    ensures RunFrom(s, actions, limit).Ok? ==> Inv(RunFrom(s, actions, limit).value)
    decreases |actions|
  {
    if actions != [] {
      StepKeepsInv(s, actions[0], limit);
      NoOversizeFrom(actions, limit);
      if After(s, actions[0], limit).Ok? {
        RunKeepsInv(After(s, actions[0], limit).value, actions[1..], limit);
      }
    }
  }

  /** A run from the start that the environment allows and that no exception ends. */
  ghost predicate Run(actions: seq<Action>, limit: nat) {
    Allowed(START, actions, limit) && RunFrom(START, actions, limit).Ok?
  }

  ghost function Reached(actions: seq<Action>, limit: nat): System
    requires Run(actions, limit)
  {
    RunFrom(START, actions, limit).value
  }

  /** A run that goes on is a run. */
  lemma RunExtends(actions: seq<Action>, more: seq<Action>, limit: nat)
    requires Run(actions, limit)
    requires Allowed(Reached(actions, limit), more, limit) && RunFrom(Reached(actions, limit), more, limit).Ok?
    ensures Run(actions + more, limit)
    ensures Reached(actions + more, limit) == RunFrom(Reached(actions, limit), more, limit).value
  {
    RunAppends(START, actions, more, limit);
  }

  /** The invariant holds in every reachable state. */
  lemma ReachedInv(actions: seq<Action>, limit: nat)
    requires Run(actions, limit)
    ensures Inv(Reached(actions, limit))
  {
    StartInv();
    RunKeepsInv(START, actions, limit);
  }

  /** No run raises any exception but for a frame of too many fragments: no duplicate insertion at
      the sender, and no incompatible datagram or incomplete frame at the receiver. */
  lemma OnlyOversizeThrows(actions: seq<Action>, limit: nat)
    requires Allowed(START, actions, limit)
    ensures RunFrom(START, actions, limit).Throw? <==> exists i :: 0 <= i < |actions| && Oversize(actions[i], limit)
  {
    StartInv();
    RunKeepsInv(START, actions, limit);
  }

  /** No fragment is lost silently: it was received, or is still queued or tracked, or a key frame
      later than its frame has been produced. */
  lemma NothingLostSilently(actions: seq<Action>, limit: nat, n: SeqNum)
    requires Run(actions, limit) && IsCreated(Reached(actions, limit).produced, n)
    ensures var s := Reached(actions, limit);
            n in s.got || n in FreshNums(s.tx.sendBuf) || n in Nums(s.tx.unacked) || KeyAfter(s.produced, n.frameId)
  {
    ReachedInv(actions, limit);
    var s := Reached(actions, limit);
    assert ConservationInv(s) && LossInv(s);
  }

  /** Once a key frame has been received in full, the receiver has moved past it. */
  lemma KeyFrameRecovery(actions: seq<Action>, limit: nat, k: nat)
    requires Run(actions, limit)
    requires KeyIn(Reached(actions, limit).produced, k)
    requires CompleteIn(Reached(actions, limit).produced, Reached(actions, limit).got, k)
    ensures Reached(actions, limit).rx.next > k
  {
    ReachedInv(actions, limit);
    var s := Reached(actions, limit);
    KeyFrameRecovers(s.produced, s.got, k);
  }

  /** Every created fragment is in exactly one class, and acknowledged ones were received. */
  lemma Conservation(actions: seq<Action>, limit: nat, n: SeqNum)
    requires Run(actions, limit)
    ensures var s := Reached(actions, limit);
            && (IsCreated(s.produced, n) <==>
                  n in FreshNums(s.tx.sendBuf) || n in Nums(s.tx.unacked) || n in s.acked || n in s.abandoned)
            && !(n in FreshNums(s.tx.sendBuf) && n in Nums(s.tx.unacked))
            && !(n in FreshNums(s.tx.sendBuf) && n in s.acked)
            && !(n in FreshNums(s.tx.sendBuf) && n in s.abandoned)
            && !(n in Nums(s.tx.unacked) && n in s.acked)
            && !(n in Nums(s.tx.unacked) && n in s.abandoned)
            && !(n in s.acked && n in s.abandoned)
            && (n in s.acked ==> n in s.got)
  {
    ReachedInv(actions, limit);
    var s := Reached(actions, limit);
    assert ConservationInv(s) && LossInv(s);
  }

  /** Every dispatched frame carries the bytes the encoder produced for its id; ids strictly
      increase; and each frame is the successor of the one before, or frame 0 at the start, or a key
      frame. */
  lemma EndToEnd(actions: seq<Action>, limit: nat, i: nat)
    requires Run(actions, limit) && i < |Reached(actions, limit).rx.queue|
    ensures var s := Reached(actions, limit);
            var fr := s.rx.queue[i];
            && fr.id < |s.produced| && FrameOk(fr) && Complete(fr)
            && (forall g :: 0 <= g < |fr.frags| ==> fr.frags[g].Some?)
            && Content(fr) == s.produced[fr.id].bytes && fr.frameType == s.produced[fr.id].frameType
            && (i == 0 && fr.id > 0 ==> fr.frameType == KEY)
            && (i > 0 ==> fr.id > s.rx.queue[i - 1].id)
            && (i > 0 && fr.id != s.rx.queue[i - 1].id + 1 ==> fr.frameType == KEY)
  {
    ReachedInv(actions, limit);
    var s := Reached(actions, limit);
    assert DispatchOk(s.produced, s.rx.queue, i);
  }

  /** What the receiver shows is determined by what was produced and received: its frontier is the
      first gap beyond the latest complete key frame, and it buffers exactly the received fragments
      from there on, with the payloads that were sent. */
  lemma ReceiverFrontier(actions: seq<Action>, limit: nat)
    requires Run(actions, limit)
    ensures var s := Reached(actions, limit);
            s.rx.next == Frontier(s.produced, s.got) && BufMatches(s.produced, s.got, s.rx)
  {
    ReachedInv(actions, limit);
  }

  /** Looking only at the first unacknowledged entry decides whether any entry is too old, and after
      the decision none is. */
  lemma FirstMeansOldest(actions: seq<Action>, limit: nat, now: uint64)
    requires Run(actions, limit) && now >= Reached(actions, limit).clock
    ensures var tx := Reached(actions, limit).tx;
            && (GivesUp(tx, now) <==> exists i :: 0 <= i < |tx.unacked| && now - tx.unacked[i].sendTs > 1_000_000)
            && (forall i :: 0 <= i < |Prepared(tx, now).unacked| ==>
                  0 <= now - Prepared(tx, now).unacked[i].sendTs <= 1_000_000)
  {
    ReachedInv(actions, limit);
    var s := Reached(actions, limit);
    assert TimeInv(s);
    if s.tx.unacked != [] {
      SinceIsDifference(now, s.tx.unacked[0].sendTs);
    }
    forall i | 0 <= i < |s.tx.unacked|
      ensures s.tx.unacked[0].sendTs <= s.tx.unacked[i].sendTs <= now
    {
    }
  }

  /** First transmissions leave in strictly increasing order, and every queued fresh datagram comes
      after everything sent and everything tracked. */
  lemma FreshOrder(actions: seq<Action>, limit: nat)
    requires Run(actions, limit)
    ensures var s := Reached(actions, limit);
            && Increasing(s.firstSends) && SentBefore(s.firstSends, s.tx.sendBuf) && FreshLast(s.tx.sendBuf)
            && (forall i, j :: 0 <= i < |s.tx.unacked| && 0 <= j < |s.tx.sendBuf| && s.tx.sendBuf[j].numRtx == 0 ==>
                  Less(s.tx.unacked[i].Num(), s.tx.sendBuf[j].Num()))
  {
    ReachedInv(actions, limit);
    var s := Reached(actions, limit);
    forall i, j | 0 <= i < |s.tx.unacked| && 0 <= j < |s.tx.sendBuf| && s.tx.sendBuf[j].numRtx == 0
      ensures Less(s.tx.unacked[i].Num(), s.tx.sendBuf[j].Num())
    {
      assert s.tx.unacked[i].Num() in s.firstSends;
    }
  }

  /** No number is retransmitted more than the cap allows; a tracked entry's counter is its number of
      retransmissions; and two retransmissions of a number are more than the RTT estimate apart. */
  lemma BoundedRetransmission(actions: seq<Action>, limit: nat, n: SeqNum)
    requires Run(actions, limit)
    ensures var s := Reached(actions, limit);
            && Count(s.rtxLog, n) <= 3
            && (forall i :: 0 <= i < |s.tx.unacked| && s.tx.unacked[i].Num() == n ==>
                  Count(s.rtxLog, n) == s.tx.unacked[i].numRtx)
            && (n in FreshNums(s.tx.sendBuf) || !IsCreated(s.produced, n) ==> Count(s.rtxLog, n) == 0)
            && Spaced(s.rtxLog)
  {
    ReachedInv(actions, limit);
    var s := Reached(actions, limit);
    assert RtxInv(s) && ConservationInv(s);
  }

  /** Only tracked numbers are retransmitted: none that was acknowledged or given up. */
  lemma RetransmitsTracked(actions: seq<Action>, limit: nat, now: uint64, ack: AckMsg, j: nat)
    requires Run(actions, limit) && Enabled(Reached(actions, limit), HandleAck(now, ack))
    requires |Reached(actions, limit).rtxLog| <= j < |AfterAck(Reached(actions, limit), now, ack).rtxLog|
    ensures var s := Reached(actions, limit);
            var n := AfterAck(s, now, ack).rtxLog[j].num;
            && n in Nums(s.tx.unacked) && n !in s.acked && n !in s.abandoned
            && Less(n, SeqNum(ack.frameId, ack.fragId))
  {
    ReachedInv(actions, limit);
    var s := Reached(actions, limit);
    NewEvent(s, now, ack, j);
    assert ConservationInv(s);
  }

  ghost predicate Left(s: System, n: SeqNum) {
    n in s.acked || n in s.abandoned
  }

  lemma AckKeepsLeft(s: System, now: uint64, ack: AckMsg, n: SeqNum)
    requires OrderInv(s) && ConservationInv(s) && Left(s, n)
    ensures var t := AfterAck(s, now, ack);
            Left(t, n) && Count(t.rtxLog, n) == Count(s.rtxLog, n)
  {
    if AcksHeld(s, ack) {
      CountAfterAck(s, now, ack, n);
      var below := s.tx.unacked[..Place(s.tx.unacked, SeqNum(ack.frameId, ack.fragId))];
      var gate := AfterAck(s, now, ack).tx.rtt.ewmaUs.value;
      if n in Nums(Resent(below, now, gate)) {
        var i := ResentFrom(below, now, gate, n);
        NumsAt(s.tx.unacked, i);
      }
    } else {
      UnknownAck(s, now, ack);
    }
  }

  lemma StepKeepsLeft(s: System, a: Action, limit: nat, n: SeqNum)
    requires Inv(s) && Enabled(s, a) && After(s, a, limit).Ok? && Left(s, n)
    ensures var t := After(s, a, limit).value;
            Left(t, n) && Count(t.rtxLog, n) == Count(s.rtxLog, n)
  {
    if a.HandleAck? {
      AckKeepsLeft(s, a.now, a.ack, n);
    }
  }

  lemma {:induction false} RunKeepsLeft(s: System, actions: seq<Action>, limit: nat, n: SeqNum)
    requires Inv(s) && Allowed(s, actions, limit) && RunFrom(s, actions, limit).Ok? && Left(s, n)
    ensures var t := RunFrom(s, actions, limit).value;
            Left(t, n) && Count(t.rtxLog, n) == Count(s.rtxLog, n)
    decreases |actions|
  {
    if actions != [] {
      StepKeepsInv(s, actions[0], limit);
      StepKeepsLeft(s, actions[0], limit, n);
      RunKeepsLeft(After(s, actions[0], limit).value, actions[1..], limit, n);
    }
  }

  /** Once a number was acknowledged or given up, no continuation of the run retransmits it again. */
  lemma NoRetransmissionAfterLeaving(actions: seq<Action>, more: seq<Action>, limit: nat, n: SeqNum)
    requires Run(actions, limit) && Left(Reached(actions, limit), n)
    requires var s := Reached(actions, limit);
             Allowed(s, more, limit) && RunFrom(s, more, limit).Ok?
    ensures Run(actions + more, limit)
    ensures var s, t := Reached(actions, limit), Reached(actions + more, limit);
            Left(t, n) && n !in Nums(t.tx.unacked) && n !in FreshNums(t.tx.sendBuf) &&
            Count(t.rtxLog, n) == Count(s.rtxLog, n)
  {
    ReachedInv(actions, limit);
    RunExtends(actions, more, limit);
    RunKeepsLeft(Reached(actions, limit), more, limit, n);
    ReachedInv(actions + more, limit);
    assert ConservationInv(Reached(actions + more, limit));
  }

  // ---------- how often a number is put into the queue ----------

  /** What a step puts into the queue: the fragments of a new frame, or retransmissions. */
  ghost function Enqueued(s: System, a: Action, limit: nat): seq<Datagram> {
    match a
    case Tick(_, bytes, isKey) =>
      var ds := Packets(s.tx.frameId, TypeOf(isKey), bytes, limit);
      if ds.Ok? then ds.value else []
    case HandleAck(now, ack) => Retransmissions(s, ack, now)
    case _ => []
  }

  /** How often number n is put into the queue in a run. */
  ghost function Enqueues(s: System, actions: seq<Action>, limit: nat, n: SeqNum): nat
    requires DecoderOk(s.rx) && Allowed(s, actions, limit)
    decreases |actions|
  {
    if actions == [] then 0
    else
      Occurrences(Enqueued(s, actions[0], limit), n) +
      if After(s, actions[0], limit).Throw? then 0
      else Enqueues(After(s, actions[0], limit).value, actions[1..], limit, n)
  }

  /** A step's new queue is what it enqueued, at the back or at the front, with what stayed; sending
      takes the front away, or touches only its timestamp. */
  lemma EnqueuedExactly(s: System, a: Action, limit: nat)
    requires DecoderOk(s.rx) && Enabled(s, a) && After(s, a, limit).Ok?
    ensures var queue := After(s, a, limit).value.tx.sendBuf;
            var added := Enqueued(s, a, limit);
            && (a.Tick? ==>
                  var late := s.tx.unacked != [] &&
                              (a.now - s.tx.unacked[0].sendTs) % 0x1_0000_0000_0000_0000 > 1_000_000;
                  queue == (if late then [] else s.tx.sendBuf) + added)
            && (a.HandleAck? ==> queue == added + s.tx.sendBuf)
            && (a.Deliver? ==> queue == s.tx.sendBuf)
            && (a.Send? ==> queue == (if a.sent then [] else [s.tx.sendBuf[0].(sendTs := 0)]) + s.tx.sendBuf[1..])
  {
    match a {
      case HandleAck(now, ack) => AckQueue(s, now, ack);
      case Send(now, sent) => SendShape(s, now, sent);
      case _ =>
    }
  }

  lemma AckQueue(s: System, now: uint64, ack: AckMsg)
    ensures AfterAck(s, now, ack).tx.sendBuf == Retransmissions(s, ack, now) + s.tx.sendBuf
  {
    if AcksHeld(s, ack) {
      AckShape(s, now, ack);
    } else {
      UnknownAck(s, now, ack);
    }
  }

  lemma {:induction false} OccursInOrder(ds: seq<Datagram>, f: nat, n: SeqNum)
    requires forall i :: 0 <= i < |ds| ==> ds[i].Num() == SeqNum(f, i)
    ensures Occurrences(ds, n) == if n.frameId == f && n.fragId < |ds| then 1 else 0
  {
    if ds != [] {
      OccursInOrder(ds[..|ds| - 1], f, n);
    }
  }

  lemma {:induction false} OccursAsEvents(resent: seq<Datagram>, now: uint64, gate: real, n: SeqNum)
    ensures Count(EventsOf(resent, now, gate), n) == Occurrences(resent, n)
  {
    if resent != [] {
      var front := resent[..|resent| - 1];
      OccursAsEvents(front, now, gate, n);
      assert EventsOf(resent, now, gate)[..|front|] == EventsOf(front, now, gate);
    }
  }

  ghost function Creations(cat: Catalog, n: SeqNum): nat {
    if IsCreated(cat, n) then 1 else 0
  }

  lemma TickCounts(s: System, now: uint64, bytes: seq<byte>, isKey: bool, limit: nat, n: SeqNum)
    requires s.tx.frameId == |s.produced| && AfterTick(s, now, bytes, isKey, limit).Ok?
    ensures var t := AfterTick(s, now, bytes, isKey, limit).value;
            var ds := Packets(s.tx.frameId, TypeOf(isKey), bytes, limit);
            ds.Ok? && Creations(t.produced, n) == Creations(s.produced, n) + Occurrences(ds.value, n)
  {
    OccursInOrder(Packets(s.tx.frameId, TypeOf(isKey), bytes, limit).value, s.tx.frameId, n);
  }

  lemma AckCounts(s: System, now: uint64, ack: AckMsg, n: SeqNum)
    ensures Count(AfterAck(s, now, ack).rtxLog, n) ==
            Count(s.rtxLog, n) + Occurrences(Retransmissions(s, ack, now), n)
  {
    var gate := AfterAck(s, now, ack).tx.rtt.ewmaUs.value;
    var resent := Retransmissions(s, ack, now);
    CountConcat(s.rtxLog, EventsOf(resent, now, gate), n);
    OccursAsEvents(resent, now, gate, n);
  }

  lemma StepCounts(s: System, a: Action, limit: nat, n: SeqNum)
    requires DecoderOk(s.rx) && s.tx.frameId == |s.produced| && Enabled(s, a) && After(s, a, limit).Ok?
    ensures var t := After(s, a, limit).value;
            Creations(t.produced, n) + Count(t.rtxLog, n) ==
            Creations(s.produced, n) + Count(s.rtxLog, n) + Occurrences(Enqueued(s, a, limit), n)
  {
    match a {
      case Tick(now, bytes, isKey) => TickCounts(s, now, bytes, isKey, limit, n);
      case HandleAck(now, ack) => AckCounts(s, now, ack, n);
      case _ =>
    }
  }

  lemma {:induction false} RunCounts(s: System, actions: seq<Action>, limit: nat, n: SeqNum)
    requires Inv(s) && Allowed(s, actions, limit) && RunFrom(s, actions, limit).Ok?
    ensures var t := RunFrom(s, actions, limit).value;
            Creations(t.produced, n) + Count(t.rtxLog, n) ==
            Creations(s.produced, n) + Count(s.rtxLog, n) + Enqueues(s, actions, limit, n)
    decreases |actions|
  {
    if actions != [] {
      StepKeepsInv(s, actions[0], limit);
      StepCounts(s, actions[0], limit, n);
      RunCounts(After(s, actions[0], limit).value, actions[1..], limit, n);
    }
  }

  /** In a run every created number is put into the queue once, and once more for each of at most three
      retransmissions, which its tracked entry counts; other numbers never are. */
  lemma EnqueuedOncePlusRetransmissions(actions: seq<Action>, limit: nat, n: SeqNum)
    requires Run(actions, limit)
    ensures var s := Reached(actions, limit);
            var times := Enqueues(START, actions, limit, n);
            && (IsCreated(s.produced, n) ==> 1 <= times == 1 + Count(s.rtxLog, n) <= 4)
            && (!IsCreated(s.produced, n) ==> times == 0)
            && (forall i :: 0 <= i < |s.tx.unacked| && s.tx.unacked[i].Num() == n ==>
                  times == 1 + s.tx.unacked[i].numRtx)
  {
    StartInv();
    RunCounts(START, actions, limit, n);
    ReachedInv(actions, limit);
    BoundedRetransmission(actions, limit, n);
    var s := Reached(actions, limit);
    forall i | 0 <= i < |s.tx.unacked| && s.tx.unacked[i].Num() == n
      ensures IsCreated(s.produced, n)
    {
      NumsAt(s.tx.unacked, i);
      assert ConservationInv(s);
    }
  }

  // ---------- acknowledgements ----------

  /** Every acknowledgement answers a copy that was sent. */
  ghost predicate Echoes(s: System) {
    forall a :: a in s.acks ==> exists d :: d in s.net && AckOf(d) == a
  }

  lemma StepKeepsEchoes(s: System, a: Action, limit: nat)
    requires Inv(s) && Echoes(s) && Enabled(s, a) && After(s, a, limit).Ok?
    ensures Echoes(After(s, a, limit).value)
  {
    var t := After(s, a, limit).value;
    assert s.net <= t.net;
    forall x | x in t.acks
      ensures exists d :: d in t.net && AckOf(d) == x
    {
      if x in s.acks {
        var d :| d in s.net && AckOf(d) == x;
        assert d in t.net;
      } else {
        assert a.d in t.net && AckOf(a.d) == x;
      }
    }
  }

  lemma {:induction false} RunKeepsEchoes(s: System, actions: seq<Action>, limit: nat)
    requires Inv(s) && Echoes(s) && Allowed(s, actions, limit) && RunFrom(s, actions, limit).Ok?
    ensures Echoes(RunFrom(s, actions, limit).value)
    decreases |actions|
  {
    if actions != [] {
      StepKeepsInv(s, actions[0], limit);
      StepKeepsEchoes(s, actions[0], limit);
      RunKeepsEchoes(After(s, actions[0], limit).value, actions[1..], limit);
    }
  }

  lemma ReachedEchoes(actions: seq<Action>, limit: nat)
    requires Run(actions, limit)
    ensures Echoes(Reached(actions, limit))
  {
    StartInv();
    RunKeepsEchoes(START, actions, limit);
  }

  lemma AgeOfCopy(s: System, now: uint64, ack: AckMsg)
    requires TimeInv(s) && Echoes(s) && Enabled(s, HandleAck(now, ack))
    ensures exists d :: d in s.net && ack == AckMsg(d.frameId, d.fragId, d.sendTs) && d.sendTs <= now
                        && Sample(now, ack.sendTs) == (now - d.sendTs) % 0x1_0000_0000
  {
    SinceIsDifference(now, ack.sendTs);
    var d :| d in s.net && AckOf(d) == ack;
  }

  /** Every RTT sample is the time since the sending of the very copy that was received, which is
      never negative, also for retransmissions. */
  lemma SampleIsAgeOfCopy(actions: seq<Action>, limit: nat, now: uint64, ack: AckMsg)
    requires Run(actions, limit) && Enabled(Reached(actions, limit), HandleAck(now, ack))
    ensures exists d :: d in Reached(actions, limit).net && ack == AckMsg(d.frameId, d.fragId, d.sendTs)
                        && d.sendTs <= now && Sample(now, ack.sendTs) == (now - d.sendTs) % 0x1_0000_0000
  {
    ReachedInv(actions, limit);
    ReachedEchoes(actions, limit);
    AgeOfCopy(Reached(actions, limit), now, ack);
  }

  /** The RTT estimate is the closed form of the samples of the run: the least sample, and a weighted
      average between the least and the greatest. */
  lemma RttOverRuns(actions: seq<Action>, limit: nat, high: nat)
    requires Run(actions, limit)
    requires Reached(actions, limit).samples != [] && Within(Reached(actions, limit).samples, 0, high)
    ensures var s := Reached(actions, limit);
            && s.tx.rtt.minUs.Some? && s.tx.rtt.minUs.value in s.samples
            && Within(s.samples, s.tx.rtt.minUs.value, high)
            && s.tx.rtt.ewmaUs == Some(WeightedSum(s.samples, |s.samples|, |s.samples|))
            && s.tx.rtt.minUs.value as real <= s.tx.rtt.ewmaUs.value <= high as real
  {
    ReachedInv(actions, limit);
    EstimateClosedForm(Reached(actions, limit).samples, high);
  }
}
