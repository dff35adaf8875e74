/** What each of the sender's operations does in any state that a run reaches, in terms of what is
    queued, what is tracked and what time it is. */
module Behaviour {
  import opened Wrappers
  import opened Wire
  import opened Protocol
  import opened Packetizer
  import opened Encoding
  import opened Transport
  import opened TransportSteps
  import opened Guarantees
  import Sending

  // ---------- acknowledgements ----------

  /** The RTT estimate after a sample of x microseconds: the average takes it with weight 0.2. */
  ghost function Averaged(ewma: Option<real>, x: nat): real {
    if ewma.None? then x as real else 0.2 * (x as real) + 0.8 * ewma.value
  }

  /** The state t after tracked entry p of state s was acknowledged at time now, the copy received having
      been sent at time ts. The age of that copy enters the RTT estimate. Every entry below p that is due,
      which is one retransmitted fewer than three times, and never or more than the new estimate ago,
      gains one copy ahead of the old queue, counted and stamped like the entry; no other number gains
      any. Entry p leaves, and nothing above it is touched. */
  ghost predicate AckDone(s: SenderState, t: SenderState, now: uint64, ts: uint64, p: nat) {
    && p < |s.unacked| && ts <= now
    && var ewma := Averaged(s.rtt.ewmaUs, (now - ts) % 0x1_0000_0000);
       && t.rtt.ewmaUs == Some(ewma) && t.frameId == s.frameId
       && |t.unacked| + 1 == |s.unacked| && t.unacked[p..] == s.unacked[p + 1..]
       && |t.sendBuf| >= |s.sendBuf|
       && var k := |t.sendBuf| - |s.sendBuf|;
          && t.sendBuf[k..] == s.sendBuf
          && Retransmitted(s.unacked[..p], t.unacked[..p], t.sendBuf[..k], now, ewma)
  }

  ghost predicate Due(d: Datagram, now: uint64, ewma: real) {
    d.numRtx < 3 && (d.numRtx == 0 || (now - d.lastSendTs) as real > ewma)
  }

  ghost predicate Retransmitted(ds: seq<Datagram>, es: seq<Datagram>, added: seq<Datagram>, now: uint64, ewma: real) {
    && |es| == |ds| && Ordered(added)
    && (forall i :: 0 <= i < |ds| ==>
          var again := ds[i].(numRtx := ds[i].numRtx + 1, lastSendTs := now);
          && Occurrences(added, ds[i].Num()) == (if Due(ds[i], now, ewma) then 1 else 0)
          && es[i] == (if Due(ds[i], now, ewma) then again else ds[i])
          && (Due(ds[i], now, ewma) ==> again in added))
    && (forall n :: n !in Nums(ds) ==> Occurrences(added, n) == 0)
  }

  lemma DueIsPlain(ds: seq<Datagram>, es: seq<Datagram>, added: seq<Datagram>, now: uint64, ewma: real)
    requires RetransmitsDue(ds, es, added, now, ewma) && forall i :: 0 <= i < |ds| ==> ds[i].lastSendTs <= now
    ensures Retransmitted(ds, es, added, now, ewma)
  {
    forall i | 0 <= i < |ds|
      ensures (now - ds[i].lastSendTs) % 0x1_0000_0000_0000_0000 == now - ds[i].lastSendTs
    {
    }
  }

  lemma RttAt(s: SenderState, now: uint64, ack: AckMsg)
    requires ack.sendTs <= now
    ensures Acked(s, ack, now).rtt.ewmaUs == Some(Averaged(s.rtt.ewmaUs, (now - ack.sendTs) % 0x1_0000_0000))
  {
    AckedRtt(s, ack, now);
    SinceIsDifference(now, ack.sendTs);
  }

  lemma AckAt(s: SenderState, clock: uint64, now: uint64, ack: AckMsg, p: nat)
    requires Ordered(s.unacked) && TimesOk(s.unacked, clock) && clock <= now && ack.sendTs <= now
    requires p < |s.unacked| && s.unacked[p].Num() == SeqNum(ack.frameId, ack.fragId)
    ensures AckDone(s, Acked(s, ack, now), now, ack.sendTs, p)
  {
    var t := Acked(s, ack, now);
    var below, k := s.unacked[..p], |t.sendBuf| - |s.sendBuf|;
    AckedExactly(s, ack, now, p);
    forall i | 0 <= i < |below|
      ensures below[i].lastSendTs <= now
    {
      assert s.unacked[i].lastSendTs <= clock;
    }
    RttAt(s, now, ack);
    assert Retransmitted(below, t.unacked[..p], t.sendBuf[..k], now, t.rtt.ewmaUs.value) by {
      DueIsPlain(below, t.unacked[..p], t.sendBuf[..k], now, t.rtt.ewmaUs.value);
    }
  }

  /** In any reachable state, acknowledging a tracked entry does what AckDone says; acknowledging another
      number only feeds the RTT estimate. */
  lemma AckInRun(actions: seq<Action>, limit: nat, now: uint64, ack: AckMsg)
    requires Run(actions, limit) && Enabled(Reached(actions, limit), HandleAck(now, ack))
    ensures var s := Reached(actions, limit).tx;
            var t := AfterAck(Reached(actions, limit), now, ack).tx;
            && (SeqNum(ack.frameId, ack.fragId) !in Nums(s.unacked) ==> t == s.(rtt := t.rtt))
            && forall p :: 0 <= p < |s.unacked| && s.unacked[p].Num() == SeqNum(ack.frameId, ack.fragId) ==>
                 AckDone(s, t, now, ack.sendTs, p)
  {
    ReachedInv(actions, limit);
    var s := Reached(actions, limit);
    HoldsMeansMember(s.tx.unacked, SeqNum(ack.frameId, ack.fragId));
    forall p | 0 <= p < |s.tx.unacked| && s.tx.unacked[p].Num() == SeqNum(ack.frameId, ack.fragId)
      ensures AckDone(s.tx, Acked(s.tx, ack, now), now, ack.sendTs, p)
    {
      AckAt(s.tx, s.clock, now, ack, p);
    }
  }

  lemma FirstSkip(s: SenderState, t: SenderState, now: uint64, ts: uint64, p: nat, i: nat)
    requires AckDone(s, t, now, ts, p) && i < p && s.unacked[i].numRtx == 0
    ensures s.unacked[i].(numRtx := 1, lastSendTs := now) in t.sendBuf
  {
    var k := |t.sendBuf| - |s.sendBuf|;
    assert s.unacked[..p][i] == s.unacked[i];
    assert Due(s.unacked[i], now, Averaged(s.rtt.ewmaUs, (now - ts) % 0x1_0000_0000));
    assert s.unacked[i].(numRtx := 1, lastSendTs := now) in t.sendBuf[..k];
  }

  /** So an entry that an acknowledgement skips for the first time is always retransmitted. */
  lemma FirstSkipRetransmits(actions: seq<Action>, limit: nat, now: uint64, ack: AckMsg, p: nat, i: nat)
    requires Run(actions, limit) && Enabled(Reached(actions, limit), HandleAck(now, ack))
    requires i < p < |Reached(actions, limit).tx.unacked| && Reached(actions, limit).tx.unacked[i].numRtx == 0
    requires Reached(actions, limit).tx.unacked[p].Num() == SeqNum(ack.frameId, ack.fragId)
    ensures var d := Reached(actions, limit).tx.unacked[i];
            d.(numRtx := 1, lastSendTs := now) in AfterAck(Reached(actions, limit), now, ack).tx.sendBuf
  {
    AckInRun(actions, limit, now, ack);
    FirstSkip(Reached(actions, limit).tx, AfterAck(Reached(actions, limit), now, ack).tx, now, ack.sendTs, p, i);
  }

  // ---------- frame ticks ----------

  /** Some tracked datagram was first sent more than a second ago. */
  ghost predicate Late(s: SenderState, now: uint64) {
    exists i :: 0 <= i < |s.unacked| && now - s.unacked[i].sendTs > 1_000_000
  }

  /** The state after a frame was produced. When some tracked datagram is late, everything queued and
      tracked is dropped, otherwise nothing; the frame's datagrams go to the back of what is left, as type
      1 for a key frame and 2 for others; and the next id is due. */
  ghost predicate TickDone(s: SenderState, t: SenderState, now: uint64, bytes: seq<byte>, isKey: bool, limit: nat) {
    var ds := Packets(s.frameId, if isKey then 1 else 2, bytes, limit);
    && ds.Ok?
    && t.frameId == (s.frameId + 1) % 0x1_0000_0000 && t.rtt == s.rtt
    && t.sendBuf == (if Late(s, now) then [] else s.sendBuf) + ds.value
    && t.unacked == (if Late(s, now) then [] else s.unacked)
  }

  lemma FirstIsOldest(unacked: seq<Datagram>, clock: uint64, now: uint64)
    requires TimesOk(unacked, clock) && clock <= now
    ensures unacked != [] && (now - unacked[0].sendTs) % 0x1_0000_0000_0000_0000 > 1_000_000 <==>
            exists i :: 0 <= i < |unacked| && now - unacked[i].sendTs > 1_000_000
  {
    forall i | 0 <= i < |unacked|
      ensures unacked[0].sendTs <= unacked[i].sendTs <= now
    {
    }
  }

  lemma TickAt(s: SenderState, clock: uint64, now: uint64, bytes: seq<byte>, isKey: bool, limit: nat)
    requires TimesOk(s.unacked, clock) && clock <= now
    ensures GivesUp(s, now) <==> Late(s, now)
    ensures if |bytes| / (limit + 1) + 1 > 65535 then Compressed(s, now, bytes, isKey, limit) == Throw(PrecisionLost)
            else && Compressed(s, now, bytes, isKey, limit).Ok?
                 && TickDone(s, Compressed(s, now, bytes, isKey, limit).value, now, bytes, isKey, limit)
  {
    FirstIsOldest(s.unacked, clock, now);
    CompressedExactly(s, now, bytes, isKey, limit);
  }

  lemma ReachedTimes(actions: seq<Action>, limit: nat)
    requires Run(actions, limit)
    ensures TimesOk(Reached(actions, limit).tx.unacked, Reached(actions, limit).clock)
  {
    ReachedInv(actions, limit);
  }

  /** In any reachable state, producing a frame does what TickDone says, unless it has too many fragments. */
  lemma TickInRun(actions: seq<Action>, limit: nat, now: uint64, bytes: seq<byte>, isKey: bool)
    requires Run(actions, limit) && now >= Reached(actions, limit).clock
    ensures var s := Reached(actions, limit);
            var t := AfterTick(s, now, bytes, isKey, limit);
            if |bytes| / (limit + 1) + 1 > 65535 then t == Throw(PrecisionLost)
            else t.Ok? && TickDone(s.tx, t.value.tx, now, bytes, isKey, limit)
  {
    ReachedTimes(actions, limit);
    var s := Reached(actions, limit);
    TickAt(s.tx, s.clock, now, bytes, isKey, limit);
  }

  /** The timer callback asks for a forced key frame exactly when some tracked datagram is late, produces
      what the codec gives back, and waits for the socket; it throws exactly when the video has ended or
      the frame has too many fragments. */
  lemma TimerInRun(actions: seq<Action>, limit: nat, now: uint64, ticks: nat, images: nat,
                   codec: bool -> CodecOutput, out: bool)
    requires Run(actions, limit) && now >= Reached(actions, limit).clock
    ensures var s := Reached(actions, limit).tx;
            var output := codec(Late(s, now));
            var after := Sending.AfterTimer(Sending.SenderProc(s, out), now, ticks, images, codec, limit);
            if ticks > images then after == Throw(EndOfVideo)
            else if |output.bytes| / (limit + 1) + 1 > 65535 then after == Throw(PrecisionLost)
            else && after.Ok? && after.value.watchesOut
                 && TickDone(s, after.value.tx, now, output.bytes, output.isKey, limit)
  {
    ReachedTimes(actions, limit);
    var s := Reached(actions, limit);
    TickAt(s.tx, s.clock, now, [], false, limit);
    var output := codec(Late(s.tx, now));
    TickAt(s.tx, s.clock, now, output.bytes, output.isKey, limit);
  }

  // ---------- nothing given up stays queued ----------

  /** No queued datagram, fresh or to be retransmitted, was given up. */
  ghost predicate QueueLive(s: System) {
    forall i :: 0 <= i < |s.tx.sendBuf| ==> s.tx.sendBuf[i].Num() !in s.abandoned
  }

  lemma QueueOf(front: seq<Datagram>, ds: seq<Datagram>, dead: set<SeqNum>)
    requires forall i :: 0 <= i < |front| ==> front[i].Num() !in dead
    requires forall i :: 0 <= i < |ds| ==> ds[i].Num() !in dead
    ensures forall i :: 0 <= i < |front + ds| ==> (front + ds)[i].Num() !in dead
  {
  }

  lemma TickKeepsLive(s: System, now: uint64, bytes: seq<byte>, isKey: bool, limit: nat)
    requires CatalogInv(s) && ConservationInv(s) && QueueLive(s)
    requires AfterTick(s, now, bytes, isKey, limit).Ok?
    ensures QueueLive(AfterTick(s, now, bytes, isKey, limit).value)
  {
    var t := AfterTick(s, now, bytes, isKey, limit).value;
    var ds := Packets(s.tx.frameId, TypeOf(isKey), bytes, limit).value;
    CompressedExactly(s.tx, now, bytes, isKey, limit);
    forall i | 0 <= i < |ds|
      ensures ds[i].Num() !in t.abandoned
    {
      assert !IsCreated(s.produced, ds[i].Num());
    }
    QueueOf(Prepared(s.tx, now).sendBuf, ds, t.abandoned);
  }

  lemma SendKeepsLive(s: System, now: uint64, sent: bool)
    requires QueueLive(s) && s.tx.sendBuf != [] && AfterSend(s, now, sent).Ok?
    ensures QueueLive(AfterSend(s, now, sent).value)
  {
    SendShape(s, now, sent);
    var t := AfterSend(s, now, sent).value;
    forall i | 0 <= i < |t.tx.sendBuf|
      ensures t.tx.sendBuf[i].Num() == s.tx.sendBuf[if sent then i + 1 else i].Num()
    {
    }
  }

  lemma AckKeepsLive(s: System, now: uint64, ack: AckMsg)
    requires ConservationInv(s) && QueueLive(s)
    ensures QueueLive(AfterAck(s, now, ack))
  {
    var resent := Retransmissions(s, ack, now);
    AckQueue(s, now, ack);
    forall i | 0 <= i < |resent|
      ensures resent[i].Num() !in s.abandoned
    {
      var below := s.tx.unacked[..Place(s.tx.unacked, SeqNum(ack.frameId, ack.fragId))];
      NumsAt(resent, i);
      var j := ResentFrom(below, now, AfterAck(s, now, ack).tx.rtt.ewmaUs.value, resent[i].Num());
      NumsAt(s.tx.unacked, j);
    }
    QueueOf(resent, s.tx.sendBuf, s.abandoned);
  }

  lemma StepKeepsLive(s: System, a: Action, limit: nat)
    requires Inv(s) && QueueLive(s) && Enabled(s, a) && After(s, a, limit).Ok?
    ensures QueueLive(After(s, a, limit).value)
  {
    match a {
      case Tick(now, bytes, isKey) => TickKeepsLive(s, now, bytes, isKey, limit);
      case Send(now, sent) => SendKeepsLive(s, now, sent);
      case HandleAck(now, ack) => AckKeepsLive(s, now, ack);
      case Deliver(_) =>
    }
  }

  lemma {:induction false} RunKeepsLive(s: System, actions: seq<Action>, limit: nat)
    requires Inv(s) && QueueLive(s) && Allowed(s, actions, limit) && RunFrom(s, actions, limit).Ok?
    ensures QueueLive(RunFrom(s, actions, limit).value)
    decreases |actions|
  {
    if actions != [] {
      StepKeepsInv(s, actions[0], limit);
      StepKeepsLive(s, actions[0], limit);
      RunKeepsLive(After(s, actions[0], limit).value, actions[1..], limit);
    }
  }

  /** In no run does the queue hold a datagram, fresh or to be retransmitted, that was given up. */
  lemma NothingAbandonedIsQueued(actions: seq<Action>, limit: nat)
    requires Run(actions, limit)
    ensures forall d :: d in Reached(actions, limit).tx.sendBuf ==> d.Num() !in Reached(actions, limit).abandoned
  {
    StartInv();
    RunKeepsLive(START, actions, limit);
  }

  // ---------- sending ----------

  /** In any reachable state a round of sending takes exactly the datagrams that the socket takes off the
      front of the queue, tracks exactly the first transmissions among them, stamped with the time of
      their sending, and waits for the socket only if something is left. */
  lemma WritableInRun(actions: seq<Action>, limit: nat, attempts: nat -> Sending.Attempt, out: bool)
    requires Run(actions, limit)
    requires Sending.AfterWritable(Sending.SenderProc(Reached(actions, limit).tx, out), attempts).Ok?
    ensures var s := Reached(actions, limit).tx;
            var t := Sending.AfterWritable(Sending.SenderProc(s, out), attempts).value;
            && t.tx.sendBuf == Sending.QueueLeft(s.sendBuf, Sending.Taken(|s.sendBuf|, attempts, 0))
            && multiset(t.tx.unacked) == multiset(s.unacked) + Sending.NewlyTracked(s.sendBuf, attempts, 0)
            && Ordered(t.tx.unacked) && t.tx.frameId == s.frameId && t.tx.rtt == s.rtt
            && (t.watchesOut <==> out && t.tx.sendBuf != [])
  {
    ReachedInv(actions, limit);
    Sending.SentAllExactly(Reached(actions, limit).tx, attempts, 0);
  }
}
