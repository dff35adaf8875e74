/** Sender, network and receiver composed: every step, and what holds in every reachable state. */
module Transport {
  import opened Wrappers
  import opened Wire
  import opened Protocol
  import opened Packetizer
  import opened Decoding
  import opened Confluence
  import opened Rtt
  import opened Encoding

  /** A decision to retransmit: which number, when, and the RTT estimate it was taken with. */
  datatype RtxEvent = RtxEvent(num: SeqNum, ts: uint64, gate: real)

  // net and acks hold everything ever put on the wire, as its reader will parse it; a read may pick
  // any element, any number of times. The fields from produced on record the history of the run.
  datatype System = System(
    clock: uint64, tx: SenderState, rx: DecoderState, net: set<Datagram>, acks: set<AckMsg>,
    produced: Catalog, got: set<SeqNum>, acked: set<SeqNum>, abandoned: set<SeqNum>,
    firstSends: seq<SeqNum>, rtxLog: seq<RtxEvent>, samples: seq<uint32>)

  const START := System(0, SenderState(0, [], [], NO_RTT), INITIAL, {}, {}, [], {}, {}, {}, [], [], [])

  datatype Action =
    | Tick(now: uint64, bytes: seq<byte>, isKey: bool)
    | Send(now: uint64, sent: bool)
    | HandleAck(now: uint64, ack: AckMsg)
    | Deliver(d: Datagram)

  /** What the environment may do: clocks do not run backward, the codec obeys a forced key frame,
      frame ids do not wrap, and only what was sent can arrive. */
  ghost predicate Enabled(s: System, a: Action) {
    match a
    case Tick(now, bytes, isKey) =>
      now >= s.clock && bytes != [] && (GivesUp(s.tx, now) ==> isKey) && s.tx.frameId < 0xFFFF_FFFF
    case Send(now, _) => now >= s.clock && s.tx.sendBuf != []
    case HandleAck(now, ack) => now >= s.clock && ack in s.acks
    case Deliver(d) => d in s.net
  }

  /** What the receiver reads after the sender wrote d to the wire. */
  ghost function Transmitted(d: Datagram): (r: Datagram)
    ensures r == d.(numRtx := 0, lastSendTs := 0)
  {
    DatagramRoundTrip(d);
    ParsedDatagram(SerializeDatagram(d)).value
  }

  ghost function FreshNums(ds: seq<Datagram>): set<SeqNum> {
    set d | d in ds && d.numRtx == 0 :: d.Num()
  }

  ghost function EventsOf(resent: seq<Datagram>, now: uint64, gate: real): (es: seq<RtxEvent>)
    ensures |es| == |resent| && forall i :: 0 <= i < |es| ==> es[i] == RtxEvent(resent[i].Num(), now, gate)
  {
    seq(|resent|, i requires 0 <= i < |resent| => RtxEvent(resent[i].Num(), now, gate))
  }

  // ---------- steps ----------

  ghost function AfterTick(s: System, now: uint64, bytes: seq<byte>, isKey: bool, limit: nat): Result<System> {
    var tx := Compressed(s.tx, now, bytes, isKey, limit);
    if tx.Throw? then Throw(tx.error)
    else Ok(s.(clock := now, tx := tx.value,
               produced := s.produced + [FrameInfo(TypeOf(isKey), bytes, Fragments(bytes, limit))],
               abandoned := if GivesUp(s.tx, now)
                            then s.abandoned + FreshNums(s.tx.sendBuf) + Nums(s.tx.unacked)
                            else s.abandoned))
  }

  ghost function AfterSend(s: System, now: uint64, sent: bool): Result<System>
    requires s.tx.sendBuf != []
  {
    var tx := Sent(s.tx, now, sent);
    var d := s.tx.sendBuf[0].(sendTs := now);
    if tx.Throw? then Throw(tx.error)
    else if !sent then Ok(s.(clock := now, tx := tx.value))
    else Ok(s.(clock := now, tx := tx.value, net := s.net + {Transmitted(d)},
               firstSends := if d.numRtx == 0 then s.firstSends + [d.Num()] else s.firstSends))
  }

  ghost function Retransmissions(s: System, ack: AckMsg, now: uint64): seq<Datagram> {
    var n := SeqNum(ack.frameId, ack.fragId);
    if Holds(s.tx.unacked, n)
    then Resent(s.tx.unacked[..Place(s.tx.unacked, n)], now, Acked(s.tx, ack, now).rtt.ewmaUs.value)
    else []
  }

  ghost function AfterAck(s: System, now: uint64, ack: AckMsg): System {
    var tx := Acked(s.tx, ack, now);
    s.(clock := now, tx := tx,
       acked := s.acked + (Nums(s.tx.unacked) - Nums(tx.unacked)),
       rtxLog := s.rtxLog + EventsOf(Retransmissions(s, ack, now), now, tx.rtt.ewmaUs.value),
       samples := s.samples + [Sample(now, ack.sendTs)])
  }

  ghost function AfterDelivery(s: System, d: Datagram): Result<System>
    requires DecoderOk(s.rx)
  {
    var rx := Received(s.rx, d);
    if rx.Throw? then Throw(rx.error)
    else Ok(s.(rx := rx.value, got := s.got + {d.Num()}, acks := s.acks + {AckOf(d)}))
  }

  ghost function After(s: System, a: Action, limit: nat): (r: Result<System>)
    requires DecoderOk(s.rx) && Enabled(s, a)
    ensures r.Ok? ==> DecoderOk(r.value.rx)
  {
    match a
    case Tick(now, bytes, isKey) => AfterTick(s, now, bytes, isKey, limit)
    case Send(now, sent) => AfterSend(s, now, sent)
    case HandleAck(now, ack) => Ok(AfterAck(s, now, ack))
    case Deliver(d) => AfterDelivery(s, d)
  }

  // ---------- runs ----------

  /** Every action is one the environment may take in the state it is taken in. */
  ghost predicate Allowed(s: System, actions: seq<Action>, limit: nat)
    requires DecoderOk(s.rx)
    decreases |actions|
  {
    actions == [] ||
    (Enabled(s, actions[0]) &&
     (After(s, actions[0], limit).Ok? ==> Allowed(After(s, actions[0], limit).value, actions[1..], limit)))
  }

  ghost function RunFrom(s: System, actions: seq<Action>, limit: nat): (r: Result<System>)
    requires DecoderOk(s.rx) && Allowed(s, actions, limit)
    ensures r.Ok? ==> DecoderOk(r.value.rx)
    decreases |actions|
  {
    if actions == [] then Ok(s)
    else
      var t := After(s, actions[0], limit);
      if t.Throw? then t else RunFrom(t.value, actions[1..], limit)
  }

  /** A step to t followed by a run from t. */
  lemma RunCons(s: System, a: Action, t: System, rest: seq<Action>, limit: nat)
    requires DecoderOk(s.rx) && Enabled(s, a) && After(s, a, limit) == Ok(t)
    requires Allowed(t, rest, limit)
    ensures Allowed(s, [a] + rest, limit) && RunFrom(s, [a] + rest, limit) == RunFrom(t, rest, limit)
  {
    assert ([a] + rest)[1..] == rest;
  }

  lemma RunOne(s: System, a: Action, t: System, limit: nat)
    requires DecoderOk(s.rx) && Enabled(s, a) && After(s, a, limit) == Ok(t)
    ensures Allowed(s, [a], limit) && RunFrom(s, [a], limit) == Ok(t)
  {
    RunCons(s, a, t, [], limit);
    assert [a] + [] == [a];
  }

  /** One run after another is a run. */
  lemma {:induction false} RunAppends(s: System, first: seq<Action>, second: seq<Action>, limit: nat)
    requires DecoderOk(s.rx) && Allowed(s, first, limit) && RunFrom(s, first, limit).Ok?
    requires Allowed(RunFrom(s, first, limit).value, second, limit)
    ensures Allowed(s, first + second, limit)
    ensures RunFrom(s, first + second, limit) == RunFrom(RunFrom(s, first, limit).value, second, limit)
    decreases |first|
  {
    if first == [] {
      assert first + second == second;
    } else {
      var t := After(s, first[0], limit).value;
      RunAppends(t, first[1..], second, limit);
      RunCons(s, first[0], t, first[1..] + second, limit);
      assert first + second == [first[0]] + (first[1..] + second);
    }
  }

  // ---------- the invariant ----------

  ghost predicate IsCreated(cat: Catalog, n: SeqNum) {
    n.frameId < |cat| && n.fragId < |cat[n.frameId].payloads|
  }

  ghost predicate AllAgree(cat: Catalog, ds: seq<Datagram>) {
    forall i :: 0 <= i < |ds| ==> Agrees(cat, ds[i])
  }

  /** Every datagram in the system is a fragment of the frame it names. */
  ghost predicate CatalogInv(s: System) {
    && s.tx.frameId == |s.produced| && CatalogOk(s.produced)
    && AllAgree(s.produced, s.tx.sendBuf) && AllAgree(s.produced, s.tx.unacked)
    && forall d :: d in s.net ==> Agrees(s.produced, d)
  }

  /** Behind a fresh datagram there are only fresh ones, with ever larger numbers. */
  ghost predicate FreshLast(buf: seq<Datagram>) {
    forall i, j :: 0 <= i < j < |buf| && buf[i].numRtx == 0 ==>
      buf[j].numRtx == 0 && Less(buf[i].Num(), buf[j].Num())
  }

  ghost predicate Increasing(ns: seq<SeqNum>) {
    forall i, j :: 0 <= i < j < |ns| ==> Less(ns[i], ns[j])
  }

  ghost predicate SentBefore(ns: seq<SeqNum>, buf: seq<Datagram>) {
    forall i, j :: 0 <= i < |ns| && 0 <= j < |buf| && buf[j].numRtx == 0 ==> Less(ns[i], buf[j].Num())
  }

  /** Fresh datagrams are in order and come after everything ever sent for the first time. */
  ghost predicate OrderInv(s: System) {
    && Ordered(s.tx.unacked) && FreshLast(s.tx.sendBuf) && Increasing(s.firstSends)
    && SentBefore(s.firstSends, s.tx.sendBuf)
    && (forall i :: 0 <= i < |s.firstSends| ==> s.firstSends[i].frameId < s.tx.frameId)
    && (forall i :: 0 <= i < |s.tx.unacked| ==> s.tx.unacked[i].Num() in s.firstSends)
  }

  /** First-send times follow the order of the numbers, and no timestamp is in the future. */
  ghost predicate TimesOk(unacked: seq<Datagram>, clock: uint64) {
    && (forall i, j :: 0 <= i < j < |unacked| ==> unacked[i].sendTs <= unacked[j].sendTs)
    && (forall i :: 0 <= i < |unacked| ==> unacked[i].sendTs <= unacked[i].lastSendTs <= clock)
  }

  ghost predicate TimeInv(s: System) {
    && TimesOk(s.tx.unacked, s.clock)
    && (forall d :: d in s.net ==> d.sendTs <= s.clock)
    && (forall a :: a in s.acks ==> a.sendTs <= s.clock)
  }

  ghost predicate Partition(cat: Catalog, a: set<SeqNum>, b: set<SeqNum>, c: set<SeqNum>, d: set<SeqNum>) {
    && (forall n :: IsCreated(cat, n) <==> n in a || n in b || n in c || n in d)
    && a !! b !! c !! d
  }

  /** Every created fragment is fresh in the queue, unacknowledged, acknowledged or abandoned, and
      only one of these. */
  ghost predicate ConservationInv(s: System) {
    Partition(s.produced, FreshNums(s.tx.sendBuf), Nums(s.tx.unacked), s.acked, s.abandoned)
  }

  ghost predicate KeyAfter(cat: Catalog, f: nat) {
    exists k: nat :: f < k && KeyIn(cat, k)
  }

  /** What was acknowledged was received; what was abandoned is covered by a later key frame. */
  ghost predicate LossInv(s: System) {
    && s.acked <= s.got
    && (forall a :: a in s.acks ==> SeqNum(a.frameId, a.fragId) in s.got)
    && (forall n :: n in s.got ==> IsCreated(s.produced, n))
    && (forall n :: n in s.abandoned ==> KeyAfter(s.produced, n.frameId))
  }

  ghost function Count(log: seq<RtxEvent>, n: SeqNum): nat {
    if log == [] then 0 else Count(log[..|log| - 1], n) + if log[|log| - 1].num == n then 1 else 0
  }

  ghost predicate Spaced(log: seq<RtxEvent>) {
    forall i, j :: 0 <= i < j < |log| && log[i].num == log[j].num ==>
      (log[j].ts - log[i].ts) as real > log[j].gate
  }

  /** Retransmissions are counted, capped and spaced. */
  ghost predicate RtxInv(s: System) {
    && (forall i :: 0 <= i < |s.tx.unacked| ==>
          Count(s.rtxLog, s.tx.unacked[i].Num()) == s.tx.unacked[i].numRtx <= MAX_NUM_RTX)
    && (forall i, j :: 0 <= i < |s.tx.unacked| && 0 <= j < |s.rtxLog| && s.rtxLog[j].num == s.tx.unacked[i].Num() ==>
          s.rtxLog[j].ts <= s.tx.unacked[i].lastSendTs)
    && (forall n :: Count(s.rtxLog, n) <= MAX_NUM_RTX)
    && (forall n :: Count(s.rtxLog, n) > 0 ==> n in Nums(s.tx.unacked) + s.acked + s.abandoned)
    && Spaced(s.rtxLog)
  }

  ghost predicate Inv(s: System) {
    && CatalogInv(s) && OrderInv(s) && TimeInv(s) && ConservationInv(s) && LossInv(s) && RtxInv(s)
    && s.tx.rtt == Estimate(s.samples)
    && ReceiverInv(s.produced, s.got, s.rx)
  }
}
